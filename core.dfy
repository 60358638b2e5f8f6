/** `core.py`: the `IngestionEngine`, which tokenizes lines, validates them
    against a `Schema`, buffers the accepted entities and sorts them by
    hierarchy rank. */
module Core {
  import opened Wrappers
  import opened Text
  import opened Models
  import opened Hierarchy
  import opened Fragments

  // ----- parse_line -----

  /** What `parse_line(line)` returns. */
  function ParsedLine(line: string): Option<map<string, string>> {
    var t := Strip(line);
    if t == [] then None else Some(Collect(Split(t, ',')))
  }

  /** `None` exactly for a line that is empty after stripping. */
  lemma ParsedLineNone(line: string)
    ensures ParsedLine(line).None? <==> AllSpace(line)
  {
    StripSpec(line);
  }

  // ----- validate_and_convert -----

  /** One coercion of the loop: `int(raw)`, `float(raw)` or `str(raw)`;
      `None` is the `ValueError` of a failed conversion. `parseFloat` stands
      for Python's `float` followed by `str`. */
  function Convert(t: TypeTag, raw: string, parseFloat: string -> Option<string>): Option<Value> {
    match t
    case IntType => (match PyInt(raw) case None => None case Some(n) => Some(IntVal(n)))
    case FloatType => (match parseFloat(raw) case None => None case Some(f) => Some(FloatVal(f)))
    case StrType => Some(StrVal(raw))
    case BoolType => Some(StrVal(raw))
  }

  /** Every schema key is present in `raw` and its value converts. */
  predicate AllConvert(schema: Schema, raw: map<string, string>, parseFloat: string -> Option<string>) {
    forall k :: k in schema.types ==> k in raw && Convert(schema.types[k], raw[k], parseFloat).Some?
  }

  /** What `validate_and_convert(raw_data)` returns. */
  function Validated(schema: Schema, raw: map<string, string>, parseFloat: string -> Option<string>): (r: Option<Entity>)
    ensures r.Some? <==>
      && AllConvert(schema, raw, parseFloat)
      && "type" in schema.types && schema.types["type"] in {StrType, BoolType}
    ensures r.Some? ==> r.value.data.Keys == schema.types.Keys && r.value.entityType == raw["type"]
  {
    if AllConvert(schema, raw, parseFloat) then
      var data := map k | k in schema.types :: Convert(schema.types[k], raw[k], parseFloat).value;
      if "type" in data && data["type"].StrVal? then Some(Entity(data, data["type"].s)) else None
    else None
  }

  /** A map holding the conversion of every schema key is what
      `validate_and_convert` builds, and its `type` entry decides. */
  lemma ValidatedOfConverted(schema: Schema, raw: map<string, string>, parseFloat: string -> Option<string>,
                             converted: map<string, Value>)
    requires forall k :: k in converted <==> k in schema.types
    requires forall k :: k in converted ==> k in raw && Convert(schema.types[k], raw[k], parseFloat) == Some(converted[k])
    ensures Validated(schema, raw, parseFloat) ==
      if "type" in converted && converted["type"].StrVal? then Some(Entity(converted, converted["type"].s)) else None
  {
    assert AllConvert(schema, raw, parseFloat);
    assert converted == map k | k in schema.types :: Convert(schema.types[k], raw[k], parseFloat).value;
  }

  /** How each accepted value was coerced: an `int` field holds the parsed
      integer, a `str` or `bool` field the raw text verbatim. */
  lemma ValidatedValues(schema: Schema, raw: map<string, string>, parseFloat: string -> Option<string>, k: string)
    requires Validated(schema, raw, parseFloat).Some? && k in schema.types
    ensures k in raw && k in Validated(schema, raw, parseFloat).value.data
    ensures schema.types[k] == IntType ==>
      PyInt(raw[k]).Some? && Validated(schema, raw, parseFloat).value.data[k] == IntVal(PyInt(raw[k]).value)
    ensures schema.types[k] in {StrType, BoolType} ==> Validated(schema, raw, parseFloat).value.data[k] == StrVal(raw[k])
  {
  }

  /** An `int` field whose text is not a decimal integer rejects the record. */
  lemma IntMismatchRejects(schema: Schema, raw: map<string, string>, parseFloat: string -> Option<string>, k: string)
    requires k in schema.types && schema.types[k] == IntType && k in raw && PyInt(raw[k]).None?
    ensures Validated(schema, raw, parseFloat).None?
  {
    assert Convert(IntType, raw[k], parseFloat).None?;
  }

  /** The empty map `parse_line` returns for a line without any `=` is
      rejected anyway, so the `if raw_data:` test changes no outcome. */
  lemma EmptyRawRejected(schema: Schema, parseFloat: string -> Option<string>)
    ensures Validated(schema, map[], parseFloat).None?
  {
    var empty: map<string, string> := map[];
    if "type" in schema.types {
      assert "type" !in empty;
    }
  }

  // ----- process_file -----

  /** The entity one input line contributes, if any. */
  function AcceptLine(schema: Schema, parseFloat: string -> Option<string>, line: string): Option<Entity> {
    match ParsedLine(line)
    case None => None
    case Some(raw) => if raw == map[] then None else Validated(schema, raw, parseFloat)
  }

  /** What each line contributes. */
  function Outcomes(schema: Schema, parseFloat: string -> Option<string>, lines: seq<string>): (r: seq<Option<Entity>>)
    ensures |r| == |lines| && forall i :: 0 <= i < |lines| ==> r[i] == AcceptLine(schema, parseFloat, lines[i])
  {
    seq(|lines|, i requires 0 <= i < |lines| => AcceptLine(schema, parseFloat, lines[i]))
  }

  /** The accepted entities of `lines`, in input order. */
  function AcceptAll(schema: Schema, parseFloat: string -> Option<string>, lines: seq<string>): seq<Entity> {
    Somes(Outcomes(schema, parseFloat, lines))
  }

  lemma AcceptAllSnoc(schema: Schema, parseFloat: string -> Option<string>, lines: seq<string>, line: string)
    ensures AcceptAll(schema, parseFloat, lines + [line]) ==
      AcceptAll(schema, parseFloat, lines)
        + (if AcceptLine(schema, parseFloat, line).Some? then [AcceptLine(schema, parseFloat, line).value] else [])
  {
    var o := Outcomes(schema, parseFloat, lines + [line]);
    assert o[..|lines|] == Outcomes(schema, parseFloat, lines);
  }

  lemma OutcomesAppend(schema: Schema, parseFloat: string -> Option<string>, a: seq<string>, b: seq<string>)
    ensures Outcomes(schema, parseFloat, a + b) == Outcomes(schema, parseFloat, a) + Outcomes(schema, parseFloat, b)
  {
  }

  /** Reading two inputs one after the other buffers what reading their concatenation does. */
  lemma AcceptAllAppend(schema: Schema, parseFloat: string -> Option<string>, a: seq<string>, b: seq<string>)
    ensures AcceptAll(schema, parseFloat, a + b) == AcceptAll(schema, parseFloat, a) + AcceptAll(schema, parseFloat, b)
  {
    OutcomesAppend(schema, parseFloat, a, b);
    SomesAppend(Outcomes(schema, parseFloat, a), Outcomes(schema, parseFloat, b));
  }

  /** The buffered entities are exactly those some line yields: at most one per line. */
  lemma AcceptAllMembers(schema: Schema, parseFloat: string -> Option<string>, lines: seq<string>)
    ensures |AcceptAll(schema, parseFloat, lines)| <= |lines|
    ensures forall e :: e in AcceptAll(schema, parseFloat, lines) <==>
      exists i :: 0 <= i < |lines| && AcceptLine(schema, parseFloat, lines[i]) == Some(e)
  {
    SomesMembers(Outcomes(schema, parseFloat, lines));
  }

  /** A blank line is skipped: removing it changes nothing. */
  lemma BlankLineSkipped(schema: Schema, parseFloat: string -> Option<string>, a: seq<string>, line: string, b: seq<string>)
    requires AllSpace(line)
    ensures AcceptAll(schema, parseFloat, a + [line] + b) == AcceptAll(schema, parseFloat, a + b)
  {
    ParsedLineNone(line);
    AcceptAllAppend(schema, parseFloat, a + [line], b);
    AcceptAllSnoc(schema, parseFloat, a, line);
    AcceptAllAppend(schema, parseFloat, a, b);
  }

  /** One more line of the loop. */
  lemma AcceptAllStep(schema: Schema, parseFloat: string -> Option<string>, lines: seq<string>, i: nat)
    requires i < |lines|
    ensures var e := AcceptLine(schema, parseFloat, lines[i]);
      AcceptAll(schema, parseFloat, lines[..i + 1]) ==
        AcceptAll(schema, parseFloat, lines[..i]) + (if e.Some? then [e.value] else [])
  {
    assert lines[..i + 1] == lines[..i] + [lines[i]];
    AcceptAllSnoc(schema, parseFloat, lines[..i], lines[i]);
  }

  /** The entity type of an entity, for the sort key. */
  function TypeOf(e: Entity): string {
    e.entityType
  }

  class IngestionEngine {
    const schema: Schema
    const hierarchy: seq<string>
    const hierarchyMap: map<string, nat>
    /** Python's `float` followed by `str`, which the model does not interpret. */
    const parseFloat: string -> Option<string>
    var buffer: seq<Entity>

    /** The fields are consistent: the schema is a dict and the rank map is `hierarchy`'s. */
    ghost predicate Valid()
      reads this
    {
      schema.Valid() && hierarchyMap == RankMap(hierarchy)
    }

    /** `IngestionEngine(schema, hierarchy)` */
    constructor (schema: Schema, hierarchy: seq<string>, parseFloat: string -> Option<string>)
      requires schema.Valid()
      ensures Valid()
      ensures this.schema == schema && this.hierarchy == hierarchy && this.parseFloat == parseFloat
      ensures buffer == []
    {
      this.schema := schema;
      this.hierarchy := hierarchy;
      this.hierarchyMap := RankMap(hierarchy);
      this.parseFloat := parseFloat;
      this.buffer := [];
    }

    /** `parse_line(line)` */
    method ParseLine(line: string) returns (r: Option<map<string, string>>)
      ensures r == ParsedLine(line)
      ensures r.None? <==> AllSpace(line)
    {
      ParsedLineNone(line);
      var stripped := Strip(line);
      if stripped == [] {
        return None;
      }
      var rawData: map<string, string> := map[];
      var parts := Split(stripped, ',');
      var i := 0;
      while i < |parts|
        invariant 0 <= i <= |parts|
        invariant rawData == Collect(parts[..i])
      {
        var part := parts[i];
        CollectStep(parts, i);
        if '=' in part {
          var kv := SplitFirst(part, '=');
          rawData := rawData[Strip(kv.0) := Strip(kv.1)];
        }
        i := i + 1;
      }
      assert parts[..|parts|] == parts;
      return Some(rawData);
    }

    /** One `try` of the conversion loop: the coercion `schema[key]` names. */
    method ConvertField(t: TypeTag, rawVal: string) returns (v: Option<Value>)
      ensures v == Convert(t, rawVal, parseFloat)
    {
      match t {
        case IntType =>
          var n := PyInt(rawVal);
          if n.None? {
            return None;
          }
          v := Some(IntVal(n.value));
        case FloatType =>
          var f := parseFloat(rawVal);
          if f.None? {
            return None;
          }
          v := Some(FloatVal(f.value));
        case StrType =>
          v := Some(StrVal(rawVal));
        case BoolType =>
          v := Some(StrVal(rawVal));
      }
    }

    /** `validate_and_convert(raw_data)` */
    method ValidateAndConvert(raw: map<string, string>) returns (r: Option<Entity>)
      requires Valid()
      ensures r == Validated(schema, raw, parseFloat)
    {
      var converted: map<string, Value> := map[];
      var names := schema.names;
      var i := 0;
      while i < |names|
        invariant 0 <= i <= |names|
        invariant forall k :: k in converted <==> k in names[..i]
        invariant forall k :: k in converted ==>
          k in schema.types && k in raw && Convert(schema.types[k], raw[k], parseFloat) == Some(converted[k])
      {
        var key := names[i];
        assert key in schema.types;
        if key !in raw {
          assert !AllConvert(schema, raw, parseFloat);
          return None;
        }
        var value := ConvertField(schema.types[key], raw[key]);
        if value.None? {
          assert !AllConvert(schema, raw, parseFloat);
          return None;
        }
        assert names[..i + 1] == names[..i] + [key];
        converted := converted[key := value.value];
        i := i + 1;
      }
      assert names[..|names|] == names;
      ValidatedOfConverted(schema, raw, parseFloat, converted);
      if "type" in converted && converted["type"].StrVal? {
        return Some(Entity(converted, converted["type"].s));
      }
      return None;
    }

    /** One iteration of `process_file`: parse the line and, when it holds
        any field, validate it. */
    method AcceptOne(line: string) returns (e: Option<Entity>)
      requires Valid()
      ensures e == AcceptLine(schema, parseFloat, line)
    {
      var rawData := ParseLine(line);
      if rawData.Some? && rawData.value != map[] {
        e := ValidateAndConvert(rawData.value);
      } else {
        e := None;
      }
    }

    /** The loop of `process_file` over the lines of the input. */
    method ProcessLines(lines: seq<string>)
      requires Valid()
      modifies this
      ensures Valid()
      ensures buffer == old(buffer) + AcceptAll(schema, parseFloat, lines)
    {
      var i := 0;
      while i < |lines|
        invariant 0 <= i <= |lines|
        invariant buffer == old(buffer) + AcceptAll(schema, parseFloat, lines[..i])
      {
        var entity := AcceptOne(lines[i]);
        AcceptAllStep(schema, parseFloat, lines, i);
        if entity.Some? {
          buffer := buffer + [entity.value];
        }
        i := i + 1;
      }
      assert lines[..|lines|] == lines;
    }

    /** `sort_key` */
    function SortKey(): Entity -> nat
      reads this
    {
      KeyBy(TypeOf, hierarchyMap, |hierarchy|)
    }

    /** `get_sorted_entities()`: a permutation of the buffer ordered by rank,
        stable within one rank, with the entities of unknown type (rank
        infinity) kept, last and in buffer order. */
    function GetSortedEntities(): (r: seq<Entity>)
      requires Valid()
      reads this
      ensures |r| == |buffer| && multiset(r) == multiset(buffer)
      ensures SortedBy(r, SortKey())
      ensures forall k :: WithKey(r, SortKey(), k) == WithKey(buffer, SortKey(), k)
      ensures forall i, j :: 0 <= i < j < |r| && r[i].entityType !in hierarchy ==> r[j].entityType !in hierarchy
      ensures Unknown(r, TypeOf, hierarchy) == Unknown(buffer, TypeOf, hierarchy)
    {
      SortByKeySpec(buffer, SortKey());
      assert |multiset(SortByKey(buffer, SortKey()))| == |multiset(buffer)|;
      UnknownKeptLast(buffer, TypeOf, hierarchy);
      SortByKey(buffer, SortKey())
    }

    /** The lines `output_results()` prints: the header, then one row per
        sorted entity, unknown types included. */
    function OutputLines(): (out: seq<string>)
      requires Valid()
      reads this
      ensures |out| == |buffer| + 1
      ensures out[0] == Join(schema.names, ',')
      ensures forall i :: 0 <= i < |buffer| ==> out[i + 1] == ToCsvRow(GetSortedEntities()[i], schema.names)
    {
      var sorted := GetSortedEntities();
      [Join(schema.names, ',')] + seq(|sorted|, i requires 0 <= i < |sorted| => ToCsvRow(sorted[i], schema.names))
    }
  }
}
