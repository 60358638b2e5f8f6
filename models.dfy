/** `models.py`: the schema of important keys with their types, and the
    validated entity with its CSV rendering. */
module Models {
  import opened Wrappers
  import opened Text

  /** The Python types `Schema.from_string` can map a type name to. */
  datatype TypeTag = IntType | StrType | FloatType | BoolType

  /** The `type_map` lookup: `None` for a name the map does not hold. */
  function TypeNamed(name: string): (r: Option<TypeTag>)
    ensures r.Some? <==> name in {"int", "str", "float", "bool"}
    ensures r == Some(IntType) <==> name == "int"
    ensures r == Some(FloatType) <==> name == "float"
  {
    if name == "int" then Some(IntType)
    else if name == "str" then Some(StrType)
    else if name == "float" then Some(FloatType)
    else if name == "bool" then Some(BoolType)
    else None
  }

  /** `Schema.fields`, a Python dict: its keys in insertion order and the type of each. */
  datatype Schema = Schema(names: seq<string>, types: map<string, TypeTag>) {
    ghost predicate Valid() {
      && (forall i, j :: 0 <= i < j < |names| ==> names[i] != names[j])
      && (forall k :: k in types <==> k in names)
    }
  }

  /** `fields[key] = t`: a new key is appended; a key already present keeps
      its position and takes the new type. */
  function Put(s: Schema, key: string, t: TypeTag): (r: Schema)
    ensures s.Valid() ==> r.Valid()
  {
    if key in s.types then Schema(s.names, s.types[key := t])
    else Schema(s.names + [key], s.types[key := t])
  }

  /** The key one schema fragment defines, whether or not its type is known. */
  function FieldKey(part: string): string {
    if ':' in part then Strip(SplitFirst(part, ':').0) else Strip(part)
  }

  /** One iteration of the `from_string` loop: `name:type` split at the first
      `:` and trimmed, or a fragment without `:` (an empty one too) that
      becomes a `str` field named by the trimmed fragment. */
  function FieldOf(part: string): (r: Result<(string, TypeTag), string>)
    ensures r.Success? ==> r.value.0 == FieldKey(part)
  {
    if ':' in part then
      var (key, typeName) := SplitFirst(part, ':');
      match TypeNamed(Strip(typeName))
      case None => Failure("Unsupported type: " + Strip(typeName))
      case Some(t) => Success((Strip(key), t))
    else
      Success((Strip(part), StrType))
  }

  /** A typed fragment splits at its FIRST `:`, so any later `:` stays in the
      type name; key and type name are trimmed, and a type name `type_map`
      does not know fails with `Unsupported type: ` and that name. */
  lemma FieldOfAtFirstColon(key: string, typeName: string)
    requires ':' !in key
    ensures FieldOf(key + ":" + typeName) ==
      match TypeNamed(Strip(typeName))
      case None => Failure("Unsupported type: " + Strip(typeName))
      case Some(t) => Success((Strip(key), t))
  {
    assert key + ":" + typeName == key + [':'] + typeName;
    SplitFirstAt(key, ':', typeName);
  }

  /** The `fields` dict after the loop has run over `parts`, or the
      `ValueError` message of the first fragment with an unknown type. */
  function FieldsOf(parts: seq<string>): Result<Schema, string> {
    if parts == [] then Success(Schema([], map[]))
    else
      match FieldsOf(parts[..|parts| - 1])
      case Failure(e) => Failure(e)
      case Success(s) =>
        match FieldOf(parts[|parts| - 1])
        case Failure(e) => Failure(e)
        case Success(f) => Success(Put(s, f.0, f.1))
  }

  /** Once a fragment has failed, later fragments do not change the outcome. */
  lemma {:induction false} FailureSticks(parts: seq<string>, i: nat)
    requires i <= |parts| && FieldsOf(parts[..i]).Failure?
    ensures FieldsOf(parts) == FieldsOf(parts[..i])
    decreases |parts| - i
  {
    if i < |parts| {
      assert parts[..i + 1][..i] == parts[..i];
      FailureSticks(parts, i + 1);
    } else {
      assert parts[..i] == parts;
    }
  }

  /** One more fragment: a failing fragment fails the whole string, a good one is `Put`. */
  lemma FieldsOfStep(parts: seq<string>, i: nat)
    requires i < |parts| && FieldsOf(parts[..i]).Success?
    ensures FieldOf(parts[i]).Failure? ==> FieldsOf(parts[..i + 1]) == Failure(FieldOf(parts[i]).error)
    ensures FieldOf(parts[i]).Success? ==>
      FieldsOf(parts[..i + 1]) == Success(Put(FieldsOf(parts[..i]).value, FieldOf(parts[i]).value.0, FieldOf(parts[i]).value.1))
  {
    assert parts[..i + 1][..i] == parts[..i];
  }

  /** A parsed schema is a consistent ordered dict: distinct names, and
      exactly those names typed. */
  lemma {:induction false} FieldsOfValid(parts: seq<string>)
    ensures FieldsOf(parts).Success? ==> FieldsOf(parts).value.Valid()
  {
    if parts != [] {
      var n := |parts| - 1;
      FieldsOfValid(parts[..n]);
      if FieldsOf(parts[..n]).Success? {
        FieldsOfStep(parts, n);
        assert parts[..n + 1] == parts;
      }
    }
  }

  /** `Schema.from_string(schema_str)`; `Failure` is the `ValueError` it raises. */
  method FromString(schemaStr: string) returns (r: Result<Schema, string>)
    ensures r == FieldsOf(Split(schemaStr, ','))
    ensures r.Success? ==> r.value.Valid()
  {
    var names: seq<string> := [];
    var types: map<string, TypeTag> := map[];
    var parts := Split(schemaStr, ',');
    var i := 0;
    assert parts[..0] == [];
    while i < |parts|
      invariant 0 <= i <= |parts|
      invariant FieldsOf(parts[..i]) == Success(Schema(names, types))
    {
      var part := parts[i];
      var key: string, t: TypeTag;
      if ':' in part {
        var kv := SplitFirst(part, ':');
        key := Strip(kv.0);
        var typeName := Strip(kv.1);
        var found := TypeNamed(typeName);
        if found.None? {
          assert FieldOf(part) == Failure("Unsupported type: " + typeName);
          FieldsOfStep(parts, i);
          FailureSticks(parts, i + 1);
          assert parts[..|parts|] == parts;
          return Failure("Unsupported type: " + typeName);
        }
        t := found.value;
      } else {
        key, t := Strip(part), StrType;
      }
      assert FieldOf(part) == Success((key, t));
      FieldsOfStep(parts, i);
      ghost var next := Put(Schema(names, types), key, t);
      if key !in types {
        names := names + [key];
      }
      types := types[key := t];
      assert Schema(names, types) == next;
      i := i + 1;
    }
    assert parts[..|parts|] == parts;
    FieldsOfValid(parts);
    return Success(Schema(names, types));
  }

  /** A prefix whose fragments all convert parses. */
  lemma {:induction false} GoodPrefixParses(parts: seq<string>, k: nat)
    requires k <= |parts| && forall j :: 0 <= j < k ==> FieldOf(parts[j]).Success?
    ensures FieldsOf(parts[..k]).Success?
  {
    if k == 0 {
      assert parts[..k] == [];
    } else {
      GoodPrefixParses(parts, k - 1);
      FieldsOfStep(parts, k - 1);
    }
  }

  /** Below any failing fragment there is a first one. */
  lemma {:induction false} FirstFailing(parts: seq<string>, i: nat) returns (f: nat)
    requires i < |parts| && FieldOf(parts[i]).Failure?
    ensures f <= i && FieldOf(parts[f]).Failure? && forall j :: 0 <= j < f ==> FieldOf(parts[j]).Success?
  {
    if j :| 0 <= j < i && FieldOf(parts[j]).Failure? {
      f := FirstFailing(parts, j);
    } else {
      f := i;
    }
  }

  /** The first failing fragment decides the error. */
  lemma FailsAtFirst(parts: seq<string>, f: nat)
    requires f < |parts| && FieldOf(parts[f]).Failure?
    requires forall j :: 0 <= j < f ==> FieldOf(parts[j]).Success?
    ensures FieldsOf(parts) == Failure(FieldOf(parts[f]).error)
  {
    GoodPrefixParses(parts, f);
    FieldsOfStep(parts, f);
    FailureSticks(parts, f + 1);
  }

  /** The schema string is rejected exactly when some fragment has an unknown type name. */
  lemma FieldsOfFailure(parts: seq<string>)
    ensures FieldsOf(parts).Failure? <==> exists i :: 0 <= i < |parts| && FieldOf(parts[i]).Failure?
  {
    if i :| 0 <= i < |parts| && FieldOf(parts[i]).Failure? {
      var f := FirstFailing(parts, i);
      FailsAtFirst(parts, f);
    } else {
      GoodPrefixParses(parts, |parts|);
      assert parts[..|parts|] == parts;
    }
  }

  /** The `ValueError` is the one of the FIRST fragment with an unknown type name. */
  lemma FirstBadFragment(parts: seq<string>) returns (i: nat)
    requires FieldsOf(parts).Failure?
    ensures i < |parts| && FieldOf(parts[i]) == Failure(FieldsOf(parts).error)
    ensures forall j :: 0 <= j < i ==> FieldOf(parts[j]).Success?
  {
    FieldsOfFailure(parts);
    var k :| 0 <= k < |parts| && FieldOf(parts[k]).Failure?;
    i := FirstFailing(parts, k);
    FailsAtFirst(parts, i);
  }

  /** The keys of the fragments, in fragment order. */
  function KeysOf(parts: seq<string>): (keys: seq<string>)
    ensures |keys| == |parts|
  {
    if parts == [] then [] else KeysOf(parts[..|parts| - 1]) + [FieldKey(parts[|parts| - 1])]
  }

  /** The order of first occurrence: each element the first time it is seen. */
  function Dedup(xs: seq<string>): seq<string>
  {
    if xs == [] then []
    else
      var d := Dedup(xs[..|xs| - 1]);
      if xs[|xs| - 1] in d then d else d + [xs[|xs| - 1]]
  }

  /** `Dedup` keeps each element once and loses none. */
  lemma {:induction false} DedupElements(xs: seq<string>)
    ensures forall i, j :: 0 <= i < j < |Dedup(xs)| ==> Dedup(xs)[i] != Dedup(xs)[j]
    ensures forall x :: x in Dedup(xs) <==> x in xs
  {
    if xs != [] {
      DedupElements(xs[..|xs| - 1]);
      assert xs == xs[..|xs| - 1] + [xs[|xs| - 1]];
    }
  }

  /** Field order is the order of first occurrence of each key. */
  lemma {:induction false} FieldOrder(parts: seq<string>)
    requires FieldsOf(parts).Success?
    ensures FieldsOf(parts).value.names == Dedup(KeysOf(parts))
  {
    if parts != [] {
      var init := parts[..|parts| - 1];
      FieldOrder(init);
      var keys := KeysOf(parts);
      assert keys[..|keys| - 1] == KeysOf(init);
      FieldsOfValid(init);
    }
  }

  /** A key repeated in the schema string takes the type of its LAST fragment. */
  lemma {:induction false} LastTypeWins(parts: seq<string>, i: nat)
    requires FieldsOf(parts).Success?
    requires i < |parts|
    requires forall j :: i < j < |parts| ==> FieldKey(parts[j]) != FieldKey(parts[i])
    ensures FieldOf(parts[i]).Success?
    ensures FieldKey(parts[i]) in FieldsOf(parts).value.types
    ensures FieldsOf(parts).value.types[FieldKey(parts[i])] == FieldOf(parts[i]).value.1
  {
    var init := parts[..|parts| - 1];
    if i < |parts| - 1 {
      LastTypeWins(init, i);
    }
  }

  /** An empty fragment, as left by a trailing comma, still declares a field:
      the `str` field named by the empty string, appended at the end. */
  lemma {:induction false} EmptyFragmentField(parts: seq<string>)
    requires FieldsOf(parts).Success? && "" !in FieldsOf(parts).value.types
    ensures FieldsOf(parts + [""]).Success?
    ensures FieldsOf(parts + [""]).value.names == FieldsOf(parts).value.names + [""]
    ensures FieldsOf(parts + [""]).value.types == FieldsOf(parts).value.types["" := StrType]
  {
    var all := parts + [""];
    assert all[..|parts|] == parts;
    assert Strip("") == "";
    FieldsOfStep(all, |parts|);
    assert all[..|parts| + 1] == all;
  }

  /** A fragment without `:` declares, or retypes, the `str` field named by
      the trimmed fragment. */
  lemma UntypedFragmentField(parts: seq<string>, part: string)
    requires FieldsOf(parts).Success? && ':' !in part
    ensures FieldsOf(parts + [part]) == Success(Put(FieldsOf(parts).value, Strip(part), StrType))
  {
    var all := parts + [part];
    assert all[..|parts|] == parts;
    FieldsOfStep(all, |parts|);
    assert all[..|parts| + 1] == all;
  }

  /** A value after coercion: `int(raw)`, the text `str(float(raw))` renders, or `str(raw)`. */
  datatype Value = IntVal(i: int) | FloatVal(text: string) | StrVal(s: string)

  /** `str(value)` */
  function Render(v: Value): string {
    match v
    case IntVal(i) => IntToString(i)
    case FloatVal(t) => t
    case StrVal(s) => s
  }

  /** A validated row: its coerced values by key and its entity type. */
  datatype Entity = Entity(data: map<string, Value>, entityType: string)

  /** The generator `str(self.data.get(h, '')) for h in headers`. */
  function CsvCells(e: Entity, headers: seq<string>): (cells: seq<string>)
    ensures |cells| == |headers|
    ensures forall i :: 0 <= i < |headers| ==>
      cells[i] == if headers[i] in e.data then Render(e.data[headers[i]]) else ""
  {
    if headers == [] then []
    else [if headers[0] in e.data then Render(e.data[headers[0]]) else ""] + CsvCells(e, headers[1..])
  }

  /** `Entity.to_csv_row(headers)` */
  function ToCsvRow(e: Entity, headers: seq<string>): string {
    Join(CsvCells(e, headers), ',')
  }

  /** The row splits back into one cell per header, as long as there is a
      header and no cell contains a comma (there is no quoting). */
  lemma CsvRowSplits(e: Entity, headers: seq<string>)
    requires |headers| >= 1
    requires forall h :: h in headers && h in e.data ==> ',' !in Render(e.data[h])
    ensures Split(ToCsvRow(e, headers), ',') == CsvCells(e, headers)
  {
    var cells := CsvCells(e, headers);
    forall i | 0 <= i < |cells| ensures ',' !in cells[i] {
      assert headers[i] in headers;
    }
    SplitJoin(cells, ',');
  }
}
