/** The stand-alone filter of `cli.py`: a `--keys` schema of `key:type` pairs,
    a `--hierarchy` of entity types, and input lines of `key=value` fragments.
    A line is kept when its type is in the hierarchy and every schema key is
    present with a valid value; the kept rows are emitted type by type in
    hierarchy order, each type's rows in input order. */
module Cli {
  import opened Wrappers
  import opened Text
  import opened Fragments
  import opened Hierarchy

  /** A `(key, type)` pair of the schema; the type name is not interpreted. */
  type Field = (string, string)

  // ----- parse_schema -----

  /** A fragment that makes `parse_schema` exit: not blank, but without `:`. */
  predicate BadPart(part: string) {
    Strip(part) != [] && ':' !in Strip(part)
  }

  /** `(k.strip(), t.strip())` of a fragment split at its first `:`. */
  function SchemaPair(part: string): Field
    requires ':' in part
  {
    var (k, t) := SplitFirst(part, ':');
    (Strip(k), Strip(t))
  }

  /** `out` after the loop of `parse_schema` has run over `parts`, or the
      message of the `SystemExit` it raises. */
  function SchemaOf(parts: seq<string>): Result<seq<Field>, string> {
    if parts == [] then Success([])
    else
      match SchemaOf(parts[..|parts| - 1])
      case Failure(e) => Failure(e)
      case Success(out) =>
        var part := Strip(parts[|parts| - 1]);
        if part == [] then Success(out)
        else if ':' !in part then Failure("Schema parts must be key:type, got: " + part)
        else Success(out + [SchemaPair(part)])
  }

  /** Once a fragment has failed, later fragments do not change the outcome. */
  lemma {:induction false} SchemaFailureSticks(parts: seq<string>, i: nat)
    requires i <= |parts| && SchemaOf(parts[..i]).Failure?
    ensures SchemaOf(parts) == SchemaOf(parts[..i])
    decreases |parts| - i
  {
    if i < |parts| {
      assert parts[..i + 1][..i] == parts[..i];
      SchemaFailureSticks(parts, i + 1);
    } else {
      assert parts[..i] == parts;
    }
  }

  /** One more fragment of the loop, while no fragment has failed. */
  lemma SchemaOfStep(parts: seq<string>, i: nat, out: seq<Field>)
    requires i < |parts| && SchemaOf(parts[..i]) == Success(out)
    ensures var part := Strip(parts[i]);
      SchemaOf(parts[..i + 1]) ==
        if part == [] then Success(out)
        else if ':' !in part then Failure("Schema parts must be key:type, got: " + part)
        else Success(out + [SchemaPair(part)])
  {
    assert parts[..i + 1][..i] == parts[..i];
    assert parts[..i + 1][i] == parts[i];
  }

  /** One more fragment that is trimmed and holds `:`. */
  lemma SchemaOfStepClean(parts: seq<string>, i: nat, out: seq<Field>)
    requires i < |parts| && SchemaOf(parts[..i]) == Success(out)
    requires Strip(parts[i]) == parts[i] && ':' in parts[i]
    ensures SchemaOf(parts[..i + 1]) == Success(out + [SchemaPair(parts[i])])
  {
    SchemaOfStep(parts, i, out);
  }

  /** `parse_schema(s)`; `Failure` is the `SystemExit` it raises. */
  method ParseSchema(s: string) returns (r: Result<seq<Field>, string>)
    ensures r == SchemaOf(Split(s, ','))
  {
    var parts := Split(s, ',');
    var out: seq<Field> := [];
    var i := 0;
    while i < |parts|
      invariant 0 <= i <= |parts|
      invariant SchemaOf(parts[..i]) == Success(out)
    {
      var part := Strip(parts[i]);
      SchemaOfStep(parts, i, out);
      if part == [] {
        i := i + 1;
        continue;
      }
      if ':' !in part {
        r := Failure("Schema parts must be key:type, got: " + part);
        SchemaFailureSticks(parts, i + 1);
        return;
      }
      var (k, t) := SplitFirst(part, ':');
      out := out + [(Strip(k), Strip(t))];
      i := i + 1;
    }
    assert parts[..|parts|] == parts;
    r := Success(out);
  }

  /** A prefix without a bad fragment parses. */
  lemma {:induction false} NoBadPrefixParses(parts: seq<string>, k: nat)
    requires k <= |parts| && forall j :: 0 <= j < k ==> !BadPart(parts[j])
    ensures SchemaOf(parts[..k]).Success?
  {
    if k == 0 {
      assert parts[..k] == [];
    } else {
      NoBadPrefixParses(parts, k - 1);
      SchemaOfStep(parts, k - 1, SchemaOf(parts[..k - 1]).value);
    }
  }

  /** Below any bad fragment there is a first one. */
  lemma {:induction false} FirstBadPart(parts: seq<string>, i: nat) returns (f: nat)
    requires i < |parts| && BadPart(parts[i])
    ensures f <= i && BadPart(parts[f]) && forall j :: 0 <= j < f ==> !BadPart(parts[j])
  {
    if j :| 0 <= j < i && BadPart(parts[j]) {
      f := FirstBadPart(parts, j);
    } else {
      f := i;
    }
  }

  /** `parse_schema` exits exactly when some fragment is bad, and the message
      names the FIRST bad fragment, stripped. */
  lemma SchemaFailure(parts: seq<string>)
    ensures SchemaOf(parts).Failure? <==> exists i :: 0 <= i < |parts| && BadPart(parts[i])
    ensures SchemaOf(parts).Failure? ==>
      exists i :: (0 <= i < |parts| && BadPart(parts[i])
        && (forall j :: 0 <= j < i ==> !BadPart(parts[j]))
        && SchemaOf(parts).error == "Schema parts must be key:type, got: " + Strip(parts[i]))
  {
    if i :| 0 <= i < |parts| && BadPart(parts[i]) {
      var f := FirstBadPart(parts, i);
      NoBadPrefixParses(parts, f);
      SchemaOfStep(parts, f, SchemaOf(parts[..f]).value);
      SchemaFailureSticks(parts, f + 1);
      assert SchemaOf(parts).error == "Schema parts must be key:type, got: " + Strip(parts[f]);
    } else {
      NoBadPrefixParses(parts, |parts|);
      assert parts[..|parts|] == parts;
    }
  }

  /** `"{k}:{t}"` for every field. */
  function Spelled(fields: seq<Field>): (r: seq<string>)
    ensures |r| == |fields|
  {
    seq(|fields|, i requires 0 <= i < |fields| => fields[i].0 + ":" + fields[i].1)
  }

  /** A field that can be written out and read back: trimmed key and type,
      no `,` in either and no `:` in the key. */
  predicate Writable(f: Field) {
    Strip(f.0) == f.0 && Strip(f.1) == f.1 && ',' !in f.0 && ',' !in f.1 && ':' !in f.0
  }

  lemma SchemaPartRoundTrip(f: Field)
    requires Writable(f)
    ensures var part := f.0 + ":" + f.1;
      ',' !in part && Strip(part) == part && ':' in part && SchemaPair(part) == f
  {
    var part := f.0 + ":" + f.1;
    assert part == f.0 + [':'] + f.1;
    StripSpec(f.0);
    StripSpec(f.1);
    if f.0 != [] {
      assert part[0] == f.0[0];
    }
    if f.1 != [] {
      assert part[|part| - 1] == f.1[|f.1| - 1];
    }
    StripKeeps(part);
    SplitFirstAt(f.0, ':', f.1);
  }

  /** A spelled writable field is a trimmed fragment with `:` that reads back as the field. */
  lemma SpelledPart(fields: seq<Field>, j: nat)
    requires j < |fields| && Writable(fields[j])
    ensures Strip(Spelled(fields)[j]) == Spelled(fields)[j] && ':' in Spelled(fields)[j]
    ensures SchemaPair(Spelled(fields)[j]) == fields[j]
  {
    SchemaPartRoundTrip(fields[j]);
  }

  lemma PairsPrefix(parts: seq<string>, k: nat)
    requires 0 < k <= |parts| && forall i :: 0 <= i < |parts| ==> ':' in parts[i]
    ensures Pairs(parts)[..k - 1] + [SchemaPair(parts[k - 1])] == Pairs(parts)[..k]
  {
  }

  /** The first `k` fragments, all trimmed and holding `:`, parse to their pairs. */
  lemma {:induction false} SchemaOfClean(parts: seq<string>, k: nat)
    requires k <= |parts| && forall i :: 0 <= i < |parts| ==> Strip(parts[i]) == parts[i] && ':' in parts[i]
    ensures SchemaOf(parts[..k]) == Success(Pairs(parts)[..k])
  {
    if k == 0 {
      assert parts[..k] == [];
    } else {
      SchemaOfClean(parts, k - 1);
      SchemaOfStepClean(parts, k - 1, Pairs(parts)[..k - 1]);
      PairsPrefix(parts, k);
    }
  }

  lemma SchemaOfSpelled(fields: seq<Field>)
    requires forall i :: 0 <= i < |fields| ==> Writable(fields[i])
    ensures SchemaOf(Spelled(fields)) == Success(fields)
  {
    var spelled := Spelled(fields);
    forall j | 0 <= j < |fields|
      ensures Strip(spelled[j]) == spelled[j] && ':' in spelled[j] && SchemaPair(spelled[j]) == fields[j]
    {
      SpelledPart(fields, j);
    }
    SchemaOfClean(spelled, |spelled|);
    assert spelled[..|spelled|] == spelled;
    assert Pairs(spelled)[..|spelled|] == fields;
  }

  /** Writing the fields out as `k:t,k:t,...` and parsing gives them back, in order. */
  lemma SchemaRoundTrip(fields: seq<Field>)
    requires forall i :: 0 <= i < |fields| ==> Writable(fields[i])
    ensures SchemaOf(Split(Join(Spelled(fields), ','), ',')) == Success(fields)
  {
    SchemaOfSpelled(fields);
    if fields == [] {
      assert Split(Join(Spelled(fields), ','), ',') == [""];
      assert SchemaOf([""]) == SchemaOf([][..0]);
    } else {
      forall i | 0 <= i < |fields| ensures ',' !in Spelled(fields)[i] {
        SchemaPartRoundTrip(fields[i]);
      }
      SplitJoin(Spelled(fields), ',');
    }
  }

  // ----- is_valid -----

  /** `is_valid(val, t)`: present and, for `int`, accepted by `int()`. */
  predicate IsValid(val: string, t: string) {
    if val == "" then false
    else if t == "int" then PyInt(val).Some?
    else true
  }

  /** Every integer, written out as `str(i)` writes it, is a valid `int`. */
  lemma IsValidInt(i: int)
    ensures IsValid(IntToString(i), "int")
  {
    IntRoundTrip(i);
    assert PyInt("") == None;
  }

  // ----- parse_line -----

  /** `[p.strip() for p in parts if p.strip()]` */
  function NonBlank(parts: seq<string>): seq<string> {
    if parts == [] then []
    else
      var p := Strip(parts[|parts| - 1]);
      NonBlank(parts[..|parts| - 1]) + (if p != [] then [p] else [])
  }

  lemma {:induction false} NonBlankMembers(parts: seq<string>)
    ensures forall p :: p in NonBlank(parts) <==> exists i :: 0 <= i < |parts| && Strip(parts[i]) == p && p != []
  {
    if parts != [] {
      var init := parts[..|parts| - 1];
      NonBlankMembers(init);
      assert forall i :: 0 <= i < |init| ==> init[i] == parts[i];
    }
  }

  /** The schema pairs of stripped fragments that all contain `:`. */
  function Pairs(parts: seq<string>): (r: seq<Field>)
    requires forall i :: 0 <= i < |parts| ==> ':' in parts[i]
    ensures |r| == |parts|
  {
    seq(|parts|, i requires 0 <= i < |parts| => SchemaPair(parts[i]))
  }

  lemma PairsSnoc(parts: seq<string>, p: string)
    requires (forall i :: 0 <= i < |parts| ==> ':' in parts[i]) && ':' in p
    ensures Pairs(parts + [p]) == Pairs(parts) + [SchemaPair(p)]
  {
  }

  /** Without a bad fragment, `parse_schema` returns the pair of every
      non-blank fragment in fragment order, and skips the blank ones. */
  lemma {:induction false} SchemaPairs(parts: seq<string>)
    requires forall i :: 0 <= i < |parts| ==> !BadPart(parts[i])
    ensures forall i :: 0 <= i < |NonBlank(parts)| ==> ':' in NonBlank(parts)[i]
    ensures SchemaOf(parts) == Success(Pairs(NonBlank(parts)))
  {
    if parts != [] {
      var n := |parts| - 1;
      var init := parts[..n];
      assert forall i :: 0 <= i < n ==> init[i] == parts[i];
      SchemaPairs(init);
      var nb := NonBlank(parts);
      var p := Strip(parts[n]);
      if p != [] {
        assert nb == NonBlank(init) + [p];
        PairsSnoc(NonBlank(init), p);
      } else {
        assert nb == NonBlank(init);
      }
    }
  }

  /** What `parse_line(line, delim)` returns. */
  function LineFields(line: string, delim: char): map<string, string> {
    Collect(NonBlank(Split(Strip(line), delim)))
  }

  /** `parse_line(line, delim)` */
  method ParseLine(line: string, delim: char) returns (d: map<string, string>)
    ensures d == LineFields(line, delim)
  {
    var parts := NonBlank(Split(Strip(line), delim));
    d := map[];
    for i := 0 to |parts|
      invariant d == Collect(parts[..i])
    {
      var part := parts[i];
      CollectStep(parts, i);
      if '=' !in part {
        continue;
      }
      var (k, v) := SplitFirst(part, '=');
      d := d[Strip(k) := Strip(v)];
    }
    assert parts[..|parts|] == parts;
  }

  /** A key of the parsed line comes from a fragment of the line that
      contains `=`, and every such fragment contributes its key. */
  lemma LineFieldsKeys(line: string, delim: char)
    ensures forall k :: k in LineFields(line, delim) <==>
      exists p :: p in Split(Strip(line), delim) && Binds(Strip(p), k)
  {
    var parts := Split(Strip(line), delim);
    NonBlankMembers(parts);
    CollectKeys(NonBlank(parts));
    forall k | k in LineFields(line, delim) ensures exists p :: p in parts && Binds(Strip(p), k) {
      var j :| 0 <= j < |NonBlank(parts)| && Binds(NonBlank(parts)[j], k);
      assert NonBlank(parts)[j] in NonBlank(parts);
      var i :| 0 <= i < |parts| && Strip(parts[i]) == NonBlank(parts)[j] && NonBlank(parts)[j] != [];
      assert parts[i] in parts;
    }
    forall k | exists p :: p in parts && Binds(Strip(p), k) ensures k in LineFields(line, delim) {
      var p :| p in parts && Binds(Strip(p), k);
      var i :| 0 <= i < |parts| && parts[i] == p;
      assert Strip(p) in NonBlank(parts);
      var j :| 0 <= j < |NonBlank(parts)| && NonBlank(parts)[j] == Strip(p);
    }
  }

  // ----- main: filter, group, emit -----

  /** `keys_order = [k for k, _ in schema]` */
  function KeysOrder(schema: seq<Field>): (r: seq<string>)
    ensures |r| == |schema|
  {
    seq(|schema|, i requires 0 <= i < |schema| => schema[i].0)
  }

  /** `[t for t in parts if t != '']` */
  function NonEmpty(parts: seq<string>): seq<string> {
    if parts == [] then []
    else NonEmpty(parts[..|parts| - 1]) + (if parts[|parts| - 1] != "" then [parts[|parts| - 1]] else [])
  }

  /** `types_order`: the non-empty fragments of `hierarchy`, not stripped. */
  function TypesOrder(hierarchy: string): seq<string> {
    NonEmpty(Split(hierarchy, ','))
  }

  /** The hierarchy holds exactly the non-empty fragments, in their order. */
  lemma {:induction false} NonEmptyMembers(parts: seq<string>)
    ensures forall t :: t in NonEmpty(parts) <==> t in parts && t != ""
    ensures |NonEmpty(parts)| <= |parts|
  {
    if parts != [] {
      var init := parts[..|parts| - 1];
      NonEmptyMembers(init);
      assert parts == init + [parts[|parts| - 1]];
    }
  }

  /** Every schema key is present in the row with a valid value. */
  predicate Conforms(schema: seq<Field>, row: map<string, string>) {
    forall i :: 0 <= i < |schema| ==> schema[i].0 in row && IsValid(row[schema[i].0], schema[i].1)
  }

  /** `[row.get(k, '') for k in keys]` */
  function Values(row: map<string, string>, keys: seq<string>): (r: seq<string>)
    ensures |r| == |keys|
  {
    seq(|keys|, i requires 0 <= i < |keys| => if keys[i] in row then row[keys[i]] else "")
  }

  /** A kept line: its entity type and its values in header order. */
  type Record = (string, seq<string>)

  function EntityType(r: Record): string {
    r.0
  }

  /** What one input line adds to `grouped`, or `None` for a skipped line. */
  function Kept(schema: seq<Field>, typeField: string, typesOrder: seq<string>, line: string): (r: Option<Record>)
    ensures r.Some? ==> EntityType(r.value) in typesOrder
  {
    if Strip(line) == [] then None
    else
      var row := LineFields(line, ',');
      if typeField !in row || row[typeField] !in typesOrder || !Conforms(schema, row) then None
      else Some((row[typeField], Values(row, KeysOrder(schema))))
  }

  function Outcomes(schema: seq<Field>, typeField: string, typesOrder: seq<string>, lines: seq<string>): (r: seq<Option<Record>>)
    ensures |r| == |lines| && forall i :: 0 <= i < |lines| ==> r[i] == Kept(schema, typeField, typesOrder, lines[i])
  {
    seq(|lines|, i requires 0 <= i < |lines| => Kept(schema, typeField, typesOrder, lines[i]))
  }

  /** The kept records of `lines`, in input order. */
  function KeptRecords(schema: seq<Field>, typeField: string, typesOrder: seq<string>, lines: seq<string>): seq<Record> {
    Somes(Outcomes(schema, typeField, typesOrder, lines))
  }

  lemma KeptRecordsSnoc(schema: seq<Field>, typeField: string, typesOrder: seq<string>, lines: seq<string>, line: string)
    ensures var o := Kept(schema, typeField, typesOrder, line);
      KeptRecords(schema, typeField, typesOrder, lines + [line]) ==
        KeptRecords(schema, typeField, typesOrder, lines) + (if o.Some? then [o.value] else [])
  {
    var o := Outcomes(schema, typeField, typesOrder, lines + [line]);
    assert o[..|lines|] == Outcomes(schema, typeField, typesOrder, lines);
  }

  /** The value lists of the records. */
  function Cells(records: seq<Record>): (r: seq<seq<string>>)
    ensures |r| == |records|
  {
    seq(|records|, i requires 0 <= i < |records| => records[i].1)
  }

  lemma CellsAppend(a: seq<Record>, b: seq<Record>)
    ensures Cells(a + b) == Cells(a) + Cells(b)
  {
    assert forall i :: 0 <= i < |a| ==> (a + b)[i] == a[i];
    assert forall i :: |a| <= i < |a| + |b| ==> (a + b)[i] == b[i - |a|];
  }

  /** The CSV rows `main` writes, header first, before `csv.writer` quotes them. */
  function Output(schema: seq<Field>, typeField: string, typesOrder: seq<string>, lines: seq<string>): seq<seq<string>> {
    [KeysOrder(schema)] + Cells(Buckets(KeptRecords(schema, typeField, typesOrder, lines), EntityType, typesOrder))
  }

  /** `grouped` holds, for each type of the hierarchy, the values of its
      records among `kept`, in order. */
  ghost predicate GroupedBy(grouped: map<string, seq<seq<string>>>, typesOrder: seq<string>, kept: seq<Record>) {
    && (forall t :: t in grouped <==> t in typesOrder)
    && forall t :: t in grouped ==> grouped[t] == Cells(OfLabel(kept, EntityType, t))
  }

  /** Appending a record's values to its type's list keeps `grouped` in step. */
  lemma GroupedSnoc(grouped: map<string, seq<seq<string>>>, typesOrder: seq<string>, kept: seq<Record>, rec: Record)
    requires GroupedBy(grouped, typesOrder, kept) && rec.0 in typesOrder
    ensures GroupedBy(grouped[rec.0 := grouped[rec.0] + [rec.1]], typesOrder, kept + [rec])
  {
    var next := grouped[rec.0 := grouped[rec.0] + [rec.1]];
    forall t | t in next
      ensures next[t] == Cells(OfLabel(kept + [rec], EntityType, t))
    {
      OfLabelAppend(kept, [rec], EntityType, t);
      CellsAppend(OfLabel(kept, EntityType, t), OfLabel([rec], EntityType, t));
      assert [rec][1..] == [];
      assert OfLabel([rec], EntityType, t) == if rec.0 == t then [rec] else [];
    }
  }

  /** The validation loop of `main`: every schema key present and valid. */
  method CheckRow(schema: seq<Field>, row: map<string, string>) returns (ok: bool)
    ensures ok == Conforms(schema, row)
  {
    ok := true;
    var j := 0;
    while j < |schema|
      invariant 0 <= j <= |schema|
      invariant ok ==> forall m :: 0 <= m < j ==> schema[m].0 in row && IsValid(row[schema[m].0], schema[m].1)
      invariant !ok ==> !Conforms(schema, row)
    {
      var (k, t) := schema[j];
      if k !in row || !IsValid(row[k], t) {
        ok := false;
        break;
      }
      j := j + 1;
    }
  }

  /** The collecting loop of `main`: `grouped` after every line has been read. */
  method Group(schema: seq<Field>, typeField: string, typesOrder: seq<string>, lines: seq<string>)
    returns (grouped: map<string, seq<seq<string>>>)
    ensures GroupedBy(grouped, typesOrder, KeptRecords(schema, typeField, typesOrder, lines))
  {
    grouped := map t | t in typesOrder :: [];
    for i := 0 to |lines|
      invariant GroupedBy(grouped, typesOrder, KeptRecords(schema, typeField, typesOrder, lines[..i]))
    {
      var line := lines[i];
      assert lines[..i + 1] == lines[..i] + [line];
      KeptRecordsSnoc(schema, typeField, typesOrder, lines[..i], line);
      ghost var before := KeptRecords(schema, typeField, typesOrder, lines[..i]);
      if Strip(line) == [] {
        assert Kept(schema, typeField, typesOrder, line) == None;
        assert KeptRecords(schema, typeField, typesOrder, lines[..i + 1]) == before;
        continue;
      }
      var row := ParseLine(line, ',');
      if typeField !in row {
        assert Kept(schema, typeField, typesOrder, line) == None;
        assert KeptRecords(schema, typeField, typesOrder, lines[..i + 1]) == before;
        continue;
      }
      var etype := row[typeField];
      if etype !in grouped {
        assert Kept(schema, typeField, typesOrder, line) == None;
        assert KeptRecords(schema, typeField, typesOrder, lines[..i + 1]) == before;
        continue;
      }
      var ok := CheckRow(schema, row);
      if !ok {
        assert Kept(schema, typeField, typesOrder, line) == None;
        assert KeptRecords(schema, typeField, typesOrder, lines[..i + 1]) == before;
        continue;
      }
      var vals := Values(row, KeysOrder(schema));
      assert Kept(schema, typeField, typesOrder, line) == Some((etype, vals));
      GroupedSnoc(grouped, typesOrder, before, (etype, vals));
      grouped := grouped[etype := grouped[etype] + [vals]];
    }
    assert lines[..|lines|] == lines;
  }

  /** The rows of the first `b + 1` buckets: those of the first `b`, then bucket `b`'s. */
  lemma CellsBucketsStep(kept: seq<Record>, typesOrder: seq<string>, b: nat)
    requires b < |typesOrder|
    ensures Cells(Buckets(kept, EntityType, typesOrder[..b + 1])) ==
      Cells(Buckets(kept, EntityType, typesOrder[..b])) + Cells(OfLabel(kept, EntityType, typesOrder[b]))
  {
    assert typesOrder[..b + 1][..b] == typesOrder[..b];
    CellsAppend(Buckets(kept, EntityType, typesOrder[..b]), OfLabel(kept, EntityType, typesOrder[b]));
  }

  /** The inner writing loop of `main`: one row per value list of a type. */
  method WriteRows(out: seq<seq<string>>, vals: seq<seq<string>>) returns (written: seq<seq<string>>)
    ensures written == out + vals
  {
    written := out;
    for m := 0 to |vals|
      invariant written == out + vals[..m]
    {
      written := written + [vals[m]];
      assert vals[..m + 1] == vals[..m] + [vals[m]];
    }
    assert vals[..|vals|] == vals;
  }

  /** The writing loops of `main`: the header, then each type's rows in hierarchy order. */
  method Emit(keysOrder: seq<string>, typesOrder: seq<string>, grouped: map<string, seq<seq<string>>>, ghost kept: seq<Record>)
    returns (out: seq<seq<string>>)
    requires GroupedBy(grouped, typesOrder, kept)
    ensures out == [keysOrder] + Cells(Buckets(kept, EntityType, typesOrder))
  {
    out := [keysOrder];
    for b := 0 to |typesOrder|
      invariant out == [keysOrder] + Cells(Buckets(kept, EntityType, typesOrder[..b]))
    {
      var et := typesOrder[b];
      var vals := if et in grouped then grouped[et] else [];
      assert vals == Cells(OfLabel(kept, EntityType, et));
      out := WriteRows(out, vals);
      CellsBucketsStep(kept, typesOrder, b);
    }
    assert typesOrder[..|typesOrder|] == typesOrder;
  }

  /** The logic of `main` on the `--keys`, `--hierarchy` and `--type-field`
      arguments and the input lines: the rows it writes, or the message it
      exits with when the schema is malformed. */
  method Run(keys: string, hierarchy: string, typeField: string, lines: seq<string>) returns (r: Result<seq<seq<string>>, string>)
    ensures SchemaOf(Split(keys, ',')).Failure? ==> r == Failure(SchemaOf(Split(keys, ',')).error)
    ensures SchemaOf(Split(keys, ',')).Success? ==>
      r == Success(Output(SchemaOf(Split(keys, ',')).value, typeField, TypesOrder(hierarchy), lines))
  {
    var parsed := ParseSchema(keys);
    if parsed.Failure? {
      return Failure(parsed.error);
    }
    var schema := parsed.value;
    var keysOrder := KeysOrder(schema);
    var typesOrder := TypesOrder(hierarchy);
    var grouped := Group(schema, typeField, typesOrder, lines);
    var out := Emit(keysOrder, typesOrder, grouped, KeptRecords(schema, typeField, typesOrder, lines));
    r := Success(out);
  }

  // ----- what the output promises -----

  /** A line is kept exactly when it is not blank, has the type field, its
      type is in the hierarchy and every schema key is present and valid; it
      then carries, in header order, the value of every schema key: the `''`
      default of `row.get` is never used. */
  lemma KeptValues(schema: seq<Field>, typeField: string, typesOrder: seq<string>, line: string)
    ensures var row := LineFields(line, ',');
      Kept(schema, typeField, typesOrder, line).Some? <==>
        && !AllSpace(line) && typeField in row && row[typeField] in typesOrder
        && forall j :: 0 <= j < |schema| ==> schema[j].0 in row && IsValid(row[schema[j].0], schema[j].1)
    ensures Kept(schema, typeField, typesOrder, line).Some? ==>
      var rec := Kept(schema, typeField, typesOrder, line).value;
      var row := LineFields(line, ',');
      && rec.0 == row[typeField]
      && |rec.1| == |schema|
      && forall j :: 0 <= j < |schema| ==> rec.1[j] == row[schema[j].0]
  {
    StripSpec(line);
  }

  /** A kept record is what some input line yields. */
  lemma KeptFromLine(schema: seq<Field>, typeField: string, typesOrder: seq<string>, lines: seq<string>, rec: Record)
    returns (i: nat)
    requires rec in KeptRecords(schema, typeField, typesOrder, lines)
    ensures i < |lines| && Kept(schema, typeField, typesOrder, lines[i]) == Some(rec)
  {
    var o := Outcomes(schema, typeField, typesOrder, lines);
    SomesMembers(o);
    i :| 0 <= i < |o| && o[i] == Some(rec);
  }

  /** Every kept record has a type of the hierarchy. */
  lemma KeptInHierarchy(schema: seq<Field>, typeField: string, typesOrder: seq<string>, lines: seq<string>)
    ensures forall rec :: rec in KeptRecords(schema, typeField, typesOrder, lines) ==> EntityType(rec) in typesOrder
  {
    forall rec | rec in KeptRecords(schema, typeField, typesOrder, lines) ensures EntityType(rec) in typesOrder {
      var i := KeptFromLine(schema, typeField, typesOrder, lines, rec);
    }
  }

  /** Every emitted record comes from an input line and has a type of the hierarchy. */
  lemma EmittedFromInput(schema: seq<Field>, typeField: string, typesOrder: seq<string>, lines: seq<string>)
    ensures forall rec :: rec in Buckets(KeptRecords(schema, typeField, typesOrder, lines), EntityType, typesOrder) ==>
      rec.0 in typesOrder && exists i :: 0 <= i < |lines| && Kept(schema, typeField, typesOrder, lines[i]) == Some(rec)
  {
    var kept := KeptRecords(schema, typeField, typesOrder, lines);
    BucketsMembers(kept, EntityType, typesOrder);
    SomesMembers(Outcomes(schema, typeField, typesOrder, lines));
    forall rec | rec in Buckets(kept, EntityType, typesOrder)
      ensures rec.0 in typesOrder
    {
      assert EntityType(rec) == rec.0;
    }
  }

  /** Each type's records are emitted in input order, once for every time the
      type is listed in the hierarchy: a repeated type is emitted repeatedly. */
  lemma GroupsInInputOrder(schema: seq<Field>, typeField: string, typesOrder: seq<string>, lines: seq<string>, t: string)
    ensures var kept := KeptRecords(schema, typeField, typesOrder, lines);
      OfLabel(Buckets(kept, EntityType, typesOrder), EntityType, t) == Repeat(OfLabel(kept, EntityType, t), Count(typesOrder, t))
  {
    BucketsOfLabel(KeptRecords(schema, typeField, typesOrder, lines), EntityType, typesOrder, t);
  }

  /** With no type listed twice, at most one row is emitted per input line,
      and the rows follow the hierarchy: a row of an earlier type never comes
      after a row of a later one. */
  lemma EmittedInHierarchyOrder(schema: seq<Field>, typeField: string, typesOrder: seq<string>, lines: seq<string>)
    requires Distinct(typesOrder)
    ensures var emitted := Buckets(KeptRecords(schema, typeField, typesOrder, lines), EntityType, typesOrder);
      && |emitted| <= |lines|
      && forall i, j :: 0 <= i < j < |emitted| ==>
        Rank(RankMap(typesOrder), |typesOrder|, emitted[i].0) <= Rank(RankMap(typesOrder), |typesOrder|, emitted[j].0)
  {
    var kept := KeptRecords(schema, typeField, typesOrder, lines);
    var emitted := Buckets(kept, EntityType, typesOrder);
    BucketsOrdered(kept, EntityType, typesOrder);
    SomesMembers(Outcomes(schema, typeField, typesOrder, lines));
    var rest := multiset(kept) - multiset(emitted);
    assert multiset(kept) == multiset(emitted) + rest;
    assert |multiset(kept)| == |multiset(emitted)| + |rest|;
    forall i, j | 0 <= i < j < |emitted|
      ensures Rank(RankMap(typesOrder), |typesOrder|, emitted[i].0) <= Rank(RankMap(typesOrder), |typesOrder|, emitted[j].0)
    {
      assert EntityType(emitted[i]) == emitted[i].0 && EntityType(emitted[j]) == emitted[j].0;
    }
  }
}
