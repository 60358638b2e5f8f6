/** How the two implementations, `core.py` and `cli.py`, relate when they
    read the same lines. */
module Variants {
  import opened Wrappers
  import opened Text
  import opened Fragments
  import opened Hierarchy
  import Models
  import Core
  import Cli

  /** Dropping the blank fragments and stripping the others, as `cli.py`
      does first, changes nothing that `core.py` collects. */
  lemma {:induction false} CollectNonBlank(parts: seq<string>)
    ensures Collect(Cli.NonBlank(parts)) == Collect(parts)
  {
    if parts != [] {
      var init := parts[..|parts| - 1];
      var p := parts[|parts| - 1];
      CollectNonBlank(init);
      FragmentOfStripped(p);
      var nb := Cli.NonBlank(parts);
      if Strip(p) != [] {
        assert nb[..|nb| - 1] == Cli.NonBlank(init);
      } else {
        StripSpec(p);
        assert forall i :: 0 <= i < |p| ==> IsSpace(p[i]) && p[i] != '=';
        assert nb == Cli.NonBlank(init);
      }
    }
  }

  /** Both `parse_line`s read a non-blank line into the same dict; `core.py`
      returns `None` for a blank one, for which `cli.py` returns `{}`. */
  lemma ParseLineAgrees(line: string)
    ensures !AllSpace(line) ==> Core.ParsedLine(line) == Some(Cli.LineFields(line, ','))
    ensures AllSpace(line) ==> Core.ParsedLine(line).None? && Cli.LineFields(line, ',') == map[]
  {
    var t := Strip(line);
    StripSpec(line);
    if t == [] {
      assert Split(t, ',') == [""];
      assert Strip("") == [];
      assert Cli.NonBlank([""]) == Cli.NonBlank([""][..0]);
    } else {
      CollectNonBlank(Split(t, ','));
    }
  }

  /** Where the two validations differ: `cli.py` rejects an empty value of
      any type, `core.py` accepts it for a `str` or `bool` field; `cli.py` accepts any
      non-empty `float` text. On non-empty `int` text they agree. */
  lemma ValidationDiffers(v: string, parseFloat: string -> Option<string>)
    ensures v != "" ==> (Cli.IsValid(v, "int") <==> Core.Convert(Models.IntType, v, parseFloat).Some?)
    ensures !Cli.IsValid("", "str") && Core.Convert(Models.StrType, "", parseFloat) == Some(Models.StrVal(""))
    ensures !Cli.IsValid("", "int") && Core.Convert(Models.IntType, "", parseFloat).None?
    ensures v != "" ==> Cli.IsValid(v, "float")
    ensures forall t :: !Cli.IsValid("", t)
    ensures Core.Convert(Models.BoolType, "", parseFloat) == Some(Models.StrVal(""))
  {
    assert PyInt("") == None;
  }

  lemma {:induction false} UnknownNone<T>(xs: seq<T>, typeOf: T -> string, order: seq<string>)
    requires forall x :: x in xs ==> typeOf(x) in order
    ensures Unknown(xs, typeOf, order) == []
  {
    if xs != [] {
      assert forall x :: x in xs[1..] ==> x in xs;
      UnknownNone(xs[1..], typeOf, order);
    }
  }

  /** On the records `cli.py` keeps, its emission type by type is exactly the
      stable sort by hierarchy rank that `core.py` performs, provided no type
      is listed twice. */
  lemma GroupingIsRankSort(schema: seq<Cli.Field>, typeField: string, typesOrder: seq<string>, lines: seq<string>)
    requires Distinct(typesOrder)
    ensures var kept := Cli.KeptRecords(schema, typeField, typesOrder, lines);
      Buckets(kept, Cli.EntityType, typesOrder) == SortByKey(kept, KeyBy(Cli.EntityType, RankMap(typesOrder), |typesOrder|))
  {
    var kept := Cli.KeptRecords(schema, typeField, typesOrder, lines);
    Cli.KeptInHierarchy(schema, typeField, typesOrder, lines);
    UnknownNone(kept, Cli.EntityType, typesOrder);
    SortVersusBuckets(kept, Cli.EntityType, typesOrder);
  }
}
