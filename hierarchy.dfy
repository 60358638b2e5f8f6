/** Ordering by entity-type hierarchy, shared by both implementations:
    `core.py` ranks each type by its position and calls Python's stable
    `sorted`; `cli.py` fills one bucket per label and concatenates them.
    Elements are generic; `typeOf` gives an element's entity type. */
module Hierarchy {

  /** `{val: idx for idx, val in enumerate(hierarchy)}`: later positions overwrite earlier ones. */
  function RankMap(h: seq<string>): (m: map<string, nat>)
    ensures forall t :: t in m <==> t in h
    ensures forall t :: t in m ==> m[t] < |h| && h[m[t]] == t
    ensures forall t :: t in m ==> forall j :: m[t] < j < |h| ==> h[j] != t
  {
    if h == [] then map[] else
      var init := h[..|h| - 1];
      assert forall j :: 0 <= j < |init| ==> init[j] == h[j];
      RankMap(init)[h[|h| - 1] := |h| - 1]
  }

  predicate Distinct(h: seq<string>) {
    forall i, j :: 0 <= i < j < |h| ==> h[i] != h[j]
  }

  /** `hierarchy_map.get(t, float('inf'))`, where `unknown` stands for infinity:
      any value above every position orders exactly as infinity does. */
  function Rank(ranks: map<string, nat>, unknown: nat, t: string): nat {
    if t in ranks then ranks[t] else unknown
  }

  /** The `sort_key` of an element. */
  function KeyBy<T>(typeOf: T -> string, ranks: map<string, nat>, unknown: nat): T -> nat {
    x => Rank(ranks, unknown, typeOf(x))
  }

  predicate SortedBy<T>(xs: seq<T>, key: T -> nat) {
    forall i, j :: 0 <= i < j < |xs| ==> key(xs[i]) <= key(xs[j])
  }

  /** Insert `x` in front of the first element whose key is not smaller. */
  function Insert<T>(x: T, xs: seq<T>, key: T -> nat): seq<T> {
    if xs == [] || key(x) <= key(xs[0]) then [x] + xs else [xs[0]] + Insert(x, xs[1..], key)
  }

  /** `sorted(xs, key=key)`: Python's sort is stable, as is this insertion sort. */
  function SortByKey<T>(xs: seq<T>, key: T -> nat): seq<T> {
    if xs == [] then [] else Insert(xs[0], SortByKey(xs[1..], key), key)
  }

  /** The elements with key `k`, in their order. */
  function WithKey<T>(xs: seq<T>, key: T -> nat, k: nat): seq<T> {
    if xs == [] then [] else (if key(xs[0]) == k then [xs[0]] else []) + WithKey(xs[1..], key, k)
  }

  /** The elements labelled `t`, in their order. */
  function OfLabel<T>(xs: seq<T>, typeOf: T -> string, t: string): seq<T> {
    if xs == [] then [] else (if typeOf(xs[0]) == t then [xs[0]] else []) + OfLabel(xs[1..], typeOf, t)
  }

  /** The elements whose label is not in `order`, in their order. */
  function Unknown<T>(xs: seq<T>, typeOf: T -> string, order: seq<string>): seq<T> {
    if xs == [] then [] else (if typeOf(xs[0]) !in order then [xs[0]] else []) + Unknown(xs[1..], typeOf, order)
  }

  /** The key blocks `lo`, `lo + 1`, ..., `hi - 1` one after the other. */
  function ByKeys<T>(xs: seq<T>, key: T -> nat, lo: nat, hi: nat): seq<T>
    decreases hi - lo
  {
    if lo >= hi then [] else WithKey(xs, key, lo) + ByKeys(xs, key, lo + 1, hi)
  }

  /** `for et in types_order: for vals in grouped.get(et, [])`: the buckets in `order`. */
  function Buckets<T>(xs: seq<T>, typeOf: T -> string, order: seq<string>): seq<T> {
    if order == [] then []
    else Buckets(xs, typeOf, order[..|order| - 1]) + OfLabel(xs, typeOf, order[|order| - 1])
  }

  /** How often `t` occurs in `order`. */
  function Count(order: seq<string>, t: string): nat {
    if order == [] then 0
    else Count(order[..|order| - 1], t) + (if order[|order| - 1] == t then 1 else 0)
  }

  /** `s` written `n` times over. */
  function Repeat<T>(s: seq<T>, n: nat): seq<T> {
    if n == 0 then [] else Repeat(s, n - 1) + s
  }

  // ----- filters -----

  lemma {:induction false} OfLabelAppend<T>(a: seq<T>, b: seq<T>, typeOf: T -> string, t: string)
    ensures OfLabel(a + b, typeOf, t) == OfLabel(a, typeOf, t) + OfLabel(b, typeOf, t)
  {
    if a == [] {
      assert a + b == b;
    } else {
      var head := if typeOf(a[0]) == t then [a[0]] else [];
      assert (a + b)[0] == a[0];
      assert (a + b)[1..] == a[1..] + b;
      OfLabelAppend(a[1..], b, typeOf, t);
      assert OfLabel(a + b, typeOf, t) == head + OfLabel(a[1..] + b, typeOf, t);
      assert OfLabel(a, typeOf, t) == head + OfLabel(a[1..], typeOf, t);
    }
  }

  lemma {:induction false} UnknownAppend<T>(a: seq<T>, b: seq<T>, typeOf: T -> string, order: seq<string>)
    ensures Unknown(a + b, typeOf, order) == Unknown(a, typeOf, order) + Unknown(b, typeOf, order)
  {
    if a == [] {
      assert a + b == b;
    } else {
      var head := if typeOf(a[0]) !in order then [a[0]] else [];
      assert (a + b)[0] == a[0];
      assert (a + b)[1..] == a[1..] + b;
      UnknownAppend(a[1..], b, typeOf, order);
      assert Unknown(a + b, typeOf, order) == head + Unknown(a[1..] + b, typeOf, order);
      assert Unknown(a, typeOf, order) == head + Unknown(a[1..], typeOf, order);
    }
  }

  lemma {:induction false} OfLabelOfLabel<T>(xs: seq<T>, typeOf: T -> string, s: string, t: string)
    ensures OfLabel(OfLabel(xs, typeOf, s), typeOf, t) == if s == t then OfLabel(xs, typeOf, t) else []
  {
    if xs != [] {
      OfLabelOfLabel(xs[1..], typeOf, s, t);
      var head := if typeOf(xs[0]) == s then [xs[0]] else [];
      OfLabelAppend(head, OfLabel(xs[1..], typeOf, s), typeOf, t);
    }
  }

  lemma {:induction false} OfLabelMembers<T>(xs: seq<T>, typeOf: T -> string, t: string)
    ensures forall y :: y in OfLabel(xs, typeOf, t) ==> y in xs && typeOf(y) == t
  {
    if xs != [] {
      OfLabelMembers(xs[1..], typeOf, t);
    }
  }

  lemma {:induction false} WithKeyMembers<T>(xs: seq<T>, key: T -> nat, k: nat)
    ensures forall y :: y in WithKey(xs, key, k) ==> key(y) == k
  {
    if xs != [] {
      WithKeyMembers(xs[1..], key, k);
    }
  }

  // ----- the stable sort -----

  /** Inserting `x` puts it in front of every element with its own key. */
  lemma {:induction false} InsertWithKey<T>(x: T, t: seq<T>, key: T -> nat, k: nat)
    ensures WithKey(Insert(x, t, key), key, k) == (if key(x) == k then [x] else []) + WithKey(t, key, k)
  {
    var ins := Insert(x, t, key);
    var hx: seq<T> := if key(x) == k then [x] else [];
    if t == [] || key(x) <= key(t[0]) {
      assert ins == [x] + t;
      assert ins[0] == x && ins[1..] == t;
      assert WithKey(ins, key, k) == hx + WithKey(t, key, k);
    } else {
      var rest := Insert(x, t[1..], key);
      assert ins == [t[0]] + rest;
      assert ins[0] == t[0] && ins[1..] == rest;
      InsertWithKey(x, t[1..], key, k);
      var ht: seq<T> := if key(t[0]) == k then [t[0]] else [];
      assert WithKey(ins, key, k) == ht + WithKey(rest, key, k);
      assert WithKey(t, key, k) == ht + WithKey(t[1..], key, k);
      assert hx == [] || ht == [];
    }
  }

  lemma {:induction false} InsertMultiset<T>(x: T, t: seq<T>, key: T -> nat)
    ensures multiset(Insert(x, t, key)) == multiset(t) + multiset{x}
  {
    if !(t == [] || key(x) <= key(t[0])) {
      InsertMultiset(x, t[1..], key);
      assert t == [t[0]] + t[1..];
    }
  }

  /** Inserting into a sorted sequence keeps it sorted, and keeps every key
      at or above any bound that `x` and all of `t` respect. */
  lemma {:induction false} InsertSorted<T>(x: T, t: seq<T>, key: T -> nat, lb: nat)
    requires SortedBy(t, key)
    requires lb <= key(x) && forall i :: 0 <= i < |t| ==> lb <= key(t[i])
    ensures SortedBy(Insert(x, t, key), key)
    ensures forall i :: 0 <= i < |Insert(x, t, key)| ==> lb <= key(Insert(x, t, key)[i])
  {
    var ins := Insert(x, t, key);
    if t == [] || key(x) <= key(t[0]) {
      assert ins == [x] + t;
      forall i, j | 0 <= i < j < |ins| ensures key(ins[i]) <= key(ins[j]) {
        assert ins[j] == t[j - 1];
        if i > 0 {
          assert ins[i] == t[i - 1];
        } else if j > 1 {
          assert key(t[0]) <= key(t[j - 1]);
        }
      }
      forall i | 0 <= i < |ins| ensures lb <= key(ins[i]) {
        if i > 0 {
          assert ins[i] == t[i - 1];
        }
      }
    } else {
      var tail := t[1..];
      var r := Insert(x, tail, key);
      assert forall i :: 0 <= i < |tail| ==> tail[i] == t[i + 1];
      InsertSorted(x, tail, key, key(t[0]));
      assert ins == [t[0]] + r;
      forall i, j | 0 <= i < j < |ins| ensures key(ins[i]) <= key(ins[j]) {
        assert ins[j] == r[j - 1];
        if i > 0 {
          assert ins[i] == r[i - 1];
        }
      }
      forall i | 0 <= i < |ins| ensures lb <= key(ins[i]) {
        if i > 0 {
          assert ins[i] == r[i - 1];
        }
      }
    }
  }

  /** `sorted(xs, key=key)` is ordered by key. */
  lemma {:induction false} SortSorted<T>(xs: seq<T>, key: T -> nat)
    ensures SortedBy(SortByKey(xs, key), key)
  {
    if xs != [] {
      SortSorted(xs[1..], key);
      InsertSorted(xs[0], SortByKey(xs[1..], key), key, 0);
    }
  }

  lemma {:induction false} SortPermutes<T>(xs: seq<T>, key: T -> nat)
    ensures multiset(SortByKey(xs, key)) == multiset(xs)
  {
    if xs != [] {
      SortPermutes(xs[1..], key);
      InsertMultiset(xs[0], SortByKey(xs[1..], key), key);
      assert xs == [xs[0]] + xs[1..];
    }
  }

  lemma {:induction false} SortStable<T>(xs: seq<T>, key: T -> nat, k: nat)
    ensures WithKey(SortByKey(xs, key), key, k) == WithKey(xs, key, k)
  {
    if xs != [] {
      SortStable(xs[1..], key, k);
      InsertWithKey(xs[0], SortByKey(xs[1..], key), key, k);
    }
  }

  /** `sorted(xs, key=key)` is ordered by key, is a permutation of `xs`, and is
      stable: the elements of any one key keep their relative order. */
  lemma SortByKeySpec<T>(xs: seq<T>, key: T -> nat)
    ensures SortedBy(SortByKey(xs, key), key)
    ensures multiset(SortByKey(xs, key)) == multiset(xs)
    ensures forall k :: WithKey(SortByKey(xs, key), key, k) == WithKey(xs, key, k)
  {
    SortSorted(xs, key);
    SortPermutes(xs, key);
    forall k ensures WithKey(SortByKey(xs, key), key, k) == WithKey(xs, key, k) {
      SortStable(xs, key, k);
    }
  }

  // ----- a stable sort on bounded keys is a bucket concatenation -----

  lemma {:induction false} ByKeysMembers<T>(xs: seq<T>, key: T -> nat, lo: nat, hi: nat)
    ensures forall y :: y in ByKeys(xs, key, lo, hi) ==> lo <= key(y) < hi
    decreases hi - lo
  {
    if lo < hi {
      WithKeyMembers(xs, key, lo);
      ByKeysMembers(xs, key, lo + 1, hi);
    }
  }

  lemma {:induction false} ByKeysSkip<T>(x: T, r: seq<T>, key: T -> nat, lo: nat, hi: nat)
    requires key(x) < lo
    ensures ByKeys([x] + r, key, lo, hi) == ByKeys(r, key, lo, hi)
    decreases hi - lo
  {
    if lo < hi {
      var xr := [x] + r;
      assert xr[0] == x && xr[1..] == r;
      assert WithKey(xr, key, lo) == WithKey(r, key, lo);
      ByKeysSkip(x, r, key, lo + 1, hi);
      assert ByKeys(xr, key, lo, hi) == WithKey(xr, key, lo) + ByKeys(xr, key, lo + 1, hi);
    }
  }

  lemma {:induction false} ByKeysEmpty<T>(key: T -> nat, lo: nat, hi: nat)
    ensures ByKeys([], key, lo, hi) == []
    decreases hi - lo
  {
    if lo < hi {
      ByKeysEmpty(key, lo + 1, hi);
    }
  }

  lemma {:induction false} InsertPast<T>(x: T, w: seq<T>, t: seq<T>, key: T -> nat)
    requires forall y :: y in w ==> key(y) < key(x)
    ensures Insert(x, w + t, key) == w + Insert(x, t, key)
  {
    if w != [] {
      assert (w + t)[0] == w[0] && (w + t)[1..] == w[1..] + t;
      InsertPast(x, w[1..], t, key);
    } else {
      assert w + t == t;
    }
  }

  lemma ByKeysFirst<T>(xs: seq<T>, key: T -> nat, lo: nat, hi: nat)
    requires lo < hi
    ensures ByKeys(xs, key, lo, hi) == WithKey(xs, key, lo) + ByKeys(xs, key, lo + 1, hi)
  {
  }

  lemma WithKeyCons<T>(x: T, r: seq<T>, key: T -> nat, k: nat)
    ensures WithKey([x] + r, key, k) == (if key(x) == k then [x] else []) + WithKey(r, key, k)
  {
    assert ([x] + r)[0] == x && ([x] + r)[1..] == r;
  }

  /** `x` goes in front of the blocks from its own key upwards. */
  lemma InsertAtFirstBlock<T>(x: T, r: seq<T>, key: T -> nat, hi: nat)
    requires key(x) < hi
    ensures Insert(x, WithKey(r, key, key(x)) + ByKeys(r, key, key(x) + 1, hi), key)
      == [x] + (WithKey(r, key, key(x)) + ByKeys(r, key, key(x) + 1, hi))
  {
    var w := WithKey(r, key, key(x));
    var b := ByKeys(r, key, key(x) + 1, hi);
    var s := w + b;
    if s != [] {
      var first := s[0];
      assert first in w || first in b;
      if first in w {
        WithKeyMembers(r, key, key(x));
      } else {
        ByKeysMembers(r, key, key(x) + 1, hi);
      }
      assert key(x) <= key(first);
    }
  }

  lemma InsertIntoOwnBlock<T>(x: T, r: seq<T>, key: T -> nat, hi: nat)
    requires key(x) < hi
    ensures Insert(x, ByKeys(r, key, key(x), hi), key) == ByKeys([x] + r, key, key(x), hi)
  {
    var lo := key(x);
    ByKeysFirst(r, key, lo, hi);
    ByKeysFirst([x] + r, key, lo, hi);
    WithKeyCons(x, r, key, lo);
    ByKeysSkip(x, r, key, lo + 1, hi);
    InsertAtFirstBlock(x, r, key, hi);
  }

  lemma {:induction false} ByKeysSplit<T>(xs: seq<T>, key: T -> nat, lo: nat, m: nat, hi: nat)
    requires lo <= m <= hi
    ensures ByKeys(xs, key, lo, hi) == ByKeys(xs, key, lo, m) + ByKeys(xs, key, m, hi)
    decreases m - lo
  {
    if lo < m {
      ByKeysSplit(xs, key, lo + 1, m, hi);
      ByKeysFirst(xs, key, lo, hi);
      ByKeysFirst(xs, key, lo, m);
    }
  }

  lemma {:induction false} ByKeysBelow<T>(x: T, r: seq<T>, key: T -> nat, lo: nat, hi: nat)
    requires hi <= key(x)
    ensures ByKeys([x] + r, key, lo, hi) == ByKeys(r, key, lo, hi)
    decreases hi - lo
  {
    if lo < hi {
      ByKeysFirst([x] + r, key, lo, hi);
      ByKeysFirst(r, key, lo, hi);
      WithKeyCons(x, r, key, lo);
      assert WithKey([x] + r, key, lo) == WithKey(r, key, lo) by { assert key(x) != lo; }
      ByKeysBelow(x, r, key, lo + 1, hi);
    }
  }

  lemma InsertIntoBlocks<T>(x: T, r: seq<T>, key: T -> nat, lo: nat, hi: nat)
    requires lo <= key(x) < hi
    ensures Insert(x, ByKeys(r, key, lo, hi), key) == ByKeys([x] + r, key, lo, hi)
  {
    var k := key(x);
    var below := ByKeys(r, key, lo, k);
    ByKeysSplit(r, key, lo, k, hi);
    ByKeysSplit([x] + r, key, lo, k, hi);
    ByKeysMembers(r, key, lo, k);
    InsertPast(x, below, ByKeys(r, key, k, hi), key);
    InsertIntoOwnBlock(x, r, key, hi);
    ByKeysBelow(x, r, key, lo, k);
  }

  /** Sorting on keys below `hi` lays out the blocks of keys 0, 1, ..., hi - 1. */
  lemma {:induction false} SortIsByKeys<T>(xs: seq<T>, key: T -> nat, hi: nat)
    requires forall i :: 0 <= i < |xs| ==> key(xs[i]) < hi
    ensures SortByKey(xs, key) == ByKeys(xs, key, 0, hi)
  {
    if xs == [] {
      ByKeysEmpty(key, 0, hi);
    } else {
      SortIsByKeys(xs[1..], key, hi);
      InsertIntoBlocks(xs[0], xs[1..], key, 0, hi);
      assert [xs[0]] + xs[1..] == xs;
    }
  }

  lemma {:induction false} ByKeysSnoc<T>(xs: seq<T>, key: T -> nat, lo: nat, hi: nat)
    requires lo <= hi
    ensures ByKeys(xs, key, lo, hi + 1) == ByKeys(xs, key, lo, hi) + WithKey(xs, key, hi)
    decreases hi - lo
  {
    if lo < hi {
      ByKeysSnoc(xs, key, lo + 1, hi);
    }
  }

  lemma RankOfDistinct(order: seq<string>, i: nat)
    requires Distinct(order) && i < |order|
    ensures order[i] in RankMap(order) && RankMap(order)[order[i]] == i
  {
  }

  lemma {:induction false} RankBlockIsBucket<T>(xs: seq<T>, typeOf: T -> string, order: seq<string>, i: nat)
    requires Distinct(order) && i < |order|
    ensures WithKey(xs, KeyBy(typeOf, RankMap(order), |order|), i) == OfLabel(xs, typeOf, order[i])
  {
    if xs != [] {
      RankBlockIsBucket(xs[1..], typeOf, order, i);
      RankOfDistinct(order, i);
    }
  }

  lemma {:induction false} UnknownBlock<T>(xs: seq<T>, typeOf: T -> string, order: seq<string>)
    ensures WithKey(xs, KeyBy(typeOf, RankMap(order), |order|), |order|) == Unknown(xs, typeOf, order)
  {
    if xs != [] {
      UnknownBlock(xs[1..], typeOf, order);
    }
  }

  lemma {:induction false} RankBlocksAreBuckets<T>(xs: seq<T>, typeOf: T -> string, order: seq<string>, n: nat)
    requires Distinct(order) && n <= |order|
    ensures ByKeys(xs, KeyBy(typeOf, RankMap(order), |order|), 0, n) == Buckets(xs, typeOf, order[..n])
  {
    var key := KeyBy(typeOf, RankMap(order), |order|);
    if n > 0 {
      RankBlocksAreBuckets(xs, typeOf, order, n - 1);
      ByKeysSnoc(xs, key, 0, n - 1);
      RankBlockIsBucket(xs, typeOf, order, n - 1);
      assert order[..n][..n - 1] == order[..n - 1];
    }
  }

  /** How the two implementations order the same elements when the hierarchy
      has no repeated label: `core.py`'s sort equals `cli.py`'s bucket
      concatenation followed by the elements of unknown type, which `core.py`
      keeps (last, in input order) and `cli.py` drops. */
  lemma SortVersusBuckets<T>(xs: seq<T>, typeOf: T -> string, order: seq<string>)
    requires Distinct(order)
    ensures SortByKey(xs, KeyBy(typeOf, RankMap(order), |order|))
         == Buckets(xs, typeOf, order) + Unknown(xs, typeOf, order)
  {
    var key := KeyBy(typeOf, RankMap(order), |order|);
    SortIsByKeys(xs, key, |order| + 1);
    ByKeysSnoc(xs, key, 0, |order|);
    UnknownBlock(xs, typeOf, order);
    RankBlocksAreBuckets(xs, typeOf, order, |order|);
    assert order[..|order|] == order;
  }

  // ----- properties of the buckets -----

  /** Each label's elements appear in the buckets in input order, once per
      occurrence of the label in `order`: never for a label outside it. */
  lemma {:induction false} BucketsOfLabel<T>(xs: seq<T>, typeOf: T -> string, order: seq<string>, t: string)
    ensures OfLabel(Buckets(xs, typeOf, order), typeOf, t) == Repeat(OfLabel(xs, typeOf, t), Count(order, t))
  {
    if order != [] {
      var init := order[..|order| - 1];
      var last := order[|order| - 1];
      BucketsOfLabel(xs, typeOf, init, t);
      OfLabelAppend(Buckets(xs, typeOf, init), OfLabel(xs, typeOf, last), typeOf, t);
      OfLabelOfLabel(xs, typeOf, last, t);
    }
  }

  /** Every emitted element is an input element whose label is in `order`. */
  lemma {:induction false} BucketsMembers<T>(xs: seq<T>, typeOf: T -> string, order: seq<string>)
    ensures forall y :: y in Buckets(xs, typeOf, order) ==> y in xs && typeOf(y) in order
  {
    if order != [] {
      var init := order[..|order| - 1];
      BucketsMembers(xs, typeOf, init);
      OfLabelMembers(xs, typeOf, order[|order| - 1]);
      assert forall t :: t in init ==> t in order;
    }
  }

  /** With distinct labels, the buckets hold no more elements than the input,
      each at most as often, and are ordered by hierarchy position. */
  lemma BucketsOrdered<T>(xs: seq<T>, typeOf: T -> string, order: seq<string>)
    requires Distinct(order)
    ensures multiset(Buckets(xs, typeOf, order)) <= multiset(xs)
    ensures forall i, j :: 0 <= i < j < |Buckets(xs, typeOf, order)| ==>
      Rank(RankMap(order), |order|, typeOf(Buckets(xs, typeOf, order)[i]))
        <= Rank(RankMap(order), |order|, typeOf(Buckets(xs, typeOf, order)[j]))
  {
    var key := KeyBy(typeOf, RankMap(order), |order|);
    var b := Buckets(xs, typeOf, order);
    var u := Unknown(xs, typeOf, order);
    SortVersusBuckets(xs, typeOf, order);
    SortByKeySpec(xs, key);
    BucketsMembers(xs, typeOf, order);
    assert multiset(b + u) == multiset(b) + multiset(u);
    forall i, j | 0 <= i < j < |b|
      ensures Rank(RankMap(order), |order|, typeOf(b[i])) <= Rank(RankMap(order), |order|, typeOf(b[j]))
    {
      assert b[i] == (b + u)[i] && b[j] == (b + u)[j];
      assert b[i] in b && b[j] in b;
    }
  }

  /** `core.py` keeps elements of unknown type: all of them come after every
      element of known type, in their input order, whatever the hierarchy. */
  lemma UnknownKeptLast<T>(xs: seq<T>, typeOf: T -> string, h: seq<string>)
    ensures var s := SortByKey(xs, KeyBy(typeOf, RankMap(h), |h|));
      && (forall i, j :: 0 <= i < j < |s| && typeOf(s[i]) !in h ==> typeOf(s[j]) !in h)
      && Unknown(s, typeOf, h) == Unknown(xs, typeOf, h)
  {
    var key := KeyBy(typeOf, RankMap(h), |h|);
    var s := SortByKey(xs, key);
    SortByKeySpec(xs, key);
    UnknownBlock(xs, typeOf, h);
    UnknownBlock(s, typeOf, h);
    forall i, j | 0 <= i < j < |s| && typeOf(s[i]) !in h ensures typeOf(s[j]) !in h {
      assert key(s[i]) <= key(s[j]);
    }
  }
}
