/** The `key=value` fragments both `parse_line` implementations fold into a
    dict: each fragment with `=` is split at its first `=`, key and value are
    trimmed, and a later fragment overwrites an earlier one with the same key. */
module Fragments {
  import opened Text

  /** `key.strip()` of a fragment split at its first `=`. */
  function FragmentKey(part: string): string
    requires '=' in part
  {
    Strip(SplitFirst(part, '=').0)
  }

  /** `value.strip()` of a fragment split at its first `=`. */
  function FragmentValue(part: string): string
    requires '=' in part
  {
    Strip(SplitFirst(part, '=').1)
  }

  /** The fragment contains `=` and assigns key `k`. */
  predicate Binds(part: string, k: string) {
    '=' in part && FragmentKey(part) == k
  }

  /** `raw_data` after the loop of `parse_line` has run over `parts`. */
  function Collect(parts: seq<string>): map<string, string> {
    if parts == [] then map[]
    else
      var m := Collect(parts[..|parts| - 1]);
      var p := parts[|parts| - 1];
      if '=' in p then m[FragmentKey(p) := FragmentValue(p)] else m
  }

  /** One more fragment of the loop. */
  lemma CollectStep(parts: seq<string>, i: nat)
    requires i < |parts|
    ensures Collect(parts[..i + 1]) ==
      if '=' in parts[i] then Collect(parts[..i])[FragmentKey(parts[i]) := FragmentValue(parts[i])]
      else Collect(parts[..i])
  {
    assert parts[..i + 1][..i] == parts[..i];
    assert parts[..i + 1][i] == parts[i];
  }

  /** Every key comes from a fragment that contains `=`; fragments without `=` add nothing. */
  lemma {:induction false} CollectKeys(parts: seq<string>)
    ensures forall k :: k in Collect(parts) <==> exists i :: 0 <= i < |parts| && Binds(parts[i], k)
  {
    if parts != [] {
      var n := |parts| - 1;
      var init := parts[..n];
      CollectKeys(init);
      forall k ensures k in Collect(parts) <==> exists i :: 0 <= i < |parts| && Binds(parts[i], k) {
        if Binds(parts[n], k) {
          assert k in Collect(parts);
        } else {
          assert k in Collect(parts) <==> k in Collect(init);
          if k in Collect(init) {
            var i :| 0 <= i < n && Binds(init[i], k);
            assert init[i] == parts[i];
          }
          if i :| 0 <= i < |parts| && Binds(parts[i], k) {
            assert i < n && init[i] == parts[i];
          }
        }
      }
    }
  }

  /** When a key repeats within a line the value of its LAST fragment wins. */
  lemma {:induction false} CollectLastWins(parts: seq<string>, i: nat, k: string)
    requires i < |parts| && Binds(parts[i], k)
    requires forall j :: i < j < |parts| ==> !Binds(parts[j], k)
    ensures k in Collect(parts) && Collect(parts)[k] == FragmentValue(parts[i])
  {
    var init := parts[..|parts| - 1];
    if i < |parts| - 1 {
      assert init[i] == parts[i];
      CollectLastWins(init, i, k);
    }
  }

  /** A fragment splits at its first `=`: the value keeps every later `=`,
      and key and value are trimmed. */
  lemma FragmentAtFirstEquals(key: string, value: string)
    requires '=' !in key
    ensures '=' in key + "=" + value
    ensures FragmentKey(key + "=" + value) == Strip(key)
    ensures FragmentValue(key + "=" + value) == Strip(value)
  {
    assert key + "=" + value == key + ['='] + value;
    SplitFirstAt(key, '=', value);
  }

  lemma SpacesHoldNoEquals(s: string)
    requires AllSpace(s)
    ensures '=' !in s
  {
    assert !IsSpace('=');
  }

  /** Whitespace on either side of a fragment changes neither whether it
      has `=` nor its trimmed key and value. */
  lemma FragmentAround(pre: string, t: string, post: string)
    requires AllSpace(pre) && AllSpace(post)
    ensures '=' in pre + t + post <==> '=' in t
    ensures '=' in t ==>
      FragmentKey(pre + t + post) == FragmentKey(t) && FragmentValue(pre + t + post) == FragmentValue(t)
  {
    SpacesHoldNoEquals(pre);
    SpacesHoldNoEquals(post);
    if '=' in t {
      var (x, y) := SplitFirst(t, '=');
      assert pre + t + post == (pre + x) + ['='] + (y + post);
      SplitFirstAt(pre + x, '=', y + post);
      StripSpacesFirst(pre, x);
      StripSpacesLast(y, post);
    }
  }

  /** Whitespace around a fragment changes neither whether it has `=` nor
      its key and value, since those are trimmed anyway. */
  lemma FragmentOfStripped(p: string)
    ensures '=' in Strip(p) <==> '=' in p
    ensures '=' in p ==> FragmentKey(Strip(p)) == FragmentKey(p) && FragmentValue(Strip(p)) == FragmentValue(p)
  {
    var a, b := StripBounds(p);
    assert p == p[..a] + p[a..b] + p[b..];
    FragmentAround(p[..a], p[a..b], p[b..]);
  }
}
