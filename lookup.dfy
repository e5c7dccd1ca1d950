/**
 * Sequence helpers shared by the inventory model: projecting a key out of
 * every element, first-match lookup by key in insertion order, and the two
 * "no duplicates" conditions the inventory keeps (by key, and by identity).
 */
module Lookup {

  /** The "found / not found" result of a lookup (the source returns the element or False). */
  datatype Option<T> = None | Some(value: T)

  /** The key of every element, in order. */
  function KeysOf<T>(s: seq<T>, key: T -> string): (r: seq<string>)
    ensures |r| == |s|
    ensures forall i :: 0 <= i < |s| ==> r[i] == key(s[i])
  {
    if s == [] then [] else KeysOf(s[..|s| - 1], key) + [key(s[|s| - 1])]
  }

  /** The first element, in insertion order, whose key is `k`. */
  function FirstWithKey<T>(s: seq<T>, key: T -> string, k: string): (r: Option<T>)
    ensures r.None? <==> forall i :: 0 <= i < |s| ==> key(s[i]) != k
    ensures r.Some? ==> exists i :: 0 <= i < |s| && s[i] == r.value && key(s[i]) == k &&
                                   forall j :: 0 <= j < i ==> key(s[j]) != k
  {
    if s == [] then None
    else if key(s[0]) == k then Some(s[0])
    else
      var r := FirstWithKey(s[1..], key, k);
      assert r.Some? ==> exists i :: 0 <= i < |s[1..]| && s[1..][i] == r.value && key(s[1..][i]) == k &&
                                     forall j :: 0 <= j < i ==> key(s[1..][j]) != k;
      r
  }

  /** No two elements share a key. */
  ghost predicate KeysDistinct<T>(s: seq<T>, key: T -> string) {
    forall i, j :: 0 <= i < j < |s| ==> key(s[i]) != key(s[j])
  }

  /** No element occurs twice. */
  ghost predicate Distinct<T>(s: seq<T>) {
    forall i, j :: 0 <= i < j < |s| ==> s[i] != s[j]
  }

  /** The match found is determined by its position: the element at the first index with key `k`. */
  lemma FirstWithKeyAt<T>(s: seq<T>, key: T -> string, k: string, i: nat)
    requires i < |s| && key(s[i]) == k
    requires forall j :: 0 <= j < i ==> key(s[j]) != k
    ensures FirstWithKey(s, key, k) == Some(s[i])
  {
  }

  /**
   * Appending an element never changes an existing match; it can only turn a
   * miss on its own key into a hit on itself.
   */
  lemma {:induction false} FirstWithKeyAppend<T>(s: seq<T>, x: T, key: T -> string, k: string)
    ensures FirstWithKey(s + [x], key, k) ==
              if FirstWithKey(s, key, k).Some? then FirstWithKey(s, key, k)
              else if key(x) == k then Some(x)
              else None
  {
    if s != [] {
      assert (s + [x])[1..] == s[1..] + [x];
      if key(s[0]) != k {
        FirstWithKeyAppend(s[1..], x, key, k);
      }
    }
  }

  /** Appending an element whose key is absent keeps the keys distinct, and only then. */
  lemma {:induction false} KeysDistinctAppend<T>(s: seq<T>, x: T, key: T -> string)
    ensures KeysDistinct(s + [x], key) <==>
              KeysDistinct(s, key) && forall i :: 0 <= i < |s| ==> key(s[i]) != key(x)
  {
    var t := s + [x];
    if KeysDistinct(t, key) {
      forall i, j | 0 <= i < j < |s| ensures key(s[i]) != key(s[j]) {
        assert t[i] == s[i] && t[j] == s[j];
      }
      forall i | 0 <= i < |s| ensures key(s[i]) != key(x) {
        assert t[i] == s[i] && t[|s|] == x;
      }
    }
  }

  /** Appending an element not yet present keeps a sequence free of duplicates, and only then. */
  lemma {:induction false} DistinctAppend<T>(s: seq<T>, x: T)
    ensures Distinct(s + [x]) <==> Distinct(s) && x !in s
  {
    var t := s + [x];
    if Distinct(t) {
      forall i, j | 0 <= i < j < |s| ensures s[i] != s[j] {
        assert t[i] == s[i] && t[j] == s[j];
      }
      forall i | 0 <= i < |s| ensures s[i] != x {
        assert t[i] == s[i] && t[|s|] == x;
      }
    }
  }

  /** A sequence is the part before position `i`, the element at `i`, and the part after it. */
  lemma SplitAt<T>(s: seq<T>, i: nat)
    requires i < |s|
    ensures s == s[..i] + ([s[i]] + s[i + 1..])
  {
  }

  /** In a sequence without duplicates every member occurs exactly once. */
  lemma {:induction false} DistinctOccursOnce<T>(s: seq<T>, x: T)
    requires Distinct(s) && x in s
    ensures multiset(s)[x] == 1
  {
    var n := |s| - 1;
    assert s == s[..n] + [s[n]];
    DistinctAppend(s[..n], s[n]);
    if s[n] == x {
      assert x !in s[..n];
    } else {
      assert x in s[..n];
      DistinctOccursOnce(s[..n], x);
    }
  }
}
