/** Generic facts about sequences used as ordered sets. */
module Seqs {

  /** No value occurs twice. */
  predicate Distinct<T(==)>(s: seq<T>) {
    forall i, j :: 0 <= i < j < |s| ==> s[i] != s[j]
  }

  /**
   * The values of `s` without repeats, each at its first occurrence: what a
   * JavaScript `Set` built by inserting `s` in order iterates over
   * (`Array.from(new Set(s))`).
   */
  function Dedup<T(==,!new)>(s: seq<T>): (r: seq<T>)
    ensures forall x :: x in r <==> x in s
    ensures Distinct(r)
    ensures |r| <= |s|
  {
    if s == [] then []
    else
      var init := Dedup(s[..|s| - 1]);
      assert s == s[..|s| - 1] + [s[|s| - 1]];
      if s[|s| - 1] in init then init else init + [s[|s| - 1]]
  }

  /** The index of the first occurrence of `x` in `s`. */
  function FirstAt<T(==)>(s: seq<T>, x: T): (k: nat)
    requires x in s
    ensures k < |s| && s[k] == x
    ensures forall j :: 0 <= j < k ==> s[j] != x
  {
    if s[0] == x then 0
    else
      var k := FirstAt(s[1..], x);
      assert forall j :: 0 <= j < 1 + k ==> s[j] != x by {
        forall j | 0 <= j < 1 + k ensures s[j] != x {
          if j > 0 {
            assert s[j] == s[1..][j - 1];
          }
        }
      }
      1 + k
  }

  /** The values of `r` occur in `s`, and `r` lists them in the order of their first occurrences there. */
  predicate InFirstOccurrenceOrder<T(==)>(r: seq<T>, s: seq<T>) {
    forall i, j :: 0 <= i < j < |r| ==> r[i] in s && r[j] in s && FirstAt(s, r[i]) < FirstAt(s, r[j])
  }

  /** A value that first occurs before every value of an ordered `rest` can go in front of it. */
  lemma ConsOrder<T>(x: T, rest: seq<T>, s: seq<T>)
    requires x in s && InFirstOccurrenceOrder(rest, s)
    requires forall k :: 0 <= k < |rest| ==> rest[k] in s && FirstAt(s, x) < FirstAt(s, rest[k])
    ensures InFirstOccurrenceOrder([x] + rest, s)
  {
    var r := [x] + rest;
    forall i, j | 0 <= i < j < |r| ensures r[i] in s && r[j] in s && FirstAt(s, r[i]) < FirstAt(s, r[j]) {
      assert r[j] == rest[j - 1];
      if i > 0 {
        assert r[i] == rest[i - 1];
      }
    }
  }

  /** The first occurrence is the one index holding `x` with no `x` before it. */
  lemma FirstAtUnique<T>(s: seq<T>, x: T, k: nat)
    requires k < |s| && s[k] == x && forall j :: 0 <= j < k ==> s[j] != x
    ensures FirstAt(s, x) == k
  {
  }

  /** A value's first occurrence does not move when elements are appended. */
  lemma FirstAtPrefix<T>(s: seq<T>, t: seq<T>, x: T)
    requires x in s
    ensures x in s + t && FirstAt(s + t, x) == FirstAt(s, x)
  {
    var k := FirstAt(s, x);
    assert (s + t)[k] == x;
    FirstAtUnique(s + t, x, k);
  }

  /** `Dedup` lists the values of `s` in the order of their first occurrences. */
  lemma {:induction false} DedupOrder<T(!new)>(s: seq<T>)
    ensures InFirstOccurrenceOrder(Dedup(s), s)
  {
    if s != [] {
      var n := |s| - 1;
      var init := Dedup(s[..n]);
      DedupOrder(s[..n]);
      assert s == s[..n] + [s[n]];
      forall x | x in init ensures FirstAt(s, x) == FirstAt(s[..n], x) < n {
        FirstAtPrefix(s[..n], [s[n]], x);
      }
      if s[n] !in init {
        assert s[n] !in s[..n];
        FirstAtUnique(s, s[n], n);
        assert Dedup(s) == init + [s[n]];
      }
    }
  }

  /** A sequence without repeats has as many elements as the set of its values. */
  lemma {:induction false} DistinctCard<T>(s: seq<T>)
    requires Distinct(s)
    ensures |set x | x in s| == |s|
  {
    if s != [] {
      DistinctCard(s[1..]);
      assert (set x | x in s) == (set x | x in s[1..]) + {s[0]};
      assert s[0] !in (set x | x in s[1..]);
    }
  }
}
