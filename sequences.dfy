/** Searching a list for the first element equal to a value, as Python's
    `for ... if ... == ...` loops and `list.remove` do. */
module Sequences {

  /** The index of the first `x` in `s`, or `|s|` when `x` does not occur. */
  function IndexOf<T(==)>(s: seq<T>, x: T): (i: nat)
    ensures i <= |s|
    ensures i < |s| <==> x in s
    ensures i < |s| ==> s[i] == x
    ensures forall j :: 0 <= j < i ==> s[j] != x
  {
    if s == [] then 0
    else if s[0] == x then 0
    else 1 + IndexOf(s[1..], x)
  }

  /** `s` without its element at index `i`. */
  function RemoveAt<T>(s: seq<T>, i: nat): (r: seq<T>)
    requires i < |s|
    ensures |r| == |s| - 1
    ensures forall j :: 0 <= j < i ==> r[j] == s[j]
    ensures forall j :: i <= j < |r| ==> r[j] == s[j + 1]
    ensures multiset(r) + multiset{s[i]} == multiset(s)
  {
    assert s == s[..i] + [s[i]] + s[i + 1..];
    s[..i] + s[i + 1..]
  }

  /** No value occurs twice. */
  predicate Distinct<T(==)>(s: seq<T>) {
    forall i, j :: 0 <= i < j < |s| ==> s[i] != s[j]
  }

  /** Removing one element of a list without repeats leaves a list without
      repeats holding every other value. */
  lemma RemoveAtDistinct<T>(s: seq<T>, i: nat)
    requires i < |s| && Distinct(s)
    ensures Distinct(RemoveAt(s, i))
    ensures forall x :: x in RemoveAt(s, i) <==> x in s && x != s[i]
  {
    var r := RemoveAt(s, i);
    forall x | x in s && x != s[i] ensures x in r {
      var k :| 0 <= k < |s| && s[k] == x;
      if k < i {
        assert r[k] == x;
      } else {
        assert r[k - 1] == x;
      }
    }
  }

  /** The positions of the `true` flags, in increasing order. */
  function Positions(flags: seq<bool>): (idx: seq<int>)
    ensures forall j :: 0 <= j < |idx| ==> 0 <= idx[j] < |flags| && flags[idx[j]]
    decreases |flags|
  {
    if flags == [] then []
    else
      var earlier := Positions(flags[..|flags| - 1]);
      if flags[|flags| - 1] then earlier + [|flags| - 1] else earlier
  }

  /** The positions are strictly increasing. */
  lemma {:induction false} PositionsIncreasing(flags: seq<bool>)
    ensures forall j1, j2 :: 0 <= j1 < j2 < |Positions(flags)| ==> Positions(flags)[j1] < Positions(flags)[j2]
    decreases |flags|
  {
    if flags != [] {
      var prefix := flags[..|flags| - 1];
      PositionsIncreasing(prefix);
      var earlier, idx := Positions(prefix), Positions(flags);
      assert idx == if flags[|flags| - 1] then earlier + [|flags| - 1] else earlier;
      forall j1, j2 | 0 <= j1 < j2 < |idx| ensures idx[j1] < idx[j2] {
        if j2 < |earlier| {
          assert earlier[j1] < earlier[j2];
        } else {
          assert idx[j2] == |prefix| && earlier[j1] < |prefix|;
        }
      }
    }
  }

  /** Every `true` flag has its position listed. */
  lemma {:induction false} PositionsCover(flags: seq<bool>)
    ensures forall i :: 0 <= i < |flags| && flags[i] ==> i in Positions(flags)
    decreases |flags|
  {
    if flags != [] {
      var prefix := flags[..|flags| - 1];
      PositionsCover(prefix);
      forall i | 0 <= i < |prefix| && flags[i] ensures i in Positions(prefix) {
        assert prefix[i] == flags[i];
      }
    }
  }
}
