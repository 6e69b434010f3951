/** Generic facts about sequences used by the session table: distinctness,
    the set of elements, and an order-preserving filter. */
module Seqs {

  /** No element occurs twice. */
  ghost predicate Distinct<T>(s: seq<T>) {
    forall i, j :: 0 <= i < j < |s| ==> s[i] != s[j]
  }

  ghost function Elements<T>(s: seq<T>): set<T> {
    set x | x in s
  }

  /** A sequence without duplicates has as many elements as its length. */
  lemma {:induction false} DistinctCard<T>(s: seq<T>)
    requires Distinct(s)
    ensures |Elements(s)| == |s|
  {
    if s != [] {
      DistinctTail(s);
      DistinctCard(s[1..]);
      assert Elements(s) == {s[0]} + Elements(s[1..]);
    }
  }

  /** The elements of `s` that lie in `ks`, in the order they have in `s`. */
  function Keep<T>(s: seq<T>, ks: set<T>): (r: seq<T>)
    ensures |r| <= |s|
    ensures forall i :: 0 <= i < |r| ==> r[i] in s && r[i] in ks
    ensures forall i :: 0 <= i < |s| && s[i] in ks ==> s[i] in r
  {
    if s == [] then []
    else if s[0] in ks then [s[0]] + Keep(s[1..], ks)
    else Keep(s[1..], ks)
  }

  /** Filtering by a set that holds every element changes nothing. */
  lemma {:induction false} KeepAll<T>(s: seq<T>, ks: set<T>)
    requires forall x :: x in s ==> x in ks
    ensures Keep(s, ks) == s
  {
    if s != [] {
      KeepAll(s[1..], ks);
      assert [s[0]] + s[1..] == s;
    }
  }

  /** Dropping from the filter set an element that is not there changes nothing. */
  lemma {:induction false} KeepWithout<T>(s: seq<T>, ks: set<T>, x: T)
    requires x !in s
    ensures Keep(s, ks - {x}) == Keep(s, ks)
  {
    if s != [] {
      KeepWithout(s[1..], ks, x);
    }
  }

  /** The tail of a sequence without duplicates has none either, and does
      not hold the head. */
  lemma DistinctTail<T>(s: seq<T>)
    requires Distinct(s) && s != []
    ensures Distinct(s[1..]) && s[0] !in s[1..]
  {
    forall i, j | 0 <= i < j < |s[1..]| ensures s[1..][i] != s[1..][j] {
      assert s[1..][i] == s[i + 1] && s[1..][j] == s[j + 1];
    }
    forall j | 0 <= j < |s[1..]| ensures s[1..][j] != s[0] {
      assert s[1..][j] == s[j + 1];
    }
  }

  /** Removing the element at position `p` of a filtered sequence of distinct
      elements is the same as filtering without that element. */
  lemma {:induction false} KeepRemoveAt<T>(s: seq<T>, ks: set<T>, p: nat)
    requires Distinct(s)
    requires p < |Keep(s, ks)|
    ensures Keep(s, ks - {Keep(s, ks)[p]}) == Keep(s, ks)[..p] + Keep(s, ks)[p + 1..]
  {
    DistinctTail(s);
    var r := Keep(s, ks);
    if s[0] !in ks {
      KeepRemoveAt(s[1..], ks, p);
    } else if p == 0 {
      KeepWithout(s[1..], ks, s[0]);
    } else {
      KeepRemoveAt(s[1..], ks, p - 1);
      KeepRemoveLater(s, ks, p);
    }
  }

  /** The step of `KeepRemoveAt` when the head is kept and a later element
      is removed. */
  lemma KeepRemoveLater<T>(s: seq<T>, ks: set<T>, p: nat)
    requires s != [] && s[0] in ks && s[0] !in s[1..] && 0 < p < |Keep(s, ks)|
    requires Keep(s[1..], ks - {Keep(s[1..], ks)[p - 1]}) == Keep(s[1..], ks)[..p - 1] + Keep(s[1..], ks)[p..]
    ensures Keep(s, ks - {Keep(s, ks)[p]}) == Keep(s, ks)[..p] + Keep(s, ks)[p + 1..]
  {
    var r, r' := Keep(s, ks), Keep(s[1..], ks);
    var x := r[p];
    assert r == [s[0]] + r';
    assert x == r'[p - 1] && x in s[1..];
    ConsSlices(s[0], r', p);
    calc {
      Keep(s, ks - {x});
      [s[0]] + Keep(s[1..], ks - {x});
      [s[0]] + (r'[..p - 1] + r'[p..]);
      ([s[0]] + r'[..p - 1]) + r'[p..];
      r[..p] + r[p + 1..];
    }
  }

  /** Slicing a sequence with one element put in front. */
  lemma ConsSlices<T>(a: T, q: seq<T>, n: nat)
    requires 0 < n <= |q|
    ensures ([a] + q)[..n] == [a] + q[..n - 1]
    ensures ([a] + q)[n + 1..] == q[n..]
  {
  }

  /** Filtering keeps relative order: two positions of the filtered sequence
      come from two positions of the original in the same order. */
  lemma {:induction false} KeepOrder<T>(s: seq<T>, ks: set<T>, i: nat, j: nat) returns (i': nat, j': nat)
    requires i < j < |Keep(s, ks)|
    ensures i' < j' < |s| && s[i'] == Keep(s, ks)[i] && s[j'] == Keep(s, ks)[j]
  {
    var r, r' := Keep(s, ks), Keep(s[1..], ks);
    if s[0] in ks {
      assert r == [s[0]] + r';
      if i == 0 {
        assert r[j] == r'[j - 1];
        var k :| 0 <= k < |s[1..]| && s[1..][k] == r[j];
        i', j' := 0, k + 1;
      } else {
        var a, b := KeepOrder(s[1..], ks, i - 1, j - 1);
        i', j' := a + 1, b + 1;
      }
    } else {
      var a, b := KeepOrder(s[1..], ks, i, j);
      i', j' := a + 1, b + 1;
    }
  }
}
