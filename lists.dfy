/** The `java.util.List` operations the workspace relies on, over sequences.
    Element equality is Java's `equals`, which for the class nodes stored in a
    workspace is reference identity. */
module Lists {

  /** No element occurs twice in `s`. */
  predicate NoDuplicates<T(==)>(s: seq<T>)
  {
    forall i, j :: 0 <= i < j < |s| ==> s[i] != s[j]
  }

  /** `List.indexOf`: the position of the first occurrence of `x`. */
  function IndexOf<T(==)>(s: seq<T>, x: T): (i: nat)
    requires x in s
    ensures i < |s| && s[i] == x
    ensures forall j :: 0 <= j < i ==> s[j] != x
  {
    if s[0] == x then 0 else 1 + IndexOf(s[1..], x)
  }

  /** The first occurrence of `x` in a prefix of `s` is its first occurrence in `s`. */
  lemma {:induction false} IndexOfPrefix<T>(s: seq<T>, n: nat, x: T)
    requires n <= |s| && x in s[..n]
    ensures IndexOf(s, x) == IndexOf(s[..n], x)
  {
    var k := IndexOf(s[..n], x);
    assert s[k] == x;
    assert forall j :: 0 <= j < k ==> s[j] == s[..n][j];
  }

  /** `List.remove(Object)`: scans for the first element equal to `x` and
      drops it, keeping the other elements in their order; leaves `s` alone
      when `x` is absent. */
  function RemoveFirst<T(==)>(s: seq<T>, x: T): (r: seq<T>)
    ensures x !in s ==> r == s
    ensures |r| == if x in s then |s| - 1 else |s|
  {
    if s == [] then []
    else if s[0] == x then s[1..]
    else [s[0]] + RemoveFirst(s[1..], x)
  }

  /** `List.remove(x)` takes away exactly one occurrence of `x`, if there is one. */
  lemma {:induction false} RemoveFirstMultiset<T>(s: seq<T>, x: T)
    ensures multiset(RemoveFirst(s, x)) == multiset(s) - multiset{x}
  {
    if s != [] {
      assert s == [s[0]] + s[1..];
      if s[0] != x {
        RemoveFirstMultiset(s[1..], x);
      }
    }
  }

  /** `List.remove(x)` shifts the elements after the first `x` down by one and
      keeps the earlier ones in place, so the other elements keep their
      relative order. */
  lemma {:induction false} RemoveFirstAt<T>(s: seq<T>, x: T, j: nat)
    requires x in s && j < |RemoveFirst(s, x)|
    ensures RemoveFirst(s, x)[j] == if j < IndexOf(s, x) then s[j] else s[j + 1]
  {
    if s[0] != x && j > 0 {
      RemoveFirstAt(s[1..], x, j - 1);
    }
  }

  /** `List.remove(x)` leaves every other element where membership is concerned. */
  lemma {:induction false} RemoveFirstKeepsOthers<T>(s: seq<T>, x: T, c: T)
    requires c != x
    ensures c in RemoveFirst(s, x) <==> c in s
  {
    if s != [] {
      assert s == [s[0]] + s[1..];
      if s[0] != x {
        RemoveFirstKeepsOthers(s[1..], x, c);
      }
    }
  }

  /** Removing an element from a duplicate-free sequence removes it entirely. */
  lemma {:induction false} RemoveFirstFromDistinct<T>(s: seq<T>, x: T)
    requires NoDuplicates(s)
    ensures x !in RemoveFirst(s, x)
    ensures NoDuplicates(RemoveFirst(s, x))
  {
    if x in s {
      var k := IndexOf(s, x);
      var r := RemoveFirst(s, x);
      forall i, j | 0 <= i < j < |r|
        ensures r[i] != r[j]
      {
        RemoveFirstAt(s, x, i);
        RemoveFirstAt(s, x, j);
      }
      forall j | 0 <= j < |r|
        ensures r[j] != x
      {
        RemoveFirstAt(s, x, j);
      }
    }
  }

  /** Keeps the first occurrence of every element, in order: the list that a
      loop builds when it appends each element it has not yet `contains`-ed. */
  function Dedup<T(==,!new)>(s: seq<T>): (r: seq<T>)
    ensures NoDuplicates(r)
    ensures forall x :: x in r <==> x in s
    ensures |r| <= |s|
    decreases |s|
  {
    if s == [] then []
    else
      var d := Dedup(s[..|s| - 1]);
      assert s == s[..|s| - 1] + [s[|s| - 1]];
      if s[|s| - 1] in d then d else d + [s[|s| - 1]]
  }

  /** Appending one element to the input extends `Dedup` by that element exactly
      when it is new. */
  lemma {:induction false} DedupSnoc<T(!new)>(s: seq<T>, x: T)
    ensures Dedup(s + [x]) == if x in Dedup(s) then Dedup(s) else Dedup(s) + [x]
  {
  }

  /** `Dedup` lists elements in the order of their first occurrence in `s`. */
  lemma {:induction false} DedupKeepsFirstOccurrenceOrder<T(!new)>(s: seq<T>)
    ensures forall i, j :: 0 <= i < j < |Dedup(s)| ==>
              IndexOf(s, Dedup(s)[i]) < IndexOf(s, Dedup(s)[j])
  {
    if s != [] {
      var n := |s| - 1;
      var p, x := s[..n], s[n];
      var d := Dedup(p);
      DedupKeepsFirstOccurrenceOrder(p);
      assert s == p + [x];
      DedupSnoc(p, x);
      OrderedSnoc(p, x, d);
    }
  }

  /** Elements of `p` listed in first-occurrence order within `p` stay in that
      order within `p + [x]`, and a new `x` may follow them. */
  lemma {:induction false} OrderedSnoc<T>(p: seq<T>, x: T, d: seq<T>)
    requires forall i :: 0 <= i < |d| ==> d[i] in p
    requires forall i, j :: 0 <= i < j < |d| ==> IndexOf(p, d[i]) < IndexOf(p, d[j])
    ensures forall i, j :: 0 <= i < j < |d| ==> IndexOf(p + [x], d[i]) < IndexOf(p + [x], d[j])
    ensures x !in p ==>
              forall i, j :: 0 <= i < j < |d + [x]| ==>
                IndexOf(p + [x], (d + [x])[i]) < IndexOf(p + [x], (d + [x])[j])
  {
    var s := p + [x];
    assert s[..|p|] == p;
    forall i | 0 <= i < |d|
      ensures IndexOf(s, d[i]) == IndexOf(p, d[i]) < |p|
    {
      IndexOfPrefix(s, |p|, d[i]);
    }
    if x !in p {
      assert IndexOf(s, x) == |p|;
      var e := d + [x];
      forall i, j | 0 <= i < j < |e|
        ensures IndexOf(s, e[i]) < IndexOf(s, e[j])
      {
        assert e[i] == d[i];
        if j < |d| {
          assert e[j] == d[j];
        }
      }
    }
  }

  /** The first element of a non-empty sequence is one of its elements. */
  lemma {:induction false} HeadIsMember<T>(r: seq<T>)
    requires |r| > 0
    ensures r[0] in r
  {
  }

  /** Elements in first-occurrence order within `s`, all of them from a
      prefix of `s`, are in first-occurrence order within that prefix. */
  lemma {:induction false} OrderedInPrefix<T>(s: seq<T>, n: nat, r: seq<T>)
    requires n <= |s|
    requires forall i :: 0 <= i < |r| ==> r[i] in s[..n]
    requires forall i, j :: 0 <= i < j < |r| ==> IndexOf(s, r[i]) < IndexOf(s, r[j])
    ensures forall i, j :: 0 <= i < j < |r| ==> IndexOf(s[..n], r[i]) < IndexOf(s[..n], r[j])
  {
    forall i | 0 <= i < |r|
      ensures IndexOf(s[..n], r[i]) == IndexOf(s, r[i])
    {
      IndexOfPrefix(s, n, r[i]);
    }
  }

  /** When the last element of `s` is new, a sequence listing the elements of
      `s` in first-occurrence order ends with it. */
  lemma {:induction false} OrderedEndsWithNewLast<T>(s: seq<T>, r: seq<T>)
    requires s != [] && s[|s| - 1] !in s[..|s| - 1]
    requires s[|s| - 1] in r
    requires forall i :: 0 <= i < |r| ==> r[i] in s
    requires forall i, j :: 0 <= i < j < |r| ==> IndexOf(s, r[i]) < IndexOf(s, r[j])
    ensures r[|r| - 1] == s[|s| - 1]
  {
  }

  /** `Dedup` is the only duplicate-free sequence with the elements of `s` in
      the order of their first occurrence. */
  lemma {:induction false} DedupUnique<T(!new)>(s: seq<T>, r: seq<T>)
    requires NoDuplicates(r)
    requires forall i :: 0 <= i < |r| ==> r[i] in s
    requires forall i :: 0 <= i < |s| ==> s[i] in r
    requires forall i, j :: 0 <= i < j < |r| ==> IndexOf(s, r[i]) < IndexOf(s, r[j])
    ensures r == Dedup(s)
    decreases |s|, 1
  {
    if s == [] {
      if |r| != 0 {
        HeadIsMember(r);
      }
    } else if s[|s| - 1] in s[..|s| - 1] {
      DedupUniqueOldLast(s, r);
    } else {
      DedupUniqueNewLast(s, r);
    }
  }

  lemma {:induction false} DedupUniqueOldLast<T(!new)>(s: seq<T>, r: seq<T>)
    requires s != [] && s[|s| - 1] in s[..|s| - 1]
    requires NoDuplicates(r)
    requires forall i :: 0 <= i < |r| ==> r[i] in s
    requires forall i :: 0 <= i < |s| ==> s[i] in r
    requires forall i, j :: 0 <= i < j < |r| ==> IndexOf(s, r[i]) < IndexOf(s, r[j])
    ensures r == Dedup(s)
    decreases |s|, 0
  {
    var n := |s| - 1;
    var p, x := s[..n], s[n];
    assert s == p + [x];
    DedupSnoc(p, x);
    forall i | 0 <= i < |r|
      ensures r[i] in p
    {
      assert r[i] in p + [x];
    }
    forall i | 0 <= i < |p|
      ensures p[i] in r
    {
      assert p[i] == s[i];
    }
    OrderedInPrefix(s, n, r);
    DedupUnique(p, r);
  }

  lemma {:induction false} DedupUniqueNewLast<T(!new)>(s: seq<T>, r: seq<T>)
    requires s != [] && s[|s| - 1] !in s[..|s| - 1]
    requires NoDuplicates(r)
    requires forall i :: 0 <= i < |r| ==> r[i] in s
    requires forall i :: 0 <= i < |s| ==> s[i] in r
    requires forall i, j :: 0 <= i < j < |r| ==> IndexOf(s, r[i]) < IndexOf(s, r[j])
    ensures r == Dedup(s)
    decreases |s|, 0
  {
    var n := |s| - 1;
    var p, x := s[..n], s[n];
    assert s == p + [x];
    assert s[n] in r;
    OrderedEndsWithNewLast(s, r);
    var r' := r[..|r| - 1];
    assert r == r' + [x];
    DropNewLastOrdered(s, r, p, x, r');
    DedupUnique(p, r');
    DedupSnoc(p, x);
  }

  /** Dropping a new last element `x` from `s == p + [x]` and from a sequence
      `r == r' + [x]` listing `s` in first-occurrence order leaves `r'` listing
      `p` in first-occurrence order. */
  lemma {:induction false} DropNewLastOrdered<T>(s: seq<T>, r: seq<T>, p: seq<T>, x: T, r': seq<T>)
    requires s == p + [x] && x !in p && r == r' + [x]
    requires NoDuplicates(r)
    requires forall i :: 0 <= i < |r| ==> r[i] in s
    requires forall i :: 0 <= i < |s| ==> s[i] in r
    requires forall i, j :: 0 <= i < j < |r| ==> IndexOf(s, r[i]) < IndexOf(s, r[j])
    ensures NoDuplicates(r')
    ensures forall i :: 0 <= i < |r'| ==> r'[i] in p
    ensures forall i :: 0 <= i < |p| ==> p[i] in r'
    ensures forall i, j :: 0 <= i < j < |r'| ==> IndexOf(p, r'[i]) < IndexOf(p, r'[j])
  {
    DropNewLast(p, x, r');
    assert s[..|p|] == p;
    forall i, j | 0 <= i < j < |r'|
      ensures IndexOf(s, r'[i]) < IndexOf(s, r'[j])
    {
      assert r'[i] == r[i] && r'[j] == r[j];
    }
    OrderedInPrefix(s, |p|, r');
  }

  /** Dropping a new last element from both `p + [x]` and `r' + [x]` keeps `r'`
      listing exactly the elements of `p`. */
  lemma {:induction false} DropNewLast<T>(p: seq<T>, x: T, r': seq<T>)
    requires x !in p
    requires NoDuplicates(r' + [x])
    requires forall i :: 0 <= i < |r' + [x]| ==> (r' + [x])[i] in p + [x]
    requires forall i :: 0 <= i < |p + [x]| ==> (p + [x])[i] in r' + [x]
    ensures NoDuplicates(r')
    ensures forall i :: 0 <= i < |r'| ==> r'[i] in p
    ensures forall i :: 0 <= i < |p| ==> p[i] in r'
  {
    var r := r' + [x];
    forall i, j | 0 <= i < j < |r'|
      ensures r'[i] != r'[j]
    {
      assert r[i] == r'[i] && r[j] == r'[j];
    }
    forall i | 0 <= i < |r'|
      ensures r'[i] in p
    {
      assert r[i] == r'[i] && r[i] != r[|r'|];
      assert r[i] in p + [x];
    }
    forall i | 0 <= i < |p|
      ensures p[i] in r'
    {
      assert (p + [x])[i] == p[i];
      assert p[i] != x;
    }
  }
}
