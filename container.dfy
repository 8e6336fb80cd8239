/** The generic item container of the ticker engine: an ordered sequence of
    entries, searched by predicate and emptied by deleting entries one by one.
    Deletion is by identity: for an object type, `==` in Dafny compares
    references, so two distinct objects with equal fields are different
    entries; for a value type such as `int` it compares values, as `===`
    does for numbers. */
module Containers {
  import opened Seqs

  /** `s` without its first entry equal to `x`; `s` itself when `x` is absent. */
  function RemoveFirst<T(==)>(s: seq<T>, x: T): (r: seq<T>)
    ensures x !in s ==> r == s
    ensures x in s ==> |r| == |s| - 1
  {
    if s == [] then []
    else if s[0] == x then s[1..]
    else
      assert s == [s[0]] + s[1..];
      [s[0]] + RemoveFirst(s[1..], x)
  }

  /** Removing the first `x` takes away exactly one occurrence of `x`, when
      there is one, and no occurrence of anything else. */
  lemma {:induction false} RemoveFirstCounts<T>(s: seq<T>, x: T)
    ensures multiset(RemoveFirst(s, x)) == if x in s then multiset(s) - multiset{x} else multiset(s)
  {
    if s != [] {
      assert s == [s[0]] + s[1..];
      if s[0] != x {
        RemoveFirstCounts(s[1..], x);
      }
    }
  }

  /** When `k` is the first position of `x`, removing the first `x` closes the
      gap at `k` and keeps everything else in order. */
  lemma {:induction false} RemoveFirstAt<T>(s: seq<T>, x: T, k: nat)
    requires k < |s| && s[k] == x
    requires forall j :: 0 <= j < k ==> s[j] != x
    ensures RemoveFirst(s, x) == s[..k] + s[k + 1..]
  {
    if k == 0 {
      assert RemoveFirst(s, x) == s[1..];
      assert s[..0] + s[1..] == s[1..];
    } else {
      var tail := s[1..];
      assert s[0] != x;
      assert forall j :: 0 <= j < k - 1 ==> tail[j] == s[j + 1];
      RemoveFirstAt(tail, x, k - 1);
      calc {
        RemoveFirst(s, x);
        [s[0]] + RemoveFirst(tail, x);
        [s[0]] + (tail[..k - 1] + tail[k..]);
        { assert [s[0]] + tail[..k - 1] == s[..k]; assert tail[k..] == s[k + 1..]; }
        s[..k] + s[k + 1..];
      }
    }
  }

  class Container<T(==)> {
    /** The entries in insertion order. */
    var items: seq<T>

    constructor ()
      ensures items == []
    {
      items := [];
    }

    /** Appends `item`. */
    method Add(item: T)
      modifies this
      ensures items == old(items) + [item]
    {
      items := items + [item];
    }

    /** Every entry satisfying `p`, in container order. */
    method Find(p: T -> bool) returns (found: seq<T>)
      ensures found == Filter(items, p)
    {
      found := [];
      for i := 0 to |items|
        invariant found == Filter(items[..i], p)
      {
        assert items[..i + 1][..i] == items[..i];
        if p(items[i]) {
          found := found + [items[i]];
        }
      }
      assert items[..|items|] == items;
    }

    /** Removes the first entry identical to `item`; does nothing when there
        is none. */
    method Delete(item: T)
      modifies this
      ensures items == RemoveFirst(old(items), item)
    {
      var k := 0;
      while k < |items| && items[k] != item
        invariant 0 <= k <= |items|
        invariant forall j :: 0 <= j < k ==> items[j] != item
      {
        k := k + 1;
      }
      if k < |items| {
        RemoveFirstAt(items, item, k);
        items := items[..k] + items[k + 1..];
      }
    }
  }

  /** Empties `c` by deleting, one at a time, every entry it held on entry. */
  method ClearContainer<T(==)>(c: Container<T>)
    modifies c
    ensures c.items == []
  {
    var entries := c.items;
    for i := 0 to |entries|
      invariant c.items == entries[i..]
    {
      c.Delete(entries[i]);
      assert entries[i..][1..] == entries[i + 1..];
    }
  }

  /** A `find` whose predicate matches exactly `x` yields `x` first once `x`
      has been added, whatever else the container holds. */
  lemma FindsAdded<T>(s: seq<T>, p: T -> bool, x: T)
    requires x in s
    requires forall y :: p(y) <==> y == x
    ensures |Filter(s, p)| > 0 && Filter(s, p)[0] == x
  {
    var k :| 0 <= k < |s| && s[k] == x;
    assert s[k] in Filter(s, p);
  }

  /** After deleting `x`, a `find` for exactly `x` comes back empty if and
      only if `x` was held at most once. */
  lemma FindAfterDelete<T>(s: seq<T>, p: T -> bool, x: T)
    requires forall y :: p(y) <==> y == x
    ensures Filter(RemoveFirst(s, x), p) == [] <==> multiset(s)[x] <= 1
  {
    var r := RemoveFirst(s, x);
    RemoveFirstCounts(s, x);
    assert multiset(r)[x] == if multiset(s)[x] > 0 then multiset(s)[x] - 1 else 0;
    if multiset(s)[x] > 1 {
      assert x in r;
      FindsAdded(r, p, x);
    } else {
      assert multiset(r)[x] == 0;
      forall i | 0 <= i < |r|
        ensures !p(r[i])
      {
        assert r[i] in multiset(r);
      }
      FilterNone(r, p);
    }
  }

  /** Deleting an entry that is not `x` (a distinct object, even one with
      equal fields) leaves `x` findable. */
  lemma DeleteOtherKeeps<T>(s: seq<T>, p: T -> bool, x: T, other: T)
    requires x in s && p(x) && other != x
    ensures x in Filter(RemoveFirst(s, other), p)
  {
    var r := RemoveFirst(s, other);
    RemoveFirstCounts(s, other);
    assert multiset(r)[x] == multiset(s)[x];
    assert x in r;
    var k :| 0 <= k < |r| && r[k] == x;
    assert r[k] in Filter(r, p);
  }
}
