/** The ticker's container and layout test cases, written as client methods
    whose postconditions are the test's expectations. */
module TickerScenarios {
  import opened Seqs
  import opened Geometry
  import opened Containers
  import opened Layout
  import opened Clones

  /** An object with one numeric field, for the identity cases. */
  class Record {
    const n: int

    constructor (n: int)
      ensures this.n == n
    {
      this.n := n;
    }
  }

  /** The three deletions of `FindAndRemoveNumbers`, worked out once. */
  lemma NumbersDeleted()
    ensures RemoveFirst([123, 456, 789], 456) == [123, 789]
    ensures RemoveFirst([123, 789], 789) == [123]
    ensures RemoveFirst([123], 123) == []
  {
    assert [123, 456, 789][1..] == [456, 789];
    assert [123, 789][1..] == [789];
  }

  /** Three numbers are added; lookups made out of order each find their
      number first; after each number is deleted its lookup comes back empty. */
  method FindAndRemoveNumbers() returns (firsts: seq<int>, afterDelete: seq<seq<int>>)
    ensures firsts == [123, 789, 456]
    ensures afterDelete == [[], [], []]
  {
    var is123: int -> bool := x => x == 123;
    var is456: int -> bool := x => x == 456;
    var is789: int -> bool := x => x == 789;
    var c := new Container<int>();
    c.Add(123);
    c.Add(456);
    c.Add(789);
    var all := c.items;
    assert all == [123, 456, 789];

    var found1 := c.Find(is123);
    var found3 := c.Find(is789);
    var found2 := c.Find(is456);
    FindsAdded(all, is123, 123);
    FindsAdded(all, is789, 789);
    FindsAdded(all, is456, 456);
    firsts := [found1[0], found3[0], found2[0]];

    NumbersDeleted();
    c.Delete(found2[0]);
    FindAfterDelete(all, is456, 456);
    var again2 := c.Find(is456);

    c.Delete(found3[0]);
    FindAfterDelete([123, 789], is789, 789);
    var again3 := c.Find(is789);

    c.Delete(found1[0]);
    FindAfterDelete([123], is123, 123);
    var again1 := c.Find(is123);

    afterDelete := [again2, again3, again1];
  }

  /** Deleting a distinct object with the same field leaves the original
      findable; deleting the original itself removes it. */
  method DeleteByIdentity() returns (afterTwin: seq<Record>, afterSame: seq<Record>)
    ensures |afterTwin| > 0
    ensures afterSame == []
  {
    var c := new Container<Record>();
    var original := new Record(123);
    c.Add(original);

    var twin := new Record(123);
    c.Delete(twin);
    DeleteOtherKeeps([original], (o: Record) => o.n == 123, original, twin);
    afterTwin := c.Find((o: Record) => o.n == 123);

    c.Delete(original);
    assert c.items == [];
    afterSame := c.Find((o: Record) => o.n == 123);
    FilterNone(c.items, (o: Record) => o.n == 123);
  }

  /** After `ClearContainer`, a lookup with any predicate finds nothing. */
  method ClearThenFind(p: Record -> bool) returns (found: seq<Record>)
    ensures found == []
  {
    var c := new Container<Record>();
    var r1 := new Record(1);
    var r2 := new Record(2);
    var r3 := new Record(3);
    c.Add(r1);
    c.Add(r2);
    c.Add(r3);
    ClearContainer(c);
    found := c.Find(p);
    FilterNone(c.items, p);
  }

  /** Nine items at the origin, laid out as a 3 by 3 grid of 123 by 123
      items inside a 300 by 300 area: the same container then holds an item
      at each of (0|123|246, 0|123|246). */
  method LayoutThreeByThree() returns (positions: seq<Vec2>)
    ensures |positions| == 9
    ensures forall col, row :: 0 <= col < 3 && 0 <= row < 3 ==> Vec2(123 * col, 123 * row) in positions
  {
    var c := new Container<Positionable>();
    for k := 0 to 9
      invariant |c.items| == k
      invariant forall i, j :: 0 <= i < j < k ==> c.items[i] != c.items[j]
      invariant forall i :: 0 <= i < k ==> fresh(c.items[i])
    {
      var item := new Positionable(Vec2(0, 0));
      c.Add(item);
    }
    var config := GridConfig(Rect(300, 300), Rect(123, 123), DirectionalCount(3, 3));
    assert PlacedCount(|c.items|, config.repetitions) == 9;
    LayoutGrid(c, config);

    positions := [];
    for k := 0 to 9
      invariant |positions| == k
      invariant forall i :: 0 <= i < k ==> positions[i] == c.items[i].position
    {
      positions := positions + [c.items[k].position];
    }
    forall col, row | 0 <= col < 3 && 0 <= row < 3
      ensures Vec2(123 * col, 123 * row) in positions
    {
      GridCovers(config.itemSize, 3, 3, col, row);
      assert positions[row * 3 + col] == Vec2(123 * col, 123 * row);
    }
  }

  /** Moving the first of three templates to the end. */
  lemma RotateThree(t0: Template, t1: Template, t2: Template)
    ensures [t0, t1, t2][1..] + [t0, t1, t2][..1] == [t1, t2, t0]
  {
  }

  /** A sequence over three templates `t0, t1, t2` runs `t1, t2, t0`, and a
      second sequence without `continuing` repeats it. */
  method SequenceRepeats() returns (t0: Template, t1: Template, t2: Template, first: seq<Clone>, second: seq<Clone>)
    ensures TemplatesOf(first) == [t1, t2, t0]
    ensures first == second
  {
    t0 := new Template();
    t1 := new Template();
    t2 := new Template();
    var cloner := new Cloner();
    cloner.AddTemplate(t0);
    cloner.AddTemplate(t1);
    cloner.AddTemplate(t2);
    ghost var ts := cloner.templates;
    assert ts == [t0, t1, t2];
    first := cloner.CloneSequence(false);
    second := cloner.CloneSequence(false);
    RotateThree(t0, t1, t2);
    TemplatesDetermineClones(first, second);
  }

  /** Removing the middle of three templates with `restore` restores the two
      it keeps and not the removed one; once all are cleared, cloning yields
      nothing. */
  method RemoveRestoresKept() returns (kept0: Template, removed: Template, kept2: Template, none: seq<Clone>)
    ensures kept0.restoreCount == 1 && kept2.restoreCount == 1 && removed.restoreCount == 0
    ensures none == []
  {
    kept0 := new Template();
    removed := new Template();
    kept2 := new Template();
    var cloner := new Cloner();
    cloner.AddTemplate(kept0);
    cloner.AddTemplate(removed);
    cloner.AddTemplate(kept2);
    assert multiset([kept0, removed, kept2])[kept0] == 1;
    assert multiset([kept0, removed, kept2])[kept2] == 1;
    cloner.RemoveTemplate(removed, true);
    cloner.ClearTemplates();
    none := cloner.Clone(5);
  }
}
