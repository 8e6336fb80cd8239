/** The template cloner: an ordered list of registered templates and a
    cursor that hands out clones round-robin through them. */
module Clones {
  import opened Seqs
  import opened Arith

  /** A registered template: an opaque handle for the original elements it
      captured. Putting them back under their parent is recorded by a ghost
      counter of `Restore` calls. */
  class Template {
    ghost var restoreCount: nat

    constructor ()
      ensures restoreCount == 0
    {
      restoreCount := 0;
    }

    method Restore()
      modifies this
      ensures restoreCount == old(restoreCount) + 1
    {
      restoreCount := restoreCount + 1;
    }
  }

  /** A duplicate of a template's representative element. */
  datatype Clone = CloneOf(template: Template)

  /** The templates the clones of `cs` were made from, in order. */
  function TemplatesOf(cs: seq<Clone>): (ts: seq<Template>)
    ensures |ts| == |cs|
    ensures forall i :: 0 <= i < |cs| ==> ts[i] == cs[i].template
  {
    if cs == [] then [] else [cs[0].template] + TemplatesOf(cs[1..])
  }

  /** A clone is nothing but the template it was made from. */
  lemma TemplatesDetermineClones(a: seq<Clone>, b: seq<Clone>)
    requires TemplatesOf(a) == TemplatesOf(b)
    ensures a == b
  {
    assert |a| == |b|;
    forall i | 0 <= i < |a|
      ensures a[i] == b[i]
    {
      assert a[i].template == TemplatesOf(a)[i] == TemplatesOf(b)[i] == b[i].template;
    }
  }

  /** The cursor after one `getNextTemplate` step over `count` templates:
      it wraps to 0 once it would reach `count`. From any cursor the cloner
      can hold, this is the successor modulo `count`, always a valid index. */
  function NextIndex(cursor: int, count: nat): (r: int)
    ensures count > 0 && -1 <= cursor < count ==> 0 <= r < count && r == (cursor + 1) % count
    ensures count == 0 && -1 <= cursor ==> r == 0
  {
    if cursor + 1 >= count then 0 else cursor + 1
  }

  /** The cursor after `n` consecutive `getNextTemplate` steps. */
  function Advance(cursor: int, count: nat, n: nat): (r: int)
    ensures count > 0 && -1 <= cursor < count ==> -1 <= r < count && (n > 0 ==> 0 <= r)
  {
    if n == 0 then cursor else NextIndex(Advance(cursor, count, n - 1), count)
  }

  /** After `n >= 1` steps from a valid cursor `c`, the cursor is `(c + n) mod count`. */
  lemma {:induction false} AdvanceIsModular(cursor: int, count: nat, n: nat)
    requires count > 0 && -1 <= cursor < count && n >= 1
    ensures Advance(cursor, count, n) == (cursor + n) % count
  {
    if n == 1 {
      assert Advance(cursor, count, 0) == cursor;
    } else {
      AdvanceIsModular(cursor, count, n - 1);
      ModSucc(cursor + n - 1, count);
    }
  }

  /** A full cycle of `count` steps brings a cursor in `[0, count)` back to itself. */
  lemma FullCycleReturns(cursor: int, count: nat)
    requires 0 <= cursor < count
    ensures Advance(cursor, count, count) == cursor
  {
    AdvanceIsModular(cursor, count, count);
    DivModUnique(cursor + count, count, 1, cursor);
  }

  /** Clone `i` of a sequence seeded at cursor 0 uses template `i + 1`, except
      the last, which wraps to template 0. */
  lemma SequenceIndex(i: int, count: int)
    requires 0 <= i < count
    ensures (0 + 1 + i) % count == if i < count - 1 then i + 1 else 0
  {
    if i < count - 1 {
      DivModUnique(1 + i, count, 0, i + 1);
    } else {
      DivModUnique(1 + i, count, 1, 0);
    }
  }

  /** Moving the first template to the end keeps every entry exactly once. */
  lemma RotationKeepsEntries(ts: seq<Template>)
    ensures |ts| > 0 ==> multiset(ts[1..] + ts[..1]) == multiset(ts)
  {
    if |ts| > 0 {
      assert ts == ts[..1] + ts[1..];
    }
  }

  /** The templates left after removing every entry identical to `selected`. */
  function Without(ts: seq<Template>, selected: Template): (r: seq<Template>)
    ensures |r| <= |ts|
    ensures forall i :: 0 <= i < |r| ==> r[i] in ts && r[i] != selected
  {
    Filter(ts, t => t != selected)
  }

  /** `Without` drops exactly the entries identical to `selected` and keeps
      every other entry, with its multiplicity, in the original order. */
  lemma WithoutSpec(ts: seq<Template>, selected: Template)
    ensures selected !in Without(ts, selected)
    ensures forall t :: t in ts && t != selected ==> t in Without(ts, selected)
    ensures forall t :: t != selected ==> multiset(Without(ts, selected))[t] == multiset(ts)[t]
    ensures |Without(ts, selected)| == |ts| - multiset(ts)[selected]
    ensures selected !in ts ==> Without(ts, selected) == ts
  {
    forall t | t != selected
      ensures multiset(Without(ts, selected))[t] == multiset(ts)[t]
    {
      FilterCounts(ts, t => t != selected, t);
    }
    FilterCounts(ts, t => t != selected, selected);
    SizeFromCounts(ts, selected);
    if selected !in ts {
      FilterKeepsAll(ts, t => t != selected);
    }
  }

  /** The length of `Without(ts, x)` is what the counts say. */
  lemma {:induction false} SizeFromCounts(ts: seq<Template>, x: Template)
    ensures |Without(ts, x)| == |ts| - multiset(ts)[x]
  {
    if ts != [] {
      var init, last := ts[..|ts| - 1], ts[|ts| - 1];
      assert ts == init + [last];
      SizeFromCounts(init, x);
    }
  }

  /** How many times removing `selected` from `ts` restores `t`: once per
      entry of `t` when `restore` is set and `t` is kept, otherwise never. */
  ghost function Restores(ts: seq<Template>, selected: Template, restore: bool, t: Template): nat
  {
    if restore && t != selected then multiset(ts)[t] else 0
  }

  /** Extending a prefix by one entry adds that entry once to the restores
      when it is kept, and appends it to the kept entries. */
  lemma PrefixStep(ts: seq<Template>, i: nat, selected: Template, restore: bool)
    requires i < |ts|
    ensures forall t ::
      Restores(ts[..i + 1], selected, restore, t) ==
      Restores(ts[..i], selected, restore, t) + (if t == ts[i] && restore && t != selected then 1 else 0)
    ensures Without(ts[..i + 1], selected) == Without(ts[..i], selected) + (if ts[i] != selected then [ts[i]] else [])
  {
    assert ts[..i + 1] == ts[..i] + [ts[i]];
    assert ts[..i + 1][..i] == ts[..i];
  }

  /** The filter loop of `removeTemplate`: the entries of `all` that are not
      `selected`, in order, each restored as it is kept when `restore` is set. */
  method KeepOthers(all: seq<Template>, selected: Template, restore: bool) returns (kept: seq<Template>)
    modifies all
    ensures kept == Without(all, selected)
    ensures forall t :: t in all ==> t.restoreCount == old(t.restoreCount) + Restores(all, selected, restore, t)
  {
    kept := [];
    for i := 0 to |all|
      invariant kept == Without(all[..i], selected)
      invariant forall t :: t in all ==> t.restoreCount == old(t.restoreCount) + Restores(all[..i], selected, restore, t)
    {
      var t := all[i];
      PrefixStep(all, i, selected, restore);
      if t != selected {
        if restore {
          t.Restore();
        }
        kept := kept + [t];
      }
    }
    assert all[..|all|] == all;
  }

  /** One round of `clearTemplates`: when `ts` holds at most the entries
      `all[i..]`, removing `all[i]` leaves at most the entries `all[i + 1..]`. */
  lemma ClearStep(ts: seq<Template>, all: seq<Template>, i: nat)
    requires i < |all| && multiset(ts) <= multiset(all[i..])
    ensures multiset(Without(ts, all[i])) <= multiset(all[i + 1..])
    ensures forall t :: t in Without(ts, all[i]) ==> t in ts
  {
    assert all[i..] == [all[i]] + all[i + 1..];
    WithoutSpec(ts, all[i]);
    forall t | t in Without(ts, all[i])
      ensures t in ts
    {
      FilterCounts(ts, u => u != all[i], t);
    }
  }

  /** The cloner: `templates` in registration order and `cursor`, the index
      of the template used last (-1 before any). */
  class Cloner {
    var templates: seq<Template>
    var cursor: int

    /** The cursor is -1, a valid index, or 0 over an empty list (where
        `getNextTemplate` and `cloneSequence` leave it). */
    ghost predicate Valid()
      reads this
    {
      -1 <= cursor && (cursor == 0 || cursor < |templates|)
    }

    constructor ()
      ensures Valid() && templates == [] && cursor == -1
    {
      templates := [];
      cursor := -1;
    }

    /** Registers `t` at the end; the cursor is kept. */
    method AddTemplate(t: Template)
      requires Valid()
      modifies this
      ensures Valid()
      ensures templates == old(templates) + [t] && cursor == old(cursor)
    {
      templates := templates + [t];
    }

    /** Drops every entry identical to `selected`, keeping the rest in order,
        and resets the cursor to -1 whether or not `selected` was registered.
        With `restore`, `Restore` is called once per KEPT entry, never on
        `selected`. */
    method RemoveTemplate(selected: Template, restore: bool)
      requires Valid()
      modifies this, templates
      ensures Valid()
      ensures templates == Without(old(templates), selected)
      ensures cursor == -1
      ensures forall t :: t in old(templates) ==>
        t.restoreCount == old(t.restoreCount) + (if restore && t != selected then multiset(old(templates))[t] else 0)
    {
      templates := KeepOthers(templates, selected, restore);
      cursor := -1;
    }

    /** Removes every template, without restoring any. The loop walks the list
        as it was on entry, so the list ends empty; the cursor ends at -1 unless
        there was nothing to remove, in which case it is untouched. */
    method ClearTemplates()
      requires Valid()
      modifies this, templates
      ensures Valid()
      ensures templates == []
      ensures cursor == if old(templates) == [] then old(cursor) else -1
      ensures forall t :: t in old(templates) ==> t.restoreCount == old(t.restoreCount)
    {
      var all := templates;
      for i := 0 to |all|
        invariant Valid()
        invariant forall t :: t in templates ==> t in all
        invariant multiset(templates) <= multiset(all[i..])
        invariant cursor == if i == 0 then old(cursor) else -1
        invariant forall t :: t in all ==> t.restoreCount == old(t.restoreCount)
      {
        ClearStep(templates, all, i);
        RemoveTemplate(all[i], false);
      }
      assert all[|all|..] == [];
    }

    /** Advances the cursor one step and returns the template it now points
        at; with no templates the cursor becomes 0 and there is nothing to
        return (`null`). */
    method GetNextTemplate() returns (t: Template?)
      requires Valid()
      modifies this
      ensures Valid() && templates == old(templates)
      ensures cursor == NextIndex(old(cursor), |templates|)
      ensures |templates| == 0 ==> t == null
      ensures |templates| > 0 ==> t == templates[cursor] && cursor == (old(cursor) + 1) % |templates|
    {
      if cursor + 1 >= |templates| {
        cursor := 0;
      } else {
        cursor := cursor + 1;
      }
      t := if cursor < |templates| then templates[cursor] else null;
    }

    /** `n` clones round-robin from the template after the cursor: clone `i`
        is made from template `(cursor + 1 + i) mod count`, and the cursor ends
        at `(cursor + n) mod count`. With no templates, nothing is cloned and
        the cursor is untouched; a non-positive `n` clones nothing. */
    method Clone(n: int) returns (clones: seq<Clone>)
      requires Valid()
      modifies this
      ensures Valid() && templates == old(templates)
      ensures |clones| == if |templates| > 0 && n > 0 then n else 0
      ensures forall i :: 0 <= i < |clones| ==> clones[i].template == templates[(old(cursor) + 1 + i) % |templates|]
      ensures cursor == if |templates| > 0 && n > 0 then (old(cursor) + n) % |templates| else old(cursor)
    {
      clones := [];
      if |templates| > 0 {
        var i := 0;
        while i < n
          invariant 0 <= i <= (if n > 0 then n else 0)
          invariant Valid() && templates == old(templates)
          invariant cursor == Advance(old(cursor), |templates|, i)
          invariant i > 0 ==> cursor == (old(cursor) + i) % |templates|
          invariant |clones| == i
          invariant forall j :: 0 <= j < i ==> clones[j].template == templates[(old(cursor) + 1 + j) % |templates|]
        {
          var t := GetNextTemplate();
          AdvanceIsModular(old(cursor), |templates|, i + 1);
          clones := clones + [CloneOf(t)];
          i := i + 1;
        }
      }
    }

    /** One clone of every template. The cursor is first set to 0, so the
        clones are made from templates 1, 2, ..., count - 1, 0: every template
        exactly once. With `continuing` the cursor is then put back where it
        was; without it the cursor ends at 0, so the next call repeats the
        same order. */
    method CloneSequence(continuing: bool) returns (clones: seq<Clone>)
      requires Valid()
      modifies this
      ensures Valid() && templates == old(templates)
      ensures |clones| == |templates|
      ensures |templates| > 0 ==> TemplatesOf(clones) == templates[1..] + templates[..1]
      ensures multiset(TemplatesOf(clones)) == multiset(templates)
      ensures cursor == if continuing then old(cursor) else 0
    {
      var previous := cursor;
      cursor := 0;
      clones := Clone(|templates|);
      if |templates| > 0 {
        var n := |templates|;
        DivModUnique(0 + n, n, 1, 0);
        var rotated := templates[1..] + templates[..1];
        assert |rotated| == n == |TemplatesOf(clones)|;
        forall i | 0 <= i < n
          ensures TemplatesOf(clones)[i] == rotated[i]
        {
          SequenceIndex(i, n);
          assert TemplatesOf(clones)[i] == clones[i].template;
          if i < n - 1 {
            assert rotated[i] == templates[i + 1];
          } else {
            assert rotated[i] == templates[0];
          }
        }
      }
      RotationKeepsEntries(templates);
      if continuing {
        cursor := previous;
      }
    }
  }
}
