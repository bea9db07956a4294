/** The ordering step of `fetchProjects` (src/hooks/useProjects.ts): projects
    that carry an index go to that slot, holes are filled left to right with
    the projects that carry none, the rest are appended, and the holes that
    remain are dropped. */
module ProjectOrder {
  import opened Wrappers

  /** A project as the ordering sees it. The index is a JavaScript field
      that may be undefined or null (both `None` here); negative or
      fractional indices are outside this model. */
  datatype Project = Project(id: string, projectName: string, index: Option<nat>)

  /** The projects that carry an index, in order. */
  function Indexed(s: seq<Project>): (r: seq<Project>)
    ensures |r| <= |s|
  {
    if |s| == 0 then []
    else if s[0].index.Some? then [s[0]] + Indexed(s[1..])
    else Indexed(s[1..])
  }

  /** The projects that carry no index, in order. */
  function Unindexed(s: seq<Project>): (r: seq<Project>)
    ensures |r| <= |s|
  {
    if |s| == 0 then []
    else if s[0].index.None? then [s[0]] + Unindexed(s[1..])
    else Unindexed(s[1..])
  }

  /** The filled slots of a sparse array, in slot order (`filter(p => p !== undefined)`). */
  function Compact(s: seq<Option<Project>>): (r: seq<Project>)
    ensures |r| <= |s|
  {
    if |s| == 0 then []
    else if s[0].Some? then [s[0].value] + Compact(s[1..])
    else Compact(s[1..])
  }

  /** The number of holes of a sparse array. */
  function Holes(s: seq<Option<Project>>): nat {
    if |s| == 0 then 0 else (if s[0].None? then 1 else 0) + Holes(s[1..])
  }

  /** `orderedProjects[i] = p`: writing past the end grows the array with holes. */
  function SetSlot(slots: seq<Option<Project>>, i: nat, p: Project): (r: seq<Option<Project>>)
    ensures |r| == if i < |slots| then |slots| else i + 1
    ensures r[i] == Some(p)
    ensures forall j :: 0 <= j < |r| && j != i ==> r[j] == if j < |slots| then slots[j] else None
  {
    if i < |slots| then slots[i := Some(p)]
    else slots + Gap(i - |slots|) + [Some(p)]
  }

  /** `n` holes. */
  function Gap(n: nat): (r: seq<Option<Project>>)
    ensures |r| == n && forall i :: 0 <= i < n ==> r[i].None?
  {
    seq(n, _ => None)
  }

  /** The slot holds the project that is the last one in `ps` with that index. */
  ghost predicate LastWithIndex(ps: seq<Project>, i: nat, p: Project) {
    exists j :: 0 <= j < |ps| && ps[j] == p && p.index == Some(i)
      && forall j' :: j < j' < |ps| ==> ps[j'].index != Some(i)
  }

  /** What the first loop leaves in `orderedProjects`: slot `i` holds the last
      project with index `i`, and is a hole exactly when no project has index
      `i`; the array ends at the largest index. */
  ghost predicate Placed(slots: seq<Option<Project>>, ps: seq<Project>) {
    && (forall i :: 0 <= i < |slots| && slots[i].Some? ==> LastWithIndex(ps, i, slots[i].value))
    && (forall i :: 0 <= i < |slots| && slots[i].None? ==>
          forall j :: 0 <= j < |ps| ==> ps[j].index != Some(i))
    && (forall j :: 0 <= j < |ps| && ps[j].index.Some? ==>
          ps[j].index.value < |slots| && slots[ps[j].index.value].Some?)
    && (|slots| == 0 || slots[|slots| - 1].Some?)
  }

  /** One iteration of the first loop. */
  function Assign(slots: seq<Option<Project>>, p: Project): seq<Option<Project>> {
    if p.index.None? then slots else SetSlot(slots, p.index.value, p)
  }

  /** One iteration of the first loop keeps `Placed`. */
  lemma PlacedStep(slots: seq<Option<Project>>, ps: seq<Project>, p: Project)
    requires Placed(slots, ps)
    ensures Placed(Assign(slots, p), ps + [p])
  {
    var qs := ps + [p];
    var r := Assign(slots, p);
    assert forall j :: 0 <= j < |ps| ==> qs[j] == ps[j];
    forall i | 0 <= i < |r| && r[i].Some? ensures LastWithIndex(qs, i, r[i].value) {
      if p.index == Some(i) {
        assert qs[|ps|] == p;
      } else {
        assert r[i] == slots[i];
        var j :| 0 <= j < |ps| && ps[j] == slots[i].value && slots[i].value.index == Some(i)
          && forall j' :: j < j' < |ps| ==> ps[j'].index != Some(i);
        assert qs[j] == r[i].value;
      }
    }
    forall i | 0 <= i < |r| && r[i].None?
      ensures forall j :: 0 <= j < |qs| ==> qs[j].index != Some(i)
    {
      if i < |slots| {
        assert slots[i].None?;
      }
    }
  }

  /** The first loop, up to the end of `ps`: each indexed project is written
      to its slot, a later one overwriting an earlier one. */
  function Place(ps: seq<Project>): seq<Option<Project>> {
    if |ps| == 0 then [] else Assign(Place(ps[..|ps| - 1]), ps[|ps| - 1])
  }

  /** After the first loop, slot `i` holds the last project with index `i`,
      is a hole exactly when no project has index `i`, and the array ends at
      the largest index. */
  lemma {:induction false} PlaceIsPlaced(ps: seq<Project>)
    ensures Placed(Place(ps), ps)
  {
    if |ps| > 0 {
      PlaceIsPlaced(ps[..|ps| - 1]);
      assert ps == ps[..|ps| - 1] + [ps[|ps| - 1]];
      PlacedStep(Place(ps[..|ps| - 1]), ps[..|ps| - 1], ps[|ps| - 1]);
    }
  }

  /** The second loop: every hole from left to right takes the next project
      of the pool while the pool lasts. Returns the filled array and the
      projects left in the pool. */
  function Fill(slots: seq<Option<Project>>, pool: seq<Project>): (r: (seq<Option<Project>>, seq<Project>))
    ensures |r.0| == |slots|
    ensures forall i :: 0 <= i < |slots| && slots[i].Some? ==> r.0[i] == slots[i]
    ensures var k := if Holes(slots) <= |pool| then Holes(slots) else |pool|;
      r.1 == pool[k..] && Compact(r.0) == Merge(slots, pool[..k])
    ensures Holes(slots) <= |pool| ==> forall i :: 0 <= i < |slots| ==> r.0[i].Some?
  {
    if |slots| == 0 then ([], pool)
    else if slots[0].None? && |pool| > 0 then
      var rest := Fill(slots[1..], pool[1..]);
      assert pool[1..][..if Holes(slots[1..]) <= |pool| - 1 then Holes(slots[1..]) else |pool| - 1]
        == pool[1..if Holes(slots) <= |pool| then Holes(slots) else |pool|];
      ([Some(pool[0])] + rest.0, rest.1)
    else
      var rest := Fill(slots[1..], pool);
      ([slots[0]] + rest.0, rest.1)
  }

  /** The slot contents with the holes taken, in order, from `fill`, where
      holes beyond the end of `fill` stay empty and are dropped. */
  function Merge(slots: seq<Option<Project>>, fill: seq<Project>): seq<Project> {
    if |slots| == 0 then []
    else if slots[0].Some? then [slots[0].value] + Merge(slots[1..], fill)
    else if |fill| > 0 then [fill[0]] + Merge(slots[1..], fill[1..])
    else Merge(slots[1..], fill)
  }

  /** The whole ordering step. */
  function OrderProjects(ps: seq<Project>): (r: seq<Project>)
  {
    var slots := Place(ps);
    var filled := Fill(slots, Unindexed(ps));
    Compact(filled.0 + seq(|filled.1|, i requires 0 <= i < |filled.1| => Some(filled.1[i])))
  }

  /** Every project of the sparse array as a filled slot. */
  function Wrap(s: seq<Project>): (r: seq<Option<Project>>)
    ensures |r| == |s| && forall i :: 0 <= i < |s| ==> r[i] == Some(s[i])
  {
    seq(|s|, i requires 0 <= i < |s| => Some(s[i]))
  }

  lemma {:induction false} CompactAppend(a: seq<Option<Project>>, b: seq<Option<Project>>)
    ensures Compact(a + b) == Compact(a) + Compact(b)
  {
    if |a| > 0 {
      CompactAppend(a[1..], b);
      assert (a + b)[0] == a[0];
      assert (a + b)[1..] == a[1..] + b;
    } else {
      assert a + b == b;
    }
  }

  lemma {:induction false} CompactWrap(s: seq<Project>)
    ensures Compact(Wrap(s)) == s
  {
    if |s| > 0 {
      CompactWrap(s[1..]);
      assert Wrap(s)[1..] == Wrap(s[1..]);
    }
  }

  lemma {:induction false} IndexedAppend(a: seq<Project>, b: seq<Project>)
    ensures Indexed(a + b) == Indexed(a) + Indexed(b)
    ensures Unindexed(a + b) == Unindexed(a) + Unindexed(b)
  {
    if |a| > 0 {
      IndexedAppend(a[1..], b);
      assert (a + b)[0] == a[0];
      assert (a + b)[1..] == a[1..] + b;
    } else {
      assert a + b == b;
    }
  }

  /** Every project is either indexed or not. */
  lemma {:induction false} SplitMultiset(s: seq<Project>)
    ensures multiset(s) == multiset(Indexed(s)) + multiset(Unindexed(s))
  {
    if |s| > 0 {
      SplitMultiset(s[1..]);
      assert s == [s[0]] + s[1..];
    }
  }

  /** Writing one slot removes at most the project it held and adds `p`. */
  lemma CompactUpdate(slots: seq<Option<Project>>, i: nat, p: Project)
    requires i < |slots|
    ensures multiset(Compact(slots[i := Some(p)])) + multiset(Compact([slots[i]]))
      == multiset(Compact(slots)) + multiset{p}
  {
    var upd := slots[i := Some(p)];
    assert slots == slots[..i] + [slots[i]] + slots[i + 1..];
    assert upd == slots[..i] + [Some(p)] + slots[i + 1..];
    CompactAppend(slots[..i] + [slots[i]], slots[i + 1..]);
    CompactAppend(slots[..i], [slots[i]]);
    CompactAppend(slots[..i] + [Some(p)], slots[i + 1..]);
    CompactAppend(slots[..i], [Some(p)]);
    assert Compact([Some(p)]) == [p];
  }

  /** Writing one slot adds `p` and loses at most what the slot held;
      writing a hole or past the end loses nothing. */
  lemma CompactSetSlot(slots: seq<Option<Project>>, i: nat, p: Project)
    ensures multiset(Compact(SetSlot(slots, i, p))) <= multiset(Compact(slots)) + multiset{p}
    ensures (i >= |slots| || slots[i].None?) ==>
      multiset(Compact(SetSlot(slots, i, p))) == multiset(Compact(slots)) + multiset{p}
  {
    if i < |slots| {
      CompactUpdate(slots, i, p);
    } else {
      CompactPastEnd(slots, i, p);
    }
  }

  /** Writing past the end appends `p` after the holes. */
  lemma CompactPastEnd(slots: seq<Option<Project>>, i: nat, p: Project)
    requires i >= |slots|
    ensures Compact(SetSlot(slots, i, p)) == Compact(slots) + [p]
  {
    var gap := Gap(i - |slots|);
    var front := slots + gap;
    assert SetSlot(slots, i, p) == front + [Some(p)];
    CompactAppend(slots, gap);
    NoSomeCompactEmpty(gap);
    assert Compact(front) == Compact(slots);
    CompactAppend(front, [Some(p)]);
    CompactSingle(p);
  }

  lemma CompactSingle(p: Project)
    ensures Compact([Some(p)]) == [p]
  {
  }

  lemma {:induction false} NoSomeCompactEmpty(s: seq<Option<Project>>)
    requires forall i :: 0 <= i < |s| ==> s[i].None?
    ensures Compact(s) == []
  {
    if |s| > 0 {
      NoSomeCompactEmpty(s[1..]);
    }
  }

  /** No two projects carry the same index. */
  ghost predicate DistinctIndices(ps: seq<Project>) {
    forall i, j :: 0 <= i < j < |ps| && ps[i].index.Some? ==> ps[i].index != ps[j].index
  }

  /** A slot no earlier project claimed is still a hole, or past the end. */
  lemma UnclaimedSlotIsFree(slots: seq<Option<Project>>, ps: seq<Project>, k: nat)
    requires Placed(slots, ps)
    requires forall j :: 0 <= j < |ps| ==> ps[j].index != Some(k)
    ensures k >= |slots| || slots[k].None?
  {
  }

  /** The placed projects are some of the indexed ones: an overwritten
      project is lost. */
  lemma {:induction false} PlaceWithinIndexed(ps: seq<Project>)
    ensures multiset(Compact(Place(ps))) <= multiset(Indexed(ps))
  {
    if |ps| > 0 {
      var init := ps[..|ps| - 1];
      var p := ps[|ps| - 1];
      assert ps == init + [p];
      PlaceWithinIndexed(init);
      IndexedAppend(init, [p]);
      if p.index.Some? {
        CompactSetSlot(Place(init), p.index.value, p);
      }
    }
  }

  /** When no index repeats, every indexed project is placed. */
  lemma {:induction false} PlaceAllIndexed(ps: seq<Project>)
    requires DistinctIndices(ps)
    ensures multiset(Compact(Place(ps))) == multiset(Indexed(ps))
  {
    if |ps| > 0 {
      var init := ps[..|ps| - 1];
      var p := ps[|ps| - 1];
      assert ps == init + [p];
      assert forall j :: 0 <= j < |init| ==> init[j] == ps[j];
      PlaceAllIndexed(init);
      IndexedAppend(init, [p]);
      if p.index.Some? {
        PlaceIsPlaced(init);
        UnclaimedSlotIsFree(Place(init), init, p.index.value);
        CompactSetSlot(Place(init), p.index.value, p);
      }
    }
  }

  /** The slot projects, with the first `|fill|` holes taken from `fill`:
      when slots hold only indexed projects and `fill` only unindexed ones,
      the indexed part is the slot projects and the unindexed part is `fill`. */
  lemma {:induction false} MergeParts(slots: seq<Option<Project>>, fill: seq<Project>)
    requires forall i :: 0 <= i < |slots| && slots[i].Some? ==> slots[i].value.index.Some?
    requires forall i :: 0 <= i < |fill| ==> fill[i].index.None?
    requires |fill| <= Holes(slots)
    ensures Indexed(Merge(slots, fill)) == Compact(slots)
    ensures Unindexed(Merge(slots, fill)) == fill
  {
    if |slots| > 0 {
      if slots[0].Some? {
        MergeParts(slots[1..], fill);
      } else if |fill| > 0 {
        MergeParts(slots[1..], fill[1..]);
        assert fill == [fill[0]] + fill[1..];
      } else {
        MergeParts(slots[1..], fill);
      }
    }
  }

  /** With a filler for every hole, the merge has a project in every slot,
      and each slot project stays at its own position. */
  lemma {:induction false} MergeFull(slots: seq<Option<Project>>, fill: seq<Project>)
    requires |fill| == Holes(slots)
    ensures |Merge(slots, fill)| == |slots|
    ensures forall i :: 0 <= i < |slots| && slots[i].Some? ==> Merge(slots, fill)[i] == slots[i].value
  {
    if |slots| > 0 {
      if slots[0].Some? {
        MergeFull(slots[1..], fill);
      } else {
        MergeFull(slots[1..], fill[1..]);
      }
    }
  }

  /** The projects of the placed array whose slots match their indices come
      out in strictly increasing index order, all at least `base`. */
  lemma {:induction false} CompactAscending(slots: seq<Option<Project>>, base: nat)
    requires forall i :: 0 <= i < |slots| && slots[i].Some? ==> slots[i].value.index == Some(base + i)
    ensures forall i :: 0 <= i < |Compact(slots)| ==>
      Compact(slots)[i].index.Some? && Compact(slots)[i].index.value >= base
    ensures forall i, j :: 0 <= i < j < |Compact(slots)| ==>
      Compact(slots)[i].index.value < Compact(slots)[j].index.value
  {
    if |slots| > 0 {
      CompactAscending(slots[1..], base + 1);
    }
  }

  /** The result is the merged slots followed by the unused pool. */
  lemma OrderProjectsShape(ps: seq<Project>)
    ensures var slots := Place(ps);
      var pool := Unindexed(ps);
      var k := if Holes(slots) <= |pool| then Holes(slots) else |pool|;
      OrderProjects(ps) == Merge(slots, pool[..k]) + pool[k..]
  {
    var slots := Place(ps);
    var filled := Fill(slots, Unindexed(ps));
    assert seq(|filled.1|, i requires 0 <= i < |filled.1| => Some(filled.1[i])) == Wrap(filled.1);
    CompactAppend(filled.0, Wrap(filled.1));
    CompactWrap(filled.1);
  }

  /** Every slot project sits at its own index. */
  lemma SlotsMatchIndices(ps: seq<Project>)
    ensures forall i :: 0 <= i < |Place(ps)| && Place(ps)[i].Some? ==> Place(ps)[i].value.index == Some(i)
  {
    var slots := Place(ps);
    PlaceIsPlaced(ps);
    forall i | 0 <= i < |slots| && slots[i].Some? ensures slots[i].value.index == Some(i) {
      assert LastWithIndex(ps, i, slots[i].value);
    }
  }

  /** The pool holds only projects without an index. */
  lemma {:induction false} UnindexedHaveNone(s: seq<Project>)
    ensures forall i :: 0 <= i < |Unindexed(s)| ==> Unindexed(s)[i].index.None?
  {
    if |s| > 0 {
      UnindexedHaveNone(s[1..]);
    }
  }

  lemma {:induction false} NoIndexedInPool(s: seq<Project>)
    requires forall i :: 0 <= i < |s| ==> s[i].index.None?
    ensures Indexed(s) == [] && Unindexed(s) == s
  {
    if |s| > 0 {
      NoIndexedInPool(s[1..]);
    }
  }

  /** The output splits into the placed projects and the whole pool. */
  lemma OrderProjectsParts(ps: seq<Project>)
    ensures Indexed(OrderProjects(ps)) == Compact(Place(ps))
    ensures Unindexed(OrderProjects(ps)) == Unindexed(ps)
  {
    var slots := Place(ps);
    var pool := Unindexed(ps);
    var k := if Holes(slots) <= |pool| then Holes(slots) else |pool|;
    OrderProjectsShape(ps);
    SlotsMatchIndices(ps);
    assert forall i :: 0 <= i < |slots| && slots[i].Some? ==> slots[i].value.index.Some?;
    UnindexedHaveNone(ps);
    MergeThenRest(slots, pool, k);
  }

  /** Merging slots of indexed projects with the first `k` of a pool of
      unindexed ones, then appending the rest of the pool, splits back into
      the slot projects and the pool. */
  lemma MergeThenRest(slots: seq<Option<Project>>, pool: seq<Project>, k: nat)
    requires forall i :: 0 <= i < |slots| && slots[i].Some? ==> slots[i].value.index.Some?
    requires forall i :: 0 <= i < |pool| ==> pool[i].index.None?
    requires k <= |pool| && k <= Holes(slots)
    ensures Indexed(Merge(slots, pool[..k]) + pool[k..]) == Compact(slots)
    ensures Unindexed(Merge(slots, pool[..k]) + pool[k..]) == pool
  {
    assert pool == pool[..k] + pool[k..];
    MergeParts(slots, pool[..k]);
    IndexedAppend(Merge(slots, pool[..k]), pool[k..]);
    NoIndexedInPool(pool[k..]);
  }

  /** Projects without an index keep their relative input order, and none
      is lost. */
  lemma UnindexedKeepOrder(ps: seq<Project>)
    ensures Unindexed(OrderProjects(ps)) == Unindexed(ps)
  {
    OrderProjectsParts(ps);
  }

  /** A project of the compacted array came from some slot. */
  lemma {:induction false} CompactMember(s: seq<Option<Project>>, p: Project)
    requires p in Compact(s)
    ensures exists i :: 0 <= i < |s| && s[i] == Some(p)
  {
    if s[0] == Some(p) {
      assert s[0] == Some(p);
    } else {
      CompactMember(s[1..], p);
      var i :| 0 <= i < |s[1..]| && s[1..][i] == Some(p);
      assert s[i + 1] == Some(p);
    }
  }

  lemma {:induction false} CompactHas(s: seq<Option<Project>>, i: nat)
    requires i < |s| && s[i].Some?
    ensures s[i].value in Compact(s)
  {
    if i > 0 {
      CompactHas(s[1..], i - 1);
    }
  }

  /** The placed projects, in slot order, have strictly ascending indices. */
  lemma PlacedAscending(ps: seq<Project>)
    ensures forall i :: 0 <= i < |Compact(Place(ps))| ==> Compact(Place(ps))[i].index.Some?
    ensures var c := Compact(Place(ps));
      forall i, j :: 0 <= i < j < |c| ==> c[i].index.value < c[j].index.value
  {
    SlotsMatchIndices(ps);
    CompactAscending(Place(ps), 0);
  }

  /** Indexed projects come out in strictly ascending index order. */
  lemma IndexedAscending(ps: seq<Project>)
    ensures forall i :: 0 <= i < |Indexed(OrderProjects(ps))| ==> Indexed(OrderProjects(ps))[i].index.Some?
    ensures var out := Indexed(OrderProjects(ps));
      forall i, j :: 0 <= i < j < |out| ==> out[i].index.value < out[j].index.value
  {
    var c := Compact(Place(ps));
    OrderProjectsParts(ps);
    PlacedAscending(ps);
    assert Indexed(OrderProjects(ps)) == c;
  }

  /** A placed project is the last input project carrying its index. */
  lemma PlacedIsLast(ps: seq<Project>, p: Project)
    requires p in Compact(Place(ps))
    ensures p.index.Some? && LastWithIndex(ps, p.index.value, p)
  {
    var slots := Place(ps);
    PlaceIsPlaced(ps);
    CompactMember(slots, p);
    var i :| 0 <= i < |slots| && slots[i] == Some(p);
    assert LastWithIndex(ps, i, slots[i].value);
  }

  /** Each indexed project of the output is the last input project carrying
      its index: a project followed later by another with the same index is
      overwritten. */
  lemma LastWins(ps: seq<Project>, p: Project)
    requires p in Indexed(OrderProjects(ps))
    ensures p.index.Some? && LastWithIndex(ps, p.index.value, p)
  {
    OrderProjectsParts(ps);
    PlacedIsLast(ps, p);
  }

  /** Every index that occurs in the input is represented in the output. */
  lemma EveryIndexRepresented(ps: seq<Project>, j: nat)
    requires j < |ps| && ps[j].index.Some?
    ensures exists q :: q in OrderProjects(ps) && q.index == ps[j].index
  {
    var slots := Place(ps);
    OrderProjectsParts(ps);
    PlaceIsPlaced(ps);
    SlotsMatchIndices(ps);
    var k := ps[j].index.value;
    var q := slots[k].value;
    CompactHas(slots, k);
    assert q in Indexed(OrderProjects(ps));
    IndexedIn(OrderProjects(ps), q);
  }

  lemma {:induction false} IndexedIn(s: seq<Project>, p: Project)
    requires p in Indexed(s)
    ensures p in s
  {
    if |s| > 0 && !(s[0].index.Some? && p == s[0]) {
      IndexedIn(s[1..], p);
    }
  }

  /** A sub-multiset of projects holds no more projects than its super-multiset. */
  lemma SubMultisetCard(a: multiset<Project>, b: multiset<Project>)
    requires a <= b
    ensures |a| <= |b|
  {
    assert b == a + (b - a);
  }

  /** The output holds only input projects and is never longer than the
      input. */
  lemma OrderProjectsWithinInput(ps: seq<Project>)
    ensures multiset(OrderProjects(ps)) <= multiset(ps)
    ensures |OrderProjects(ps)| <= |ps|
  {
    var out := OrderProjects(ps);
    OrderProjectsParts(ps);
    SplitMultiset(out);
    SplitMultiset(ps);
    PlaceWithinIndexed(ps);
    SubMultisetCard(multiset(out), multiset(ps));
  }

  /** When no index repeats, the output is a permutation of the input. */
  lemma OrderProjectsPermutation(ps: seq<Project>)
    requires DistinctIndices(ps)
    ensures multiset(OrderProjects(ps)) == multiset(ps)
  {
    var out := OrderProjects(ps);
    OrderProjectsParts(ps);
    SplitMultiset(out);
    SplitMultiset(ps);
    PlaceAllIndexed(ps);
  }

  /** When there are at least as many unindexed projects as holes below the
      largest index, every surviving indexed project sits exactly at its index. */
  lemma {:induction false} EnoughFillersExactPositions(ps: seq<Project>, j: nat)
    requires Holes(Place(ps)) <= |Unindexed(ps)|
    requires j < |ps| && ps[j].index.Some? && LastWithIndex(ps, ps[j].index.value, ps[j])
    ensures ps[j].index.value < |OrderProjects(ps)|
    ensures OrderProjects(ps)[ps[j].index.value] == ps[j]
  {
    var slots := Place(ps);
    var pool := Unindexed(ps);
    var k := Holes(slots);
    var i := ps[j].index.value;
    PlaceIsPlaced(ps);
    OrderProjectsShape(ps);
    MergeFull(slots, pool[..k]);
    LastWithIndexUnique(ps, i, slots[i].value, ps[j]);
  }

  /** Only one project is the last with a given index. */
  lemma LastWithIndexUnique(ps: seq<Project>, i: nat, p: Project, q: Project)
    requires LastWithIndex(ps, i, p) && LastWithIndex(ps, i, q)
    ensures p == q
  {
    var jp :| 0 <= jp < |ps| && ps[jp] == p && p.index == Some(i)
      && forall j' :: jp < j' < |ps| ==> ps[j'].index != Some(i);
    var jq :| 0 <= jq < |ps| && ps[jq] == q && q.index == Some(i)
      && forall j' :: jq < j' < |ps| ==> ps[j'].index != Some(i);
    assert jp == jq;
  }

  /** A project with index 2 and three without: the first two unindexed
      projects fill slots 0 and 1, and the third is appended after slot 2. */
  lemma FillExample(a: Project, b: Project, c: Project, d: Project)
    requires a.index == Some(2) && b.index.None? && c.index.None? && d.index.None?
    ensures OrderProjects([a, b, c, d]) == [b, c, a, d]
  {
    var ps := [a, b, c, d];
    var slots := [None, None, Some(a)];
    assert [a][..0] == [];
    assert Place([a]) == slots;
    assert [a, b][..1] == [a];
    assert Place([a, b]) == slots;
    assert [a, b, c][..2] == [a, b];
    assert Place([a, b, c]) == slots;
    assert ps[..3] == [a, b, c];
    assert Place(ps) == slots;
    assert ps[1..] == [b, c, d] && [b, c, d][1..] == [c, d] && [c, d][1..] == [d] && [d][1..] == [];
    assert Unindexed([d]) == [d];
    assert Unindexed([c, d]) == [c, d];
    assert Unindexed([b, c, d]) == [b, c, d];
    assert Unindexed(ps) == [b, c, d];
    var tail: seq<Option<Project>> := [Some(a)];
    assert slots[1..] == [None] + tail && ([None] + tail)[1..] == tail && tail[1..] == [];
    assert Holes(tail) == 0;
    assert Holes([None] + tail) == 1;
    assert Holes(slots) == 2;
    var pool := [b, c, d];
    assert pool[..2] == [b, c] && pool[2..] == [d] && [b, c][1..] == [c] && [c][1..] == [];
    assert Merge(tail, []) == [a];
    assert Merge([None] + tail, [c]) == [c, a];
    assert Merge(slots, [b, c]) == [b, c, a];
    OrderProjectsShape(ps);
  }
}
