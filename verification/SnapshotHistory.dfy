/** The listed history of snapshots, and what whole runs of the manager do to it. */
module SnapshotHistory {
  import opened Common
  import opened Dicts
  import opened Sorting
  import opened Snapshots

  /** Ids come from a counter that is ahead of every stored one. */
  ghost predicate Wf(w: World) {
    forall id <- w.snapshots :: id.n < w.next
  }

  function SnapIds(w: World): set<SnapId> {
    set id <- w.snapshots | id.Snap?
  }

  function CreatedAt(w: World, id: SnapId): real {
    match Load(w, id)
    case None => 0.0
    case Some(s) => s.createdAt
  }

  function Age(w: World): SnapId -> real {
    id => CreatedAt(w, id)
  }

  /** The ids whose files parse. */
  function Readable(w: World, ids: seq<SnapId>): seq<SnapId> {
    if ids == [] then []
    else
      var last := ids[|ids| - 1];
      var rest := Readable(w, ids[..|ids| - 1]);
      if Load(w, last).Some? then rest + [last] else rest
  }

  /** `list_snapshots`, by id: oldest first, whatever the order of the directory. */
  function List(o: Oracle, w: World): seq<SnapId> {
    SortBy(Readable(w, o.glob(w.ops, SnapIds(w))), Age(w))
  }

  /** `create_snapshot`: nothing is returned when the snapshot cannot be saved. */
  function Create(o: Oracle, w: World, title: string, now: real): (World, Option<SnapId>) {
    var id := Snap(w.next);
    var (w1, ok) := SaveSnapshot(o, w.(next := w.next + 1), id, Snapshot(title, now, w.files));
    (w1, if ok then Some(id) else None)
  }

  /** `rewind`: the outcome of the restore is not looked at. */
  function Rewind(o: Oracle, w: World, steps: nat, now: real): (World, Option<Snapshot>)
    requires o.Wf()
  {
    var list := List(o, w);
    if |list| < steps + 1 then (w, None)
    else
      var id := list[|list| - (steps + 1)];
      var w1 := Restore(o, w, id, now).0;
      (w1, Load(w1, id))
  }

  // ----- the listing

  lemma {:induction false} ReadableMeaning(w: World, ids: seq<SnapId>)
    requires Distinct(ids)
    ensures Lists(Readable(w, ids), set id <- ids | Load(w, id).Some?)
  {
    if ids != [] {
      var start, last := ids[..|ids| - 1], ids[|ids| - 1];
      ReadableMeaning(w, start);
      assert ids == start + [last] && last !in start;
      assert last !in Readable(w, start);
      assert Readable(w, ids) == if Load(w, last).Some? then Readable(w, start) + [last] else Readable(w, start);
      assert forall id :: id in ids <==> id in start || id == last;
    }
  }

  function History(w: World): set<SnapId> {
    set id <- SnapIds(w) | Load(w, id).Some?
  }

  ghost predicate OldestFirst(w: World, list: seq<SnapId>) {
    forall i, j :: 0 <= i < j < |list| && Load(w, list[i]).Some? && Load(w, list[j]).Some? ==>
                     Load(w, list[i]).value.createdAt <= Load(w, list[j]).value.createdAt
  }

  lemma SortedIsOldestFirst(w: World, list: seq<SnapId>)
    requires SortedBy(list, Age(w))
    ensures OldestFirst(w, list)
  {
    var key := Age(w);
    forall i, j | 0 <= i < j < |list| && Load(w, list[i]).Some? && Load(w, list[j]).Some?
      ensures Load(w, list[i]).value.createdAt <= Load(w, list[j]).value.createdAt
    {
      assert key(list[i]) <= key(list[j]);
    }
  }

  /** The list holds every snapshot that can be loaded, once, from oldest to newest. */
  lemma ListingIsHistory(o: Oracle, w: World)
    requires o.Wf()
    ensures Lists(List(o, w), History(w)) && |List(o, w)| == |History(w)|
    ensures SortedBy(List(o, w), Age(w)) && OldestFirst(w, List(o, w))
  {
    var ids := o.glob(w.ops, SnapIds(w));
    assert Lists(ids, SnapIds(w));
    ReadableMeaning(w, ids);
    var key := Age(w);
    var found := Readable(w, ids);
    SortIsSorted(found, key);
    SortIsDistinct(found, key);
    SameElements(found, SortBy(found, key));
    ListsEach(List(o, w), History(w));
    SortedIsOldestFirst(w, List(o, w));
  }

  /** Later snapshots have later creation times. */
  ghost predicate ClockMovesOn(w: World) {
    forall i, j :: i in History(w) && j in History(w) && i.n < j.n ==> CreatedAt(w, i) < CreatedAt(w, j)
  }

  ghost predicate Ascending(ids: seq<SnapId>) {
    forall i, j :: 0 <= i < j < |ids| ==> ids[i].n < ids[j].n
  }

  lemma ListingIsAscending(o: Oracle, w: World)
    requires o.Wf() && ClockMovesOn(w)
    ensures Ascending(List(o, w))
  {
    ListingIsHistory(o, w);
    var list := List(o, w);
    var key := Age(w);
    forall i, j | 0 <= i < j < |list|
      ensures list[i].n < list[j].n
    {
      assert list[i] in History(w) && list[j] in History(w) && list[i] != list[j];
      assert key(list[i]) <= key(list[j]);
      assert CreatedAt(w, list[i]) <= CreatedAt(w, list[j]);
    }
  }

  function Newer(w: World, id: SnapId): set<SnapId> {
    set i <- History(w) | i.n > id.n
  }

  lemma NewerIsTail(o: Oracle, w: World, k: nat)
    requires o.Wf() && ClockMovesOn(w) && k < |List(o, w)|
    ensures |Newer(w, List(o, w)[k])| == |List(o, w)| - k - 1
  {
    ListingIsHistory(o, w);
    ListingIsAscending(o, w);
    TailIsNewer(w, List(o, w), k);
    ListsEach(List(o, w)[k + 1..], Newer(w, List(o, w)[k]));
  }

  lemma TailIsNewer(w: World, list: seq<SnapId>, k: nat)
    requires Lists(list, History(w)) && Ascending(list) && k < |list|
    ensures Lists(list[k + 1..], Newer(w, list[k]))
  {
    forall id
      ensures id in list[k + 1..] <==> id in list && id.n > list[k].n
    {
      if id in list && id.n > list[k].n {
        var i :| 0 <= i < |list| && list[i] == id;
        assert i > k;
        assert id == list[k + 1..][i - k - 1];
      }
      if id in list[k + 1..] {
        var i :| 0 <= i < |list| - k - 1 && list[k + 1..][i] == id;
        assert list[k + 1 + i] == id;
      }
    }
  }

  // ----- what an operation keeps

  /** Snapshots that were there before are there unchanged, or are gone. */
  ghost predicate Kept(w: World, w': World) {
    && w.next <= w'.next
    && forall id <- w'.snapshots :: id.n < w.next ==> id in w.snapshots && w'.snapshots[id] == w.snapshots[id]
  }

  ghost predicate SameHistory(w: World, w': World) {
    && SnapIds(w') == SnapIds(w)
    && forall id <- SnapIds(w) :: w'.snapshots[id] == w.snapshots[id]
  }

  lemma RestoreKeepsHistory(o: Oracle, w: World, id: SnapId, now: real)
    requires o.Wf() && Wf(w)
    ensures var w' := Restore(o, w, id, now).0;
            Wf(w') && Kept(w, w') && SameHistory(w, w')
  {
    if Load(w, id).Some? {
      var target := Load(w, id).value.files;
      var rollback := Rollback(w.next);
      var (w1, ok) := Attempt(o, w, target, now);
      AttemptMeaning(o, w, target, now);
      AttemptKeepsSnapshots(o, w, target, now);
      UndoMeaning(o, w1, rollback);
      forall i
        ensures i != rollback ==> (i in w1.snapshots <==> i in w.snapshots)
        ensures i != rollback && i in w.snapshots ==> w1.snapshots[i] == w.snapshots[i]
      {
        assert i != rollback ==> (i in w1.snapshots - {rollback} <==> i in w.snapshots - {rollback});
        assert i != rollback && i in w.snapshots ==> (w1.snapshots - {rollback})[i] == (w.snapshots - {rollback})[i];
      }
    }
  }

  ghost predicate IsNthBefore(w: World, id: SnapId, steps: nat) {
    id in History(w) && |Newer(w, id)| == steps
  }

  ghost predicate RewindsTo(o: Oracle, w: World, steps: nat, now: real)
    requires o.Wf()
  {
    var (w', found) := Rewind(o, w, steps, now);
    && SameHistory(w, w')
    && (found.None? <==> |History(w)| <= steps)
    && (found.None? ==> w' == w)
    && (found.Some? ==> exists id :: IsNthBefore(w, id, steps) && found == Load(w, id))
    && (found.Some? && AllFine(o, w.ops, w'.ops) ==> w'.files == found.value.files)
  }

  /**
   `rewind(n)` restores and returns the snapshot that exactly n listed ones are newer than;
   it does nothing when there is none.
   */
  lemma RewindIsNthBefore(o: Oracle, w: World, steps: nat, now: real)
    requires o.Wf() && Wf(w) && ClockMovesOn(w)
    ensures RewindsTo(o, w, steps, now)
  {
    ListedCount(o, w);
    var list := List(o, w);
    if |list| >= steps + 1 {
      var id := list[|list| - (steps + 1)];
      NthIsListed(o, w, steps);
      RestoredAndFound(o, w, id, now);
      assert Rewind(o, w, steps, now) == (Restore(o, w, id, now).0, Load(Restore(o, w, id, now).0, id));
    }
  }

  lemma ListedCount(o: Oracle, w: World)
    requires o.Wf()
    ensures |List(o, w)| == |History(w)|
  {
    ListingIsHistory(o, w);
  }

  lemma RestoredAndFound(o: Oracle, w: World, id: SnapId, now: real)
    requires o.Wf() && Wf(w) && id in History(w)
    ensures var w' := Restore(o, w, id, now).0;
            && SameHistory(w, w') && Load(w', id) == Load(w, id) && Load(w, id).Some?
            && (AllFine(o, w.ops, w'.ops) ==> w'.files == Load(w, id).value.files)
  {
    RestoreKeepsHistory(o, w, id, now);
    RestoreIsExact(o, w, id, now);
    LoadsTheSame(w, Restore(o, w, id, now).0, id);
  }

  lemma NthIsListed(o: Oracle, w: World, steps: nat)
    requires o.Wf() && ClockMovesOn(w) && |List(o, w)| >= steps + 1
    ensures IsNthBefore(w, List(o, w)[|List(o, w)| - (steps + 1)], steps)
  {
    ListingIsHistory(o, w);
    var list := List(o, w);
    NewerIsTail(o, w, |list| - (steps + 1));
    assert list[|list| - (steps + 1)] in list;
  }

  lemma LoadsTheSame(w: World, w': World, id: SnapId)
    ensures SameHistory(w, w') && id in History(w) ==> Load(w', id) == Load(w, id) && Load(w, id).Some?
  {
    if SameHistory(w, w') && id in History(w) {
      assert id in SnapIds(w');
    }
  }

  // ----- whole runs

  datatype Action =
    | Edit(files: FileMap)
    | Take(title: string, now: real)
    | RestoreTo(id: SnapId, now: real)
    | RewindBy(steps: nat, now: real)
    | Discard(id: SnapId)

  function Act(o: Oracle, w: World, a: Action): World
    requires o.Wf()
  {
    match a
    case Edit(files) => w.(files := files)
    case Take(title, now) => Create(o, w, title, now).0
    case RestoreTo(id, now) => Restore(o, w, id, now).0
    case RewindBy(steps, now) => Rewind(o, w, steps, now).0
    case Discard(id) => RemoveSnapshot(o, w, id).0
  }

  function After(o: Oracle, w: World, acts: seq<Action>): World
    requires o.Wf()
  {
    if acts == [] then w else Act(o, After(o, w, acts[..|acts| - 1]), acts[|acts| - 1])
  }

  /** A run goes from world to world, each action acting on what the one before left. */
  ghost predicate IsRun(o: Oracle, acts: seq<Action>, ws: seq<World>)
    requires o.Wf()
  {
    |ws| == |acts| + 1 && forall i :: 0 <= i < |acts| ==> ws[i + 1] == Act(o, ws[i], acts[i])
  }

  lemma {:induction false} AfterIsRun(o: Oracle, acts: seq<Action>, ws: seq<World>)
    requires o.Wf() && IsRun(o, acts, ws)
    ensures After(o, ws[0], acts) == ws[|acts|]
  {
    if acts != [] {
      var n := |acts| - 1;
      AfterIsRun(o, acts[..n], ws[..n + 1]);
      assert ws[n + 1] == Act(o, ws[n], acts[n]);
    }
  }

  /** What the actions do to the files: an edit gives the project any files at all, a new snapshot and a
      deletion leave them, and a new snapshot holds them. */
  lemma ActDoes(o: Oracle, w: World, a: Action)
    requires o.Wf()
    ensures a.Edit? ==> Act(o, w, a).files == a.files && Act(o, w, a).snapshots == w.snapshots
    ensures a.Take? || a.Discard? ==> Act(o, w, a).files == w.files
    ensures a.Take? && o.fault(w.ops).Fine? ==>
              Load(Act(o, w, a), Snap(w.next)) == Some(Snapshot(a.title, a.now, w.files))
    ensures a.Discard? && o.fault(w.ops).Fine? ==> Act(o, w, a).snapshots == w.snapshots - {a.id}
  {
    if a.Discard? && a.id !in w.snapshots {
      assert w.snapshots - {a.id} == w.snapshots;
    }
  }

  lemma ActKeeps(o: Oracle, w: World, a: Action)
    requires o.Wf() && Wf(w)
    ensures var w' := Act(o, w, a);
            && Wf(w') && Kept(w, w')
            && (a.RestoreTo? || a.RewindBy? ==> SameHistory(w, w'))
            && (forall id <- SnapIds(w) :: a != Discard(id) ==> id in w'.snapshots)
  {
    match a
    case RestoreTo(id, now) => RestoreKeepsHistory(o, w, id, now);
    case RewindBy(steps, now) =>
      var list := List(o, w);
      if |list| >= steps + 1 {
        RestoreKeepsHistory(o, w, list[|list| - (steps + 1)], now);
      }
    case _ =>
  }

  lemma {:induction false} SnapshotsStay(o: Oracle, w: World, acts: seq<Action>)
    requires o.Wf() && Wf(w)
    ensures Wf(After(o, w, acts)) && Kept(w, After(o, w, acts))
    ensures forall id <- SnapIds(w) :: Discard(id) !in acts ==> id in After(o, w, acts).snapshots
  {
    if acts != [] {
      var n := |acts| - 1;
      SnapshotsStay(o, w, acts[..n]);
      ActKeeps(o, After(o, w, acts[..n]), acts[n]);
      assert acts == acts[..n] + [acts[n]];
    }
  }

  /**
   Time travel. Whatever is edited, created, restored, rewound or deleted after a snapshot was
   created, and whatever fails meanwhile: as long as it is not deleted itself, restoring it
   brings back the files at its creation.
   */
  lemma TimeTravel(o: Oracle, w: World, title: string, now: real, acts: seq<Action>, later: real)
    requires o.Wf() && Wf(w) && Create(o, w, title, now).1.Some?
    ensures var (w1, id) := Create(o, w, title, now);
            var w2 := After(o, w1, acts);
            var (w3, ok) := Restore(o, w2, id.value, later);
            Discard(id.value) !in acts ==>
              && Load(w2, id.value) == Some(Snapshot(title, now, w.files))
              && (ok ==> w3.files == w.files)
              && (AllFine(o, w2.ops, w3.ops) ==> ok)
  {
    var (w1, id) := Create(o, w, title, now);
    SnapshotsStay(o, w1, acts);
    var w2 := After(o, w1, acts);
    if Discard(id.value) !in acts {
      assert id.value in SnapIds(w1);
      RestoreIsExact(o, w2, id.value, later);
    }
  }

  // ----- rewinding over whole runs

  /** What is listed after an action was listed before, or has just been taken. */
  lemma ListedBeforeOrTaken(o: Oracle, w: World, a: Action, id: SnapId)
    requires o.Wf() && Wf(w) && id in History(Act(o, w, a))
    ensures || (id in History(w) && CreatedAt(Act(o, w, a), id) == CreatedAt(w, id))
            || (a.Take? && id == Snap(w.next) && CreatedAt(Act(o, w, a), id) == a.now)
  {
    ActKeeps(o, w, a);
    assert id in SnapIds(Act(o, w, a));
  }

  ghost predicate AllBefore(w: World, t: real) {
    forall id <- History(w) :: CreatedAt(w, id) < t
  }

  lemma ActKeepsClock(o: Oracle, w: World, a: Action)
    requires o.Wf() && Wf(w) && ClockMovesOn(w) && (a.Take? ==> AllBefore(w, a.now))
    ensures ClockMovesOn(Act(o, w, a))
    ensures forall t :: AllBefore(w, t) && (a.Take? ==> a.now < t) ==> AllBefore(Act(o, w, a), t)
  {
    var w' := Act(o, w, a);
    forall i, j | i in History(w') && j in History(w') && i.n < j.n
      ensures CreatedAt(w', i) < CreatedAt(w', j)
    {
      ListedBeforeOrTaken(o, w, a, i);
      ListedBeforeOrTaken(o, w, a, j);
      assert i in w'.snapshots && j in w'.snapshots;
    }
    forall t, id | AllBefore(w, t) && (a.Take? ==> a.now < t) && id in History(w')
      ensures CreatedAt(w', id) < t
    {
      ListedBeforeOrTaken(o, w, a, id);
    }
  }

  /** Every snapshot of the run is taken later than all those before it. */
  ghost predicate TakenInOrder(w: World, acts: seq<Action>) {
    && (forall i :: 0 <= i < |acts| && acts[i].Take? ==> AllBefore(w, acts[i].now))
    && (forall i, j :: 0 <= i < j < |acts| && acts[i].Take? && acts[j].Take? ==> acts[i].now < acts[j].now)
  }

  ghost predicate AfterAllTakes(acts: seq<Action>, t: real) {
    forall a <- acts :: a.Take? ==> a.now < t
  }

  lemma {:induction false} ClockOverRuns(o: Oracle, w: World, acts: seq<Action>)
    requires o.Wf() && Wf(w) && ClockMovesOn(w) && TakenInOrder(w, acts)
    ensures ClockMovesOn(After(o, w, acts))
    ensures forall t :: AllBefore(w, t) && AfterAllTakes(acts, t) ==> AllBefore(After(o, w, acts), t)
  {
    if acts != [] {
      var start, a := acts[..|acts| - 1], acts[|acts| - 1];
      var before := After(o, w, start);
      assert acts == start + [a];
      ClockOverRuns(o, w, start);
      SnapshotsStay(o, w, start);
      assert a.Take? ==> AfterAllTakes(start, a.now);
      ActKeepsClock(o, before, a);
      forall t | AllBefore(w, t) && AfterAllTakes(acts, t)
        ensures AllBefore(After(o, w, acts), t)
      {
        assert a in acts && forall x <- start :: x in acts;
        assert AfterAllTakes(start, t);
      }
    }
  }

  /**
   After any run of edits, snapshots, restores, rewinds and deletions in which each snapshot is
   taken later than those before it, `rewind(n)` restores and returns the listed snapshot that
   exactly n others were taken after, if there is one.
   */
  lemma RewindOverRuns(o: Oracle, w: World, acts: seq<Action>, steps: nat, now: real)
    requires o.Wf() && Wf(w) && ClockMovesOn(w) && TakenInOrder(w, acts)
    ensures RewindsTo(o, After(o, w, acts), steps, now)
  {
    SnapshotsStay(o, w, acts);
    ClockOverRuns(o, w, acts);
    RewindIsNthBefore(o, After(o, w, acts), steps, now);
  }

  /** Nothing is asked of a project without snapshots. */
  lemma ClockStarts(w: World)
    requires w.snapshots == map[]
    ensures Wf(w) && ClockMovesOn(w) && forall t :: AllBefore(w, t)
  {
  }
}
