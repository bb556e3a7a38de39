/** The snapshot manager itself: the disk it works on is updated one operation at a time. */
module SnapshotManager {
  import opened Common
  import opened Sorting
  import opened Snapshots
  import opened SnapshotHistory

  /** The loops may stop at the first failure: the rest changes nothing. */
  lemma {:induction false} DeleteAllStops(o: Oracle, w: World, paths: seq<Path>, i: nat)
    requires i <= |paths|
    ensures !DeleteAll(o, w, paths[..i]).1 ==> DeleteAll(o, w, paths) == DeleteAll(o, w, paths[..i])
    decreases |paths|
  {
    if i < |paths| {
      assert paths[..|paths| - 1][..i] == paths[..i];
      DeleteAllStops(o, w, paths[..|paths| - 1], i);
    } else {
      assert paths[..i] == paths;
    }
  }

  lemma DeleteAllNext(o: Oracle, w: World, paths: seq<Path>, i: nat)
    requires i < |paths|
    ensures var (w1, ok) := DeleteAll(o, w, paths[..i]);
            DeleteAll(o, w, paths[..i + 1]) == if ok then DeleteFile(o, w1, paths[i]) else (w1, false)
  {
    assert paths[..i + 1][..i] == paths[..i];
  }

  lemma {:induction false} WriteAllStops(o: Oracle, w: World, paths: seq<Path>, target: FileMap, i: nat)
    requires i <= |paths| && forall p <- paths :: p in target
    ensures !WriteAll(o, w, paths[..i], target).1 ==>
              WriteAll(o, w, paths, target) == WriteAll(o, w, paths[..i], target)
    decreases |paths|
  {
    if i < |paths| {
      assert paths[..|paths| - 1][..i] == paths[..i];
      WriteAllStops(o, w, paths[..|paths| - 1], target, i);
    } else {
      assert paths[..i] == paths;
    }
  }

  lemma WriteAllNext(o: Oracle, w: World, paths: seq<Path>, target: FileMap, i: nat)
    requires i < |paths| && forall p <- paths :: p in target
    ensures var (w1, ok) := WriteAll(o, w, paths[..i], target);
            WriteAll(o, w, paths[..i + 1], target)
            == if ok then WriteFile(o, w1, paths[i], target[paths[i]]) else (w1, false)
  {
    assert paths[..i + 1][..i] == paths[..i];
  }

  lemma ReadableNext(w: World, ids: seq<SnapId>, i: nat)
    requires i < |ids|
    ensures Readable(w, ids[..i + 1])
            == if Load(w, ids[i]).Some? then Readable(w, ids[..i]) + [ids[i]] else Readable(w, ids[..i])
  {
    assert ids[..i + 1][..i] == ids[..i];
  }

  class SnapshotManager {
    const o: Oracle
    var w: World

    constructor (o: Oracle, w: World)
      ensures this.o == o && this.w == w
    {
      this.o := o;
      this.w := w;
    }

    method DeleteFiles(paths: seq<Path>) returns (ok: bool)
      modifies this
      ensures (w, ok) == DeleteAll(o, old(w), paths)
    {
      ok := true;
      var i := 0;
      assert paths[..0] == [];
      while i < |paths| && ok
        invariant i <= |paths|
        invariant (w, ok) == DeleteAll(o, old(w), paths[..i])
      {
        DeleteAllNext(o, old(w), paths, i);
        var (w1, deleted) := DeleteFile(o, w, paths[i]);
        w, ok := w1, deleted;
        i := i + 1;
      }
      DeleteAllStops(o, old(w), paths, i);
      assert i == |paths| ==> paths[..i] == paths;
    }

    method WriteFiles(paths: seq<Path>, target: FileMap) returns (ok: bool)
      requires forall p <- paths :: p in target
      modifies this
      ensures (w, ok) == WriteAll(o, old(w), paths, target)
    {
      ok := true;
      var i := 0;
      assert paths[..0] == [];
      while i < |paths| && ok
        invariant i <= |paths|
        invariant (w, ok) == WriteAll(o, old(w), paths[..i], target)
      {
        WriteAllNext(o, old(w), paths, target, i);
        var (w1, written) := WriteFile(o, w, paths[i], target[paths[i]]);
        w, ok := w1, written;
        i := i + 1;
      }
      WriteAllStops(o, old(w), paths, target, i);
      assert i == |paths| ==> paths[..i] == paths;
    }

    /** The two loops that the restore and its undo have in common. */
    method Apply(target: FileMap) returns (ok: bool)
      requires o.Wf()
      modifies this
      ensures (w, ok) == Impose(o, old(w), target)
    {
      ok := DeleteFiles(o.walk(w.ops, w.files.Keys - target.Keys));
      if ok {
        var writes := o.walk(w.ops, target.Keys);
        assert Lists(writes, target.Keys);
        ok := WriteFiles(writes, target);
      }
    }

    /** Creating keeps everything and adds a snapshot of the files as they are. */
    method CreateSnapshot(title: string, now: real) returns (id: Option<SnapId>)
      requires Wf(w)
      modifies this
      ensures Wf(w) && w.files == old(w.files)
      ensures (w, id) == Create(o, old(w), title, now)
      ensures id.Some? ==> id.value !in old(w.snapshots) && Load(w, id.value) == Some(Snapshot(title, now, w.files))
      ensures id.Some? <==> o.fault(old(w.ops)).Fine?
      ensures forall x <- old(w.snapshots) :: x in w.snapshots && w.snapshots[x] == old(w.snapshots)[x]
    {
      var (w1, created) := Create(o, w, title, now);
      w, id := w1, created;
    }

    method RestoreSnapshot(id: SnapId, now: real) returns (ok: bool)
      requires o.Wf() && Wf(w)
      modifies this
      ensures (w, ok) == Restore(o, old(w), id, now)
      ensures Load(old(w), id).None? ==> !ok && w == old(w)
      ensures Wf(w) && SameHistory(old(w), w)
    {
      RestoreKeepsHistory(o, w, id, now);
      var found := Load(w, id);
      if found.None? {
        return false;
      }
      var rollback := Rollback(w.next);
      var (w1, _) := SaveSnapshot(o, w.(next := w.next + 1), rollback, Snapshot("rollback", now, w.files));
      w := w1;
      ok := Apply(found.value.files);
      if ok {
        var (w2, deleted) := RemoveSnapshot(o, w, rollback);
        w, ok := w2, deleted;
      }
      if !ok {
        RollbackFrom(rollback);
      }
    }

    method RollbackFrom(rollback: SnapId)
      requires o.Wf()
      modifies this
      ensures w == Undo(o, old(w), rollback)
    {
      var found := Load(w, rollback);
      if found.None? || found.value.files == map[] {
        return;
      }
      var _ := Apply(found.value.files);
    }

    /** Every snapshot that can be loaded, once, oldest first. */
    method ListSnapshots() returns (list: seq<SnapId>)
      requires o.Wf()
      ensures list == List(o, w)
      ensures Lists(list, History(w)) && SortedBy(list, Age(w)) && OldestFirst(w, list)
    {
      var ids := o.glob(w.ops, SnapIds(w));
      list := [];
      var i := 0;
      assert ids[..0] == [];
      while i < |ids|
        invariant i <= |ids|
        invariant list == Readable(w, ids[..i])
      {
        ReadableNext(w, ids, i);
        if Load(w, ids[i]).Some? {
          list := list + [ids[i]];
        }
        i := i + 1;
      }
      assert ids[..i] == ids;
      list := SortBy(list, Age(w));
      ListingIsHistory(o, w);
    }

    method RewindTo(steps: nat, now: real) returns (found: Option<Snapshot>)
      requires o.Wf() && Wf(w)
      modifies this
      ensures (w, found) == Rewind(o, old(w), steps, now)
      ensures Wf(w) && SameHistory(old(w), w)
    {
      var list := ListSnapshots();
      if |list| < steps + 1 {
        return None;
      }
      var id := list[|list| - (steps + 1)];
      var _ := RestoreSnapshot(id, now);
      found := Load(w, id);
    }

    method DeleteSnapshot(id: SnapId) returns (done: bool)
      modifies this
      ensures var (w', ok) := RemoveSnapshot(o, old(w), id);
              w == w' && (done <==> id in old(w.snapshots) && ok)
      ensures done <==> id in old(w.snapshots) && o.fault(old(w.ops)).Fine?
      ensures w.files == old(w.files) && w.snapshots == if done then old(w.snapshots) - {id} else old(w.snapshots)
      ensures done ==> Load(w, id).None?
    {
      var present := id in w.snapshots;
      var (w1, ok) := RemoveSnapshot(o, w, id);
      w, done := w1, present && ok;
    }
  }
}
