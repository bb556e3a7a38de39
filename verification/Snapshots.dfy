/**
 Snapshots of a project, restore with undo, and rewind, after snapshot/manager.py.

 The project is a map from paths to texts. Every disk operation has a number, and what goes
 wrong with which operation is an arbitrary function, so that a failure can strike at every
 point. The orders in which directories and dictionaries are walked are arbitrary as well.
 */
module Snapshots {
  import opened Common
  import opened Dicts

  type Path = string
  type FileMap = map<Path, string>

  /** A disk operation works, fails without effect, or fails and leaves a text of its own. */
  datatype Fault = Fine | NoEffect | Garbled(text: string)

  /** Snapshots are stored under ids that are never used twice. */
  datatype SnapId = Snap(n: nat) | Rollback(n: nat)

  datatype Snapshot = Snapshot(title: string, createdAt: real, files: FileMap)

  /** A snapshot file that was not written to its end does not parse. */
  datatype Stored = Good(s: Snapshot) | Torn

  datatype World = World(files: FileMap, snapshots: map<SnapId, Stored>, ops: nat, next: nat)

  datatype Oracle = Oracle(fault: nat -> Fault, walk: (nat, set<Path>) -> seq<Path>,
                           glob: (nat, set<SnapId>) -> seq<SnapId>) {
    ghost predicate Wf() {
      && (forall k, s :: Lists(walk(k, s), s))
      && (forall k, s :: Lists(glob(k, s), s))
    }
  }

  ghost predicate Lists<T(!new)>(xs: seq<T>, s: set<T>) {
    Distinct(xs) && forall x :: x in xs <==> x in s
  }

  // ----- disk operations

  function WriteFile(o: Oracle, w: World, path: Path, text: string): (World, bool) {
    match o.fault(w.ops)
    case Fine => (w.(files := w.files[path := text], ops := w.ops + 1), true)
    case NoEffect => (w.(ops := w.ops + 1), false)
    case Garbled(t) => (w.(files := w.files[path := t], ops := w.ops + 1), false)
  }

  function DeleteFile(o: Oracle, w: World, path: Path): (World, bool) {
    match o.fault(w.ops)
    case Fine => (w.(files := w.files - {path}, ops := w.ops + 1), true)
    case _ => (w.(ops := w.ops + 1), false)
  }

  function SaveSnapshot(o: Oracle, w: World, id: SnapId, s: Snapshot): (World, bool) {
    match o.fault(w.ops)
    case Fine => (w.(snapshots := w.snapshots[id := Good(s)], ops := w.ops + 1), true)
    case NoEffect => (w.(ops := w.ops + 1), false)
    case Garbled(_) => (w.(snapshots := w.snapshots[id := Torn], ops := w.ops + 1), false)
  }

  /** `delete_snapshot`: true also when there is nothing to delete. */
  function RemoveSnapshot(o: Oracle, w: World, id: SnapId): (World, bool) {
    if id !in w.snapshots then (w, true)
    else
      match o.fault(w.ops)
      case Fine => (w.(snapshots := w.snapshots - {id}, ops := w.ops + 1), true)
      case _ => (w.(ops := w.ops + 1), false)
  }

  function Load(w: World, id: SnapId): Option<Snapshot> {
    if id in w.snapshots && w.snapshots[id].Good? then Some(w.snapshots[id].s) else None
  }

  // ----- restore

  /** The loops stop at the first operation that fails. */
  function DeleteAll(o: Oracle, w: World, paths: seq<Path>): (World, bool) {
    if paths == [] then (w, true)
    else
      var (w1, ok) := DeleteAll(o, w, paths[..|paths| - 1]);
      if ok then DeleteFile(o, w1, paths[|paths| - 1]) else (w1, false)
  }

  function WriteAll(o: Oracle, w: World, paths: seq<Path>, target: FileMap): (World, bool)
    requires forall p <- paths :: p in target
  {
    if paths == [] then (w, true)
    else
      var (w1, ok) := WriteAll(o, w, paths[..|paths| - 1], target);
      var p := paths[|paths| - 1];
      if ok then WriteFile(o, w1, p, target[p]) else (w1, false)
  }

  /** Delete what the target does not have, then write what it has. */
  function Impose(o: Oracle, w: World, target: FileMap): (World, bool)
    requires o.Wf()
  {
    var (w1, ok) := DeleteAll(o, w, o.walk(w.ops, w.files.Keys - target.Keys));
    var writes := o.walk(w1.ops, target.Keys);
    assert Lists(writes, target.Keys);
    if ok then WriteAll(o, w1, writes, target) else (w1, false)
  }

  /** `_rollback_from`: an empty file map counts as a missing one. */
  function Undo(o: Oracle, w: World, id: SnapId): World
    requires o.Wf()
  {
    match Load(w, id)
    case None => w
    case Some(s) => if s.files == map[] then w else Impose(o, w, s.files).0
  }

  /** The part of `restore_snapshot` before the decision whether to undo. */
  function Attempt(o: Oracle, w: World, target: FileMap, now: real): (World, bool)
    requires o.Wf()
  {
    var id := Rollback(w.next);
    var (w1, _) := SaveSnapshot(o, w.(next := w.next + 1), id, Snapshot("rollback", now, w.files));
    var (w2, applied) := Impose(o, w1, target);
    if applied then RemoveSnapshot(o, w2, id) else (w2, false)
  }

  function Restore(o: Oracle, w: World, id: SnapId, now: real): (World, bool)
    requires o.Wf()
  {
    match Load(w, id)
    case None => (w, false)
    case Some(s) =>
      var (w1, ok) := Attempt(o, w, s.files, now);
      if ok then (w1, true) else (Undo(o, w1, Rollback(w.next)), false)
  }

  /** A snapshot that was never saved, or whose file does not parse, is not restored, and nothing happens. */
  lemma RestoreOfNothing(o: Oracle, w: World, id: SnapId, now: real)
    requires o.Wf() && (id !in w.snapshots || w.snapshots[id].Torn?)
    ensures Restore(o, w, id, now) == (w, false)
  {
  }

  /** Every operation counts once, an operation without effect has none, and no other file or snapshot is touched. */
  lemma OperationsAreLocal(o: Oracle, w: World, path: Path, text: string, id: SnapId, s: Snapshot)
    ensures var (w', ok) := WriteFile(o, w, path, text);
            && OnlyFiles(w, w') && w'.ops == w.ops + 1 && w'.files - {path} == w.files - {path}
            && (ok <==> o.fault(w.ops).Fine?) && (o.fault(w.ops).NoEffect? ==> w'.files == w.files)
            && (ok ==> path in w'.files && w'.files[path] == text)
    ensures var (w', ok) := DeleteFile(o, w, path);
            && OnlyFiles(w, w') && w'.ops == w.ops + 1
            && (ok <==> o.fault(w.ops).Fine?) && w'.files == if ok then w.files - {path} else w.files
    ensures var (w', ok) := SaveSnapshot(o, w, id, s);
            && w'.files == w.files && w'.ops == w.ops + 1 && w'.snapshots - {id} == w.snapshots - {id}
            && (ok <==> o.fault(w.ops).Fine?) && (o.fault(w.ops).NoEffect? ==> w'.snapshots == w.snapshots)
            && (o.fault(w.ops).Garbled? ==> Load(w', id).None?) && (ok ==> Load(w', id) == Some(s))
    ensures var (w', ok) := RemoveSnapshot(o, w, id);
            && w'.files == w.files && w'.next == w.next
            && w'.ops == w.ops + (if id in w.snapshots then 1 else 0)
            && (ok <==> id !in w.snapshots || o.fault(w.ops).Fine?)
            && w'.snapshots == if ok then w.snapshots - {id} else w.snapshots
  {
  }

  // ----- imposing a file map is exact

  /** No operation from number i up to number j failed. */
  ghost predicate AllFine(o: Oracle, i: nat, j: nat) {
    forall k :: i <= k < j ==> o.fault(k).Fine?
  }

  /** Everything but the project's files and the operation count is as before. */
  ghost predicate OnlyFiles(w: World, w': World) {
    w'.snapshots == w.snapshots && w'.next == w.next && w.ops <= w'.ops
  }

  lemma {:induction false} DeleteAllMeaning(o: Oracle, w: World, paths: seq<Path>)
    ensures var (w', ok) := DeleteAll(o, w, paths);
            && OnlyFiles(w, w') && (ok <==> AllFine(o, w.ops, w'.ops))
            && (ok ==> w'.files == w.files - set p <- paths)
  {
    if paths != [] {
      DeleteAllMeaning(o, w, paths[..|paths| - 1]);
      assert paths == paths[..|paths| - 1] + [paths[|paths| - 1]];
    }
  }

  lemma {:induction false} WriteAllMeaning(o: Oracle, w: World, paths: seq<Path>, target: FileMap)
    requires forall p <- paths :: p in target
    ensures var (w', ok) := WriteAll(o, w, paths, target);
            && OnlyFiles(w, w') && (ok <==> AllFine(o, w.ops, w'.ops))
            && (ok ==> w'.files == w.files + map p <- paths :: target[p])
  {
    if paths != [] {
      WriteAllMeaning(o, w, paths[..|paths| - 1], target);
      assert paths == paths[..|paths| - 1] + [paths[|paths| - 1]];
    }
  }

  lemma ImposeMeaning(o: Oracle, w: World, target: FileMap)
    requires o.Wf()
    ensures var (w', ok) := Impose(o, w, target);
            && OnlyFiles(w, w') && (ok <==> AllFine(o, w.ops, w'.ops))
            && (ok ==> w'.files == target)
  {
    var dels := o.walk(w.ops, w.files.Keys - target.Keys);
    var (w1, ok) := DeleteAll(o, w, dels);
    var writes := o.walk(w1.ops, target.Keys);
    assert Lists(writes, target.Keys);
    DeleteAllMeaning(o, w, dels);
    WriteAllMeaning(o, w1, writes, target);
    assert Lists(dels, w.files.Keys - target.Keys) && Lists(writes, target.Keys);
  }

  // ----- restoring is all or nothing

  /** The undo snapshot of a restore that starts in `w` reaches the disk. */
  ghost predicate UndoSaved(o: Oracle, w: World) {
    o.fault(w.ops).Fine?
  }

  /** If the restore does not succeed, its undo meets no failure of its own. */
  ghost predicate UndoWorks(o: Oracle, w: World, target: FileMap, now: real)
    requires o.Wf()
  {
    var failed := Attempt(o, w, target, now).0;
    AllFine(o, failed.ops, Undo(o, failed, Rollback(w.next)).ops)
  }

  lemma AttemptMeaning(o: Oracle, w: World, target: FileMap, now: real)
    requires o.Wf()
    ensures var (w', ok) := Attempt(o, w, target, now);
            && w.ops <= w'.ops && w'.next == w.next + 1
            && (ok ==> w'.files == target && (UndoSaved(o, w) ==> AllFine(o, w.ops, w'.ops)))
            && (AllFine(o, w.ops, w'.ops) ==> ok && Rollback(w.next) !in w'.snapshots)
            && (!ok && UndoSaved(o, w) ==> Load(w', Rollback(w.next)) == Some(Snapshot("rollback", now, w.files)))
  {
    var w1 := SaveSnapshot(o, w.(next := w.next + 1), Rollback(w.next), Snapshot("rollback", now, w.files)).0;
    ImposeMeaning(o, w1, target);
  }

  /** An attempt touches no stored snapshot but its own undo snapshot. */
  lemma AttemptKeepsSnapshots(o: Oracle, w: World, target: FileMap, now: real)
    requires o.Wf()
    ensures Attempt(o, w, target, now).0.snapshots - {Rollback(w.next)} == w.snapshots - {Rollback(w.next)}
  {
    var id := Rollback(w.next);
    var w1 := SaveSnapshot(o, w.(next := w.next + 1), id, Snapshot("rollback", now, w.files)).0;
    ImposeMeaning(o, w1, target);
    assert w1.snapshots - {id} == w.snapshots - {id};
  }

  lemma UndoMeaning(o: Oracle, w: World, id: SnapId)
    requires o.Wf()
    ensures var w' := Undo(o, w, id);
            && OnlyFiles(w, w')
            && (Load(w, id).Some? && Load(w, id).value.files != map[] && AllFine(o, w.ops, w'.ops)
                ==> w'.files == Load(w, id).value.files)
            && (Load(w, id).Some? && Load(w, id).value.files == map[] ==> w' == w)
  {
    if Load(w, id).Some? {
      ImposeMeaning(o, w, Load(w, id).value.files);
    }
  }

  /**
   A restore either ends with the snapshot's files or, when the project had a file, with the
   files it started from: whichever operations fail, as long as the undo snapshot was written
   and the undo itself works.
   */
  lemma RestoreIsAllOrNothing(o: Oracle, w: World, id: SnapId, now: real)
    requires o.Wf() && Load(w, id).Some? && w.files != map[]
    requires UndoSaved(o, w) && UndoWorks(o, w, Load(w, id).value.files, now)
    ensures var (w', ok) := Restore(o, w, id, now);
            w'.files == if ok then Load(w, id).value.files else w.files
  {
    var target := Load(w, id).value.files;
    AttemptMeaning(o, w, target, now);
    UndoMeaning(o, Attempt(o, w, target, now).0, Rollback(w.next));
  }

  /** Without any failure a restore succeeds, leaves no undo snapshot and is exact. */
  lemma RestoreIsExact(o: Oracle, w: World, id: SnapId, now: real)
    requires o.Wf() && Load(w, id).Some?
    ensures var (w', ok) := Restore(o, w, id, now);
            && (ok ==> w'.files == Load(w, id).value.files)
            && (AllFine(o, w.ops, w'.ops) ==> ok && w'.snapshots == w.snapshots - {Rollback(w.next)})
  {
    var target := Load(w, id).value.files;
    AttemptMeaning(o, w, target, now);
    AttemptKeepsSnapshots(o, w, target, now);
    var w1 := Attempt(o, w, target, now).0;
    assert Rollback(w.next) !in w1.snapshots ==> w1.snapshots - {Rollback(w.next)} == w1.snapshots;
    UndoMeaning(o, Attempt(o, w, target, now).0, Rollback(w.next));
  }

  /** What can be asked of one restore under one pattern of failures. */
  ghost predicate Undone(o: Oracle, w: World, id: SnapId, now: real) {
    o.Wf() && Load(w, id).Some? && UndoSaved(o, w) && UndoWorks(o, w, Load(w, id).value.files, now)
    ==> var (w', ok) := Restore(o, w, id, now); ok || w'.files == w.files
  }

  /** The first write of a restore leaves half a text, and so does everything after it. */
  function TornWrites(w: World): nat -> Fault {
    k => if k == w.ops then Fine else Garbled("half a text")
  }

  /**
   The undo takes an empty file map for a missing one, so a restore into an empty project is
   not undone: half of its writes can stay. This happens unless the snapshot is empty too.
   */
  lemma EmptyProjectIsNotRestored(o: Oracle, w: World, id: SnapId, now: real)
    requires o.Wf() && Load(w, id).Some? && w.files == map[] && Load(w, id).value.files != map[]
    ensures !Undone(o.(fault := TornWrites(w)), w, id, now)
  {
    var torn := o.(fault := TornWrites(w));
    var target := Load(w, id).value.files;
    TornAttempt(torn, w, target, now);
    AttemptMeaning(torn, w, target, now);
    UndoMeaning(torn, Attempt(torn, w, target, now).0, Rollback(w.next));
  }

  lemma TornAttempt(o: Oracle, w: World, target: FileMap, now: real)
    requires o.Wf() && w.files == map[] && target != map[]
    requires o.fault(w.ops).Fine? && o.fault(w.ops + 1).Garbled?
    ensures var (w', ok) := Attempt(o, w, target, now); !ok && w'.files != map[]
  {
    var (w1, _) := SaveSnapshot(o, w.(next := w.next + 1), Rollback(w.next), Snapshot("rollback", now, w.files));
    TornImpose(o, w1, target);
  }

  lemma TornImpose(o: Oracle, w: World, target: FileMap)
    requires o.Wf() && w.files == map[] && target != map[]
    requires o.fault(w.ops).Garbled?
    ensures var (w', ok) := Impose(o, w, target); !ok && w'.files != map[]
  {
    assert w.files.Keys - target.Keys == {};
    ListsEach(o.walk(w.ops, {}), {});
    var writes := o.walk(w.ops, target.Keys);
    ListsEach(writes, target.Keys);
    StopsAtFirst(o, w, writes, target);
  }

  lemma ListsEach<T(!new)>(xs: seq<T>, s: set<T>)
    requires Lists(xs, s)
    ensures |xs| == |s|
  {
    DistinctCard(xs);
    assert (set x <- xs) == s;
  }

  lemma {:induction false} StopsAtFirst(o: Oracle, w: World, paths: seq<Path>, target: FileMap)
    requires paths != [] && forall p <- paths :: p in target
    requires o.fault(w.ops).Garbled?
    ensures var (w', ok) := WriteAll(o, w, paths, target);
            !ok && w'.files == w.files[paths[0] := o.fault(w.ops).text]
  {
    if |paths| > 1 {
      StopsAtFirst(o, w, paths[..|paths| - 1], target);
    } else {
      assert paths[..0] == [];
    }
  }

  /** A restore is all or nothing under every pattern of failures exactly when this holds. */
  lemma AllOrNothingExactly(o: Oracle, w: World, id: SnapId, now: real)
    requires o.Wf() && Load(w, id).Some?
    ensures (forall fault :: Undone(o.(fault := fault), w, id, now))
            <==> w.files != map[] || Load(w, id).value.files == map[]
  {
    var target := Load(w, id).value.files;
    if w.files == map[] && target != map[] {
      EmptyProjectIsNotRestored(o, w, id, now);
    } else {
      forall fault
        ensures Undone(o.(fault := fault), w, id, now)
      {
        var f := o.(fault := fault);
        if UndoSaved(f, w) && UndoWorks(f, w, target, now) {
          if w.files != map[] {
            RestoreIsAllOrNothing(f, w, id, now);
          } else {
            NothingToUndo(f, w, id, now);
          }
        }
      }
    }
  }

  lemma NothingToUndo(o: Oracle, w: World, id: SnapId, now: real)
    requires o.Wf() && Load(w, id).Some? && w.files == map[] && Load(w, id).value.files == map[]
    requires UndoSaved(o, w)
    ensures Restore(o, w, id, now).0.files == map[]
  {
    var rollback := Rollback(w.next);
    var (w1, _) := SaveSnapshot(o, w.(next := w.next + 1), rollback, Snapshot("rollback", now, w.files));
    ListsEach(o.walk(w1.ops, {}), {});
    var target := Load(w, id).value.files;
    assert target.Keys == {} && w1.files.Keys - target.Keys == {};
    assert Impose(o, w1, target) == (w1, true);
    AttemptMeaning(o, w, target, now);
    UndoMeaning(o, Attempt(o, w, target, now).0, rollback);
  }
}
