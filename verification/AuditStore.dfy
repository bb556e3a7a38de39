/** The audit store: appends, rotates, reads and cleans up its files in place. */
module AuditStore {
  import opened Common
  import opened AuditFiles

  lemma ShiftNext(r: Slots, i: nat)
    requires i < MAX_FILES
    ensures Shifted(r, i) == Move(Shifted(r, i + 1), i)
  {
  }

  /** Reading may stop at the limit: the files not read only add entries after it. */
  lemma PrefixIsRead(d: Files, files: nat, read: seq<Entry>)
    requires files <= |READ_ORDER| && read == Live(d) + Concat(d.rotated, READ_ORDER[..files])
    ensures |read| <= |Everything(d)| && read == Everything(d)[..|read|]
    ensures files == |READ_ORDER| ==> read == Everything(d)
  {
    ConcatSplit(d.rotated, READ_ORDER[..files], READ_ORDER[files..]);
    assert READ_ORDER[..files] + READ_ORDER[files..] == READ_ORDER;
    assert files == |READ_ORDER| ==> READ_ORDER[..files] == READ_ORDER;
  }

  lemma ReadOn<T>(live: seq<T>, before: seq<T>, part: seq<T>)
    ensures live + (before + part) == live + before + part && (part == [] ==> before + part == before)
  {
  }

  lemma UnlinkNext(r: Slots, order: seq<int>, i: nat)
    requires i < |order|
    ensures Unlinked(r, order[..i + 1]) == Unlinked(r, order[..i]) - {order[i]}
  {
    assert order[..i + 1] == order[..i] + [order[i]];
  }

  lemma {:induction false} SinceNext(es: seq<Entry>, cutoff: int, i: nat)
    requires i < |es|
    ensures Since(es[..i + 1], cutoff) == Since(es[..i], cutoff) + if es[i].at >= cutoff then [es[i]] else []
  {
    assert es[..i + 1][..i] == es[..i];
  }

  class AuditStore {
    var live: Option<seq<Entry>>
    var rotated: Slots

    function Disk(): Files
      reads this
    {
      Files(live, rotated)
    }

    /** A store works on whatever files its directory holds. */
    constructor (files: Files)
      ensures Disk() == files
    {
      live, rotated := files.live, files.rotated;
    }

    /** The entry is written last, after everything that was kept. */
    method Append(e: Entry)
      modifies this
      ensures Disk() == AuditFiles.Append(old(Disk()), e)
      ensures Chronicle(Disk()) == Chronicle(old(Disk()))[Lost(old(Disk()))..] + [e]
    {
      AppendIsSuffix(Disk(), e);
      RotateIfNeeded();
      live := Some((if live.Some? then live.value else []) + [e]);
    }

    method RotateIfNeeded()
      modifies this
      ensures Disk() == AuditFiles.RotateIfNeeded(old(Disk()))
    {
      if live.None? || Bytes(live.value) < MAX_FILE_SIZE {
        return;
      }
      var i := MAX_FILES - 1;
      while i > 0
        invariant 0 <= i < MAX_FILES
        invariant live == old(live)
        invariant rotated == Shifted(old(rotated), i + 1)
      {
        ShiftNext(old(rotated), i);
        if i in rotated {
          var src := rotated[i];
          rotated := rotated - {i + 1};
          rotated := (rotated - {i})[i + 1 := src];
        }
        i := i - 1;
      }
      rotated := rotated[1 := live.value];
      live := None;
    }

    /** Read the rotated files in the given order until the limit is reached. */
    method ReadFiles(order: seq<int>, limit: nat) returns (entries: seq<Entry>, files: nat)
      ensures files <= |order| && entries == Live(Disk()) + Concat(rotated, order[..files])
      ensures files == |order| || (0 < limit <= |entries|)
    {
      entries, files := if live.Some? then live.value else [], 0;
      assert order[..0] == [];
      while files < |order| && (limit == 0 || |entries| < limit)
        invariant files <= |order|
        invariant entries == Live(Disk()) + Concat(rotated, order[..files])
      {
        ConcatNext(rotated, order, files);
        ReadOn(Live(Disk()), Concat(rotated, order[..files]), Part(rotated, order[files]));
        if order[files] in rotated {
          entries := entries + rotated[order[files]];
        }
        files := files + 1;
      }
    }

    /** Newest file first; with a limit, exactly the first entries of the whole. */
    method ReadAll(limit: nat) returns (entries: seq<Entry>)
      ensures var all := Everything(Disk());
              entries == if limit == 0 || limit > |all| then all else all[..limit]
    {
      var files;
      entries, files := ReadFiles(READ_ORDER, limit);
      PrefixIsRead(Disk(), files, entries);
      if limit > 0 && |entries| > limit {
        entries := entries[..limit];
      }
    }

    method Filter(all: seq<Entry>, cutoff: int) returns (kept: seq<Entry>)
      ensures kept == Since(all, cutoff) && |kept| <= |all|
    {
      kept := [];
      var i := 0;
      assert all[..0] == [];
      while i < |all|
        invariant i <= |all|
        invariant kept == Since(all[..i], cutoff)
      {
        SinceNext(all, cutoff, i);
        if all[i].at >= cutoff {
          kept := kept + [all[i]];
        }
        i := i + 1;
      }
      assert all[..i] == all;
      SinceShrinks(all, cutoff);
    }

    /** `ending` says how the rewrite of the files turns out. */
    method Cleanup(cutoff: int, ending: Ending) returns (removed: nat)
      requires ending.Wf(Disk())
      modifies this
      ensures (Disk(), removed) == AuditFiles.Cleanup(old(Disk()), cutoff, ending)
    {
      var all := ReadAll(0);
      var kept := Filter(all, cutoff);
      removed := |all| - |kept|;
      if removed > 0 {
        Rewrite(kept, ending);
      }
    }

    method Rewrite(kept: seq<Entry>, ending: Ending)
      requires ending.Wf(Disk())
      modifies this
      ensures Disk() == AuditFiles.Rewrite(old(Disk()), kept, ending)
    {
      if ending.NotReplaced? {
        return;
      }
      live := Some(kept);
      var i := 0;
      assert Unlinked(old(rotated), ending.order[..0]) == old(rotated);
      while i < ending.stop
        invariant i <= ending.stop && live == Some(kept)
        invariant rotated == Unlinked(old(rotated), ending.order[..i])
      {
        UnlinkNext(old(rotated), ending.order, i);
        rotated := rotated - {ending.order[i]};
        i := i + 1;
      }
    }
  }
}
