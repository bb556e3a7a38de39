/** The audit log files on disk: rotation, reading and cleanup, after audit/store.py. */
module AuditFiles {
  import opened Common
  import opened Dicts
  import opened Sorting

  const MAX_FILE_SIZE: nat := 10 * 1024 * 1024
  const MAX_FILES: nat := 10

  datatype Entry = Entry(at: int, text: string, bytes: nat)

  type Slots = map<int, seq<Entry>>

  /** The live file `audit.jsonl`, if there is one, and the rotated files `audit.1.jsonl` and up. */
  datatype Files = Files(live: Option<seq<Entry>>, rotated: Slots)

  const NO_FILES := Files(None, map[])

  function Bytes(es: seq<Entry>): nat {
    if es == [] then 0 else Bytes(es[..|es| - 1]) + es[|es| - 1].bytes
  }

  function Live(d: Files): seq<Entry> {
    if d.live.Some? then d.live.value else []
  }

  function Part(r: Slots, i: int): seq<Entry> {
    if i in r then r[i] else []
  }

  // ----- rotation

  function Move(r: Slots, i: nat): Slots {
    if i in r then (r - {i})[i + 1 := r[i]] else r
  }

  /** The rotated files after the moves from the highest index down to `i`. */
  function Shifted(r: Slots, i: nat): Slots
    decreases MAX_FILES - i
  {
    if i >= MAX_FILES then r else Move(Shifted(r, i + 1), i)
  }

  predicate MustRotate(d: Files) {
    d.live.Some? && Bytes(d.live.value) >= MAX_FILE_SIZE
  }

  function RotateIfNeeded(d: Files): Files {
    if MustRotate(d) then Files(None, Shifted(d.rotated, 1)[1 := d.live.value]) else d
  }

  function Append(d: Files, e: Entry): Files {
    var d1 := RotateIfNeeded(d);
    d1.(live := Some(Live(d1) + [e]))
  }

  function AppendAll(d: Files, es: seq<Entry>): Files {
    if es == [] then d else Append(AppendAll(d, es[..|es| - 1]), es[|es| - 1])
  }

  // ----- rotation is a shift

  /** What the slots hold once the files from index `i` on have moved up. */
  ghost predicate MovedUp(r: Slots, i: nat, s: Slots) {
    && (forall j :: j < i || j > MAX_FILES ==> (j in s <==> j in r) && Part(s, j) == Part(r, j))
    && (i < MAX_FILES ==> i !in s)
    && (forall j :: i < j < MAX_FILES ==> (j in s <==> j - 1 in r) && Part(s, j) == Part(r, j - 1))
    && (var full := if i < MAX_FILES && MAX_FILES - 1 in r then MAX_FILES - 1 else MAX_FILES;
        (MAX_FILES in s <==> full in r) && Part(s, MAX_FILES) == Part(r, full))
  }

  lemma {:induction false} ShiftMovesUp(r: Slots, i: nat)
    requires i <= MAX_FILES
    ensures MovedUp(r, i, Shifted(r, i))
    decreases MAX_FILES - i
  {
    if i < MAX_FILES {
      ShiftMovesUp(r, i + 1);
    }
  }

  /** The rotated files with index up to `k`, one after the other, oldest first. */
  function Older(r: Slots, k: nat): seq<Entry> {
    if k == 0 then [] else Part(r, k) + Older(r, k - 1)
  }

  /** All that is on disk, from oldest to newest. */
  function Chronicle(d: Files): seq<Entry> {
    Older(d.rotated, MAX_FILES) + Live(d)
  }

  lemma {:induction false} ShiftKeepsOrder(r: Slots, s: Slots, k: nat)
    requires forall j :: 1 < j <= k + 1 ==> Part(s, j) == Part(r, j - 1)
    ensures Older(s, k + 1) == Older(r, k) + Part(s, 1)
  {
    if k > 0 {
      ShiftKeepsOrder(r, s, k - 1);
      assert Part(s, k + 1) == Part(r, k);
    } else {
      assert Older(s, 0) == [];
    }
  }

  /** How many entries the next append drops: a whole file, and only when the last two slots are taken. */
  function Lost(d: Files): nat {
    if MustRotate(d) && MAX_FILES - 1 in d.rotated && MAX_FILES in d.rotated then |d.rotated[MAX_FILES]| else 0
  }

  lemma TopSlot(r: Slots, k: nat)
    requires k > 0
    ensures Older(r, k) == Part(r, k) + Older(r, k - 1)
  {
  }

  lemma RotatedParts(r: Slots, live: seq<Entry>, j: int)
    ensures var s := Shifted(r, 1)[1 := live];
            && Part(s, 1) == live
            && (1 < j < MAX_FILES ==> Part(s, j) == Part(r, j - 1))
            && Part(s, MAX_FILES) == if MAX_FILES - 1 in r then Part(r, MAX_FILES - 1) else Part(r, MAX_FILES)
  {
    ShiftMovesUp(r, 1);
  }

  lemma RotatedSlots(r: Slots, live: seq<Entry>, max: nat)
    requires max == MAX_FILES
    ensures var s := Shifted(r, 1)[1 := live];
            Older(s, max) == (if max - 1 in r then [] else Part(r, max)) + Older(r, max - 1) + live
  {
    var s := Shifted(r, 1)[1 := live];
    forall j | 1 < j < max
      ensures Part(s, j) == Part(r, j - 1)
    {
      RotatedParts(r, live, j);
    }
    RotatedParts(r, live, 1);
    JoinSlots(r, s, live, max);
  }

  lemma JoinSlots(r: Slots, s: Slots, live: seq<Entry>, max: nat)
    requires max > 2 && Part(s, 1) == live
    requires forall j :: 1 < j < max ==> Part(s, j) == Part(r, j - 1)
    requires Part(s, max) == if max - 1 in r then Part(r, max - 1) else Part(r, max)
    ensures Older(s, max) == (if max - 1 in r then [] else Part(r, max)) + Older(r, max - 1) + live
  {
    ShiftKeepsOrder(r, s, max - 2);
    TopSlot(s, max);
    TopSlot(r, max - 1);
    Regroup(Part(s, max), Older(r, max - 2), live);
    if max - 1 !in r {
      Regroup([], Older(r, max - 2), live);
    }
  }

  lemma Regroup<T>(a: seq<T>, b: seq<T>, c: seq<T>)
    ensures a + (b + c) == a + b + c && a + b + c == [] + (a + b) + c && a + b + c == a + ([] + b) + c
  {
  }

  lemma RotationIsSuffix(d: Files)
    ensures Lost(d) <= |Chronicle(d)| && Chronicle(RotateIfNeeded(d)) == Chronicle(d)[Lost(d)..]
  {
    if MustRotate(d) {
      RotatedSlots(d.rotated, d.live.value, MAX_FILES);
      TopSlot(d.rotated, MAX_FILES);
      var r := d.rotated;
      DropFirst(Part(r, MAX_FILES), Older(r, MAX_FILES - 1), d.live.value);
      if MAX_FILES - 1 in r {
        DropFirst([], Older(r, MAX_FILES - 1), d.live.value);
      }
    }
  }

  lemma DropFirst<T>(a: seq<T>, b: seq<T>, c: seq<T>)
    ensures (a + b + c)[|a|..] == b + c && [] + b + c == b + c && (a + b + c)[0..] == a + b + c
            && a + b + c + [] == a + b + c
  {
  }

  /** One append adds its entry at the end and drops at most the oldest file. */
  lemma AppendIsSuffix(d: Files, e: Entry)
    ensures Lost(d) <= |Chronicle(d)| && Chronicle(Append(d, e)) == Chronicle(d)[Lost(d)..] + [e]
  {
    RotationIsSuffix(d);
  }

  function TotalLost(d: Files, es: seq<Entry>): nat {
    if es == [] then 0
    else TotalLost(d, es[..|es| - 1]) + Lost(AppendAll(d, es[..|es| - 1]))
  }

  /** `c` is what remains of `all` without its first `lost` entries. */
  ghost predicate IsRest<T(!new)>(c: seq<T>, all: seq<T>, lost: nat) {
    lost <= |all| && c == all[lost..]
  }

  lemma RestOfRest<T(!new)>(a: seq<T>, start: seq<T>, e: T, i: nat, b: seq<T>, j: nat)
    requires IsRest(b, a + start, i) && j <= |b|
    ensures IsRest(b[j..] + [e], a + (start + [e]), i + j)
  {
    assert a + (start + [e]) == (a + start) + [e];
  }

  lemma AppendsGoOn(d: Files, start: seq<Entry>, e: Entry, d1: Files, lost: nat)
    requires IsRest(Chronicle(d1), Chronicle(d) + start, lost)
    ensures IsRest(Chronicle(Append(d1, e)), Chronicle(d) + (start + [e]), lost + Lost(d1))
  {
    AppendIsSuffix(d1, e);
    RestOfRest(Chronicle(d), start, e, lost, Chronicle(d1), Lost(d1));
  }

  /** What is on disk after these appends is a suffix of everything there ever was. */
  ghost predicate IsConserved(d: Files, es: seq<Entry>) {
    IsRest(Chronicle(AppendAll(d, es)), Chronicle(d) + es, TotalLost(d, es))
  }

  lemma ConservedSnoc(d: Files, es: seq<Entry>, start: seq<Entry>, e: Entry)
    ensures es == start + [e] && IsConserved(d, start) ==> IsConserved(d, es)
  {
    if es == start + [e] && IsConserved(d, start) {
      LastAppend(d, es, start, e);
      AppendsGoOn(d, start, e, AppendAll(d, start), TotalLost(d, start));
    }
  }

  /** Over any run of appends, what is on disk is a suffix of everything there ever was, in order. */
  lemma {:induction false} HistoryIsConserved(d: Files, es: seq<Entry>)
    ensures IsConserved(d, es)
  {
    if es != [] {
      var start, e := es[..|es| - 1], es[|es| - 1];
      assert es == start + [e];
      HistoryIsConserved(d, start);
      ConservedSnoc(d, es, start, e);
    } else {
      NothingLost(Chronicle(d));
    }
  }

  lemma NothingLost<T(!new)>(c: seq<T>)
    ensures IsRest(c, c + [], 0)
  {
  }

  lemma LastAppend(d: Files, es: seq<Entry>, start: seq<Entry>, e: Entry)
    requires es == start + [e]
    ensures AppendAll(d, es) == Append(AppendAll(d, start), e)
    ensures TotalLost(d, es) == TotalLost(d, start) + Lost(AppendAll(d, start))
  {
    assert es[..|es| - 1] == start;
  }

  // ----- how many files there are and when the first entry is lost

  ghost predicate Filled(s: Slots, lo: int, n: int) {
    forall i :: i in s <==> lo <= i <= n
  }

  ghost predicate AllFull(s: Slots) {
    forall i <- s :: Bytes(s[i]) >= MAX_FILE_SIZE
  }

  /** The rotated files are exactly those with index 1 to n, each one filled up. */
  ghost predicate Contiguous(d: Files, n: nat) {
    && n <= MAX_FILES
    && Filled(d.rotated, 1, n) && AllFull(d.rotated)
  }

  /** Moving up fills slots 2 to n + 1, as far as there are that many. */
  lemma ShiftFills(r: Slots, n: nat)
    requires n <= MAX_FILES && Filled(r, 1, n) && AllFull(r)
    ensures Filled(Shifted(r, 1), 2, if n < MAX_FILES then n + 1 else n) && AllFull(Shifted(r, 1))
  {
    ShiftMovesUp(r, 1);
    MovedUpFills(r, Shifted(r, 1), n);
  }

  lemma MovedUpFills(r: Slots, s: Slots, n: nat)
    requires n <= MAX_FILES && Filled(r, 1, n) && AllFull(r) && MovedUp(r, 1, s)
    ensures Filled(s, 2, if n < MAX_FILES then n + 1 else n) && AllFull(s)
  {
    forall i <- s
      ensures Bytes(s[i]) >= MAX_FILE_SIZE
    {
      assert s[i] == Part(s, i);
    }
  }

  lemma RotationIsContiguous(d: Files, n: nat, e: Entry)
    requires Contiguous(d, n)
    ensures Contiguous(Append(d, e), if MustRotate(d) && n < MAX_FILES then n + 1 else n)
  {
    if MustRotate(d) {
      ShiftFills(d.rotated, n);
    }
  }

  function Rotations(d: Files, es: seq<Entry>): nat {
    if es == [] then 0
    else Rotations(d, es[..|es| - 1]) + if MustRotate(AppendAll(d, es[..|es| - 1])) then 1 else 0
  }

  function FilesAfter(rotations: nat): nat {
    if rotations < MAX_FILES then rotations else MAX_FILES
  }

  /** From an empty directory: no gaps, at most eleven files, nothing lost up to the tenth rotation. */
  lemma {:induction false} FilesStayContiguous(es: seq<Entry>)
    ensures Contiguous(AppendAll(NO_FILES, es), FilesAfter(Rotations(NO_FILES, es)))
    ensures |AppendAll(NO_FILES, es).rotated| == FilesAfter(Rotations(NO_FILES, es)) <= 10
    ensures TotalLost(NO_FILES, es) == 0 <==> Rotations(NO_FILES, es) <= MAX_FILES
  {
    if es != [] {
      var start, e := es[..|es| - 1], es[|es| - 1];
      var d := AppendAll(NO_FILES, start);
      FilesStayContiguous(start);
      RotationIsContiguous(d, FilesAfter(Rotations(NO_FILES, start)), e);
      if MAX_FILES in d.rotated {
        assert Bytes(d.rotated[MAX_FILES]) > 0;
      }
    }
    CountFiles(AppendAll(NO_FILES, es), FilesAfter(Rotations(NO_FILES, es)));
  }

  lemma CountFiles(d: Files, n: nat)
    requires Contiguous(d, n)
    ensures |d.rotated| == n
  {
    var ks := seq(n, i => i + 1);
    DistinctCard(ks);
    forall k
      ensures k in d.rotated.Keys <==> k in (set x | x in ks)
    {
      assert 1 <= k <= n ==> ks[k - 1] == k;
    }
    assert d.rotated.Keys == set x | x in ks;
  }

  lemma {:induction false} BytesAdd(a: seq<Entry>, b: seq<Entry>)
    ensures Bytes(a + b) == Bytes(a) + Bytes(b)
  {
    if b == [] {
      assert a + b == a;
    } else {
      BytesAdd(a, b[..|b| - 1]);
      assert (a + b)[..|a + b| - 1] == a + b[..|b| - 1];
    }
  }

  lemma {:induction false} OlderBytes(r: Slots, k: nat)
    requires forall i :: 1 <= i <= k ==> i in r && Bytes(r[i]) >= MAX_FILE_SIZE
    ensures Bytes(Older(r, k)) >= k * MAX_FILE_SIZE
  {
    if k > 0 {
      OlderBytes(r, k - 1);
      BytesAdd(Part(r, k), Older(r, k - 1));
    }
  }

  /** Once anything has been lost, the newest hundred mebibytes are still there. */
  lemma RecentHistoryIsKept(es: seq<Entry>)
    ensures TotalLost(NO_FILES, es) > 0 ==>
              Bytes(Chronicle(AppendAll(NO_FILES, es))) >= MAX_FILES * MAX_FILE_SIZE
  {
    var d := AppendAll(NO_FILES, es);
    FilesStayContiguous(es);
    if TotalLost(NO_FILES, es) > 0 {
      OlderBytes(d.rotated, MAX_FILES);
      BytesAdd(Older(d.rotated, MAX_FILES), Live(d));
    }
  }

  /** What can be checked beforehand: fewer bytes than eleven files hold, and nothing is lost. */
  lemma {:induction false} SmallHistoryIsKept(es: seq<Entry>)
    requires Bytes(es) < (MAX_FILES + 1) * MAX_FILE_SIZE
    ensures TotalLost(NO_FILES, es) == 0 && Chronicle(AppendAll(NO_FILES, es)) == es
  {
    if es != [] {
      var start, e := es[..|es| - 1], es[|es| - 1];
      SmallHistoryIsKept(start);
      LossNeedsBytes(start);
      LastAppend(NO_FILES, es, es[..|es| - 1], es[|es| - 1]);
    }
    HistoryIsConserved(NO_FILES, es);
    assert Chronicle(NO_FILES) + es == es by {
      NoFilesAreEmpty(MAX_FILES);
    }
  }

  lemma {:induction false} NoFilesAreEmpty(k: nat)
    ensures Older(map[], k) == []
  {
    if k > 0 {
      NoFilesAreEmpty(k - 1);
    }
  }

  /** Before anything is dropped, eleven files are full. */
  lemma LossNeedsBytes(es: seq<Entry>)
    ensures var d := AppendAll(NO_FILES, es);
            Lost(d) > 0 ==> Bytes(Chronicle(d)) >= (MAX_FILES + 1) * MAX_FILE_SIZE
  {
    var d := AppendAll(NO_FILES, es);
    FilesStayContiguous(es);
    if Lost(d) > 0 {
      OlderBytes(d.rotated, MAX_FILES);
      BytesAdd(Older(d.rotated, MAX_FILES), Live(d));
    }
  }

  /** Entries that each fill a file. */
  function LargeEntry(n: nat): Entry {
    Entry(n, "", MAX_FILE_SIZE)
  }

  function Large(n: nat): seq<Entry> {
    if n == 0 then [] else Large(n - 1) + [LargeEntry(n)]
  }

  /** After n of them, the live file holds the last, and each but the first has rotated the one before. */
  ghost predicate EachRotated(es: seq<Entry>, n: nat) {
    && |es| == n && Rotations(NO_FILES, es) == (if n == 0 then 0 else n - 1)
    && AppendAll(NO_FILES, es).live == if n == 0 then None else Some([LargeEntry(n)])
  }

  lemma OneMoreLarge(es: seq<Entry>, n: nat)
    requires EachRotated(es, n)
    ensures EachRotated(es + [LargeEntry(n + 1)], n + 1)
  {
    var all := es + [LargeEntry(n + 1)];
    assert all[..|all| - 1] == es;
    NewLiveFile(AppendAll(NO_FILES, es), LargeEntry(n), LargeEntry(n + 1));
  }

  lemma {:induction false} LargeRotates(n: nat)
    ensures EachRotated(Large(n), n)
  {
    if n > 0 {
      LargeRotates(n - 1);
      OneMoreLarge(Large(n - 1), n - 1);
    }
  }

  lemma NewLiveFile(d: Files, before: Entry, e: Entry)
    requires before.bytes == MAX_FILE_SIZE
    ensures d.live == Some([before]) ==> MustRotate(d)
    ensures d.live.None? || d.live == Some([before]) ==> Append(d, e).live == Some([e])
    ensures d.live.None? ==> !MustRotate(d)
  {
    assert [before][..0] == [];
    assert Bytes([before]) == MAX_FILE_SIZE;
    assert [] + [e] == [e];
  }

  /** Twelve of them rotate eleven times, and the first is lost. */
  lemma TwelfthFileIsLost(n: nat)
    requires n > MAX_FILES + 1
    ensures TotalLost(NO_FILES, Large(n)) > 0 && Chronicle(AppendAll(NO_FILES, Large(n))) != Large(n)
  {
    LargeRotates(n);
    FilesStayContiguous(Large(n));
    HistoryIsConserved(NO_FILES, Large(n));
    NoFilesAreEmpty(MAX_FILES);
    assert Chronicle(NO_FILES) + Large(n) == Large(n);
  }

  // ----- reading

  function Down(hi: int, lo: int): seq<int>
    decreases hi - lo
  {
    if hi < lo then [] else [hi] + Down(hi - 1, lo)
  }

  /** The rotated files by name, in descending order: `audit.10.jsonl` comes before `audit.1.jsonl` only. */
  const READ_ORDER: seq<int> := Down(9, 2) + [10] + [1]

  function Concat(r: Slots, order: seq<int>): seq<Entry> {
    if order == [] then [] else Concat(r, order[..|order| - 1]) + Part(r, order[|order| - 1])
  }

  /** Everything, in the order `read_all` finds it. */
  function Everything(d: Files): seq<Entry> {
    Live(d) + Concat(d.rotated, READ_ORDER)
  }

  function FileName(i: int): string
    requires 1 <= i <= MAX_FILES
  {
    "audit." + (if i == 10 then "10" else ["0123456789"[i]]) + ".jsonl"
  }

  /** `a` comes before `b` in the order of the alphabet, as they first differ at position `k`. */
  ghost predicate DiffersAt(a: string, b: string, k: nat) {
    && k < |b| && k <= |a| && (forall i :: 0 <= i < k ==> a[i] == b[i])
    && (k < |a| ==> a[k] < b[k])
  }

  ghost predicate Before(a: string, b: string) {
    exists k :: DiffersAt(a, b, k)
  }

  ghost predicate ReadBefore(i: int, j: int) {
    1 <= i <= MAX_FILES && 1 <= j <= MAX_FILES && Before(FileName(j), FileName(i))
  }

  /** The files are read in the descending order of their names, each once: the live file first, and the tenth
      before the first. */
  lemma ReadOrderIsByName()
    ensures |READ_ORDER| == MAX_FILES && forall i :: i in READ_ORDER <==> 1 <= i <= MAX_FILES
    ensures forall i :: 1 <= i <= MAX_FILES ==> Before(FileName(i), "audit.jsonl")
    ensures forall k, m :: 0 <= k < m < |READ_ORDER| ==> ReadBefore(READ_ORDER[k], READ_ORDER[m])
  {
    assert READ_ORDER == [9, 8, 7, 6, 5, 4, 3, 2, 10, 1];
    forall i | 1 <= i <= MAX_FILES
      ensures Before(FileName(i), "audit.jsonl")
    {
      assert DiffersAt(FileName(i), "audit.jsonl", 6);
    }
    forall k, m | 0 <= k < m < |READ_ORDER|
      ensures ReadBefore(READ_ORDER[k], READ_ORDER[m])
    {
      NamesDiffer(READ_ORDER[k], READ_ORDER[m]);
    }
  }

  lemma NamesDiffer(i: int, j: int)
    requires 1 <= j < i < 10 || (1 < i < 10 && j == 10) || (i == 10 && j == 1)
    ensures ReadBefore(i, j)
  {
    assert DiffersAt(FileName(j), FileName(i), if i == 10 then 7 else 6);
  }

  lemma ConcatNext(r: Slots, order: seq<int>, i: nat)
    requires i < |order|
    ensures Concat(r, order[..i + 1]) == Concat(r, order[..i]) + Part(r, order[i])
  {
    assert order[..i + 1][..i] == order[..i];
  }

  lemma ConcatFive(r: Slots, order: seq<int>, i: nat)
    requires i + 5 <= |order|
    ensures Concat(r, order[..i + 5]) == Concat(r, order[..i]) + Part(r, order[i]) + Part(r, order[i + 1])
            + Part(r, order[i + 2]) + Part(r, order[i + 3]) + Part(r, order[i + 4])
  {
    ConcatNext(r, order, i);
    ConcatNext(r, order, i + 1);
    ConcatNext(r, order, i + 2);
    ConcatNext(r, order, i + 3);
    ConcatNext(r, order, i + 4);
  }

  lemma ConcatTen(r: Slots, order: seq<int>)
    requires |order| == 10
    ensures Concat(r, order) ==
            Part(r, order[0]) + Part(r, order[1]) + Part(r, order[2]) + Part(r, order[3]) + Part(r, order[4])
            + Part(r, order[5]) + Part(r, order[6]) + Part(r, order[7]) + Part(r, order[8]) + Part(r, order[9])
  {
    ConcatFive(r, order, 0);
    ConcatFive(r, order, 5);
    assert order[..10] == order;
    NothingBefore(r, order);
  }

  lemma NothingBefore(r: Slots, order: seq<int>)
    requires order != []
    ensures Concat(r, order[..0]) + Part(r, order[0]) == Part(r, order[0])
  {
    assert order[..0] == [];
  }

  /** The live file, then the rotated ones in the order of their names. */
  lemma EverythingInOrder(d: Files)
    ensures var r := d.rotated;
            Everything(d) == Live(d) + (Part(r, 9) + Part(r, 8) + Part(r, 7) + Part(r, 6) + Part(r, 5) + Part(r, 4)
                                        + Part(r, 3) + Part(r, 2) + Part(r, 10) + Part(r, 1))
  {
    var r, order := d.rotated, READ_ORDER;
    assert order == [9, 8, 7, 6, 5, 4, 3, 2, 10, 1];
    ConcatTen(r, order);
  }

  lemma {:induction false} ConcatSplit(r: Slots, a: seq<int>, b: seq<int>)
    ensures Concat(r, a + b) == Concat(r, a) + Concat(r, b)
  {
    if b == [] {
      assert a + b == a;
    } else {
      ConcatSplit(r, a, b[..|b| - 1]);
      assert (a + b)[..|a + b| - 1] == a + b[..|b| - 1];
    }
  }

  lemma {:induction false} DownEnds(hi: int, lo: int)
    requires lo <= hi
    ensures Down(hi, lo) == Down(hi, lo + 1) + [lo]
    decreases hi - lo
  {
    if lo < hi {
      DownEnds(hi - 1, lo);
    } else {
      assert Down(lo - 1, lo) == [] && Down(lo, lo + 1) == [];
    }
  }

  lemma {:induction false} OlderIsConcat(r: Slots, k: nat)
    ensures Older(r, k) == Concat(r, Down(k, 1))
  {
    if k > 0 {
      OlderIsConcat(r, k - 1);
      ConcatSplit(r, [k], Down(k - 1, 1));
      assert Concat(r, [k]) == Part(r, k);
    }
  }

  lemma ReadingSlots(r: Slots, middle: seq<int>, last: int)
    ensures multiset(Concat(r, middle + [last] + [1])) == multiset(Concat(r, [last] + (middle + [1])))
  {
    ConcatSplit(r, middle + [last], [1]);
    ConcatSplit(r, middle, [last]);
    ConcatSplit(r, [last], middle + [1]);
    ConcatSplit(r, middle, [1]);
  }

  /** Reading finds exactly what is on disk, though not in the order it was written. */
  lemma ReadingIsComplete(d: Files)
    ensures multiset(Everything(d)) == multiset(Chronicle(d))
  {
    ReadingSlots(d.rotated, Down(9, 2), 10);
    DownEnds(9, 1);
    OlderIsConcat(d.rotated, MAX_FILES);
  }

  // ----- cleanup

  function Since(es: seq<Entry>, cutoff: int): seq<Entry> {
    if es == [] then []
    else
      var e := es[|es| - 1];
      Since(es[..|es| - 1], cutoff) + if e.at >= cutoff then [e] else []
  }

  /** How a rewrite ends: before the new live file is in place, or after `stop` of the unlinks. */
  datatype Ending = NotReplaced | Replaced(order: seq<int>, stop: nat) {
    ghost predicate Wf(d: Files) {
      Replaced? ==> stop <= |order| && (forall i :: i in order <==> i in d.rotated)
    }
  }

  function Unlinked(r: Slots, gone: seq<int>): Slots {
    map i | i in r && i !in gone :: r[i]
  }

  function Rewrite(d: Files, kept: seq<Entry>, ending: Ending): Files
    requires ending.Wf(d)
  {
    match ending
    case NotReplaced => d
    case Replaced(order, stop) => Files(Some(kept), Unlinked(d.rotated, order[..stop]))
  }

  function Cleanup(d: Files, cutoff: int, ending: Ending): (Files, nat)
    requires ending.Wf(d)
  {
    var all := Everything(d);
    var kept := Since(all, cutoff);
    SinceShrinks(all, cutoff);
    var removed := |all| - |kept|;
    (if removed > 0 then Rewrite(d, kept, ending) else d, removed)
  }

  lemma {:induction false} SinceShrinks(es: seq<Entry>, cutoff: int)
    ensures |Since(es, cutoff)| <= |es|
    ensures |Since(es, cutoff)| == |es| <==> forall e <- es :: e.at >= cutoff
    ensures |Since(es, cutoff)| == |es| ==> Since(es, cutoff) == es
  {
    if es != [] {
      SinceShrinks(es[..|es| - 1], cutoff);
      assert es == es[..|es| - 1] + [es[|es| - 1]];
    }
  }

  lemma {:induction false} SinceCounts(es: seq<Entry>, cutoff: int, e: Entry)
    ensures multiset(Since(es, cutoff))[e] == if e.at >= cutoff then multiset(es)[e] else 0
  {
    if es != [] {
      SinceCounts(es[..|es| - 1], cutoff, e);
      assert es == es[..|es| - 1] + [es[|es| - 1]];
    }
  }

  lemma {:induction false} ConcatNothing(order: seq<int>)
    ensures Concat(map[], order) == []
  {
    if order != [] {
      ConcatNothing(order[..|order| - 1]);
    }
  }

  lemma {:induction false} ConcatShrinks(r: Slots, gone: seq<int>, order: seq<int>)
    ensures multiset(Concat(Unlinked(r, gone), order)) <= multiset(Concat(r, order))
  {
    if order != [] {
      ConcatShrinks(r, gone, order[..|order| - 1]);
    }
  }

  lemma AllUnlinked(r: Slots, gone: seq<int>)
    requires forall i <- r :: i in gone
    ensures Unlinked(r, gone) == map[]
  {
    forall i
      ensures i !in Unlinked(r, gone)
    {
      assert i in r ==> i in gone;
    }
  }

  lemma CleanedUp(d: Files, cutoff: int, ending: Ending)
    requires ending.Wf(d) && ending.Replaced? && ending.stop == |ending.order|
    ensures var (d', removed) := Cleanup(d, cutoff, ending);
            && Everything(d') == Since(Everything(d), cutoff)
            && removed == |Everything(d)| - |Everything(d')|
            && d' == if removed == 0 then d else Files(Some(Everything(d')), map[])
  {
    SinceShrinks(Everything(d), cutoff);
    ConcatNothing(READ_ORDER);
    assert ending.order[..ending.stop] == ending.order;
    AllUnlinked(d.rotated, ending.order);
    assert Since(Everything(d), cutoff) + [] == Since(Everything(d), cutoff);
  }

  /** When nothing fails, exactly the entries at or after the cutoff remain, each as often as before. */
  lemma CleanupIsExact(d: Files, cutoff: int, ending: Ending, e: Entry)
    requires ending.Wf(d) && ending.Replaced? && ending.stop == |ending.order|
    ensures var (d', removed) := Cleanup(d, cutoff, ending);
            && multiset(Chronicle(d'))[e] == (if e.at >= cutoff then multiset(Chronicle(d))[e] else 0)
            && removed == |Chronicle(d)| - |Chronicle(d')|
            && (removed == 0 <==> forall x <- Chronicle(d) :: x.at >= cutoff)
            && (removed == 0 ==> d' == d)
            && (removed > 0 ==> d'.rotated == map[])
  {
    CleanedUp(d, cutoff, ending);
    var d' := Cleanup(d, cutoff, ending).0;
    ReadingIsComplete(d);
    ReadingIsComplete(d');
    SinceShrinks(Everything(d), cutoff);
    SinceCounts(Everything(d), cutoff, e);
    SameElements(Everything(d), Chronicle(d));
    SameElements(Everything(d'), Chronicle(d'));
  }

  /** Wherever a rewrite fails, no entry from the cutoff on is lost and none appears from nowhere. */
  lemma CleanupNeverLosesRecent(d: Files, cutoff: int, ending: Ending, e: Entry)
    requires ending.Wf(d)
    ensures var d' := Cleanup(d, cutoff, ending).0;
            && (e.at >= cutoff ==> multiset(Everything(d))[e] <= multiset(Everything(d'))[e])
            && (e in Everything(d') ==> e in Everything(d))
  {
    var (d', removed) := Cleanup(d, cutoff, ending);
    var all := Everything(d);
    SinceCounts(all, cutoff, e);
    if removed > 0 && ending.Replaced? {
      var gone := ending.order[..ending.stop];
      ConcatShrinks(d.rotated, gone, READ_ORDER);
      assert multiset(Everything(d')) == multiset(Since(all, cutoff)) + multiset(Concat(d'.rotated, READ_ORDER));
      assert multiset(all) == multiset(Live(d)) + multiset(Concat(d.rotated, READ_ORDER));
      if e in Everything(d') {
        assert e in multiset(Everything(d'));
        assert e in multiset(all);
      }
    }
  }
}
