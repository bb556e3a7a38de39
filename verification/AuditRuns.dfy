/** Whole runs of the audit store, in which appends and cleanups are mixed. */
module AuditRuns {
  import opened AuditFiles

  /** How far the rewrite of a cleanup gets: not at all, through some of the unlinks, or all the way. */
  datatype Extent = Untouched | Unlinks(n: nat) | Complete

  datatype Change = Add(e: Entry) | Clean(cutoff: int, extent: Extent)

  /** The order in which a directory lists the rotated files. */
  type Listing = set<int> -> seq<int>

  ghost predicate ListsAll(ls: Listing) {
    forall s, i :: i in ls(s) <==> i in s
  }

  function EndingOf(ls: Listing, d: Files, extent: Extent): Ending {
    var order := ls(d.rotated.Keys);
    match extent
    case Untouched => NotReplaced
    case Unlinks(n) => Replaced(order, if n < |order| then n else |order|)
    case Complete => Replaced(order, |order|)
  }

  /** A rewrite can end everywhere: before the live file is replaced and after each of the unlinks. */
  lemma EveryEndingHappens(ls: Listing, d: Files, stop: nat)
    requires stop <= |ls(d.rotated.Keys)|
    ensures EndingOf(ls, d, Untouched) == NotReplaced
    ensures EndingOf(ls, d, Unlinks(stop)) == Replaced(ls(d.rotated.Keys), stop)
    ensures EndingOf(ls, d, Complete) == Replaced(ls(d.rotated.Keys), |ls(d.rotated.Keys)|)
  {
  }

  function Apply(ls: Listing, d: Files, c: Change): Files
    requires ListsAll(ls)
  {
    match c
    case Add(e) => Append(d, e)
    case Clean(cutoff, extent) => Cleanup(d, cutoff, EndingOf(ls, d, extent)).0
  }

  function After(ls: Listing, d: Files, cs: seq<Change>): Files
    requires ListsAll(ls)
  {
    if cs == [] then d else Apply(ls, After(ls, d, cs[..|cs| - 1]), cs[|cs| - 1])
  }

  /** How often an entry is on disk. */
  function Count(d: Files, e: Entry): nat {
    multiset(Chronicle(d))[e]
  }

  function Added(c: Change, e: Entry): nat {
    if c == Add(e) then 1 else 0
  }

  /** How many copies of the entry a change gives up: those in the file that a rotation drops, and
      those before the cutoff. */
  function Dropped(d: Files, c: Change, e: Entry): nat {
    match c
    case Add(_) => RotationIsSuffix(d); multiset(Chronicle(d)[..Lost(d)])[e]
    case Clean(cutoff, _) => if e.at < cutoff then Count(d, e) else 0
  }

  function AddedOver(cs: seq<Change>, e: Entry): nat {
    if cs == [] then 0 else AddedOver(cs[..|cs| - 1], e) + Added(cs[|cs| - 1], e)
  }

  function DroppedOver(ls: Listing, d: Files, cs: seq<Change>, e: Entry): nat
    requires ListsAll(ls)
  {
    if cs == [] then 0
    else DroppedOver(ls, d, cs[..|cs| - 1], e) + Dropped(After(ls, d, cs[..|cs| - 1]), cs[|cs| - 1], e)
  }

  lemma AddCounts(d: Files, x: Entry, e: Entry)
    ensures Count(Append(d, x), e) + Dropped(d, Add(x), e) == Count(d, e) + Added(Add(x), e)
  {
    AppendIsSuffix(d, x);
    var c, k := Chronicle(d), Lost(d);
    assert c == c[..k] + c[k..];
  }

  lemma CleanCounts(ls: Listing, d: Files, cutoff: int, extent: Extent, e: Entry)
    requires ListsAll(ls)
    ensures var d' := Apply(ls, d, Clean(cutoff, extent));
            && (extent.Complete? ==> Count(d', e) + Dropped(d, Clean(cutoff, extent), e) == Count(d, e))
            && Count(d', e) + Dropped(d, Clean(cutoff, extent), e) >= Count(d, e)
            && (Count(d', e) > 0 ==> Count(d, e) > 0)
  {
    var ending := EndingOf(ls, d, extent);
    assert ending.Wf(d);
    var d' := Apply(ls, d, Clean(cutoff, extent));
    if extent.Complete? {
      CleanupIsExact(d, cutoff, ending, e);
    } else {
      CleanupNeverLosesRecent(d, cutoff, ending, e);
      ReadingIsComplete(d);
      ReadingIsComplete(d');
      InMultiset(Everything(d), e);
      InMultiset(Everything(d'), e);
    }
  }

  lemma ChangeCounts(ls: Listing, d: Files, c: Change, e: Entry)
    requires ListsAll(ls)
    ensures var before, after := Count(d, e) + Added(c, e), Count(Apply(ls, d, c), e);
            && ((c.Clean? ==> c.extent.Complete?) ==> after + Dropped(d, c, e) == before)
            && after + Dropped(d, c, e) >= before && (after > 0 ==> before > 0)
  {
    match c
    case Add(x) => AddCounts(d, x, e);
    case Clean(cutoff, extent) => CleanCounts(ls, d, cutoff, extent, e);
  }

  lemma InMultiset<T>(s: seq<T>, x: T)
    ensures x in s <==> multiset(s)[x] > 0
  {
    assert x in s <==> x in multiset(s);
  }

  ghost predicate AllComplete(cs: seq<Change>) {
    forall c <- cs :: c.Clean? ==> c.extent.Complete?
  }

  /**
   Over any mix of appends and cleanups in which no rewrite fails, every entry is accounted for:
   the copies on disk and the copies given up to rotation and cutoffs are those there were and
   those appended.
   */
  lemma {:induction false} EntriesAreConserved(ls: Listing, d: Files, cs: seq<Change>, e: Entry)
    requires ListsAll(ls) && AllComplete(cs)
    ensures Count(After(ls, d, cs), e) + DroppedOver(ls, d, cs, e) == Count(d, e) + AddedOver(cs, e)
  {
    if cs != [] {
      var front, c := cs[..|cs| - 1], cs[|cs| - 1];
      assert cs == front + [c];
      EntriesAreConserved(ls, d, front, e);
      var before := After(ls, d, front);
      ChangeCounts(ls, before, c, e);
    }
  }

  /** Wherever rewrites fail, no copy is lost that was not given up, and no entry is on disk that
      was neither there nor appended. */
  lemma {:induction false} NoEntryIsLost(ls: Listing, d: Files, cs: seq<Change>, e: Entry)
    requires ListsAll(ls)
    ensures Count(After(ls, d, cs), e) + DroppedOver(ls, d, cs, e) >= Count(d, e) + AddedOver(cs, e)
    ensures Count(After(ls, d, cs), e) > 0 ==> Count(d, e) + AddedOver(cs, e) > 0
  {
    if cs != [] {
      var front, c := cs[..|cs| - 1], cs[|cs| - 1];
      NoEntryIsLost(ls, d, front, e);
      var before := After(ls, d, front);
      ChangeCounts(ls, before, c, e);
    }
  }
}
