/** The disk cleaner: which files go, in which order, and when it stops. */
module DiskCleaner {
  import opened Common

  datatype Kind = RECORD | EVENT | OTHER

  /** A video file as the directory walk finds it. */
  datatype Found = Found(path: string, parent: string, size: nat, mtime: int)

  datatype File = File(path: string, size: nat, mtime: int, kind: Kind)

  function KindOf(parent: string): Kind {
    if "RECORD_" <= parent then RECORD else if "EVENT_" <= parent then EVENT else OTHER
  }

  function Info(f: Found): File {
    File(f.path, f.size, f.mtime, KindOf(f.parent))
  }

  // ---------------------------------------------------------------------
  // Stable sorting by modification time.
  // ---------------------------------------------------------------------

  function Insert(s: seq<File>, x: File): seq<File> {
    if s == [] || Last(s).mtime <= x.mtime then s + [x] else Insert(Front(s), x) + [Last(s)]
  }

  function Sort(s: seq<File>): seq<File> {
    if s == [] then [] else Insert(Sort(Front(s)), Last(s))
  }

  predicate OldestFirst(s: seq<File>) {
    forall i, j :: 0 <= i < j < |s| ==> s[i].mtime <= s[j].mtime
  }

  /** The files of one modification time, in order. */
  function WithTime(s: seq<File>, t: int): seq<File> {
    if s == [] then [] else WithTime(Front(s), t) + if Last(s).mtime == t then [Last(s)] else []
  }

  lemma {:induction false} InsertKeepsAll(s: seq<File>, x: File)
    ensures multiset(Insert(s, x)) == multiset(s) + multiset{x}
  {
    if s != [] && Last(s).mtime > x.mtime {
      InsertKeepsAll(Front(s), x);
      assert s == Front(s) + [Last(s)];
    }
  }

  lemma {:induction false} InsertKeepsTimes(s: seq<File>, x: File, t: int)
    requires OldestFirst(s)
    ensures WithTime(Insert(s, x), t) == WithTime(s, t) + if x.mtime == t then [x] else []
  {
    if s == [] || Last(s).mtime <= x.mtime {
      assert Front(s + [x]) == s;
    } else {
      InsertKeepsTimes(Front(s), x, t);
      assert Front(Insert(s, x)) == Insert(Front(s), x);
      if x.mtime == t {
        assert WithTime(s, t) == WithTime(Front(s), t);
      }
    }
  }

  lemma {:induction false} InsertStaysBelow(s: seq<File>, x: File, bound: int)
    requires x.mtime <= bound && forall i :: 0 <= i < |s| ==> s[i].mtime <= bound
    ensures forall i :: 0 <= i < |Insert(s, x)| ==> Insert(s, x)[i].mtime <= bound
  {
    if s != [] && Last(s).mtime > x.mtime {
      InsertStaysBelow(Front(s), x, bound);
    }
  }

  lemma AppendIsSorted(s: seq<File>, x: File)
    requires OldestFirst(s) && forall i :: 0 <= i < |s| ==> s[i].mtime <= x.mtime
    ensures OldestFirst(s + [x])
  {
  }

  lemma {:induction false} InsertIsSorted(s: seq<File>, x: File)
    requires OldestFirst(s)
    ensures OldestFirst(Insert(s, x))
  {
    if s != [] && Last(s).mtime > x.mtime {
      assert Insert(s, x) == Insert(Front(s), x) + [Last(s)];
      InsertIsSorted(Front(s), x);
      InsertStaysBelow(Front(s), x, Last(s).mtime);
      hide Insert;
      AppendIsSorted(Insert(Front(s), x), Last(s));
    } else {
      AppendIsSorted(s, x);
    }
  }

  /** The order is by time; files of equal time keep the order they were found in, none is lost. */
  lemma {:induction false} SortIsStable(s: seq<File>)
    ensures OldestFirst(Sort(s)) && multiset(Sort(s)) == multiset(s)
    ensures forall t :: WithTime(Sort(s), t) == WithTime(s, t)
  {
    if s != [] {
      var sorted, x := Sort(Front(s)), Last(s);
      SortIsStable(Front(s));
      InsertIsSorted(sorted, x);
      InsertKeepsAll(sorted, x);
      assert s == Front(s) + [x];
      hide Insert; hide OldestFirst;
      forall t ensures WithTime(Sort(s), t) == WithTime(s, t) {
        InsertKeepsTimes(sorted, x, t);
      }
    }
  }

  /** The found files of the event folders, or of all others. */
  function Picked(found: seq<Found>, events: bool): seq<File> {
    if found == [] then [] else
    var f := Info(Last(found));
    Picked(Front(found), events) + if (f.kind == EVENT) == events then [f] else []
  }

  method FindOldFiles(found: seq<Found>) returns (files: seq<File>)
    ensures files == Sort(Picked(found, false)) + Sort(Picked(found, true))
  {
    var recordFiles, eventFiles: seq<File> := [], [];
    for i := 0 to |found|
      invariant recordFiles == Picked(found[..i], false) && eventFiles == Picked(found[..i], true)
    {
      assert Front(found[..i + 1]) == found[..i];
      var info := Info(found[i]);
      if "RECORD_" <= found[i].parent {
        recordFiles := recordFiles + [info];
      } else if "EVENT_" <= found[i].parent {
        eventFiles := eventFiles + [info];
      } else {
        recordFiles := recordFiles + [info];
      }
    }
    assert found[..|found|] == found;
    files := Sort(recordFiles) + Sort(eventFiles);
  }

  lemma {:induction false} PickedKinds(found: seq<Found>, events: bool)
    ensures forall i :: 0 <= i < |Picked(found, events)| ==> (Picked(found, events)[i].kind == EVENT) == events
  {
    if found != [] {
      PickedKinds(Front(found), events);
    }
  }

  /** Event recordings come after everything else, and each group is oldest first. */
  lemma DeletionOrder(found: seq<Found>)
    ensures var files := Sort(Picked(found, false)) + Sort(Picked(found, true));
            forall i, j :: 0 <= i < j < |files| ==>
              && (files[i].kind == EVENT ==> files[j].kind == EVENT)
              && ((files[i].kind == EVENT) == (files[j].kind == EVENT) ==> files[i].mtime <= files[j].mtime)
  {
    var a, b := Sort(Picked(found, false)), Sort(Picked(found, true));
    SortIsStable(Picked(found, false));
    SortIsStable(Picked(found, true));
    PickedKinds(found, false);
    PickedKinds(found, true);
    forall i | 0 <= i < |a| ensures a[i].kind != EVENT {
      assert a[i] in multiset(a);
    }
    forall i | 0 <= i < |b| ensures b[i].kind == EVENT {
      assert b[i] in multiset(b);
    }
  }

  /** A found file lies in an event folder. */
  predicate InEvents(x: Found) {
    "EVENT_" <= x.parent
  }

  /** The file is one of those found, with its path, size and time. */
  predicate IsOf(f: File, x: Found) {
    f.path == x.path && f.size == x.size && f.mtime == x.mtime && (f.kind == EVENT <==> InEvents(x))
  }

  lemma InfoIsOf(x: Found)
    ensures IsOf(Info(x), x)
  {
    assert "RECORD_" <= x.parent ==> x.parent[0] == 'R';
    assert "EVENT_" <= x.parent ==> x.parent[0] == 'E';
  }

  lemma {:induction false} PickedIsFound(found: seq<Found>, events: bool, f: File)
    requires f in Picked(found, events)
    ensures exists x :: x in found && IsOf(f, x) && InEvents(x) == events
  {
    hide Info; hide IsOf; hide InEvents;
    var x := Last(found);
    InfoIsOf(x);
    if f in Picked(Front(found), events) {
      PickedIsFound(Front(found), events, f);
    } else {
      KindOfPicked(Info(x), x);
      assert f == Info(x) && x in found;
    }
  }

  lemma {:induction false} FoundIsPicked(found: seq<Found>, x: Found)
    requires x in found
    ensures exists f :: f in Picked(found, InEvents(x)) && IsOf(f, x)
  {
    hide Info; hide IsOf; hide InEvents;
    if x == Last(found) {
      InfoIsOf(x);
      KindOfPicked(Info(x), x);
      assert Info(x) in Picked(found, InEvents(x));
    } else {
      FoundIsPicked(Front(found), x);
    }
  }

  lemma KindOfPicked(f: File, x: Found)
    requires IsOf(f, x)
    ensures f.kind == EVENT <==> InEvents(x)
  {
  }

  lemma FilesAreFound(found: seq<Found>)
    ensures var files := Sort(Picked(found, false)) + Sort(Picked(found, true));
            && |files| == |found|
            && (forall f :: f in files ==> exists x :: x in found && IsOf(f, x))
            && (forall x :: x in found ==> exists f :: f in files && IsOf(f, x))
  {
    var a, b := Picked(found, false), Picked(found, true);
    PickedSize(found);
    SortKeeps(a);
    SortKeeps(b);
    hide Sort; hide Picked; hide IsOf; hide InEvents;
    var files := Sort(a) + Sort(b);
    assert forall f :: f in files <==> f in a || f in b;
    forall f | f in files ensures exists x :: x in found && IsOf(f, x) {
      PickedIsFound(found, f in b, f);
    }
    forall x | x in found ensures exists f :: f in files && IsOf(f, x) {
      FoundIsPicked(found, x);
    }
  }

  /** What is found is what may go: the files to delete are those found, each with its own size and time,
      as many as were found; those of event folders come last, and each group is oldest first. */
  lemma OrderOfFound(found: seq<Found>)
    ensures var files := Sort(Picked(found, false)) + Sort(Picked(found, true));
            && |files| == |found|
            && (forall f :: f in files ==> exists x :: x in found && IsOf(f, x))
            && (forall x :: x in found ==> exists f :: f in files && IsOf(f, x))
    ensures var files := Sort(Picked(found, false)) + Sort(Picked(found, true));
            forall i, j :: 0 <= i < j < |files| ==>
              && (files[i].kind == EVENT ==> files[j].kind == EVENT)
              && ((files[i].kind == EVENT) == (files[j].kind == EVENT) ==> files[i].mtime <= files[j].mtime)
  {
    FilesAreFound(found);
    DeletionOrder(found);
    hide *;
  }

  lemma SortKeeps(s: seq<File>)
    ensures |Sort(s)| == |s| && forall f :: f in Sort(s) <==> f in s
  {
    SortIsStable(s);
    hide Sort;
    assert |multiset(Sort(s))| == |multiset(s)|;
    assert forall f :: f in Sort(s) <==> f in multiset(Sort(s));
  }

  // ---------------------------------------------------------------------
  // How much has to go, and the deletion loop.
  // ---------------------------------------------------------------------

  datatype Usage = Usage(total: nat, used: nat, free: nat)

  /** What has to stay free: bytes, and percent of the disk. */
  datatype Limits = Limits(minFree: real, minPercent: real)

  predicate NeedCleanup(u: Usage, l: Limits)
    requires u.total > 0
  {
    u.free as real < l.minFree || 100.0 - (u.used as real / u.total as real) * 100.0 < l.minPercent
  }

  function SpaceToFree(u: Usage, l: Limits): real {
    var share := u.total as real * (l.minPercent / 100.0);
    (if l.minFree >= share then l.minFree else share) - u.free as real
  }

  lemma ScaleOrder(a: real, b: real, total: real)
    requires total > 0.0
    ensures a < b <==> a * total < b * total
  {
    if a < b {
      assert (b - a) * total > 0.0;
    } else {
      assert (a - b) * total >= 0.0;
    }
  }

  lemma PercentAsBytes(total: real, used: real, percent: real)
    requires total > 0.0
    ensures 100.0 - (used / total) * 100.0 < percent <==> total - used < total * (percent / 100.0)
  {
    var q := used / total;
    assert q * total == used;
    assert (1.0 - q) * total == total - used;
    ScaleOrder(1.0 - q, percent / 100.0, total);
  }

  /** The percentage test as a test on bytes. */
  lemma NeedCleanupInBytes(u: Usage, l: Limits)
    requires u.total > 0
    ensures NeedCleanup(u, l) <==>
            u.free as real < l.minFree || (u.total - u.used) as real < u.total as real * (l.minPercent / 100.0)
  {
    PercentAsBytes(u.total as real, u.used as real, l.minPercent);
  }

  /** A cleanup that is needed has something to free. */
  lemma NeededMeansPositive(u: Usage, l: Limits)
    requires u.total > 0 && u.free + u.used <= u.total && NeedCleanup(u, l)
    ensures SpaceToFree(u, l) > 0.0
  {
    NeedCleanupInBytes(u, l);
  }

  /** A run that frees the target leaves nothing to clean up. */
  lemma FreeingTheTargetIsEnough(u: Usage, l: Limits, freed: nat)
    requires u.total > 0 && u.free + u.used <= u.total && freed <= u.used && freed as real >= SpaceToFree(u, l)
    ensures !NeedCleanup(Usage(u.total, u.used - freed, u.free + freed), l)
  {
    NeedCleanupInBytes(Usage(u.total, u.used - freed, u.free + freed), l);
  }

  /** The target is exactly what has to go, on a disk whose space is either used or free: a cleanup is
      needed if and only if the target is positive, and stays needed until the target is freed. */
  lemma TargetIsExact(u: Usage, l: Limits, freed: nat)
    requires u.total > 0 && u.free + u.used == u.total && freed <= u.used
    ensures NeedCleanup(Usage(u.total, u.used - freed, u.free + freed), l) <==> (freed as real) < SpaceToFree(u, l)
  {
    NeedCleanupInBytes(Usage(u.total, u.used - freed, u.free + freed), l);
  }

  /** Bytes freed by trying the first `k` files; `unlinks` says which deletions succeed. */
  function FreedBy(files: seq<File>, unlinks: nat -> bool, k: nat): nat
    requires k <= |files|
  {
    if k == 0 then 0 else FreedBy(files, unlinks, k - 1) + if unlinks(k - 1) then files[k - 1].size else 0
  }

  /** The deletion loop: tries a prefix of the files, and stops as soon as enough is freed. */
  method DeleteFiles(files: seq<File>, spaceToFree: real, dryRun: bool, unlinks: nat -> bool)
      returns (attempted: nat, freedSpace: nat, deletedCount: nat)
    ensures attempted <= |files|
    ensures !dryRun ==> freedSpace == FreedBy(files, unlinks, attempted)
    ensures dryRun ==> freedSpace == 0 && deletedCount == 0
    ensures freedSpace as real >= spaceToFree || attempted == |files|
    ensures !dryRun ==> forall k :: 0 <= k < attempted ==> FreedBy(files, unlinks, k) as real < spaceToFree
  {
    freedSpace, deletedCount := 0, 0;
    for i := 0 to |files|
      invariant !dryRun ==> freedSpace == FreedBy(files, unlinks, i)
      invariant dryRun ==> freedSpace == 0 && deletedCount == 0
      invariant !dryRun ==> forall k :: 0 <= k < i ==> FreedBy(files, unlinks, k) as real < spaceToFree
    {
      if freedSpace as real >= spaceToFree {
        return i, freedSpace, deletedCount;
      }
      if !dryRun {
        if unlinks(i) {
          deletedCount := deletedCount + 1;
          freedSpace := freedSpace + files[i].size;
        }
      }
    }
    attempted := |files|;
  }

  /** cleanup, after the logs: None when nothing is to be done or nothing can be. Otherwise a prefix of
      the deletion order is tried, up to the first file that completes the target, or all of it. */
  method Cleanup(u: Usage, l: Limits, found: seq<Found>, dryRun: bool, unlinks: nat -> bool)
      returns (r: Option<(nat, nat)>)
    requires u.total > 0
    ensures r.Some? ==> NeedCleanup(u, l)
    ensures r == None <==> !NeedCleanup(u, l) || found == []
    ensures r.Some? && !dryRun ==>
              var files := Sort(Picked(found, false)) + Sort(Picked(found, true));
              var (attempted, freed) := r.value;
              && attempted <= |files| && freed == FreedBy(files, unlinks, attempted)
              && (freed as real >= SpaceToFree(u, l) || attempted == |files|)
              && (forall k :: 0 <= k < attempted ==> FreedBy(files, unlinks, k) as real < SpaceToFree(u, l))
  {
    if !NeedCleanup(u, l) {
      return None;
    }
    var spaceToFree := SpaceToFree(u, l);
    var files := FindOldFiles(found);
    PickedSize(found);
    SortIsStable(Picked(found, false));
    SortIsStable(Picked(found, true));
    if files == [] {
      return None;
    }
    var attempted, freed, _ := DeleteFiles(files, spaceToFree, dryRun, unlinks);
    r := Some((attempted, freed));
  }

  lemma {:induction false} PickedSize(found: seq<Found>)
    ensures |Picked(found, false)| + |Picked(found, true)| == |found|
  {
    if found != [] {
      PickedSize(Front(found));
    }
  }
}
