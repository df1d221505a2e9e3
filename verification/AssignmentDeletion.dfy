/** Journaled deletion of one assignment with all its help-log directories, and its recovery
    (scripts/course_board_server.py). As in `ActivityDeletion`, every visible change of the disk is
    appended to a ghost `trace`, and a crash may fall between any two of them. */
module AssignmentDeletion {

  import opened Options
  import opened AssignmentDisk

  datatype Failure =
    | Archived | StageJournal | StageMove | StageFlush | Snapshot | Persisting
    | DeleteRecord | RemoveStaged | CommitMark | Answering

  datatype Response = AlreadyDeleted | Deleted(cleanupPending: bool) | Raised(failure: Failure)

  /** `d` recovers to the whole of `d0`, or to `d0` without its record and without any log. */
  ghost predicate AllOrNothing(d0: Disk, d: Disk) {
    Means(d, View(d0.record, d0.logs)) || Means(d, Gone(View(d0.record, d0.logs)))
  }

  /** One disk of a deletion that began at `d0`, before or after its `prepared` journal, and before or
      after files of log `lost` were removed for good. */
  ghost predicate DeletionStep(d0: Disk, d: Disk, prepared: bool, lost: Option<nat>) {
    if lost.Some? then MeansBut(d, View(d0.record, d0.logs), lost.value)
    else if prepared then AllOrNothing(d0, d)
    else Means(d, View(d0.record, d0.logs))
  }

  /** What the answer of a deletion says about the disk it leaves. Nothing is left, although it raises,
      where the answer could not be made up, and where the record is gone but a rollback that was due
      did not reach the disk. */
  ghost predicate Outcome(d0: Disk, d: Disk, r: Response, prepared: Option<nat>, damaged: Option<nat>, marked: bool) {
    var v := View(d0.record, d0.logs);
    if d0.record == None then (r == AlreadyDeleted || r == Raised(Answering)) && d == d0
    else
      && r != AlreadyDeleted && DeletionStep(d0, d, prepared.Some?, damaged)
      && (r.Deleted? ==> prepared.Some? && Means(d, Gone(v)))
      && (r == Deleted(false) ==> Settled(d, Gone(v)))
      && (r.Raised? ==> (Means(d, Gone(v)) <==> r == Raised(Answering) || (!marked && d.record == None)))
      && (r.Raised? && damaged.None? && r.failure != Answering && (marked || d.record.Some?) ==> Means(d, v))
      && (!marked ==> r.Raised? && r.failure in {DeleteRecord, RemoveStaged, CommitMark})
      && (damaged.Some? ==> r == Raised(StageFlush))
  }

  /** In the disks of the trace from `from` on, staged log `watched` is whole before position `broken` and
      no more from there on. */
  ghost predicate WholeUntil(d: Disk, trace: seq<Disk>, from: nat, broken: nat, watched: nat) {
    && from <= broken <= |trace|
    && (!Holds(d, watched) ==> broken == |trace|)
    && (Holds(d, watched) ==> forall k :: from <= k < |trace| ==> (StillWhole(d, trace[k], watched) <==> k < broken))
  }

  /** ... and `d` is the last of them, or the disk before them. */
  ghost predicate Tracked(d0: Disk, d: Disk, trace: seq<Disk>, from: nat, broken: nat, watched: nat) {
    && WholeUntil(d0, trace, from, broken, watched)
    && (Holds(d0, watched) ==> (StillWhole(d0, d, watched) <==> broken == |trace|))
  }

  /** The same after the removal of slot `i` of kind `s`, which appended some disks. */
  lemma WholeOn(d0: Disk, d: Disk, before: seq<Disk>, after: seq<Disk>, from: nat, broken: nat, s: Slot, i: nat,
      watched: nat)
    returns (broken': nat)
    requires Tracked(d0, d, before, from, broken, watched) && before <= after
    requires PurgeStep(d0, d) && s != Log
    requires forall k :: |before| <= k < |after| ==> Removing(d, after[k], s, i)
    ensures WholeUntil(d0, after, from, broken', watched)
    ensures after != before && Holds(d0, watched) ==>
      (StillWhole(d0, after[|after| - 1], watched) <==> broken' == |after|)
    ensures after == before ==> broken' == broken
  {
    var untouched := broken == |before| && !(s == Staged && i == watched);
    broken' := if !Holds(d0, watched) || untouched then |after| else broken;
    forall k | |before| <= k < |after|
      ensures Holds(d0, watched) ==> (StillWhole(d0, after[k], watched) <==> k < broken')
    {
      RemovingOneLog(d0, d, after[k], s, i, watched);
    }
    assert forall k :: 0 <= k < |before| ==> after[k] == before[k];
  }

  /** The view without log `lost`. */
  function Unlogged(v: View, lost: Option<nat>): View {
    if lost.Some? && lost.value < |v.logs| then v.(logs := v.logs[lost.value := None]) else v
  }

  /** The next entry of a directory listing, in any order. */
  method OneOf<T>(entries: set<T>) returns (i: T)
    requires entries != {}
    ensures i in entries
  {
    i :| i in entries;
  }

  class AssignmentFiles {
    var disk: Disk
    ghost var trace: seq<Disk>
    ghost var faults: nat

    ghost predicate Valid()
      reads this
    {
      WellFormed(disk) && trace != [] && trace[|trace| - 1] == disk
    }

    constructor (d: Disk)
      requires WellFormed(d)
      ensures Valid() && disk == d && trace == [d] && faults == 0
    {
      disk, trace, faults := d, [d], 0;
    }

    // ------------------------------------------------------------------------------ primitives

    method Apply(next: Disk) returns (ok: bool)
      requires Valid() && WellFormed(next)
      modifies this
      ensures Valid()
      ensures ok ==> disk == next && trace == old(trace) + [next] && faults == old(faults)
      ensures !ok ==> disk == old(disk) && trace == old(trace) && faults == old(faults) + 1
    {
      ok := *;
      if ok {
        disk := next;
        trace := trace + [next];
      } else {
        faults := faults + 1;
      }
    }

    /** A step without visible effect that may fail: `sync_directory`, `sync_file_tree`, or reading
        the quarantined files. */
    method Flush() returns (ok: bool)
      modifies this`faults
      ensures ok ==> faults == old(faults)
      ensures !ok ==> faults == old(faults) + 1
    {
      ok := *;
      if !ok {
        faults := faults + 1;
      }
    }

    /** An atomic write or unlink with its flush: done, failed without effect, or failed after
        taking effect. */
    method Publish(next: Disk) returns (ok: bool)
      requires Valid() && WellFormed(next)
      modifies this
      ensures Valid()
      ensures ok ==> disk == next && trace == old(trace) + [next] && faults == old(faults)
      ensures !ok ==> faults == old(faults) + 1
      ensures !ok ==> (disk == old(disk) && trace == old(trace)) || (disk == next && trace == old(trace) + [next])
    {
      ok := Apply(next);
      if ok {
        ok := Flush();
      }
    }

    /** `shutil.rmtree`: the files in any order, then the directory. */
    method RemoveTree(s: Slot, i: nat) returns (ok: bool)
      requires Valid() && i < |disk.logs| && Get(disk, s, i).Some?
      modifies this
      ensures Valid() && old(trace) <= trace && OnlySlot(old(disk), disk, s, i)
      ensures Shrunk(Get(disk, s, i), Get(old(disk), s, i))
      ensures forall k :: |old(trace)| <= k < |trace| ==> Removing(old(disk), trace[k], s, i)
      ensures ok ==> Get(disk, s, i) == None && faults == old(faults)
      ensures !ok ==> faults == old(faults) + 1
    {
      ghost var d0 := disk;
      var left := Get(disk, s, i).value;
      while left != map[]
        invariant Valid() && old(trace) <= trace && OnlySlot(d0, disk, s, i) && faults == old(faults)
        invariant Get(disk, s, i) == Some(left) && Shrunk(Some(left), Get(d0, s, i))
        invariant forall k :: |old(trace)| <= k < |trace| ==> Removing(d0, trace[k], s, i)
        decreases left.Keys
      {
        var f :| f in left;
        assert f in Get(d0, s, i).value && f !in left - {f};
        ok := Apply(Put(disk, s, i, Some(left - {f})));
        if !ok {
          return;
        }
        left := left - {f};
      }
      ok := Apply(Put(disk, s, i, None));
    }

    /** Create the directory if needed and write `files` into it, in any order. A file may be seen
        with any content while it is being written. */
    method WriteTree(s: Slot, i: nat, files: Tree) returns (ok: bool)
      requires Valid() && i < |disk.logs|
      modifies this
      ensures Valid() && old(trace) <= trace && Writing(old(disk), disk, s, i, files)
      ensures forall k :: |old(trace)| <= k < |trace| ==> Writing(old(disk), trace[k], s, i, files)
      ensures ok ==> Get(disk, s, i) == Merged(Get(old(disk), s, i), Some(files)) && faults == old(faults)
      ensures !ok ==> faults == old(faults) + 1
    {
      ghost var d0 := disk;
      if Get(disk, s, i).None? {
        assert map[] + files == files;
        ok := Apply(Put(disk, s, i, Some(map[])));
        if !ok {
          return;
        }
      }
      var todo := files.Keys;
      while todo != {}
        invariant Valid() && old(trace) <= trace && Writing(d0, disk, s, i, files) && faults == old(faults)
        invariant todo <= files.Keys && Get(disk, s, i).Some?
        invariant forall f :: f in files && f !in todo ==>
          f in Get(disk, s, i).value && Get(disk, s, i).value[f] == files[f]
        invariant forall k :: |old(trace)| <= k < |trace| ==> Writing(d0, trace[k], s, i, files)
        decreases todo
      {
        var f :| f in todo;
        ok := WriteFile(s, i, files, f, d0);
        if !ok {
          return;
        }
        todo := todo - {f};
      }
      assert Get(disk, s, i).value == Get(disk, s, i).value + files;
      ok := Flush();
    }

    method WriteFile(s: Slot, i: nat, files: Tree, f: File, ghost d0: Disk) returns (ok: bool)
      requires Valid() && Writing(d0, disk, s, i, files) && Get(disk, s, i).Some? && f in files
      modifies this
      ensures Valid() && old(trace) <= trace && Writing(d0, disk, s, i, files)
      ensures forall k :: |old(trace)| <= k < |trace| ==> Writing(d0, trace[k], s, i, files)
      ensures ok ==> Get(disk, s, i) == Some(Get(old(disk), s, i).value[f := files[f]]) && faults == old(faults)
      ensures !ok ==> faults == old(faults) + 1
    {
      var now, partial: Bytes := Get(disk, s, i).value, *;
      WritingOneFile(d0, disk, s, i, files, f, partial);
      ok := Apply(Put(disk, s, i, Some(now[f := partial])));
      if ok {
        WritingOneFile(d0, disk, s, i, files, f, files[f]);
        assert now[f := partial][f := files[f]] == now[f := files[f]];
        ok := Apply(Put(disk, s, i, Some(now[f := files[f]])));
      }
    }

    /** `purge_help_deletion_trash`: everything but the journal, in any order, and then the journal. */
    method Purge() returns (ok: bool)
      requires Valid()
      modifies this
      ensures Valid() && old(trace) <= trace && PurgeStep(old(disk), disk)
      ensures forall k :: |old(trace)| <= k < |trace| ==> PurgeStep(old(disk), trace[k])
      ensures ok ==> disk.journal == None && QuarantineEmpty(disk) && faults == old(faults)
      ensures !ok ==> faults == old(faults) + 1
    {
      ghost var broken;
      ok, broken := PurgeWatching(0);
    }

    /** The same with an eye on staged log `watched`, which is whole until position `broken` of the trace
        and never again. */
    method PurgeWatching(ghost watched: nat) returns (ok: bool, ghost broken: nat)
      requires Valid()
      modifies this
      ensures Valid() && old(trace) <= trace && PurgeStep(old(disk), disk)
      ensures forall k :: |old(trace)| <= k < |trace| ==> PurgeStep(old(disk), trace[k])
      ensures ok ==> disk.journal == None && QuarantineEmpty(disk) && faults == old(faults)
      ensures !ok ==> faults == old(faults) + 1
      ensures WholeUntil(old(disk), trace, |old(trace)|, broken, watched)
    {
      ok, broken := PurgeChildren(watched);
      if ok {
        ghost var whole := broken == |trace|;
        ok := Publish(disk.(journal := None));
        broken := if whole then |trace| else broken;
      }
    }

    method PurgeChildren(ghost watched: nat) returns (ok: bool, ghost broken: nat)
      requires Valid()
      modifies this
      ensures Valid() && old(trace) <= trace && PurgeStep(old(disk), disk)
      ensures forall k :: |old(trace)| <= k < |trace| ==> PurgeStep(old(disk), trace[k])
      ensures ok ==> disk.journal == old(disk).journal && QuarantineEmpty(disk) && faults == old(faults)
      ensures !ok ==> faults == old(faults) + 1
      ensures Tracked(old(disk), disk, trace, |old(trace)|, broken, watched)
    {
      ghost var d0 := disk;
      ghost var from := |trace|;
      broken := |trace|;
      var moved, copied := Present(Staged), Present(Backup);
      while moved != {} || copied != {}
        invariant Valid() && old(trace) <= trace && PurgeStep(d0, disk) && faults == old(faults)
        invariant disk.journal == d0.journal
        invariant moved == Present(Staged) && copied == Present(Backup)
        invariant forall k :: |old(trace)| <= k < |trace| ==> PurgeStep(d0, trace[k])
        invariant Tracked(d0, disk, trace, from, broken, watched)
        decreases moved, copied
      {
        var either: bool := *;
        if moved != {} && (either || copied == {}) {
          var i := OneOf(moved);
          ok, broken := RemoveChild(Staged, i, d0, from, broken, watched);
          moved := moved - {i};
        } else {
          var i := OneOf(copied);
          ok, broken := RemoveChild(Backup, i, d0, from, broken, watched);
          copied := copied - {i};
        }
        if !ok {
          return;
        }
      }
      NothingPresent();
      ok := true;
    }

    lemma NothingPresent()
      requires WellFormed(disk) && Present(Staged) == {} && Present(Backup) == {}
      ensures QuarantineEmpty(disk)
    {
      assert forall i :: 0 <= i < |disk.logs| && disk.staged[i].Some? ==> i in Present(Staged);
      assert forall i :: 0 <= i < |disk.logs| && disk.backup[i].Some? ==> i in Present(Backup);
    }

    function Present(s: Slot): set<int>
      requires WellFormed(disk)
      reads this
    {
      set i | 0 <= i < |disk.logs| && Get(disk, s, i).Some?
    }

    method RemoveChild(s: Slot, i: nat, ghost d0: Disk, ghost from: nat, ghost broken: nat, ghost watched: nat)
      returns (ok: bool, ghost broken': nat)
      requires Valid() && PurgeStep(d0, disk) && disk.journal == d0.journal
      requires s != Log && i < |disk.logs| && Get(disk, s, i).Some?
      requires Tracked(d0, disk, trace, from, broken, watched)
      modifies this
      ensures Valid() && old(trace) <= trace && PurgeStep(d0, disk) && disk.journal == d0.journal
      ensures forall k :: |old(trace)| <= k < |trace| ==> PurgeStep(d0, trace[k])
      ensures ok ==> Present(s) == old(Present(s)) - {i} && faults == old(faults)
      ensures ok ==> forall t :: t != s ==> Present(t) == old(Present(t))
      ensures !ok ==> faults == old(faults) + 1
      ensures Tracked(d0, disk, trace, from, broken', watched)
    {
      ghost var d, before := disk, trace;
      ok := RemoveTree(s, i);
      RemovingPurges(d0, d, disk, s, i);
      forall k | |old(trace)| <= k < |trace|
        ensures PurgeStep(d0, trace[k])
      {
        RemovingPurges(d0, d, trace[k], s, i);
      }
      broken' := WholeOn(d0, d, before, trace, from, broken, s, i, watched);
    }

    // -------------------------------------------------------------------------------- recovery

    /** `_recover_interrupted_assignment_deletions_locked` for one quarantine: every disk it passes
        through still stands for `v`, and it ends with `v` and an empty quarantine. It raises only
        where `Recoverable` fails, or when a primitive fails. */
    method Recover(ghost v: View) returns (ok: bool)
      requires Valid()
      modifies this
      ensures Valid() && old(trace) <= trace
      ensures Means(old(disk), v) ==> Means(disk, v)
      ensures Means(old(disk), v) ==> forall k :: |old(trace)| <= k < |trace| ==> Means(trace[k], v)
      ensures ok ==> Recoverable(old(disk))
      ensures ok && Means(old(disk), v) ==> Settled(disk, v)
      ensures !ok && Recoverable(old(disk)) ==> faults == old(faults) + 1
    {
      if disk.journal == None {
        ok := Present(Staged) == {} && Present(Backup) == {};
        if ok {
          NothingPresent();
        }
        return;
      }
      var state := disk.journal.value.state;
      if state == RollingBack {
        ok := RestorePersistent(v);
      } else if state == Restored || state == Committed || disk.record == None {
        ok := true;
      } else {
        ok := Unstage(v);
      }
      if ok {
        ghost var d := disk;
        ok := Purge();
        if Means(d, v) {
          PurgeKeepsMeaning(d, disk, v);
          forall k | 0 <= k < |trace| && PurgeStep(d, trace[k])
            ensures Means(trace[k], v)
          {
            PurgeKeepsMeaning(d, trace[k], v);
          }
        }
      }
    }

    /** `restore_persistent_help_deletion`. */
    method RestorePersistent(ghost v: View) returns (ok: bool)
      requires Valid() && RollingBackNow(disk)
      modifies this
      ensures Valid() && old(trace) <= trace
      ensures Means(old(disk), v) ==> Means(disk, v)
      ensures Means(old(disk), v) ==> forall k :: |old(trace)| <= k < |trace| ==> Means(trace[k], v)
      ensures ok ==>
        CanRollBack(old(disk)) && disk.journal.Some? && disk.journal.value.state == Restored && faults == old(faults)
      ensures !ok && CanRollBack(old(disk)) ==> faults == old(faults) + 1
    {
      ghost var d0 := disk;
      var j := disk.journal.value;
      if j.assignment == None {
        return false;
      }
      for i := 0 to |disk.logs|
        invariant Valid() && old(trace) <= trace && faults == old(faults)
        invariant disk.journal == d0.journal && disk.backup == d0.backup && |disk.logs| == |d0.logs|
        invariant forall k :: 0 <= k < i && j.copies[k] ==> disk.backup[k].Some? && disk.logs[k] == disk.backup[k]
        invariant Means(d0, v) ==> Means(disk, v)
        invariant Means(d0, v) ==> forall k :: |old(trace)| <= k < |trace| ==> Means(trace[k], v)
      {
        if j.copies[i] {
          if disk.backup[i] == None {
            return false;
          }
          ok := CopyBack(i, v);
          if !ok {
            return;
          }
        }
      }
      ghost var d1 := disk;
      ok := Publish(disk.(record := j.assignment));
      if !ok {
        return;
      }
      ok := Publish(disk.(journal := Some(j.(state := Restored))));
    }

    /** Replace log `i` by its rollback copy. */
    method CopyBack(i: nat, ghost v: View) returns (ok: bool)
      requires Valid() && RollingBackNow(disk) && i < |disk.logs|
      requires disk.journal.value.copies[i] && disk.backup[i].Some?
      modifies this
      ensures Valid() && old(trace) <= trace && OnlySlot(old(disk), disk, Log, i)
      ensures Means(old(disk), v) ==> Means(disk, v)
      ensures Means(old(disk), v) ==> forall k :: |old(trace)| <= k < |trace| ==> Means(trace[k], v)
      ensures ok ==> disk.logs[i] == disk.backup[i] && faults == old(faults)
      ensures !ok ==> faults == old(faults) + 1
    {
      ghost var d0 := disk;
      ok := true;
      if disk.logs[i].Some? {
        ok := RemoveTree(Log, i);
      }
      if ok {
        ok := WriteTree(Log, i, disk.backup[i].value);
      }
      if Means(d0, v) {
        CopiedLogIsFree(d0, disk, i, v);
        forall k | |old(trace)| <= k < |trace|
          ensures Means(trace[k], v)
        {
          CopiedLogIsFree(d0, trace[k], i, v);
        }
      }
    }

    /** Move every staged log back, or overlay it on a log that has reappeared. */
    method Unstage(ghost v: View) returns (ok: bool)
      requires Valid() && Returning(disk)
      modifies this
      ensures Valid() && old(trace) <= trace
      ensures Means(old(disk), v) ==> Means(disk, v)
      ensures Means(old(disk), v) ==> forall k :: |old(trace)| <= k < |trace| ==> Means(trace[k], v)
      ensures ok ==> Returning(disk) && Purgeable(disk) && faults == old(faults)
      ensures !ok ==> faults == old(faults) + 1
    {
      ghost var d0 := disk;
      for i := 0 to |disk.logs|
        invariant Valid() && old(trace) <= trace && faults == old(faults)
        invariant Returning(disk) && |disk.logs| == |d0.logs|
        invariant forall k :: 0 <= k < i ==> disk.staged[k] == None
        invariant Means(d0, v) ==> Means(disk, v)
        invariant Means(d0, v) ==> forall k :: |old(trace)| <= k < |trace| ==> Means(trace[k], v)
      {
        if disk.staged[i].Some? {
          ok := UnstageOne(i, v);
          if !ok {
            return;
          }
        }
      }
      ok := true;
    }

    method UnstageOne(i: nat, ghost v: View) returns (ok: bool)
      requires Valid() && Returning(disk) && i < |disk.logs| && disk.staged[i].Some?
      modifies this
      ensures Valid() && old(trace) <= trace && Returning(disk) && |disk.logs| == |old(disk).logs|
      ensures Means(old(disk), v) ==> Means(disk, v)
      ensures Means(old(disk), v) ==> forall k :: |old(trace)| <= k < |trace| ==> Means(trace[k], v)
      ensures ok ==> disk.staged == old(disk).staged[i := None] && faults == old(faults)
      ensures !ok ==> faults == old(faults) + 1
    {
      if disk.logs[i].Some? {
        ok := Overlay(i, v);
      } else {
        if Means(disk, v) {
          OverlayCounts(disk, MovedBack(disk, i), i, v);
        }
        ok := Apply(MovedBack(disk, i));
      }
      if ok {
        ok := Flush();
      }
    }

    method Overlay(i: nat, ghost v: View) returns (ok: bool)
      requires Valid() && Returning(disk) && i < |disk.logs| && disk.staged[i].Some? && disk.logs[i].Some?
      modifies this
      ensures Valid() && old(trace) <= trace && Returning(disk) && |disk.logs| == |old(disk).logs|
      ensures Means(old(disk), v) ==> Means(disk, v)
      ensures Means(old(disk), v) ==> forall k :: |old(trace)| <= k < |trace| ==> Means(trace[k], v)
      ensures ok ==> disk.staged == old(disk).staged[i := None] && faults == old(faults)
      ensures !ok ==> faults == old(faults) + 1
    {
      ghost var d0 := disk;
      ok := WriteTree(Log, i, disk.staged[i].value);
      if Means(d0, v) {
        OverlayCounts(d0, disk, i, v);
        forall k | |old(trace)| <= k < |trace|
          ensures Means(trace[k], v)
        {
          OverlayCounts(d0, trace[k], i, v);
        }
      }
      if ok {
        ghost var d1, n := disk, |trace|;
        ok := RemoveTree(Staged, i);
        if Means(d0, v) {
          ShrunkOverlay(d1, disk, i, v);
          forall k | n <= k < |trace|
            ensures Means(trace[k], v)
          {
            ShrunkOverlay(d1, trace[k], i, v);
          }
        }
      }
    }

    // -------------------------------------------------------------------------------- deletion

    /** `stage_help_logs_for_deletion`, up to its handler. `lost` is the log whose move took effect
        but whose flush failed: it is quarantined and missing from `moved`. */
    method Stage(ghost v: View) returns (ok: bool, moved: set<nat>, lost: Option<nat>)
      requires Valid() && Undecided(disk, v) && MovedAway(disk, v, {}) && disk.journal.value.state == Staging
      modifies this
      ensures Valid() && old(trace) <= trace && Undecided(disk, v) && disk.journal == old(disk).journal
      ensures disk.backup == old(disk).backup
      ensures forall k :: |old(trace)| <= k < |trace| ==> Means(trace[k], v)
      ensures ok ==> lost == None && NoLogs(disk) && faults == old(faults)
      ensures lost.None? ==> MovedAway(disk, v, moved)
      ensures lost.Some? ==> lost.value !in moved && MovedAway(disk, v, moved + {lost.value})
      ensures lost.Some? ==> !ok
      ensures !ok ==> faults == old(faults) + 1
    {
      ghost var d0 := disk;
      lost, moved := None, {};
      for i := 0 to |disk.logs|
        invariant Valid() && old(trace) <= trace && Undecided(disk, v) && disk.journal == d0.journal
        invariant disk.backup == d0.backup && |disk.logs| == |d0.logs| && faults == old(faults)
        invariant MovedAway(disk, v, moved) && (forall j :: j in moved ==> j < i)
        invariant forall j :: 0 <= j < i ==> disk.logs[j] == None
        invariant forall k :: |old(trace)| <= k < |trace| ==> Means(trace[k], v)
      {
        if disk.logs[i].Some? {
          MovedAwayMeans(MovedOut(disk, i), v, moved + {i});
          ok := Apply(MovedOut(disk, i));
          if !ok {
            return;
          }
          ok := Flush();
          if ok {
            ok := Flush();
          }
          if !ok {
            lost := Some(i);
            return;
          }
          moved := moved + {i};
        }
      }
      ok := true;
    }

    /** `restore_staged_help_logs`, last moved first; the first failure stops it. */
    method RestoreStaged(moved: set<nat>, ghost v: View, ghost rest: set<nat>) returns (ok: bool)
      requires Valid() && Undecided(disk, v) && moved !! rest && MovedAway(disk, v, moved + rest)
      modifies this
      ensures Valid() && old(trace) <= trace && Undecided(disk, v) && Means(disk, v)
      ensures forall k :: |old(trace)| <= k < |trace| ==> Means(trace[k], v)
      ensures ok ==> MovedAway(disk, v, rest) && faults == old(faults)
      ensures !ok ==> faults == old(faults) + 1
    {
      MovedAwayMeans(disk, v, moved + rest);
      ghost var left := moved;
      for i := |disk.logs| downto 0
        invariant Valid() && old(trace) <= trace && Undecided(disk, v) && faults == old(faults)
        invariant |disk.logs| == |v.logs| && left <= moved && (forall j :: j in left <==> j in moved && j < i)
        invariant MovedAway(disk, v, left + rest) && Means(disk, v)
        invariant forall k :: |old(trace)| <= k < |trace| ==> Means(trace[k], v)
      {
        if i in moved {
          ok := RestoreOne(i, v, left + rest);
          if !ok {
            return;
          }
          assert left + rest - {i} == (left - {i}) + rest;
          left := left - {i};
        }
      }
      assert left + rest == rest;
      ok := true;
    }

    method RestoreOne(i: nat, ghost v: View, ghost moved: set<nat>) returns (ok: bool)
      requires Valid() && Undecided(disk, v) && MovedAway(disk, v, moved) && i in moved
      modifies this
      ensures Valid() && old(trace) <= trace && Undecided(disk, v) && Means(disk, v)
      ensures forall k :: |old(trace)| <= k < |trace| ==> Means(trace[k], v)
      ensures ok ==> MovedAway(disk, v, moved - {i}) && faults == old(faults)
      ensures !ok ==> faults == old(faults) + 1
    {
      MovedAwayMeans(disk, v, moved);
      MovedAwayMeans(MovedBack(disk, i), v, moved - {i});
      ok := Apply(MovedBack(disk, i));
      if ok {
        ok := Flush();
      }
      if ok {
        ok := Flush();
      }
    }

    /** The handler of a failed preparation: move the logs back, then purge, ignoring errors. A log that
        is not moved back is damaged from position `broken` of the trace on, if the purge gets there. */
    method Unwind(moved: set<nat>, ghost v: View, ghost lost: Option<nat>) returns (ghost broken: nat)
      requires Valid() && Undecided(disk, v)
      requires lost.None? ==> MovedAway(disk, v, moved)
      requires lost.Some? ==> lost.value !in moved && MovedAway(disk, v, moved + {lost.value})
      modifies this
      ensures Valid() && old(trace) <= trace && faults >= old(faults) && |old(trace)| <= broken <= |trace|
      ensures lost.None? ==> broken == |trace|
      ensures forall k :: |old(trace)| <= k < broken ==> Means(trace[k], v)
      ensures forall k :: broken <= k < |trace| ==> lost.Some? && MeansBut(trace[k], v, lost.value)
      ensures if broken == |trace| then Means(disk, v) else MeansBut(disk, v, lost.value)
      ensures lost.Some? && faults == old(faults) ==> broken < |trace|
      ensures faults == old(faults) ==> Settled(disk, Unlogged(v, lost))
    {
      ghost var rest := if lost.None? then {} else {lost.value};
      assert moved + {} == moved;
      assert lost.Some? ==> lost.value in moved + {lost.value};
      var ok := RestoreStaged(moved, v, rest);
      broken := |trace|;
      if ok {
        broken := PurgeUnwound(v, lost);
      }
    }

    /** Its second part, when all logs but `lost` are back. */
    method PurgeUnwound(ghost v: View, ghost lost: Option<nat>) returns (ghost broken: nat)
      requires Valid() && Undecided(disk, v) && MovedAway(disk, v, if lost.None? then {} else {lost.value})
      modifies this
      ensures Valid() && old(trace) <= trace && faults >= old(faults) && |old(trace)| <= broken <= |trace|
      ensures lost.None? ==> broken == |trace|
      ensures forall k :: |old(trace)| <= k < broken ==> Means(trace[k], v)
      ensures forall k :: broken <= k < |trace| ==> lost.Some? && MeansBut(trace[k], v, lost.value)
      ensures if broken == |trace| then Means(disk, v) else MeansBut(disk, v, lost.value)
      ensures lost.Some? && faults == old(faults) ==> broken < |trace|
      ensures faults == old(faults) ==> Settled(disk, Unlogged(v, lost))
    {
      ghost var d, watched := disk, if lost.None? then 0 else lost.value;
      var ok;
      ok, broken := PurgeWatching(watched);
      if lost.None? {
        MovedAwayMeans(d, v, {});
        broken := |trace|;
        forall e | PurgeStep(d, e)
          ensures Means(e, v)
        {
          PurgeKeepsMeaning(d, e, v);
        }
      } else {
        assert watched in {watched};
        forall e | PurgeStep(d, e)
          ensures if e.staged[watched] == d.staged[watched] then Means(e, v) else MeansBut(e, v, watched)
        {
          PurgeLoses(d, e, v, watched);
        }
      }
    }

    /** `persist_help_log_rollback`: copy every staged log, then publish `prepared`. */
    method Persist(moved: set<nat>, ghost v: View) returns (ok: bool, ghost prepared: Option<nat>)
      requires Valid() && Undecided(disk, v) && MovedAway(disk, v, moved) && NoLogs(disk)
      requires disk.backup == seq(|disk.logs|, i => None) && disk.journal.value.state == Staging
      modifies this
      ensures Valid() && old(trace) <= trace && Undecided(disk, v) && MovedAway(disk, v, moved)
      ensures forall k :: |old(trace)| <= k < |trace| ==> Means(trace[k], v)
      ensures prepared.Some? ==> |old(trace)| <= prepared.value < |trace|
      ensures prepared.Some? ==>
        trace[prepared.value].journal.Some? && trace[prepared.value].journal.value.state == Prepared
      ensures if ok then faults == old(faults) else faults > old(faults)
      ensures ok ==> prepared.Some? && prepared.value == |trace| - 1
      ensures ok ==> NoLogs(disk) && Copied(disk, v, moved) && disk.journal.value.state == Prepared
    {
      ghost var d0 := disk;
      MovedAwayMeans(disk, v, moved);
      for i := 0 to |disk.logs|
        invariant Valid() && old(trace) <= trace && Means(disk, v) && faults == old(faults)
        invariant disk == d0.(backup := disk.backup)
        invariant forall j :: i <= j < |disk.logs| ==> disk.backup[j] == None
        invariant forall j :: j in moved && j < i ==> disk.backup[j] == v.logs[j]
        invariant forall k :: |old(trace)| <= k < |trace| ==> Means(trace[k], v)
      {
        if i in moved {
          ok := CopyOut(i, v);
          if !ok {
            return false, None;
          }
        }
      }
      ok := Flush();
      if !ok {
        return false, None;
      }
      var copies := seq(|disk.logs|, (i: nat) => i in moved);
      var next := disk.(journal := Some(Journal(Prepared, copies, disk.record)));
      MovedAwayMeans(next, v, moved);
      ghost var n := |trace|;
      ok := Publish(next);
      prepared := if |trace| > n then Some(n) else None;
    }

    method CopyOut(i: nat, ghost v: View) returns (ok: bool)
      requires Valid() && Means(disk, v) && disk.journal.Some? && !RollingBackNow(disk)
      requires i < |disk.logs| && disk.staged[i].Some? && disk.backup[i] == None
      modifies this
      ensures Valid() && old(trace) <= trace && Means(disk, v)
      ensures OnlySlot(old(disk), disk, Backup, i)
      ensures forall k :: |old(trace)| <= k < |trace| ==> Means(trace[k], v)
      ensures ok ==> disk.backup[i] == disk.staged[i] && faults == old(faults)
      ensures !ok ==> faults > old(faults)
    {
      ghost var d := disk;
      ok := WriteTree(Backup, i, disk.staged[i].value);
      forall e | OnlySlot(d, e, Backup, i)
        ensures Means(e, v)
      {
        BackupIsFree(d, e, i, v);
      }
    }

    /** `rollback_help_deletion`; `marked` says whether its first write took effect. */
    method RollBack(moved: set<nat>, files: seq<Option<Tree>>, assignment: Record, ghost v: View)
      returns (ghost marked: bool)
      requires Valid() && Copied(disk, v, moved) && NoLogs(disk) && disk.journal.value.state in {Prepared, Committed}
      requires disk.record == None || Means(disk, v)
      requires v.record == Some(assignment) && files == v.logs
      modifies this
      ensures Valid() && old(trace) <= trace
      ensures marked ==> Means(disk, v)
      ensures !marked ==> disk == old(disk)
      ensures faults == old(faults) ==> marked && Settled(disk, v)
      ensures if marked then faults >= old(faults) else faults > old(faults)
      ensures forall k :: |old(trace)| <= k < |trace| ==> Means(trace[k], v)
    {
      var j := disk.journal.value;
      MarkerDecides(disk.(journal := Some(j.(state := RollingBack))), v, moved);
      var ok := Publish(disk.(journal := Some(j.(state := RollingBack))));
      marked := RollingBackNow(disk);
      if !ok {
        return;
      }
      for i := 0 to |disk.logs|
        invariant Valid() && old(trace) <= trace && Means(disk, v) && RollingBackNow(disk) && |disk.logs| == |v.logs|
        invariant faults == old(faults)
        invariant disk.journal == Some(j.(state := RollingBack))
        invariant forall k :: 0 <= k < i ==> disk.logs[k] == v.logs[k]
        invariant forall k :: i <= k < |v.logs| ==> disk.logs[k] == None
        invariant forall k :: |old(trace)| <= k < |trace| ==> Means(trace[k], v)
      {
        if i in moved {
          ok := Rewrite(i, files[i].value, v);
          if !ok {
            return;
          }
        }
      }
      ok := Publish(disk.(record := Some(assignment)));
      if ok {
        ok := FinishRollBack(v);
      }
    }

    /** Its last two steps: everything is in place again. */
    method FinishRollBack(ghost v: View) returns (ok: bool)
      requires Valid() && Means(disk, v) && RollingBackNow(disk) && disk.record == v.record && disk.logs == v.logs
      modifies this
      ensures Valid() && old(trace) <= trace && Means(disk, v)
      ensures if ok then faults == old(faults) && Settled(disk, v) else faults > old(faults)
      ensures forall k :: |old(trace)| <= k < |trace| ==> Means(trace[k], v)
    {
      ok := Publish(disk.(journal := Some(disk.journal.value.(state := Restored))));
      if ok {
        ghost var d := disk;
        ok := Purge();
        forall e | PurgeStep(d, e)
          ensures Means(e, v)
        {
          PurgeKeepsMeaning(d, e, v);
        }
      }
    }

    /** `restore_help_log_snapshots`, for one log. */
    method Rewrite(i: nat, files: Tree, ghost v: View) returns (ok: bool)
      requires Valid() && Means(disk, v) && RollingBackNow(disk) && i < |disk.logs|
      requires disk.journal.value.copies[i] && disk.logs[i] == None
      modifies this
      ensures Valid() && old(trace) <= trace && Means(disk, v) && OnlySlot(old(disk), disk, Log, i)
      ensures forall k :: |old(trace)| <= k < |trace| ==> Means(trace[k], v)
      ensures ok ==> disk.logs[i] == Some(files)
      ensures if ok then faults == old(faults) else faults > old(faults)
    {
      ghost var d := disk;
      ok := WriteTree(Log, i, files);
      forall e | OnlySlot(d, e, Log, i)
        ensures Means(e, v)
      {
        CopiedLogIsFree(d, e, i, v);
      }
    }

    method OpenJournal(ghost v: View) returns (ok: bool)
      requires Valid() && Settled(disk, v) && v.record.Some?
      modifies this
      ensures Valid() && old(trace) <= trace && Means(disk, v)
      ensures forall k :: |old(trace)| <= k < |trace| ==> Means(trace[k], v)
      ensures ok ==> Undecided(disk, v) && disk.journal.value.state == Staging && MovedAway(disk, v, {})
      ensures ok ==> disk.backup == seq(|disk.logs|, i => None) && faults == old(faults)
      ensures !ok ==> faults > old(faults)
    {
      var next := disk.(journal := Some(Journal(Staging, seq(|disk.logs|, i => false), None)));
      MovedAwayMeans(next, v, {});
      ok := Publish(next);
      if ok {
        ok := Flush();
      }
    }

    /** From the removal of the record to the end. */
    method Commit(moved: set<nat>, files: seq<Option<Tree>>, assignment: Record, ghost v: View)
      returns (r: Response, ghost marked: bool)
      requires Valid() && Undecided(disk, v) && MovedAway(disk, v, moved) && NoLogs(disk) && Copied(disk, v, moved)
      requires disk.journal.value.state == Prepared && v.record == Some(assignment) && files == v.logs
      modifies this
      ensures Valid() && old(trace) <= trace
      ensures Means(disk, v) || Means(disk, Gone(v))
      ensures forall k :: |old(trace)| <= k < |trace| ==> Means(trace[k], v) || Means(trace[k], Gone(v))
      ensures r.Deleted? ==> Means(disk, Gone(v)) && marked
      ensures r == Deleted(false) ==> Settled(disk, Gone(v))
      ensures r.Raised? && marked ==> Means(disk, v)
      ensures r.Raised? && faults == old(faults) + 1 ==> Settled(disk, v)
      ensures r != AlreadyDeleted
      ensures !marked ==> r.Raised? && !RollingBackNow(disk) && faults >= old(faults) + 2
      ensures r.Raised? ==> r.failure in {DeleteRecord, RemoveStaged, CommitMark}
      ensures if r == Deleted(false) then faults == old(faults) else faults > old(faults)
    {
      MovedAwayMeans(disk, v, moved);
      RecordDecides(disk.(record := None), v, moved);
      var ok := Publish(disk.(record := None));
      if !ok {
        marked := RollBack(moved, files, assignment, v);
        return Raised(DeleteRecord), marked;
      }
      ok := DropStaged(moved, v);
      if !ok {
        marked := RollBack(moved, files, assignment, v);
        return Raised(RemoveStaged), marked;
      }
      var j := disk.journal.value;
      RecordDecides(disk.(journal := Some(j.(state := Committed))), v, moved);
      ok := Publish(disk.(journal := Some(j.(state := Committed))));
      if !ok {
        marked := RollBack(moved, files, assignment, v);
        return Raised(CommitMark), marked;
      }
      ghost var d := disk;
      ok := Purge();
      forall e | PurgeStep(d, e)
        ensures Means(e, Gone(v))
      {
        PurgeKeepsMeaning(d, e, Gone(v));
      }
      return Deleted(!ok), true;
    }

    method DropStaged(moved: set<nat>, ghost v: View) returns (ok: bool)
      requires Valid() && Copied(disk, v, moved) && NoLogs(disk) && disk.record == None
      requires disk.journal.value.state == Prepared
      modifies this
      ensures Valid() && old(trace) <= trace && disk == old(disk).(staged := disk.staged)
      ensures Means(disk, Gone(v))
      ensures forall k :: |old(trace)| <= k < |trace| ==> Means(trace[k], Gone(v))
      ensures if ok then faults == old(faults) else faults > old(faults)
    {
      ghost var d0 := disk;
      RecordDecides(disk, v, moved);
      ok := true;
      for i := 0 to |disk.logs|
        invariant Valid() && old(trace) <= trace && disk == d0.(staged := disk.staged) && faults == old(faults)
        invariant forall k :: |old(trace)| <= k < |trace| ==> Means(trace[k], Gone(v))
      {
        if i in moved && disk.staged[i].Some? {
          ghost var d, n := disk, |trace|;
          ok := RemoveTree(Staged, i);
          forall k | n <= k < |trace|
            ensures Means(trace[k], Gone(v))
          {
            RecordDecides(trace[k], v, moved);
          }
          if !ok {
            RecordDecides(disk, v, moved);
            return;
          }
        }
      }
      RecordDecides(disk, v, moved);
    }

    /** `_delete_assignment_record_locked`, on a disk without a pending journal unless the record is gone.
        `archived` says that deliveries were received, `listable` that the assignments that remain can be
        listed for the answer, with the time that was sent along. The ghost results: `prepared` is where
        the trace first shows the `prepared` journal, `lost` is the log whose move could not be flushed,
        `broken` is the position of the trace from which on files of that log are missing, and `marked` is
        false exactly when a rollback was due but its `rolling_back` journal did not reach the disk. */
    method Delete(archived: bool, listable: bool)
      returns (r: Response, ghost prepared: Option<nat>, ghost lost: Option<nat>, ghost broken: nat, ghost marked: bool)
      requires Valid() && (disk.record.Some? ==> Settled(disk, View(disk.record, disk.logs)))
      modifies this
      ensures Valid() && old(trace) <= trace && (old(disk).record == None ==> trace == old(trace))
      ensures |old(trace)| <= broken <= |trace| && (broken < |trace| ==> lost.Some?)
      ensures Outcome(old(disk), disk, r, prepared, if broken < |trace| then lost else None, marked)
      ensures prepared.Some? ==> |old(trace)| <= prepared.value < |trace|
      ensures prepared.Some? ==>
        trace[prepared.value].journal.Some? && trace[prepared.value].journal.value.state == Prepared
      ensures forall k :: |old(trace)| <= k < |trace| ==>
        DeletionStep(old(disk), trace[k], prepared.Some? && prepared.value <= k, if broken <= k then lost else None)
      ensures faults == old(faults) && !archived && old(disk).record.Some? ==>
        r == (if listable then Deleted(false) else Raised(Answering)) &&
          Settled(disk, Gone(View(old(disk).record, old(disk).logs)))
      ensures r == Raised(Answering) ==> !listable || faults > old(faults)
      ensures r == AlreadyDeleted || r.Deleted? ==> listable
      ensures lost.Some? <==> r == Raised(StageFlush)
      ensures lost.Some? ==> faults > old(faults)
      ensures lost.Some? && faults == old(faults) + 1 ==> broken < |trace|
      ensures !marked ==> faults >= old(faults) + 2
      ensures r == Raised(Archived) <==> old(disk).record.Some? && archived
      ensures r == Raised(Archived) ==> disk == old(disk) && trace == old(trace)
      ensures r.Raised? && r.failure !in {Archived, StageJournal, Answering} && faults == old(faults) + 1 ==>
        Settled(disk, Unlogged(View(old(disk).record, old(disk).logs), lost))
    {
      r, prepared, lost, broken, marked := DeleteFiles(archived);
      if r == AlreadyDeleted || r.Deleted? {
        var ok := Flush();
        r := if ok && listable then r else Raised(Answering);
      }
    }

    /** Everything but the list of the assignments that remain. */
    method DeleteFiles(archived: bool)
      returns (r: Response, ghost prepared: Option<nat>, ghost lost: Option<nat>, ghost broken: nat, ghost marked: bool)
      requires Valid() && (disk.record.Some? ==> Settled(disk, View(disk.record, disk.logs)))
      modifies this
      ensures Valid() && old(trace) <= trace && (old(disk).record == None ==> trace == old(trace))
      ensures |old(trace)| <= broken <= |trace| && (broken < |trace| ==> lost.Some?)
      ensures Outcome(old(disk), disk, r, prepared, if broken < |trace| then lost else None, marked)
      ensures r != Raised(Answering)
      ensures prepared.Some? ==> |old(trace)| <= prepared.value < |trace|
      ensures prepared.Some? ==>
        trace[prepared.value].journal.Some? && trace[prepared.value].journal.value.state == Prepared
      ensures forall k :: |old(trace)| <= k < |trace| ==>
        DeletionStep(old(disk), trace[k], prepared.Some? && prepared.value <= k, if broken <= k then lost else None)
      ensures faults == old(faults) && !archived && old(disk).record.Some? ==> r == Deleted(false)
      ensures lost.Some? <==> r == Raised(StageFlush)
      ensures faults >= old(faults) && (lost.Some? ==> faults > old(faults))
      ensures lost.Some? && faults == old(faults) + 1 ==> broken < |trace|
      ensures !marked ==> faults >= old(faults) + 2
      ensures r == Raised(Archived) <==> old(disk).record.Some? && archived
      ensures r == Raised(Archived) ==> disk == old(disk) && trace == old(trace)
      ensures r.Raised? && r.failure !in {Archived, StageJournal, Answering} && faults == old(faults) + 1 ==>
        Settled(disk, Unlogged(View(old(disk).record, old(disk).logs), lost))
    {
      ghost var v := View(disk.record, disk.logs);
      prepared, lost, broken, marked := None, None, |trace|, true;
      if disk.record == None {
        r := AlreadyDeleted;
        return;
      }
      var assignment := disk.record.value;
      if archived {
        r := Raised(Archived);
        return;
      }
      var failure, moved, files;
      failure, moved, files, prepared, lost, broken := Prepare(v);
      if failure.Some? {
        r := Raised(failure.value);
        return;
      }
      r, marked := Commit(moved, files, assignment, v);
      broken := |trace|;
    }

    /** Up to the `prepared` journal, with its handlers. */
    method Prepare(ghost v: View)
      returns (failure: Option<Failure>, moved: set<nat>, files: seq<Option<Tree>>,
               ghost prepared: Option<nat>, ghost lost: Option<nat>, ghost broken: nat)
      requires Valid() && Settled(disk, v) && v.record.Some?
      modifies this
      ensures Valid() && old(trace) <= trace && |old(trace)| <= broken <= |trace| && (broken < |trace| ==> lost.Some?)
      ensures failure.None? ==>
        && Undecided(disk, v) && MovedAway(disk, v, moved) && NoLogs(disk) && Copied(disk, v, moved)
        && disk.journal.value.state == Prepared && files == v.logs
        && faults == old(faults) && prepared.Some? && lost.None?
      ensures failure.Some? ==>
        && failure.value in {StageJournal, StageMove, StageFlush, Snapshot, Persisting} && faults > old(faults)
        && if broken == |trace| then Means(disk, v) else MeansBut(disk, v, lost.value)
      ensures failure.Some? && failure.value != StageJournal && faults == old(faults) + 1 ==>
        Settled(disk, Unlogged(v, lost))
      ensures prepared.Some? ==> |old(trace)| <= prepared.value < |trace|
      ensures prepared.Some? ==>
        trace[prepared.value].journal.Some? && trace[prepared.value].journal.value.state == Prepared
      ensures forall k :: |old(trace)| <= k < |trace| ==>
        if broken <= k then MeansBut(trace[k], v, lost.value) else Means(trace[k], v)
      ensures lost.Some? <==> failure == Some(StageFlush)
      ensures lost.Some? && faults == old(faults) + 1 ==> broken < |trace|
    {
      prepared, lost, broken, moved, files := None, None, |trace|, {}, [];
      var ok := OpenJournal(v);
      if !ok {
        failure, broken := Some(StageJournal), |trace|;
        return;
      }
      var unflushed;
      ok, moved, unflushed := Stage(v);
      lost := unflushed;
      if !ok {
        broken := Unwind(moved, v, lost);
        failure := Some(if unflushed.Some? then StageFlush else StageMove);
        return;
      }
      files := disk.staged;
      ok := Flush();
      if !ok {
        broken := Unwind(moved, v, None);
        failure := Some(Snapshot);
        return;
      }
      ok, prepared := Persist(moved, v);
      if !ok {
        broken := Unwind(moved, v, None);
        failure := Some(Persisting);
        return;
      }
      failure, broken := None, |trace|;
    }
  }
}
