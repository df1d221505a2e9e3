/** Whole runs over the files of one assignment: deletions and recoveries cut short by crashes
    anywhere, and edits made while no deletion is pending. */
module AssignmentDeletionRuns {

  import opened Options
  import opened AssignmentDisk
  import opened AssignmentDeletion

  /** `lost` is the log whose move was not flushed, and from step `broken` on files of it are missing. */
  datatype Session =
    | Deletion(steps: seq<Disk>, prepared: Option<nat>, lost: Option<nat>, broken: nat, confirmed: bool)
    | Recovery(steps: seq<Disk>, completed: bool)
    | Edit(view: View)

  function ViewOf(d: Disk): View {
    View(d.record, d.logs)
  }

  function Last(d: Disk, steps: seq<Disk>): Disk {
    if steps == [] then d else steps[|steps| - 1]
  }

  function EndOf(d: Disk, s: Session): Disk {
    match s
    case Deletion(steps, _, _, _, _) => Last(d, steps)
    case Recovery(steps, _) => Last(d, steps)
    case Edit(v) => d.(record := v.record, logs := v.logs)
  }

  predicate Reached(s: Session, k: nat)
    requires s.Deletion?
  {
    s.prepared.Some? && s.prepared.value <= k
  }

  /** The log that is damaged at step `k`. */
  function DamageAt(s: Session, k: nat): Option<nat>
    requires s.Deletion?
  {
    if s.broken <= k then s.lost else None
  }

  predicate EndsDamaged(s: Session)
    requires s.Deletion?
  {
    s.steps != [] && DamageAt(s, |s.steps| - 1).Some?
  }

  ghost predicate RecoveryTo(d: Disk, s: Session, v: View)
    requires s.Recovery?
  {
    Means(d, v) ==>
      && (forall k :: 0 <= k < |s.steps| ==> Means(s.steps[k], v))
      && (s.completed ==> Settled(Last(d, s.steps), v))
  }

  /** What `AssignmentFiles.Delete` and `AssignmentFiles.Recover` ensure, cut anywhere by a crash. */
  ghost predicate Legal(d: Disk, s: Session) {
    match s
    case Deletion(steps, prepared, lost, broken, confirmed) =>
      && (if d.record == None then steps == [] && !confirmed else Settled(d, ViewOf(d)))
      && (forall k :: 0 <= k < |steps| ==> DeletionStep(d, steps[k], Reached(s, k), DamageAt(s, k)))
      && (confirmed ==>
        |steps| > 0 && Reached(s, |steps| - 1) && !EndsDamaged(s) && Means(Last(d, steps), Gone(ViewOf(d))))
    case Recovery(_, _) => forall v :: RecoveryTo(d, s, v)
    case Edit(v) => Settled(d, ViewOf(d)) && |v.logs| == |d.logs|
  }

  /** A crash after any number of steps of a legal session is again a legal session. */
  lemma CrashIsLegal(d: Disk, s: Session, cut: nat)
    requires Legal(d, s)
    requires s.Deletion? ==> cut <= |s.steps|
    requires s.Recovery? ==> cut <= |s.steps|
    ensures s.Deletion? ==> Legal(d, s.(steps := s.steps[..cut], confirmed := false))
    ensures s.Recovery? ==> Legal(d, s.(steps := s.steps[..cut], completed := false))
  {
    if s.Recovery? {
      forall v
        ensures RecoveryTo(d, s.(steps := s.steps[..cut], completed := false), v)
      {
        assert RecoveryTo(d, s, v);
      }
    }
  }

  /** The failures after which a deletion restores everything by itself, if nothing else fails. */
  const RESTORED: set<Failure> := {StageMove, Snapshot, Persisting, DeleteRecord, RemoveStaged, CommitMark}

  /** Every call of `Delete` is a legal session. Whatever fails in it, it is all or nothing exactly unless
      it removed files of the log whose move was not flushed; when at most one primitive fails, exactly
      unless that primitive is this flush. */
  method DeletionSession(a: AssignmentFiles, archived: bool, listable: bool) returns (r: Response, ghost s: Session)
    requires a.Valid() && (a.disk.record.Some? ==> Settled(a.disk, ViewOf(a.disk)))
    modifies a
    ensures a.Valid() && s.Deletion? && a.trace == old(a.trace) + s.steps && s.confirmed == r.Deleted?
    ensures Legal(old(a.disk), s) && EndOf(old(a.disk), s) == a.disk
    ensures s.lost.Some? <==> r == Raised(StageFlush)
    ensures old(a.disk).record.Some? ==> (AllOrNothing(old(a.disk), a.disk) <==> !EndsDamaged(s))
    ensures a.faults <= old(a.faults) + 1 ==> (EndsDamaged(s) <==> r == Raised(StageFlush))
    ensures archived ==> !s.confirmed && a.disk == old(a.disk) && s.steps == []
    ensures r.Raised? && r.failure in RESTORED && a.faults == old(a.faults) + 1 ==>
      Settled(a.disk, ViewOf(old(a.disk)))
    ensures r == Raised(Answering) && old(a.disk).record.Some? ==> Means(a.disk, Gone(ViewOf(old(a.disk))))
  {
    ghost var d, from := a.disk, |a.trace|;
    ghost var prepared, lost, broken, marked;
    r, prepared, lost, broken, marked := a.Delete(archived, listable);
    ghost var position := if prepared.Some? then Some(prepared.value - from) else None;
    s := Deletion(a.trace[from..], position, lost, broken - from, r.Deleted?);
    StepsOfTrace(d, a.trace, from, prepared, broken, s);
    if s.steps != [] {
      LossExactly(d, s, |s.steps| - 1);
    }
  }

  lemma StepsOfTrace(d: Disk, trace: seq<Disk>, from: nat, prepared: Option<nat>, broken: nat, s: Session)
    requires from <= |trace| && s.Deletion? && s.steps == trace[from..]
    requires (prepared.Some? ==> from <= prepared.value) && from <= broken
    requires s.prepared == (if prepared.Some? then Some(prepared.value - from) else None) && s.broken == broken - from
    requires forall k :: from <= k < |trace| ==>
      DeletionStep(d, trace[k], prepared.Some? && prepared.value <= k, if broken <= k then s.lost else None)
    requires if d.record == None then s.steps == [] && !s.confirmed else Settled(d, ViewOf(d))
    requires s.confirmed ==> |trace| > from && prepared.Some? && prepared.value < |trace| && broken == |trace|
    requires s.confirmed ==> Means(trace[|trace| - 1], Gone(ViewOf(d)))
    ensures Legal(d, s)
  {
    forall k | 0 <= k < |s.steps|
      ensures DeletionStep(d, s.steps[k], Reached(s, k), DamageAt(s, k))
    {
      assert s.steps[k] == trace[from + k];
    }
  }

  /** Every call of `Recover` is a legal session, and one that meets no fault completes. */
  method RecoverySession(a: AssignmentFiles, ghost v: View) returns (ok: bool, ghost s: Session)
    requires a.Valid() && Means(a.disk, v)
    modifies a
    ensures a.Valid() && s.Recovery? && a.trace == old(a.trace) + s.steps && s.completed == ok
    ensures Legal(old(a.disk), s) && EndOf(old(a.disk), s) == a.disk
    ensures !ok ==> a.faults > old(a.faults)
  {
    ghost var d := a.disk;
    ok := a.Recover(v);
    ghost var from := |old(a.trace)|;
    ghost var steps := a.trace[from..];
    assert forall k :: 0 <= k < |steps| ==> steps[k] == a.trace[from + k];
    s := Recovery(steps, ok);
    forall w
      ensures RecoveryTo(d, s, w)
    {
      if Means(d, w) {
        OneMeaning(d, v, w);
      }
    }
  }

  lemma OneMeaning(d: Disk, v: View, w: View)
    requires Means(d, v) && Means(d, w)
    ensures v == w
  {
    forall i | 0 <= i < |d.logs|
      ensures v.logs[i] == w.logs[i]
    {
      assert RecoveredLog(d, i) == v.logs[i];
    }
  }

  /** A disk of a deletion is all or nothing exactly before the first file of an unflushed log is gone. */
  lemma LossExactly(d: Disk, s: Session, k: nat)
    requires Legal(d, s) && s.Deletion? && k < |s.steps|
    ensures AllOrNothing(d, s.steps[k]) <==> DamageAt(s, k) == None
  {
    var e := s.steps[k];
    assert DeletionStep(d, e, Reached(s, k), DamageAt(s, k));
    if DamageAt(s, k).Some? {
      var lost := DamageAt(s, k).value;
      var w := ViewOf(d).(logs := d.logs[lost := RecoveredLog(e, lost)]);
      assert Damaged(ViewOf(d), lost, w) && Means(e, w);
      DamageShows(e, ViewOf(d), lost, w);
    }
  }

  lemma DamageShows(e: Disk, v: View, lost: nat, w: View)
    requires Damaged(v, lost, w) && Means(e, w)
    ensures !Means(e, v) && !Means(e, Gone(v))
  {
  }

  ghost predicate LegalRun(d: Disk, run: seq<Session>) {
    run != [] ==>
      var before := run[..|run| - 1];
      LegalRun(d, before) && Legal(EndOfRun(d, before), run[|run| - 1])
  }

  function EndOfRun(d: Disk, run: seq<Session>): Disk {
    if run == [] then d else EndOf(EndOfRun(d, run[..|run| - 1]), run[|run| - 1])
  }

  /** The crash-free readings of a run. A deletion that removed files of an unflushed log left the record
      and all other logs; any other one happened or did not, and happened only if its journal had reached
      `prepared`; a confirmed one happened; a recovery is invisible. */
  ghost predicate Reading(d: Disk, run: seq<Session>, v: View) {
    if run == [] then v == ViewOf(d)
    else
      var before, s := run[..|run| - 1], run[|run| - 1];
      match s
      case Deletion(steps, _, lost, _, confirmed) =>
        if EndsDamaged(s) then exists w :: Reading(d, before, w) && Damaged(w, lost.value, v)
        else
          || (!confirmed && Reading(d, before, v))
          || (|steps| > 0 && Reached(s, |steps| - 1) && exists w :: Reading(d, before, w) && v == Gone(w))
      case Recovery(_, _) => Reading(d, before, v)
      case Edit(w) => v == w
  }

  /** Whatever failed and crashed in a run, its disk recovers to one of the run's readings. */
  lemma {:induction false} RunHasReading(d: Disk, run: seq<Session>) returns (v: View)
    requires Settled(d, ViewOf(d)) && LegalRun(d, run)
    ensures Means(EndOfRun(d, run), v) && Reading(d, run, v)
  {
    if run == [] {
      v := ViewOf(d);
    } else {
      var before, s := run[..|run| - 1], run[|run| - 1];
      var w := RunHasReading(d, before);
      var m := EndOfRun(d, before);
      match s {
        case Deletion(_, _, _, _, _) =>
          v := DeletionReading(m, s, w);
          assert Reading(d, before, w);
        case Recovery(_, _) =>
          assert RecoveryTo(m, s, w);
          v := w;
        case Edit(u) =>
          v := u;
      }
    }
  }

  /** One deletion, from a disk that recovers to `w`. */
  lemma DeletionReading(m: Disk, s: Session, w: View) returns (v: View)
    requires Legal(m, s) && s.Deletion? && Means(m, w)
    ensures Means(EndOf(m, s), v)
    ensures if EndsDamaged(s) then Damaged(w, s.lost.value, v)
      else (v == w && !s.confirmed) || (v == Gone(w) && s.steps != [] && Reached(s, |s.steps| - 1))
  {
    v := w;
    if s.steps != [] {
      var k := |s.steps| - 1;
      OneMeaning(m, w, ViewOf(m));
      assert DeletionStep(m, s.steps[k], Reached(s, k), DamageAt(s, k));
      if EndsDamaged(s) {
        v := w.(logs := w.logs[s.lost.value := RecoveredLog(s.steps[k], s.lost.value)]);
      } else if s.confirmed || !Means(EndOf(m, s), w) {
        v := Gone(w);
      }
    }
  }

  /** ... and a completed recovery leaves exactly that, with an empty quarantine. */
  lemma CompletedRecovery(d: Disk, run: seq<Session>) returns (v: View)
    requires Settled(d, ViewOf(d)) && LegalRun(d, run)
    requires run != [] && run[|run| - 1].Recovery? && run[|run| - 1].completed
    ensures Settled(EndOfRun(d, run), v) && Reading(d, run, v)
  {
    v := RunHasReading(d, run[..|run| - 1]);
    assert RecoveryTo(EndOfRun(d, run[..|run| - 1]), run[|run| - 1], v);
  }

  /** One deletion interrupted anywhere, then recoveries interrupted anywhere: everything is back, or
      everything is gone and the journal had been `prepared`, if and only if the deletion removed no file
      of an unflushed log. */
  lemma {:induction false} DeletedOrIntact(d: Disk, run: seq<Session>, v: View)
    requires Settled(d, ViewOf(d)) && LegalRun(d, run) && run != [] && Reading(d, run, v)
    requires run[0].Deletion? && forall i :: 1 <= i < |run| ==> run[i].Recovery?
    ensures v == ViewOf(d) || (v == Gone(ViewOf(d)) && run[0].prepared.Some?) <==> !EndsDamaged(run[0])
    ensures run[0].confirmed ==> v == Gone(ViewOf(d))
  {
    if |run| > 1 {
      DeletedOrIntact(d, run[..|run| - 1], v);
    } else {
      assert run[|run| - 1] == run[0] && run[..|run| - 1] == [];
      assert forall w :: Reading(d, [], w) ==> w == ViewOf(d);
    }
  }

  /** While a journal says `rolling_back`, every backup it names is intact, after any run. */
  lemma RollingBackKeepsBackups(d: Disk, run: seq<Session>) returns (v: View)
    requires Settled(d, ViewOf(d)) && LegalRun(d, run) && RollingBackNow(EndOfRun(d, run))
    ensures
      var e := EndOfRun(d, run);
      && WellFormed(e) && |v.logs| == |e.logs| && Reading(d, run, v)
      && e.journal.value.assignment.Some? && e.journal.value.assignment == v.record
      && forall i :: 0 <= i < |e.logs| && e.journal.value.copies[i] ==> e.backup[i].Some? && e.backup[i] == v.logs[i]
  {
    v := RunHasReading(d, run);
    var e := EndOfRun(d, run);
    forall i | 0 <= i < |e.logs| && e.journal.value.copies[i]
      ensures e.backup[i].Some? && e.backup[i] == v.logs[i]
    {
      assert RecoveredLog(e, i) == v.logs[i];
    }
  }

  // ------------------------------------------------------------- answers that are not the last word

  /** What a deletion that finds no record adds to a run. */
  const ASKED_AGAIN: Session := Deletion([], None, None, 0, false)

  /** A deletion that finds no record answers that it is deleted already. After the next completed recovery
      that is so exactly unless an interrupted rollback had still to write the record. */
  lemma AlreadyDeletedIsFinal(d: Disk, run: seq<Session>, recovery: Session)
    requires Settled(d, ViewOf(d)) && LegalRun(d, run) && EndOfRun(d, run).record == None
    requires recovery.Recovery? && recovery.completed && Legal(EndOfRun(d, run), recovery)
    ensures
      var asked, after := run + [ASKED_AGAIN], run + [ASKED_AGAIN] + [recovery];
      && LegalRun(d, after) && EndOfRun(d, asked) == EndOfRun(d, run)
      && (EndOfRun(d, after).record == None <==> !RollingBackNow(EndOfRun(d, run)))
  {
    var asked, after := run + [ASKED_AGAIN], run + [ASKED_AGAIN] + [recovery];
    assert asked[..|asked| - 1] == run && after[..|after| - 1] == asked;
    var v := RunHasReading(d, run);
    assert RecoveryTo(EndOfRun(d, run), recovery, v);
  }

  /** The smallest rollback that is cut short before it writes the record, and with the record written but
      not flushed: both are sessions of the run, and both will bring the assignment back. */
  lemma InterruptedRollback(r: Record)
    ensures
      var d0 := Disk(Some(r), [], [], [], None);
      var staging := d0.(journal := Some(Journal(Staging, [], None)));
      var prepared := d0.(journal := Some(Journal(Prepared, [], Some(r))));
      var removed := prepared.(record := None);
      var marked := removed.(journal := Some(Journal(RollingBack, [], Some(r))));
      var written := marked.(record := Some(r));
      && Legal(d0, Deletion([staging, prepared, removed, marked], Some(1), None, 0, false))
      && Legal(d0, Deletion([staging, prepared, removed, marked, written], Some(1), None, 0, false))
      && marked.record == None && RollingBackNow(marked) && Means(marked, ViewOf(d0))
      && written.record == Some(r) && RollingBackNow(written) && Means(written, ViewOf(d0))
  {
    var d0 := Disk(Some(r), [], [], [], None);
    var removed := Disk(None, [], [], [], Some(Journal(Prepared, [], Some(r))));
    RecordDecides(removed, ViewOf(d0), {});
    MarkerDecides(removed.(journal := Some(Journal(RollingBack, [], Some(r)))), ViewOf(d0), {});
  }

  /** The smallest complete deletion whose answer raises all the same, because the assignments that remain
      cannot be listed. */
  lemma CompletedButRaised(r: Record)
    ensures
      var d0 := Disk(Some(r), [], [], [], None);
      var staging := d0.(journal := Some(Journal(Staging, [], None)));
      var prepared := d0.(journal := Some(Journal(Prepared, [], Some(r))));
      var removed := prepared.(record := None);
      var committed := removed.(journal := Some(Journal(Committed, [], Some(r))));
      var purged := Disk(None, [], [], [], None);
      && Legal(d0, Deletion([staging, prepared, removed, committed, purged], Some(1), None, 0, false))
      && Settled(purged, Gone(ViewOf(d0)))
  {
    var d0 := Disk(Some(r), [], [], [], None);
    var removed := Disk(None, [], [], [], Some(Journal(Prepared, [], Some(r))));
    RecordDecides(removed, ViewOf(d0), {});
    RecordDecides(removed.(journal := Some(Journal(Committed, [], Some(r)))), ViewOf(d0), {});
  }

  // ------------------------------------------------------------------------- a second quarantine

  /** The disk without its quarantine, as a transaction in another quarantine sees it. */
  function Outside(d: Disk): Disk {
    Disk(d.record, d.logs, seq(|d.logs|, i => None), seq(|d.logs|, i => None), None)
  }

  /** The quarantine of `older` beside the record and the logs of `d`. */
  function Beside(older: Disk, d: Disk): Disk {
    older.(record := d.record, logs := d.logs)
  }

  /** A deletion in a second quarantine, while an `older` one is pending, that answers ok and leaves its own
      quarantine empty: the next recovery brings record and copied logs back if the older journal says
      `rolling_back`, and leaves everything deleted if it does not. */
  method RetryBesideQuarantine(older: Disk, a: AssignmentFiles, archived: bool, listable: bool) returns (r: Response)
    requires a.Valid() && WellFormed(older) && Recoverable(older) && a.disk == Outside(older) && older.record.Some?
    modifies a
    ensures r == Deleted(false) ==>
      var d := Beside(older, a.disk);
      && WellFormed(d) && Recoverable(d) && d.record == None && NoLogs(d)
      && (Means(d, Gone(ViewOf(older))) <==> !RollingBackNow(older))
      && (RollingBackNow(older) ==> Means(d, Reinstated(older)) && Reinstated(older).record.Some?)
  {
    ghost var prepared, lost, broken, marked;
    r, prepared, lost, broken, marked := a.Delete(archived, listable);
    if r == Deleted(false) {
      RetryIsUndone(older, Beside(older, a.disk));
    }
  }

  /** What a `rolling_back` journal reinstates by itself: its record and the logs of which it has copies. */
  function Reinstated(d: Disk): View
    requires WellFormed(d) && RollingBackNow(d)
  {
    View(d.journal.value.assignment,
      seq(|d.logs|, i requires 0 <= i < |d.logs| => if d.journal.value.copies[i] then d.backup[i] else None))
  }

  lemma RetryIsUndone(older: Disk, d: Disk)
    requires WellFormed(older) && Recoverable(older) && older.record.Some?
    requires |d.logs| == |older.logs| && NoLogs(d) && d == older.(record := None, logs := d.logs)
    ensures WellFormed(d) && Recoverable(d)
    ensures Means(d, Gone(ViewOf(older))) <==> !RollingBackNow(older)
    ensures RollingBackNow(older) ==> Means(d, Reinstated(older)) && Reinstated(older).record.Some?
  {
  }

  // ------------------------------------------------------------------------------ the lost log

  /** The smallest deletion that loses a log, disk by disk: journal, move, failed flush, purge. */
  lemma FlushFailureLosesTheLog(r: Record, log: Tree)
    ensures
      var d0 := Disk(Some(r), [Some(log)], [None], [None], None);
      var d1 := d0.(journal := Some(Journal(Staging, [false], None)));
      var d2 := MovedOut(d1, 0);
      var d3 := Disk(Some(r), [None], [None], [None], None);
      var s := Deletion([d1, d2, d3], None, Some(0), 2, false);
      && Legal(d0, s) && EndsDamaged(s) && PurgeStep(d2, d3)
      && Means(d2, ViewOf(d0)) && !AllOrNothing(d0, d3) && RecoveredLog(d3, 0) == None
  {
    var d0 := Disk(Some(r), [Some(log)], [None], [None], None);
    var d3 := Disk(Some(r), [None], [None], [None], None);
    var w := ViewOf(d0).(logs := d0.logs[0 := None]);
    assert RecoveredLog(d3, 0) == None && Means(d3, w);
    DamageShows(d3, ViewOf(d0), 0, w);
  }
}
