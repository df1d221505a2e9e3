/** Whole runs of the drafts directory: any number of deletions and recoveries, each cut short by a
    crash at any point, between edits made while no deletion of the edited draft is pending. */
module ActivityDeletionRuns {

  import opened ActivityDeletion

  /** One process's visible effect: the directories it left behind up to its end or its crash. */
  datatype Session =
    | Deletion(name: Name, tx: Tx, commit: nat, confirmed: bool, steps: seq<Disk>)
    | Recovery(completed: bool, steps: seq<Disk>)
    | Edit(name: Name, content: Content)

  function Last(d: Disk, steps: seq<Disk>): Disk {
    if steps == [] then d else steps[|steps| - 1]
  }

  function EndOf(d: Disk, s: Session): Disk {
    match s
    case Deletion(_, _, _, _, steps) => Last(d, steps)
    case Recovery(_, steps) => Last(d, steps)
    case Edit(name, content) => d.(drafts := d.drafts[name := content])
  }

  /** What `DraftsDirectory.Delete` and `DraftsDirectory.Recover` ensure, cut anywhere by a crash. */
  ghost predicate Legal(d: Disk, s: Session) {
    match s
    case Deletion(name, tx, commit, confirmed, steps) =>
      && (forall k :: 0 <= k < |steps| ==> DeletionStep(d, steps[k], k >= commit, name))
      && (forall k :: 0 <= k < |steps| && k < commit ==> !SaysCleanup(steps[k], tx))
      && (commit < |steps| ==> SaysCleanup(steps[commit], tx))
      && (confirmed ==> commit < |steps|)
    case Recovery(completed, steps) =>
      && (forall k :: 0 <= k < |steps| ==> RecoveryStep(d, steps[k]))
      && (completed ==> Last(d, steps).journals == map[] && Last(d, steps).tombs == map[])
    case Edit(name, _) => NoPending(d, name)
  }

  ghost predicate LegalRun(d: Disk, run: seq<Session>) {
    run != [] ==>
      var before := run[..|run| - 1];
      LegalRun(d, before) && Legal(EndOfRun(d, before), run[|run| - 1])
  }

  function EndOfRun(d: Disk, run: seq<Session>): Disk {
    if run == [] then d else EndOf(EndOfRun(d, run[..|run| - 1]), run[|run| - 1])
  }

  predicate Deletes(s: Session, n: Name) {
    s.Deletion? && s.name == n && s.commit < |s.steps|
  }

  /** The crash-free meaning of a run: a committed deletion removes its draft, an edit sets it, and
      nothing else counts. */
  ghost predicate Expected(d: Disk, run: seq<Session>, n: Name, c: Content) {
    if run == [] then Shows(d, n, c)
    else
      var s := run[|run| - 1];
      if Deletes(s, n) then false
      else if s.Edit? && s.name == n then s.content == c
      else Expected(d, run[..|run| - 1], n, c)
  }

  /** A crash after any number of steps of a legal session is again a legal session. */
  lemma CrashIsLegal(d: Disk, s: Session, cut: nat)
    requires Legal(d, s)
    requires s.Deletion? ==> cut <= |s.steps|
    requires s.Recovery? ==> cut <= |s.steps|
    ensures s.Deletion? ==> Legal(d, s.(steps := s.steps[..cut], confirmed := s.confirmed && s.commit < cut))
    ensures s.Recovery? ==> Legal(d, s.(steps := s.steps[..cut], completed := s.completed && cut == |s.steps|))
  {
  }

  /** Every call of `Delete` on a directory without an older transaction of the draft is a legal session
      of the run. */
  method DeletionSession(dir: DraftsDirectory, name: Name, tx: Tx, linked: bool, listable: bool)
    returns (r: Response, ghost s: Session)
    requires dir.Valid() && tx !in dir.disk.journals && tx !in dir.disk.tombs
    modifies dir
    ensures dir.Valid() && s.Deletion? && s.name == name && s.tx == tx && s.confirmed == r.Ok?
    ensures dir.trace == old(dir.trace) + s.steps && EndOf(old(dir.disk), s) == dir.disk
    ensures Clean(old(dir.disk), name) ==> Legal(old(dir.disk), s)
  {
    ghost var d, from, commit := dir.disk, |dir.trace|, 0;
    r, commit := dir.Delete(name, tx, linked, listable);
    s := Deletion(name, tx, commit - from, r.Ok?, dir.trace[from..]);
    if Clean(d, name) {
      StepsOfTrace(d, dir.trace, from, commit, s);
    }
  }

  lemma StepsOfTrace(d: Disk, trace: seq<Disk>, from: nat, commit: nat, s: Session)
    requires from <= commit <= |trace| && s.Deletion? && s.steps == trace[from..] && s.commit == commit - from
    requires s.confirmed ==> commit < |trace|
    requires forall k :: from <= k < |trace| ==> DeletionStep(d, trace[k], k >= commit, s.name)
    requires forall k :: from <= k < commit ==> !SaysCleanup(trace[k], s.tx)
    requires commit < |trace| ==> SaysCleanup(trace[commit], s.tx)
    ensures Legal(d, s)
  {
    forall k | 0 <= k < |s.steps|
      ensures DeletionStep(d, s.steps[k], k >= s.commit, s.name) && (k < s.commit ==> !SaysCleanup(s.steps[k], s.tx))
    {
      assert s.steps[k] == trace[from + k];
    }
  }

  /** Every call of `Recover` is a legal session of the run. */
  method RecoverySession(dir: DraftsDirectory) returns (ok: bool, ghost s: Session)
    requires dir.Valid()
    modifies dir
    ensures dir.Valid() && s.Recovery? && s.completed == ok
    ensures dir.trace == old(dir.trace) + s.steps && EndOf(old(dir.disk), s) == dir.disk
    ensures Legal(old(dir.disk), s) && (Sound(old(dir.disk)) && !ok ==> dir.faults > old(dir.faults))
  {
    ok := dir.Recover();
    ghost var from := |old(dir.trace)|;
    ghost var steps := dir.trace[from..];
    assert forall k :: 0 <= k < |steps| ==> steps[k] == dir.trace[from + k];
    s := Recovery(ok, steps);
  }

  lemma EditShows(d: Disk, name: Name, content: Content)
    requires Sound(d) && NoPending(d, name)
    ensures Sound(EndOf(d, Edit(name, content)))
    ensures forall n, c :: Shows(EndOf(d, Edit(name, content)), n, c) <==>
      if n == name then c == content else Shows(d, n, c)
  {
    var e := EndOf(d, Edit(name, content));
    forall n, c | n != name
      ensures Shows(e, n, c) <==> Shows(d, n, c)
    {
      assert forall t :: Held(d, t, n, c) <==> Held(e, t, n, c);
    }
  }

  /** Every run, crashes included, means what its crash-free reading says. */
  lemma {:induction false} RunIsAtomic(d: Disk, run: seq<Session>)
    requires Sound(d) && LegalRun(d, run)
    ensures Sound(EndOfRun(d, run))
    ensures forall n, c :: Shows(EndOfRun(d, run), n, c) <==> Expected(d, run, n, c)
  {
    if run != [] {
      var before, s := run[..|run| - 1], run[|run| - 1];
      var m := EndOfRun(d, before);
      RunIsAtomic(d, before);
      var e := EndOf(m, s);
      if s.Edit? {
        EditShows(m, s.name, s.content);
      } else if s.steps != [] {
        assert e == s.steps[|s.steps| - 1];
      }
      assert EndOfRun(d, run) == e;
    }
  }

  /** Once `delete_activity_record` has answered ok, nothing but an edit brings the draft back. */
  lemma {:induction false} ConfirmedDeletionIsFinal(d: Disk, run: seq<Session>, i: nat, c: Content)
    requires Sound(d) && LegalRun(d, run) && i < |run| && run[i].Deletion? && run[i].confirmed
    requires forall j :: i < j < |run| && run[j].Edit? ==> run[j].name != run[i].name
    ensures !Shows(EndOfRun(d, run), run[i].name, c)
  {
    RunIsAtomic(d, run);
    ConfirmedStaysExpected(d, run, i, c);
  }

  lemma {:induction false} ConfirmedStaysExpected(d: Disk, run: seq<Session>, i: nat, c: Content)
    requires Sound(d) && LegalRun(d, run) && i < |run| && run[i].Deletion? && run[i].confirmed
    requires forall j :: i < j < |run| && run[j].Edit? ==> run[j].name != run[i].name
    ensures !Expected(d, run, run[i].name, c)
  {
    if i < |run| - 1 {
      ConfirmedStaysExpected(d, run[..|run| - 1], i, c);
    }
  }

  /** A run that ends in a completed recovery leaves exactly the expected drafts, and no tombstone
      or journal. */
  lemma CompletedRecovery(d: Disk, run: seq<Session>)
    requires Sound(d) && LegalRun(d, run) && run != []
    requires run[|run| - 1].Recovery? && run[|run| - 1].completed
    ensures EndOfRun(d, run).journals == map[] && EndOfRun(d, run).tombs == map[]
    ensures forall n, c :: (n in EndOfRun(d, run).drafts && EndOfRun(d, run).drafts[n] == c) <==> Expected(d, run, n, c)
  {
    RunIsAtomic(d, run);
    var e := EndOfRun(d, run);
    assert e == Last(EndOfRun(d, run[..|run| - 1]), run[|run| - 1].steps);
    assert forall t, n, c :: !Held(e, t, n, c);
  }

  /** Until the journal says `cleanup`, the content is in the draft or in its tombstone. */
  lemma ContentSurvives(d: Disk, s: Session, k: nat)
    requires Sound(d) && s.Deletion? && Legal(d, s) && s.name in d.drafts && k < |s.steps|
    requires forall j :: 0 <= j <= k ==> !SaysCleanup(s.steps[j], s.tx)
    ensures
      || (s.name in s.steps[k].drafts && s.steps[k].drafts[s.name] == d.drafts[s.name])
      || (exists tx :: Held(s.steps[k], tx, s.name, d.drafts[s.name]))
  {
    assert k < s.commit;
    assert DeletionStep(d, s.steps[k], false, s.name);
    assert Shows(d, s.name, d.drafts[s.name]);
  }

  /** The smallest deletion that can raise after its commit point: its last directory already says
      `cleanup`, and then the journal cannot be read, or not be flushed again. */
  lemma CommittedButRaised(name: Name, content: Content, tx: Tx)
    ensures
      var d := Disk(map[name := content], map[], map[]);
      var started := Marked(d, tx, Prepared, name);
      var buried := Buried(started, tx, name);
      var committed, cleaned := Marked(buried, tx, Committed, name), Marked(buried, tx, Cleanup, name);
      var s := Deletion(name, tx, 3, false, [started, buried, committed, cleaned]);
      && Legal(d, s) && Sound(d) && SaysCleanup(cleaned, tx)
      && Shows(committed, name, content) && forall c :: !Shows(cleaned, name, c)
  {
    var d := Disk(map[name := content], map[], map[]);
    StartInFlight(d, name, tx);
    var started := Marked(d, tx, Prepared, name);
    BuryingInFlight(d, started, name, tx);
    var buried := Buried(started, tx, name);
    MarkingInFlight(d, buried, name, tx, Committed);
    var committed := Marked(buried, tx, Committed, name);
    CleaningInFlight(d, committed, name, tx);
    assert Marked(committed, tx, Cleanup, name) == Marked(buried, tx, Cleanup, name);
    assert Clean(d, name) && Shows(d, name, content);
  }

  /** The same without any failure: the deletion is complete, and only making up the answer raises. */
  lemma CompletedButRaised(name: Name, content: Content, tx: Tx)
    ensures
      var d := Disk(map[name := content], map[], map[]);
      var started := Marked(d, tx, Prepared, name);
      var buried := Buried(started, tx, name);
      var committed, cleaned := Marked(buried, tx, Committed, name), Marked(buried, tx, Cleanup, name);
      var swept := Unburied(cleaned, tx);
      var s := Deletion(name, tx, 3, false, [started, buried, committed, cleaned, swept, Closed(swept, tx)]);
      Legal(d, s) && Sound(d) && Closed(swept, tx) == Disk(map[], map[], map[])
  {
    var d := Disk(map[name := content], map[], map[]);
    CommittedButRaised(name, content, tx);
    var buried := Buried(Marked(d, tx, Prepared, name), tx, name);
    var cleaned := Marked(buried, tx, Cleanup, name);
    assert Clean(d, name);
    SweepingInFlight(d, cleaned, name, tx);
  }

  /** Why one transaction at a time: the directory `e` that a confirmed deletion of `name` leaves when
      `d` still holds older transactions is recoverable, with the draft gone, exactly when each of
      those is a `committed` journal without tombstone. */
  lemma OlderTransactions(d: Disk, name: Name)
    requires Recoverable(d) && name in d.drafts
    ensures
      var e := d.(drafts := d.drafts - {name});
      (Recoverable(e) && forall c :: !Shows(e, name, c)) <==>
      forall t :: t in d.journals && d.journals[t].original == name ==>
        d.journals[t].state == Committed && t !in d.tombs
  {
    var e := d.(drafts := d.drafts - {name});
    forall t | t in d.journals && d.journals[t].original == name
      ensures Recoverable(e) && (forall c :: !Shows(e, name, c)) ==> d.journals[t].state == Committed && t !in d.tombs
    {
      assert Settles(d, t);
      if t in d.tombs {
        assert Held(e, t, name, d.tombs[t]);
        assert Shows(e, name, d.tombs[t]);
      } else if Recoverable(e) {
        assert Settles(e, t);
      }
    }
    if forall t :: t in d.journals && d.journals[t].original == name ==>
      d.journals[t].state == Committed && t !in d.tombs {
      forall t | t in e.journals
        ensures Settles(e, t)
      {
        assert Settles(d, t);
      }
    }
  }

  /** ... and so for every deletion that answers ok with nothing left to clean up. */
  method DeletionOverOlder(dir: DraftsDirectory, name: Name, tx: Tx, linked: bool, listable: bool) returns (r: Response)
    requires dir.Valid() && tx !in dir.disk.journals && tx !in dir.disk.tombs
    modifies dir
    ensures
      var d := old(dir.disk);
      Recoverable(d) && r == Ok(false) ==>
        ((Recoverable(dir.disk) && forall c :: !Shows(dir.disk, name, c)) <==>
        forall t :: t in d.journals && d.journals[t].original == name ==>
          d.journals[t].state == Committed && t !in d.tombs)
  {
    ghost var d, commit := dir.disk, 0;
    r, commit := dir.Delete(name, tx, linked, listable);
    if Recoverable(d) && r == Ok(false) {
      OlderTransactions(d, name);
    }
  }

  /** A deletion that failed at its rename leaves its `prepared` journal; if the teacher tries again and
      succeeds, recovery is stuck at it. */
  method RetryBeforeRecovery(dir: DraftsDirectory, name: Name, stale: Tx, tx: Tx, listable: bool)
    returns (first: Response, second: Response)
    requires dir.Valid() && Clean(dir.disk, name) && stale != tx
    requires stale !in dir.disk.journals && stale !in dir.disk.tombs
    requires tx !in dir.disk.journals && tx !in dir.disk.tombs
    modifies dir
    ensures first == Raised(Rename) && second == Ok(false) ==>
      dir.Valid() && OnePerOriginal(dir.disk) && Stuck(dir.disk, stale)
  {
    ghost var commit;
    first, commit := dir.Delete(name, stale, false, listable);
    second := first;
    if first == Raised(Rename) {
      second, commit := dir.Delete(name, tx, false, listable);
    }
  }

  /** Once recovery is stuck, no later recovery completes, however often it is tried or cut short. */
  lemma {:induction false} StuckForever(d: Disk, run: seq<Session>, tx: Tx)
    requires OnePerOriginal(d) && Stuck(d, tx) && LegalRun(d, run)
    requires forall i :: 0 <= i < |run| ==> run[i].Recovery?
    ensures OnePerOriginal(EndOfRun(d, run)) && Stuck(EndOfRun(d, run), tx)
    ensures forall i :: 0 <= i < |run| ==> !run[i].completed
  {
    if run != [] {
      var before, s := run[..|run| - 1], run[|run| - 1];
      StuckForever(d, before, tx);
      var m := EndOfRun(d, before);
      assert s.steps != [] ==> RecoveryStep(m, s.steps[|s.steps| - 1]);
      assert forall i :: 0 <= i < |before| ==> run[i] == before[i];
    }
  }
}
