/** Crash-safe deletion of activity drafts (scripts/course_board_server.py).

    Every primitive that changes the drafts directory appends the directory it leaves behind to
    a ghost `trace`, so "a crash may fall between any two steps" becomes "the next process may
    start from any element of the trace". The abstraction of a directory is the set of drafts
    that a completed recovery makes of it (`Shows`); a deletion is then one atomic step of that
    abstraction, and everything else, crashes and recoveries included, leaves it alone. */
module ActivityDeletion {

  import opened Options

  type Name(==, !new)
  type Content(==, !new)
  type Tx(==, !new)

  datatype State = Prepared | RollingBack | Committed | Cleanup

  datatype Journal = Journal(state: State, original: Name)

  /** The drafts directory: visible drafts, tombstones and deletion journals. */
  datatype Disk = Disk(drafts: map<Name, Content>, tombs: map<Tx, Content>, journals: map<Tx, Journal>)

  // ---------------------------------------------------------------- what a directory stands for

  /** Transaction `tx` still owes draft `n` the content `c`. */
  ghost predicate Held(d: Disk, tx: Tx, n: Name, c: Content) {
    && tx in d.journals && d.journals[tx].original == n && d.journals[tx].state != Cleanup
    && tx in d.tombs && d.tombs[tx] == c
  }

  /** A completed recovery of `d` leaves draft `n` with content `c`. */
  ghost predicate Shows(d: Disk, n: Name, c: Content) {
    if n in d.drafts then d.drafts[n] == c else exists tx :: Held(d, tx, n, c)
  }

  ghost predicate SameDrafts(d: Disk, e: Disk) {
    forall n, c :: Shows(d, n, c) <==> Shows(e, n, c)
  }

  /** `e` stands for the drafts of `d` without `name`. */
  ghost predicate WithoutDraft(d: Disk, e: Disk, name: Name) {
    forall n, c :: Shows(e, n, c) <==> n != name && Shows(d, n, c)
  }

  ghost predicate OnePerOriginal(d: Disk) {
    forall t, u :: t in d.journals && u in d.journals && d.journals[t].original == d.journals[u].original ==> t == u
  }

  /** The guard under which recovery gets past the journal of `tx` without raising. */
  predicate Settles(d: Disk, tx: Tx)
    requires tx in d.journals
  {
    match d.journals[tx].state
    case Prepared => d.journals[tx].original in d.drafts || tx in d.tombs
    case RollingBack => d.journals[tx].original in d.drafts || tx in d.tombs
    case Committed => true
    case Cleanup => d.journals[tx].original !in d.drafts
  }

  ghost predicate Recoverable(d: Disk) {
    && (forall tx :: tx in d.journals ==> Settles(d, tx))
    && d.tombs.Keys <= d.journals.Keys
  }

  /** The directories that runs of this code reach: recoverable, one transaction per draft, and no
      draft content lost before its journal says `cleanup`. */
  ghost predicate Sound(d: Disk) {
    && OnePerOriginal(d) && Recoverable(d)
    && forall tx :: tx in d.journals && d.journals[tx].state == Committed
                    ==> d.journals[tx].original in d.drafts || tx in d.tombs
  }

  ghost predicate Faithful(d0: Disk, d: Disk) {
    Sound(d) && SameDrafts(d0, d)
  }

  // ------------------------------------------------------------------------- primitive effects

  function Restored(d: Disk, tx: Tx): Disk
    requires tx in d.journals && tx in d.tombs
  {
    d.(drafts := d.drafts[d.journals[tx].original := d.tombs[tx]], tombs := d.tombs - {tx})
  }

  function Copied(d: Disk, tx: Tx): Disk
    requires tx in d.journals && tx in d.tombs
  {
    d.(drafts := d.drafts[d.journals[tx].original := d.tombs[tx]])
  }

  function Unburied(d: Disk, tx: Tx): Disk {
    d.(tombs := d.tombs - {tx})
  }

  function Closed(d: Disk, tx: Tx): Disk {
    d.(journals := d.journals - {tx})
  }

  function Marked(d: Disk, tx: Tx, s: State, name: Name): Disk {
    d.(journals := d.journals[tx := Journal(s, name)])
  }

  function Buried(d: Disk, tx: Tx, name: Name): Disk
    requires name in d.drafts
  {
    d.(drafts := d.drafts - {name}, tombs := d.tombs[tx := d.drafts[name]])
  }

  /** The files of transaction `tx` put right: the draft wins over its tombstone, and the tombstone over
      nothing, unless the journal says `cleanup`. */
  function FilesSettled(d: Disk, tx: Tx): Disk
    requires tx in d.journals
  {
    var name := d.journals[tx].original;
    var back := tx in d.tombs && d.journals[tx].state != Cleanup && name !in d.drafts;
    Unburied(if back then Restored(d, tx) else d, tx)
  }

  /** `e` has no journal that `d` has not, and none in another state. */
  ghost predicate JournalsWithin(e: Disk, d: Disk) {
    forall t :: t in e.journals ==> t in d.journals && e.journals[t] == d.journals[t]
  }

  /** Recovery can never get past the journal of `tx`. */
  predicate Stuck(d: Disk, tx: Tx) {
    tx in d.journals && !Settles(d, tx)
  }

  /** What is stuck in `d` is stuck in `e`. */
  ghost predicate StillStuck(d: Disk, e: Disk) {
    forall t :: Stuck(d, t) ==> Stuck(e, t)
  }

  /** A directory that recovery makes of `d` on its way. */
  ghost predicate RecoveryStep(d: Disk, e: Disk) {
    && JournalsWithin(e, d) && (OnePerOriginal(d) ==> StillStuck(d, e))
    && (Sound(d) ==> Faithful(d, e))
  }

  lemma RecoveryGoesOn(d: Disk, e: Disk, f: Disk)
    requires RecoveryStep(d, e) && RecoveryStep(e, f)
    ensures RecoveryStep(d, f)
  {
  }

  /** Changing the files and the journal of a transaction that settles leaves the others stuck. */
  lemma OthersStayStuck(d: Disk, e: Disk, tx: Tx)
    requires tx in d.journals && Settles(d, tx) && OnePerOriginal(d)
    requires e.journals == d.journals || e.journals == d.journals - {tx}
    requires forall t :: t != tx ==> (t in e.tombs <==> t in d.tombs)
    requires forall n :: n != d.journals[tx].original ==> (n in e.drafts <==> n in d.drafts)
    ensures StillStuck(d, e)
  {
  }

  predicate SaysCleanup(d: Disk, tx: Tx) {
    tx in d.journals && d.journals[tx].state == Cleanup
  }

  lemma SameBecauseHeldSame(d: Disk, e: Disk)
    requires d.drafts == e.drafts
    requires forall t, n, c :: n !in d.drafts ==> (Held(d, t, n, c) <==> Held(e, t, n, c))
    ensures SameDrafts(d, e)
  {
  }

  /** Moving or copying a tombstone back shows the same drafts. */
  lemma RestoringKeepsDrafts(d: Disk, e: Disk, tx: Tx)
    requires OnePerOriginal(d) && tx in d.journals && tx in d.tombs
    requires d.journals[tx].state != Cleanup && d.journals[tx].original !in d.drafts
    requires e == Restored(d, tx) || e == Copied(d, tx)
    ensures SameDrafts(d, e)
  {
    var name := d.journals[tx].original;
    assert Held(d, tx, name, d.tombs[tx]);
    assert forall t, c :: Held(d, t, name, c) ==> t == tx;
    forall n, c
      ensures Shows(d, n, c) <==> Shows(e, n, c)
    {
      if n != name && n !in d.drafts {
        assert forall t :: Held(d, t, n, c) <==> Held(e, t, n, c);
      }
    }
  }

  function Firsts(order: seq<Tx>, i: nat): set<Tx>
    requires i <= |order|
  {
    set k | 0 <= k < i :: order[k]
  }

  /** `d` is `d0` with the first `i` journals settled; where there is one transaction per draft, the other
      ones meet their draft as it was. */
  ghost predicate Midway(d0: Disk, d: Disk, order: seq<Tx>, i: nat) {
    && i <= |order| && d.journals == d0.journals - Firsts(order, i) && d.tombs == d0.tombs - Firsts(order, i)
    && (OnePerOriginal(d0) ==> forall k :: i <= k < |order| && order[k] in d0.journals ==> Unmet(d0, d, order[k]))
    && (OnePerOriginal(d0) ==> forall k :: 0 <= k < i ==> order[k] in d0.journals && Settles(d0, order[k]))
  }

  ghost predicate Unmet(d0: Disk, d: Disk, tx: Tx)
    requires tx in d0.journals
  {
    d0.journals[tx].original in d0.drafts <==> d0.journals[tx].original in d.drafts
  }

  ghost predicate Listing(d: Disk, order: seq<Tx>) {
    && (forall tx :: tx in order <==> tx in d.journals)
    && forall i, j :: 0 <= i < j < |order| ==> order[i] != order[j]
  }

  lemma NotYetSettled(d0: Disk, d: Disk, order: seq<Tx>, i: nat)
    requires Listing(d0, order) && Midway(d0, d, order, i) && i < |order|
    ensures order[i] in d.journals && d.journals[order[i]] == d0.journals[order[i]]
    ensures OnePerOriginal(d0) ==> (Settles(d, order[i]) <==> Settles(d0, order[i]))
  {
    assert order[i] in d0.journals && order[i] !in Firsts(order, i);
    assert OnePerOriginal(d0) ==> Unmet(d0, d, order[i]);
  }

  lemma MidwayStep(d0: Disk, d: Disk, order: seq<Tx>, i: nat)
    requires Listing(d0, order) && Midway(d0, d, order, i) && i < |order|
    requires order[i] in d.journals && d.journals[order[i]] == d0.journals[order[i]]
    requires OnePerOriginal(d0) ==> Settles(d0, order[i])
    ensures Midway(d0, Closed(FilesSettled(d, order[i]), order[i]), order, i + 1)
  {
    var e := Closed(FilesSettled(d, order[i]), order[i]);
    assert Firsts(order, i + 1) == Firsts(order, i) + {order[i]};
    if OnePerOriginal(d0) {
      forall k | i < k < |order| && order[k] in d0.journals
        ensures Unmet(d0, e, order[k])
      {
        assert Unmet(d0, d, order[k]) && d0.journals[order[k]].original != d0.journals[order[i]].original;
      }
    }
  }

  lemma AllSettled(d0: Disk, d: Disk, order: seq<Tx>)
    requires Listing(d0, order) && Midway(d0, d, order, |order|)
    ensures d.journals == map[] && d.tombs == d0.tombs - d0.journals.Keys
    ensures OnePerOriginal(d0) ==> forall tx :: tx in d0.journals ==> Settles(d0, tx)
  {
    assert Firsts(order, |order|) == d0.journals.Keys;
  }

  /** `d` has exactly the drafts that `d0` shows, and neither journals nor tombstones. */
  ghost predicate PutRight(d0: Disk, d: Disk) {
    && d.journals == map[] && d.tombs == map[]
    && forall n, c :: (n in d.drafts && d.drafts[n] == c) <==> Shows(d0, n, c)
  }

  lemma PutRightLater(d0: Disk, d: Disk, e: Disk)
    requires SameDrafts(d0, d) && PutRight(d, e)
    ensures PutRight(d0, e)
  {
  }

  // -------------------------------------------------------------- the three steps of recovery

  lemma PuttingBackIsRecovery(d: Disk, tx: Tx)
    requires tx in d.journals && tx in d.tombs
    requires d.journals[tx].state != Cleanup && d.journals[tx].original !in d.drafts
    ensures RecoveryStep(d, Restored(d, tx))
  {
    if OnePerOriginal(d) {
      OthersStayStuck(d, Restored(d, tx), tx);
    }
    if Sound(d) {
      RestoringKeepsDrafts(d, Restored(d, tx), tx);
    }
  }

  lemma DroppingIsRecovery(d: Disk, tx: Tx)
    requires tx in d.journals && tx in d.tombs
    requires d.journals[tx].state == Cleanup <==> d.journals[tx].original !in d.drafts
    ensures RecoveryStep(d, Unburied(d, tx))
  {
    if OnePerOriginal(d) {
      OthersStayStuck(d, Unburied(d, tx), tx);
    }
    if Sound(d) {
      assert forall t, n, c :: n !in d.drafts ==> (Held(d, t, n, c) <==> Held(Unburied(d, tx), t, n, c));
      SameBecauseHeldSame(d, Unburied(d, tx));
    }
  }

  lemma ClosingIsRecovery(d: Disk, e: Disk, tx: Tx)
    requires tx in d.journals && Settles(d, tx) && e == FilesSettled(d, tx) && RecoveryStep(d, e)
    ensures RecoveryStep(d, Closed(e, tx))
  {
    if OnePerOriginal(d) {
      OthersStayStuck(d, Closed(e, tx), tx);
    }
    if Sound(d) {
      assert forall t, n, c :: Held(e, t, n, c) <==> Held(Closed(e, tx), t, n, c);
      SameBecauseHeldSame(e, Closed(e, tx));
    }
  }

  // ------------------------------------------------------------------ one deletion under way

  /** `d` is directory `d0` with the deletion `tx` of draft `name` under way. */
  ghost predicate InFlight(d0: Disk, d: Disk, name: Name, tx: Tx) {
    && name in d0.drafts && tx !in d0.journals && tx !in d0.tombs
    && tx in d.journals && d.journals[tx].original == name && d.journals - {tx} == d0.journals
    && d.tombs - {tx} == d0.tombs && (tx in d.tombs ==> d.tombs[tx] == d0.drafts[name])
    && d.drafts - {name} == d0.drafts - {name} && (name in d.drafts ==> d.drafts[name] == d0.drafts[name])
    && if d.journals[tx].state == Cleanup then name !in d.drafts else name in d.drafts || tx in d.tombs
  }

  ghost predicate NoPending(d: Disk, name: Name) {
    forall t :: t in d.journals ==> d.journals[t].original != name
  }

  lemma InFlightFrame(d0: Disk, d: Disk, name: Name, tx: Tx)
    requires InFlight(d0, d, name, tx)
    ensures forall n :: n != name ==>
      (n in d.drafts <==> n in d0.drafts) && (n in d.drafts ==> d.drafts[n] == d0.drafts[n])
    ensures forall t :: t != tx ==>
      (t in d.journals <==> t in d0.journals) && (t in d.journals ==> d.journals[t] == d0.journals[t])
    ensures forall t :: t != tx ==> (t in d.tombs <==> t in d0.tombs) && (t in d.tombs ==> d.tombs[t] == d0.tombs[t])
  {
    forall n | n != name
      ensures (n in d.drafts <==> n in d0.drafts) && (n in d.drafts ==> d.drafts[n] == d0.drafts[n])
    {
      assert n in d.drafts <==> n in d.drafts - {name};
      assert n in d0.drafts <==> n in d0.drafts - {name};
      if n in d.drafts {
        assert (d.drafts - {name})[n] == (d0.drafts - {name})[n];
      }
    }
  }

  /** Until its journal says `cleanup`, a deletion changes nothing; from then on the draft is gone. */
  lemma InFlightMeaning(d0: Disk, d: Disk, name: Name, tx: Tx)
    requires Sound(d0) && NoPending(d0, name) && InFlight(d0, d, name, tx)
    ensures Sound(d)
    ensures d.journals[tx].state != Cleanup ==> SameDrafts(d0, d)
    ensures d.journals[tx].state == Cleanup ==> WithoutDraft(d0, d, name)
  {
    InFlightFrame(d0, d, name, tx);
    forall n, c
      ensures d.journals[tx].state != Cleanup ==> (Shows(d0, n, c) <==> Shows(d, n, c))
      ensures d.journals[tx].state == Cleanup ==> (Shows(d, n, c) <==> n != name && Shows(d0, n, c))
    {
      if n == name {
        assert Held(d, tx, n, c) || forall t :: !Held(d, t, n, c);
      } else {
        assert forall t :: Held(d0, t, n, c) <==> Held(d, t, n, c);
      }
    }
  }

  /** The directories in which a deletion of `name` may begin: recoverable, and without an older
      transaction of this draft. */
  ghost predicate Clean(d: Disk, name: Name) {
    Sound(d) && NoPending(d, name)
  }

  /** Nothing of the deletion `tx` shows in `d`. */
  ghost predicate NothingDone(d0: Disk, d: Disk, name: Name, tx: Tx) {
    !SaysCleanup(d, tx) && (Clean(d0, name) ==> Faithful(d0, d))
  }

  lemma RecoveryDoesNothing(d0: Disk, d: Disk, name: Name, tx: Tx)
    requires NothingDone(d0, d, name, tx)
    ensures forall e :: RecoveryStep(d, e) ==> NothingDone(d0, e, name, tx)
  {
    forall e | RecoveryStep(d, e)
      ensures NothingDone(d0, e, name, tx)
    {
      if Clean(d0, name) {
        assert Faithful(d, e) && SameDrafts(d0, d);
      }
    }
  }

  /** Marking the journal keeps a deletion under way. */
  lemma MarkingInFlight(d0: Disk, d: Disk, name: Name, tx: Tx, s: State)
    requires InFlight(d0, d, name, tx) && s != Cleanup
    requires name in d.drafts || tx in d.tombs
    ensures InFlight(d0, Marked(d, tx, s, name), name, tx)
    ensures NothingDone(d0, Marked(d, tx, s, name), name, tx)
  {
    var e := Marked(d, tx, s, name);
    assert e.journals - {tx} == d.journals - {tx};
    if Clean(d0, name) {
      InFlightMeaning(d0, e, name, tx);
    }
  }

  lemma RestoringInFlight(d0: Disk, d: Disk, name: Name, tx: Tx)
    requires InFlight(d0, d, name, tx)
    requires d.journals[tx].state != Cleanup && tx in d.tombs
    ensures NothingDone(d0, Restored(d, tx), name, tx) && NothingDone(d0, Copied(d, tx), name, tx)
  {
    assert Restored(d, tx).drafts - {name} == d.drafts - {name} && Restored(d, tx).tombs - {tx} == d.tombs - {tx};
    assert Copied(d, tx).drafts - {name} == d.drafts - {name};
    if Clean(d0, name) {
      InFlightMeaning(d0, Restored(d, tx), name, tx);
      InFlightMeaning(d0, Copied(d, tx), name, tx);
    }
  }

  lemma BuryingInFlight(d0: Disk, d: Disk, name: Name, tx: Tx)
    requires InFlight(d0, d, name, tx)
    requires d.journals[tx].state != Cleanup && name in d.drafts
    ensures InFlight(d0, Buried(d, tx, name), name, tx)
    ensures NothingDone(d0, Buried(d, tx, name), name, tx)
  {
    var e := Buried(d, tx, name);
    assert e.drafts - {name} == d.drafts - {name} && e.tombs - {tx} == d.tombs - {tx};
    if Clean(d0, name) {
      InFlightMeaning(d0, e, name, tx);
    }
  }

  /** The first journal starts a deletion. */
  lemma StartInFlight(d: Disk, name: Name, tx: Tx)
    requires tx !in d.journals && tx !in d.tombs && name in d.drafts
    ensures InFlight(d, Marked(d, tx, Prepared, name), name, tx)
    ensures NothingDone(d, Marked(d, tx, Prepared, name), name, tx)
  {
    assert Marked(d, tx, Prepared, name).journals - {tx} == d.journals && d.tombs - {tx} == d.tombs;
    if Clean(d, name) {
      InFlightMeaning(d, Marked(d, tx, Prepared, name), name, tx);
    }
  }

  /** From `cleanup` on the draft is gone. */
  lemma CleaningInFlight(d0: Disk, d: Disk, name: Name, tx: Tx)
    requires InFlight(d0, d, name, tx) && name !in d.drafts && tx in d.tombs
    ensures InFlight(d0, Marked(d, tx, Cleanup, name), name, tx)
    ensures Clean(d0, name) ==> DeletionStep(d0, Marked(d, tx, Cleanup, name), true, name)
  {
    var e := Marked(d, tx, Cleanup, name);
    assert e.journals - {tx} == d.journals - {tx};
    if Clean(d0, name) {
      InFlightMeaning(d0, e, name, tx);
    }
  }

  lemma SweepingInFlight(d0: Disk, d: Disk, name: Name, tx: Tx)
    requires InFlight(d0, d, name, tx) && d.journals[tx].state == Cleanup
    ensures
      var e := Closed(Unburied(d, tx), tx);
      && e.drafts == d0.drafts - {name} && e.journals == d0.journals && e.tombs == d0.tombs
    ensures Clean(d0, name) ==> DeletionStep(d0, d, true, name) && DeletionStep(d0, Unburied(d, tx), true, name)
    ensures Clean(d0, name) ==> DeletionStep(d0, Closed(Unburied(d, tx), tx), true, name)
  {
    var u := Unburied(d, tx);
    assert d.drafts == d.drafts - {name} && u.tombs - {tx} == d.tombs - {tx};
    if Clean(d0, name) {
      InFlightMeaning(d0, d, name, tx);
      InFlightMeaning(d0, u, name, tx);
      assert forall t, n, c :: Held(u, t, n, c) <==> Held(Closed(u, tx), t, n, c);
      SameBecauseHeldSame(u, Closed(u, tx));
    }
  }

  /** One directory of a deletion that began at `d0`. */
  ghost predicate DeletionStep(d0: Disk, d: Disk, committed: bool, name: Name) {
    Sound(d) && if committed then WithoutDraft(d0, d, name) else SameDrafts(d0, d)
  }

  // ------------------------------------------------------------------------------ the directory

  datatype Failure =
    | NotFound | Linked | JournalWrite | Rename | RenameFlush | CommitWrite
    | CleanupWrite | CleanupRead | CleanupFlush | Answering

  datatype Response = Ok(cleanupPending: bool) | Raised(failure: Failure)

  /** The answers that raise although the draft is gone: the `cleanup` journal took effect and could then
      not be read, or not be flushed again, or the answer could not be made up. */
  predicate RaisedTooLate(d: Disk, tx: Tx, r: Response) {
    r == Raised(CleanupFlush) || (r == Raised(CleanupRead) && SaysCleanup(d, tx)) || r == Raised(Answering)
  }

  class DraftsDirectory {
    var disk: Disk
    ghost var trace: seq<Disk>
    ghost var faults: nat

    ghost predicate Valid()
      reads this
    {
      trace != [] && trace[|trace| - 1] == disk
    }

    constructor (d: Disk)
      ensures Valid() && disk == d && trace == [d] && faults == 0
    {
      disk, trace, faults := d, [d], 0;
    }

    /** One atomic change of the directory; it may fail, and then changes nothing. */
    method Apply(next: Disk) returns (ok: bool)
      requires Valid()
      modifies this
      ensures Valid()
      ensures ok ==> disk == next && trace == old(trace) + [next] && faults == old(faults)
      ensures !ok ==> disk == old(disk) && trace == old(trace) && faults == old(faults) + 1
    {
      ok := *;
      if ok {
        disk := next;
        trace := trace + [next];
      } else {
        faults := faults + 1;
      }
    }

    /** A step that changes nothing visible and may fail: flushing the directory, or reading a journal. */
    method Flush() returns (ok: bool)
      modifies this`faults
      ensures ok ==> faults == old(faults)
      ensures !ok ==> faults == old(faults) + 1
    {
      ok := *;
      if !ok {
        faults := faults + 1;
      }
    }

    /** An atomic change followed by its flush: done, failed without effect, or failed after
        taking effect. */
    method Publish(next: Disk) returns (ok: bool)
      requires Valid()
      modifies this
      ensures Valid()
      ensures ok ==> disk == next && trace == old(trace) + [next] && faults == old(faults)
      ensures !ok ==> faults == old(faults) + 1
      ensures !ok ==> (disk == old(disk) && trace == old(trace)) || (disk == next && trace == old(trace) + [next])
    {
      ok := Apply(next);
      if ok {
        ok := Flush();
      }
    }

    /** The journals found by one listing of the directory, in some order. */
    method ListJournals() returns (order: seq<Tx>)
      ensures Listing(disk, order)
    {
      order := [];
      var left := disk.journals.Keys;
      while left != {}
        invariant left <= disk.journals.Keys
        invariant forall tx :: tx in order <==> tx in disk.journals && tx !in left
        invariant forall i, j :: 0 <= i < j < |order| ==> order[i] != order[j]
        decreases left
      {
        var tx :| tx in left;
        order := order + [tx];
        left := left - {tx};
      }
    }

    /** One iteration of the recovery loop: put the files right, then remove the journal. */
    method Settle(tx: Tx) returns (ok: bool)
      requires Valid() && tx in disk.journals
      modifies this
      ensures Valid() && old(trace) <= trace && faults >= old(faults)
      ensures forall k :: |old(trace)| <= k < |trace| ==> RecoveryStep(old(disk), trace[k])
      ensures ok ==> Settles(old(disk), tx) && faults == old(faults)
      ensures ok ==> disk == Closed(FilesSettled(old(disk), tx), tx)
      ensures !ok && Settles(old(disk), tx) ==> faults > old(faults)
    {
      ok := SettleFiles(tx);
      if ok {
        ClosingIsRecovery(old(disk), disk, tx);
        ok := Publish(Closed(disk, tx));
      }
    }

    method SettleFiles(tx: Tx) returns (ok: bool)
      requires Valid() && tx in disk.journals
      modifies this
      ensures Valid() && old(trace) <= trace && faults >= old(faults)
      ensures forall k :: |old(trace)| <= k < |trace| ==> RecoveryStep(old(disk), trace[k])
      ensures ok ==> Settles(old(disk), tx) && faults == old(faults)
      ensures disk.journals == old(disk).journals && (ok ==> disk == FilesSettled(old(disk), tx))
      ensures !ok && Settles(old(disk), tx) ==> faults > old(faults)
    {
      var j := disk.journals[tx];
      var here, kept := j.original in disk.drafts, tx in disk.tombs;
      ok := true;
      if j.state == Prepared || j.state == RollingBack {
        if kept && !here {
          ok := PutBack(tx);
        } else if kept && here {
          ok := DropTombstone(tx);
        } else if !here {
          return false;
        }
      } else if j.state == Committed {
        if here && kept {
          ok := DropTombstone(tx);
        } else if kept {
          ok := PutBack(tx);
        }
      } else {
        if here {
          return false;
        }
        if kept {
          ok := DropTombstone(tx);
        }
      }
    }

    method PutBack(tx: Tx) returns (ok: bool)
      requires Valid() && tx in disk.journals && tx in disk.tombs
      requires disk.journals[tx].state != Cleanup && disk.journals[tx].original !in disk.drafts
      modifies this
      ensures Valid() && old(trace) <= trace && faults >= old(faults)
      ensures forall k :: |old(trace)| <= k < |trace| ==> RecoveryStep(old(disk), trace[k])
      ensures disk == Restored(old(disk), tx) || disk == old(disk)
      ensures ok ==> disk == Restored(old(disk), tx) && faults == old(faults)
      ensures !ok ==> faults > old(faults)
    {
      PuttingBackIsRecovery(disk, tx);
      ok := Publish(Restored(disk, tx));
    }

    method DropTombstone(tx: Tx) returns (ok: bool)
      requires Valid() && tx in disk.journals && tx in disk.tombs
      requires disk.journals[tx].state == Cleanup <==> disk.journals[tx].original !in disk.drafts
      modifies this
      ensures Valid() && old(trace) <= trace && faults >= old(faults)
      ensures forall k :: |old(trace)| <= k < |trace| ==> RecoveryStep(old(disk), trace[k])
      ensures disk == Unburied(old(disk), tx) || disk == old(disk)
      ensures ok ==> disk == Unburied(old(disk), tx) && faults == old(faults)
      ensures !ok ==> faults > old(faults)
    {
      DroppingIsRecovery(disk, tx);
      ok := Publish(Unburied(disk, tx));
    }

    /** `recover_interrupted_activity_deletions`. From a sound directory every directory it passes through
        is sound and stands for the same drafts, so starting it again from any of them gives the same
        result. With one transaction per draft it raises exactly on an unrecoverable directory or a
        failed primitive. */
    method Recover() returns (ok: bool)
      requires Valid()
      modifies this
      ensures Valid() && old(trace) <= trace && faults >= old(faults)
      ensures forall k :: |old(trace)| <= k < |trace| ==> RecoveryStep(old(disk), trace[k])
      ensures ok ==> disk.journals == map[] && disk.tombs == map[] && faults == old(faults)
      ensures ok && Sound(old(disk)) ==> PutRight(old(disk), disk)
      ensures OnePerOriginal(old(disk)) && ok ==> Recoverable(old(disk))
      ensures OnePerOriginal(old(disk)) && Recoverable(old(disk)) && !ok ==> faults > old(faults)
    {
      var order := ListJournals();
      ghost var d0 := disk;
      ok := SettleAll(order);
      if ok {
        AllSettled(d0, disk, order);
        ok := disk.tombs == map[];
        assert forall tx :: tx in d0.tombs && tx !in d0.journals ==> tx in disk.tombs;
      }
    }

    /** Its loop. */
    method SettleAll(order: seq<Tx>) returns (ok: bool)
      requires Valid() && Listing(disk, order)
      modifies this
      ensures Valid() && old(trace) <= trace && faults >= old(faults)
      ensures forall k :: |old(trace)| <= k < |trace| ==> RecoveryStep(old(disk), trace[k])
      ensures ok ==> Midway(old(disk), disk, order, |order|) && RecoveryStep(old(disk), disk) && faults == old(faults)
      ensures OnePerOriginal(old(disk)) && !ok && faults == old(faults) ==>
        exists tx :: tx in old(disk).journals && !Settles(old(disk), tx)
    {
      ghost var d0 := disk;
      for i := 0 to |order|
        invariant Valid() && old(trace) <= trace && faults == old(faults)
        invariant RecoveryStep(d0, disk) && forall k :: |old(trace)| <= k < |trace| ==> RecoveryStep(d0, trace[k])
        invariant Midway(d0, disk, order, i)
      {
        ok := SettleNext(d0, order, i);
        if !ok {
          return;
        }
      }
      ok := true;
    }

    /** The body of that loop. */
    method SettleNext(ghost d0: Disk, order: seq<Tx>, i: nat) returns (ok: bool)
      requires Valid() && i < |order| && Listing(d0, order) && RecoveryStep(d0, disk) && Midway(d0, disk, order, i)
      modifies this
      ensures Valid() && old(trace) <= trace && faults >= old(faults) && RecoveryStep(d0, disk)
      ensures forall k :: |old(trace)| <= k < |trace| ==> RecoveryStep(d0, trace[k])
      ensures ok ==> Midway(d0, disk, order, i + 1) && faults == old(faults)
      ensures OnePerOriginal(d0) && !ok && faults == old(faults) ==> order[i] in d0.journals && !Settles(d0, order[i])
    {
      ghost var before := disk;
      NotYetSettled(d0, disk, order, i);
      ok := Settle(order[i]);
      forall e | RecoveryStep(before, e)
        ensures RecoveryStep(d0, e)
      {
        RecoveryGoesOn(d0, before, e);
      }
      if ok {
        MidwayStep(d0, before, order, i);
      }
    }

    /** `delete_activity_record`, with a fresh `tx`. `listable` says that the activities that remain can be
        listed for the answer, for which the registry of imported activities must be well formed. `commit`
        is the first position of the trace at which the journal says `cleanup`, `|trace|` if none. */
    method Delete(name: Name, tx: Tx, linked: bool, listable: bool) returns (r: Response, ghost commit: nat)
      requires Valid() && tx !in disk.journals && tx !in disk.tombs
      modifies this
      ensures Valid() && old(trace) <= trace && |old(trace)| <= commit <= |trace|
      ensures Clean(old(disk), name) ==> DeletionStep(old(disk), disk, commit < |trace|, name)
      ensures Clean(old(disk), name) ==>
        forall k :: |old(trace)| <= k < |trace| ==> DeletionStep(old(disk), trace[k], k >= commit, name)
      ensures commit < |trace| ==> SaysCleanup(trace[commit], tx)
      ensures forall k :: |old(trace)| <= k < commit ==> !SaysCleanup(trace[k], tx)
      ensures r.Ok? ==> commit < |trace| && listable
      ensures r == Ok(false) ==> disk == old(disk).(drafts := old(disk).drafts - {name})
      ensures faults == old(faults) && name in old(disk).drafts && !linked ==>
        r == (if listable then Ok(false) else Raised(Answering)) &&
          disk == old(disk).(drafts := old(disk).drafts - {name})
      ensures r.Raised? && commit < |trace| <==> RaisedTooLate(disk, tx, r)
      ensures r.Raised? && commit < |trace| && r.failure != Answering ==> faults >= old(faults) + 2
      ensures r == Raised(Answering) ==> !listable || faults > old(faults)
      ensures r == Raised(NotFound) <==> name !in old(disk).drafts
      ensures r == Raised(Linked) <==> name in old(disk).drafts && linked
      ensures r.Raised? && r.failure in {NotFound, Linked} ==> disk == old(disk) && trace == old(trace)
      ensures r.Raised? && r.failure in {RenameFlush, CommitWrite, CleanupWrite} && faults == old(faults) + 1 ==>
        Clean(old(disk), name) ==> PutRight(old(disk), disk)
      ensures r == Raised(JournalWrite) ==> disk == old(disk) || disk == Marked(old(disk), tx, Prepared, name)
      ensures r == Raised(Rename) ==> disk == Marked(old(disk), tx, Prepared, name)
    {
      ghost var d0 := disk;
      if name !in disk.drafts {
        return Raised(NotFound), |trace|;
      }
      if linked {
        return Raised(Linked), |trace|;
      }
      var failure := Begin(name, tx);
      if failure.Some? {
        return Raised(failure.value), |trace|;
      }
      r, commit := Finish(d0, name, tx, listable);
    }

    /** From the `cleanup` journal to the answer. */
    method Finish(ghost d0: Disk, name: Name, tx: Tx, listable: bool) returns (r: Response, ghost commit: nat)
      requires Valid() && InFlight(d0, disk, name, tx) && name !in disk.drafts && tx in disk.tombs
      requires disk.journals[tx].state == Committed
      modifies this
      ensures Valid() && old(trace) <= trace && |old(trace)| <= commit <= |trace|
      ensures Clean(d0, name) ==> DeletionStep(d0, disk, commit < |trace|, name)
      ensures Clean(d0, name) ==>
        forall k :: |old(trace)| <= k < |trace| ==> DeletionStep(d0, trace[k], k >= commit, name)
      ensures commit < |trace| ==> SaysCleanup(trace[commit], tx)
      ensures forall k :: |old(trace)| <= k < commit ==> !SaysCleanup(trace[k], tx)
      ensures r.Ok? ==> commit < |trace| && listable
      ensures r == Ok(false) ==> disk == d0.(drafts := d0.drafts - {name})
      ensures faults == old(faults) ==>
        r == (if listable then Ok(false) else Raised(Answering)) && disk == d0.(drafts := d0.drafts - {name})
      ensures r.Raised? ==> r.failure in {CleanupRead, CleanupWrite, CleanupFlush, Answering}
      ensures r.Raised? && commit < |trace| <==> RaisedTooLate(disk, tx, r)
      ensures r.Raised? && commit < |trace| && r.failure != Answering ==> faults >= old(faults) + 2
      ensures r == Raised(CleanupWrite) && faults == old(faults) + 1 && Clean(d0, name) ==> PutRight(d0, disk)
      ensures r == Raised(Answering) ==> !listable || faults > old(faults)
    {
      var failure;
      failure, commit := Announce(d0, name, tx);
      if failure.Some? {
        return Raised(failure.value), commit;
      }
      CleaningInFlight(d0, old(disk), name, tx);
      var swept := Sweep(d0, name, tx);
      var ok := Flush();
      r := if ok && listable then Ok(!swept) else Raised(Answering);
    }

    /** Write the `cleanup` journal; if that fails, look whether it took effect all the same. */
    method Announce(ghost d0: Disk, name: Name, tx: Tx) returns (failure: Option<Failure>, ghost commit: nat)
      requires Valid() && InFlight(d0, disk, name, tx) && name !in disk.drafts && tx in disk.tombs
      requires disk.journals[tx].state == Committed
      modifies this
      ensures Valid() && old(trace) <= trace && |old(trace)| <= commit <= |trace|
      ensures Clean(d0, name) ==> DeletionStep(d0, disk, commit < |trace|, name)
      ensures Clean(d0, name) ==>
        forall k :: |old(trace)| <= k < |trace| ==> DeletionStep(d0, trace[k], k >= commit, name)
      ensures commit < |trace| ==> SaysCleanup(trace[commit], tx)
      ensures forall k :: |old(trace)| <= k < commit ==> !SaysCleanup(trace[k], tx)
      ensures failure.None? ==> commit < |trace| && disk == Marked(old(disk), tx, Cleanup, name)
      ensures failure.Some? ==> failure.value in {CleanupRead, CleanupWrite, CleanupFlush} && faults > old(faults)
      ensures failure.Some? ==> (commit < |trace| <==> RaisedTooLate(disk, tx, Raised(failure.value)))
      ensures failure.Some? && commit < |trace| ==> faults >= old(faults) + 2
      ensures faults >= old(faults)
      ensures failure == Some(CleanupWrite) && faults == old(faults) + 1 && Clean(d0, name) ==> PutRight(d0, disk)
    {
      CleaningInFlight(d0, disk, name, tx);
      if Clean(d0, name) {
        InFlightMeaning(d0, disk, name, tx);
      }
      commit := |trace|;
      var ok := Publish(Marked(disk, tx, Cleanup, name));
      if ok {
        return None, commit;
      }
      ok := Flush();
      if !ok {
        return Some(CleanupRead), commit;
      }
      if disk.journals[tx].state != Cleanup {
        ghost var d := disk;
        ok := Recover();
        if Clean(d0, name) && ok {
          PutRightLater(d0, d, disk);
        }
        return Some(CleanupWrite), |trace|;
      }
      ok := Flush();
      return if ok then None else Some(CleanupFlush), commit;
    }

    /** From the first journal to the `committed` one. Until then nothing happened. */
    method Begin(name: Name, tx: Tx) returns (failure: Option<Failure>)
      requires Valid() && tx !in disk.journals && tx !in disk.tombs && name in disk.drafts
      modifies this
      ensures Valid() && old(trace) <= trace
      ensures forall k :: |old(trace)| <= k < |trace| ==> NothingDone(old(disk), trace[k], name, tx)
      ensures failure.None? ==> InFlight(old(disk), disk, name, tx) && disk.journals[tx].state == Committed
      ensures failure.None? ==> name !in disk.drafts && tx in disk.tombs
      ensures failure.None? ==> faults == old(faults)
      ensures failure.Some? ==>
        faults > old(faults) && failure.value in {JournalWrite, Rename, RenameFlush, CommitWrite}
      ensures failure.Some? && failure.value in {RenameFlush, CommitWrite} && faults == old(faults) + 1 ==>
        Clean(old(disk), name) ==> PutRight(old(disk), disk)
      ensures failure == Some(JournalWrite) ==> disk == old(disk) || disk == Marked(old(disk), tx, Prepared, name)
      ensures failure == Some(Rename) ==> disk == Marked(old(disk), tx, Prepared, name)
    {
      ghost var d0 := disk;
      StartInFlight(d0, name, tx);
      var ok := Publish(Marked(disk, tx, Prepared, name));
      if !ok {
        return Some(JournalWrite);
      }
      BuryingInFlight(d0, disk, name, tx);
      ok := Apply(Buried(disk, tx, name));
      if !ok {
        return Some(Rename);
      }
      ok := Flush();
      if !ok {
        RecoveryDoesNothing(d0, disk, name, tx);
        ghost var d := disk;
        ok := Recover();
        if Clean(d0, name) && ok {
          PutRightLater(d0, d, disk);
        }
        return Some(RenameFlush);
      }
      MarkingInFlight(d0, disk, name, tx, Committed);
      ok := Publish(Marked(disk, tx, Committed, name));
      if !ok {
        ghost var marked := Undo(d0, name, tx);
        return Some(CommitWrite);
      }
      return None;
    }

    /** The handler of a failed `committed` write; `marked` says whether its `rolling_back` journal was
        written and flushed. It brings the draft back at once, also where only that journal failed. */
    method Undo(ghost d0: Disk, name: Name, tx: Tx) returns (ghost marked: bool)
      requires Valid() && InFlight(d0, disk, name, tx)
      requires disk.journals[tx].state != Cleanup && name !in disk.drafts && tx in disk.tombs
      modifies this
      ensures Valid() && old(trace) <= trace && faults >= old(faults)
      ensures marked ==> Clean(d0, name) && faults == old(faults) ==> PutRight(d0, disk)
      ensures !marked ==> faults > old(faults)
      ensures !marked && faults == old(faults) + 1 ==> name in disk.drafts && disk.drafts[name] == d0.drafts[name]
      ensures forall k :: |old(trace)| <= k < |trace| ==> NothingDone(d0, trace[k], name, tx)
    {
      MarkingInFlight(d0, disk, name, tx, RollingBack);
      var ok := Publish(Marked(disk, tx, RollingBack, name));
      marked := ok;
      RestoringInFlight(d0, disk, name, tx);
      if !ok {
        ok := Publish(Copied(disk, tx));
        return;
      }
      RecoveryDoesNothing(d0, Restored(disk, tx), name, tx);
      ok := Publish(Restored(disk, tx));
      if ok {
        ghost var d := disk;
        ok := Recover();
        if Clean(d0, name) && ok {
          PutRightLater(d0, d, disk);
        }
      }
    }

    /** After the commit point: remove the tombstone and then the journal; neither is needed. */
    method Sweep(ghost d0: Disk, name: Name, tx: Tx) returns (ok: bool)
      requires Valid() && InFlight(d0, disk, name, tx)
      requires disk.journals[tx].state == Cleanup && tx in disk.tombs
      modifies this
      ensures Valid() && old(trace) <= trace
      ensures Clean(d0, name) ==> DeletionStep(d0, disk, true, name)
      ensures Clean(d0, name) ==> forall k :: |old(trace)| <= k < |trace| ==> DeletionStep(d0, trace[k], true, name)
      ensures ok ==> disk == d0.(drafts := d0.drafts - {name})
      ensures if ok then faults == old(faults) else faults > old(faults)
    {
      SweepingInFlight(d0, disk, name, tx);
      ok := Publish(Unburied(disk, tx));
      if ok {
        ok := Publish(Closed(disk, tx));
      }
    }
  }
}
