/** What the files of one assignment stand for while its deletion is journaled
    (scripts/course_board_server.py).

    A directory of help logs is a map from relative paths to contents; logs are numbered as in the
    journal, and log `i` is quarantined as `staged[i]` and copied as `backup[i]`. */
module AssignmentDisk {

  import opened Options

  type Record(==, !new)
  type File(==, !new)
  type Bytes(==, !new, 0)
  type Tree = map<File, Bytes>

  datatype State = Staging | Prepared | RollingBack | Restored | Committed

  /** `copies[i]` says that item `i` of the journal names a rollback copy. */
  datatype Journal = Journal(state: State, copies: seq<bool>, assignment: Option<Record>)

  datatype Disk = Disk(
    record: Option<Record>,
    logs: seq<Option<Tree>>,
    staged: seq<Option<Tree>>,
    backup: seq<Option<Tree>>,
    journal: Option<Journal>)

  /** The part of the disk that outlives a transaction. */
  datatype View = View(record: Option<Record>, logs: seq<Option<Tree>>)

  ghost predicate WellFormed(d: Disk) {
    && |d.staged| == |d.logs| && |d.backup| == |d.logs|
    && (d.journal.Some? ==> |d.journal.value.copies| == |d.logs|)
  }

  ghost predicate QuarantineEmpty(d: Disk)
    requires WellFormed(d)
  {
    forall i :: 0 <= i < |d.logs| ==> d.staged[i] == None && d.backup[i] == None
  }

  /** Every backup that a `rolling_back` journal names is there, with the record to restore. */
  ghost predicate CanRollBack(d: Disk)
    requires WellFormed(d) && d.journal.Some?
  {
    && d.journal.value.assignment.Some?
    && forall i :: 0 <= i < |d.logs| ==> d.journal.value.copies[i] ==> d.backup[i].Some?
  }

  /** The directories from which recovery does not raise. */
  ghost predicate Recoverable(d: Disk)
    requires WellFormed(d)
  {
    match d.journal
    case None => QuarantineEmpty(d)
    case Some(j) => j.state == RollingBack ==> CanRollBack(d)
  }

  /** A directory overlaid by another one, as `copytree` with `dirs_exist_ok` does. */
  function Merged(under: Option<Tree>, over: Option<Tree>): Option<Tree> {
    if under.None? then over else if over.None? then under else Some(under.value + over.value)
  }

  /** The journal still promises to move the staged logs back. */
  predicate Returning(d: Disk) {
    d.journal.Some? && d.journal.value.state in {Staging, Prepared} && d.record.Some?
  }

  predicate RollingBackNow(d: Disk) {
    d.journal.Some? && d.journal.value.state == RollingBack
  }

  /** The record after a completed recovery. */
  function RecoveredRecord(d: Disk): Option<Record> {
    if RollingBackNow(d) then d.journal.value.assignment else d.record
  }

  /** Log `i` after a completed recovery. */
  function RecoveredLog(d: Disk, i: nat): Option<Tree>
    requires WellFormed(d) && i < |d.logs|
  {
    if RollingBackNow(d) && d.journal.value.copies[i] then d.backup[i]
    else if Returning(d) then Merged(d.logs[i], d.staged[i])
    else d.logs[i]
  }

  /** Recovery gets through on `d`, and makes `v` of it. */
  ghost predicate Means(d: Disk, v: View) {
    && WellFormed(d) && Recoverable(d) && |v.logs| == |d.logs|
    && RecoveredRecord(d) == v.record
    && forall i :: 0 <= i < |d.logs| ==> RecoveredLog(d, i) == v.logs[i]
  }

  /** `d` holds `v` and nothing else. */
  ghost predicate Settled(d: Disk, v: View) {
    && WellFormed(d) && d.journal == None && QuarantineEmpty(d)
    && d.record == v.record && d.logs == v.logs
  }

  ghost predicate IsGone(v: View) {
    v.record == None && forall i :: 0 <= i < |v.logs| ==> v.logs[i] == None
  }

  // ------------------------------------------------------------------------------ changing trees

  datatype Slot = Log | Staged | Backup

  function Get(d: Disk, s: Slot, i: nat): Option<Tree>
    requires WellFormed(d) && i < |d.logs|
  {
    match s
    case Log => d.logs[i]
    case Staged => d.staged[i]
    case Backup => d.backup[i]
  }

  function Put(d: Disk, s: Slot, i: nat, t: Option<Tree>): (e: Disk)
    requires WellFormed(d) && i < |d.logs|
    ensures WellFormed(e) && |e.logs| == |d.logs| && e.record == d.record && e.journal == d.journal
  {
    match s
    case Log => d.(logs := d.logs[i := t])
    case Staged => d.(staged := d.staged[i := t])
    case Backup => d.(backup := d.backup[i := t])
  }

  /** `e` is `d` with at most slot `i` of kind `s` changed. */
  ghost predicate OnlySlot(d: Disk, e: Disk, s: Slot, i: nat) {
    && WellFormed(d) && WellFormed(e) && i < |d.logs| && |e.logs| == |d.logs|
    && e == Put(d, s, i, Get(e, s, i))
  }

  /** `e` is `d` with `files` being written into slot `i` of kind `s`. */
  ghost predicate Writing(d: Disk, e: Disk, s: Slot, i: nat, files: Tree) {
    OnlySlot(d, e, s, i) && Merged(Get(e, s, i), Some(files)) == Merged(Get(d, s, i), Some(files))
  }

  /** Writing one file of `files`, with the right content or with any other one. */
  lemma WritingOneFile(d0: Disk, d: Disk, s: Slot, i: nat, files: Tree, f: File, b: Bytes)
    requires Writing(d0, d, s, i, files) && Get(d, s, i).Some? && f in files
    ensures Writing(d0, Put(d, s, i, Some(Get(d, s, i).value[f := b])), s, i, files)
  {
    var now := Get(d, s, i).value;
    assert now[f := b] + files == now + files;
  }

  ghost predicate Shrunk(small: Option<Tree>, big: Option<Tree>) {
    small.None? || (big.Some? && forall f :: f in small.value ==> f in big.value && small.value[f] == big.value[f])
  }

  /** `e` is `d` with files of slot `i` removed, or the whole directory. */
  ghost predicate Removing(d: Disk, e: Disk, s: Slot, i: nat) {
    OnlySlot(d, e, s, i) && Shrunk(Get(e, s, i), Get(d, s, i)) && Get(e, s, i) != Get(d, s, i)
  }

  /** `e` is `d` with some of its quarantine removed. */
  ghost predicate PurgeStep(d: Disk, e: Disk) {
    && WellFormed(d) && WellFormed(e) && e.record == d.record && e.logs == d.logs
    && (e.journal == d.journal || (e.journal == None && QuarantineEmpty(e)))
    && forall i :: 0 <= i < |d.logs| ==> Shrunk(e.staged[i], d.staged[i]) && Shrunk(e.backup[i], d.backup[i])
  }

  lemma RemovingPurges(d0: Disk, d: Disk, e: Disk, s: Slot, i: nat)
    requires PurgeStep(d0, d) && d.journal == d0.journal && s != Log
    requires OnlySlot(d, e, s, i) && Shrunk(Get(e, s, i), Get(d, s, i))
    ensures PurgeStep(d0, e)
  {
  }

  ghost predicate Holds(d: Disk, watched: nat) {
    watched < |d.staged| && d.staged[watched].Some?
  }

  /** Staged log `watched` of `e` is as it was in `d`. */
  ghost predicate StillWhole(d: Disk, e: Disk, watched: nat) {
    Holds(d, watched) ==> |e.staged| == |d.staged| && e.staged[watched] == d.staged[watched]
  }

  lemma ShrinkingStays(small: Option<Tree>, middle: Option<Tree>, big: Option<Tree>)
    requires Shrunk(small, middle) && Shrunk(middle, big)
    ensures small == big ==> small == middle
  {
    if small == big && small.Some? {
      assert forall f :: f in middle.value <==> f in small.value;
      assert middle.value == small.value;
    }
  }

  /** Removals leave a log whole, unless they are its own; and none makes it whole again. */
  lemma RemovingOneLog(d0: Disk, d: Disk, e: Disk, s: Slot, i: nat, watched: nat)
    requires PurgeStep(d0, d) && s != Log && Removing(d, e, s, i)
    ensures Holds(d0, watched) ==>
      (StillWhole(d0, e, watched) <==> StillWhole(d0, d, watched) && !(s == Staged && i == watched))
  {
    if Holds(d0, watched) && s == Staged && i == watched {
      ShrinkingStays(e.staged[i], d.staged[i], d0.staged[i]);
    }
  }

  /** Nothing in the quarantine of `d` is needed any more. */
  ghost predicate Purgeable(d: Disk) {
    && WellFormed(d) && !RollingBackNow(d)
    && (Returning(d) ==> forall i :: 0 <= i < |d.logs| ==> d.staged[i] == None)
  }

  lemma PurgeKeepsMeaning(d: Disk, e: Disk, v: View)
    requires Means(d, v) && Purgeable(d) && d.journal.Some? && PurgeStep(d, e)
    ensures Means(e, v)
  {
  }

  /** A log may take any shape while a rollback copy of it is promised. */
  lemma CopiedLogIsFree(d: Disk, e: Disk, i: nat, v: View)
    requires Means(d, v) && RollingBackNow(d) && OnlySlot(d, e, Log, i) && d.journal.value.copies[i]
    ensures Means(e, v)
  {
  }

  /** Copies do not count before `rolling_back`. */
  lemma BackupIsFree(d: Disk, e: Disk, i: nat, v: View)
    requires Means(d, v) && d.journal.Some? && !RollingBackNow(d) && OnlySlot(d, e, Backup, i)
    ensures Means(e, v)
  {
  }

  /** While the staged logs are to be moved back, only their overlay on the originals counts. */
  lemma OverlayCounts(d: Disk, e: Disk, i: nat, v: View)
    requires Means(d, v) && Returning(d) && WellFormed(e) && i < |d.logs| && |e.logs| == |d.logs|
    requires e.record == d.record && e.journal == d.journal && e.backup == d.backup
    requires forall k :: 0 <= k < |d.logs| && k != i ==> e.logs[k] == d.logs[k] && e.staged[k] == d.staged[k]
    requires Merged(e.logs[i], e.staged[i]) == Merged(d.logs[i], d.staged[i])
    ensures Means(e, v)
  {
  }

  /** Once the overlay is complete, the staged copy may go, file by file. */
  lemma ShrunkOverlay(d: Disk, e: Disk, i: nat, v: View)
    requires Means(d, v) && Returning(d) && OnlySlot(d, e, Staged, i) && Shrunk(e.staged[i], d.staged[i])
    requires d.logs[i].Some? && d.logs[i] == Merged(d.logs[i], d.staged[i])
    ensures Means(e, v)
  {
    if e.staged[i].Some? {
      assert d.logs[i].value + e.staged[i].value == d.logs[i].value;
    }
    OverlayCounts(d, e, i, v);
  }

  function MovedOut(d: Disk, i: nat): (e: Disk)
    requires WellFormed(d) && i < |d.logs|
    ensures WellFormed(e)
  {
    d.(logs := d.logs[i := None], staged := d.staged[i := d.logs[i]])
  }

  function MovedBack(d: Disk, i: nat): (e: Disk)
    requires WellFormed(d) && i < |d.logs|
    ensures WellFormed(e)
  {
    d.(logs := d.logs[i := d.staged[i]], staged := d.staged[i := None])
  }

  // ------------------------------------------------------------------------- a deletion under way

  /** The assignment and every one of its logs deleted. */
  function Gone(v: View): (g: View)
    ensures IsGone(g) && |g.logs| == |v.logs|
  {
    View(None, seq(|v.logs|, i => None))
  }

  /** `w` is `v` with files of log `lost` missing, or the whole directory. */
  ghost predicate Damaged(v: View, lost: nat, w: View) {
    && v.record.Some? && w.record == v.record && |w.logs| == |v.logs| && lost < |v.logs| && v.logs[lost].Some?
    && Shrunk(w.logs[lost], v.logs[lost]) && w.logs[lost] != v.logs[lost]
    && w.logs == v.logs[lost := w.logs[lost]]
  }

  /** `d` recovers to `v` with log `lost` damaged. */
  ghost predicate MeansBut(d: Disk, v: View, lost: nat) {
    WellFormed(d) && lost < |d.logs| == |v.logs| &&
    var w := v.(logs := v.logs[lost := RecoveredLog(d, lost)]);
    Means(d, w) && Damaged(v, lost, w)
  }

  /** The logs in `moved` are quarantined, the others are where they were. */
  ghost predicate MovedAway(d: Disk, v: View, moved: set<nat>) {
    && WellFormed(d) && |v.logs| == |d.logs|
    && (forall i :: i in moved ==> i < |d.logs| && v.logs[i].Some?)
    && forall i :: 0 <= i < |d.logs| ==>
      if i in moved then d.logs[i] == None && d.staged[i] == v.logs[i]
      else d.logs[i] == v.logs[i] && d.staged[i] == None
  }

  ghost predicate Undecided(d: Disk, v: View) {
    Returning(d) && d.record == v.record
  }

  lemma MovedAwayMeans(d: Disk, v: View, moved: set<nat>)
    requires MovedAway(d, v, moved) && Undecided(d, v)
    ensures Means(d, v)
  {
  }

  /** Every log that existed is in `moved`, with an intact copy that the journal names. */
  ghost predicate Copied(d: Disk, v: View, moved: set<nat>) {
    && WellFormed(d) && |v.logs| == |d.logs| && d.journal.Some? && v.record.Some?
    && d.journal.value.assignment == v.record
    && forall i :: 0 <= i < |d.logs| ==>
      && (d.journal.value.copies[i] <==> i in moved) && (i in moved <==> v.logs[i].Some?)
      && (i in moved ==> d.backup[i] == v.logs[i])
  }

  ghost predicate NoLogs(d: Disk) {
    forall i :: 0 <= i < |d.logs| ==> d.logs[i] == None
  }

  /** From `prepared` to the end: without its record the assignment is gone. */
  lemma RecordDecides(d: Disk, v: View, moved: set<nat>)
    requires Copied(d, v, moved) && NoLogs(d) && d.record == None
    requires d.journal.value.state in {Prepared, Committed}
    ensures Means(d, Gone(v))
  {
  }

  /** ... and the rolling_back marker alone brings it back. */
  lemma MarkerDecides(d: Disk, v: View, moved: set<nat>)
    requires Copied(d, v, moved) && NoLogs(d) && d.journal.value.state == RollingBack
    ensures Means(d, v)
  {
  }

  /** Purging a quarantine that still holds log `lost` damages that log and nothing else, from the first
      of its files that goes. */
  lemma PurgeLoses(d: Disk, e: Disk, v: View, lost: nat)
    requires MovedAway(d, v, {lost}) && Undecided(d, v) && v.record.Some? && PurgeStep(d, e)
    ensures if e.staged[lost] == d.staged[lost] then Means(e, v) else MeansBut(e, v, lost)
  {
    assert lost in {lost};
    if e.staged[lost] != d.staged[lost] {
      var w := v.(logs := v.logs[lost := RecoveredLog(e, lost)]);
      assert forall i :: 0 <= i < |e.logs| ==> RecoveredLog(e, i) == w.logs[i];
    }
  }
}
