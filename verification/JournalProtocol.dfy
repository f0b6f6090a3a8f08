/**
 The write protocol as a state machine: several clients, one lock, one directory, a crash at any step.

 A write acquires the lock, scans, decides, writes a temporary file, renames it over the record, scans again,
 deletes everything past its limit from the cut towards the oldest, and releases. The machine also keeps what no
 client sees: the log of every admission ever committed, how many of its newest entries are all still there, where
 the retained part starts, whether that part may have a gap, and whether a commit's retention was ever cut short or
 skipped.
 */
module JournalProtocol {
  import opened Bytes
  import opened SessionRecord
  import opened JournalStore
  import opened JournalDecision

  type Client = nat

  datatype Phase =
    | Waiting(request: Record, limit: nat)
    | Scanning(request: Record, limit: nat)
    | Writing(record: Record, limit: nat, written: nat)
    | Verifying(limit: nat)
    | Deleting(victims: seq<Text>, limit: nat, kept: seq<Record>)
    | Finished

  datatype World = World(
    dir: Directory,
    lock: Option<Client>,
    phases: map<Client, Phase>,
    log: seq<Record>,
    intact: nat,
    from: nat,
    gapped: bool,
    interrupted: bool,
    skipped: bool)

  datatype Action =
    | Submit(client: Client, request: Record, limit: nat)
    | Acquire(client: Client)
    | Choose(client: Client, names: seq<Text>)
    | WriteTemp(client: Client, written: nat)
    | Rename(client: Client)
    | Rescan(client: Client, names: seq<Text>)
    | Delete(client: Client)
    | Fail(client: Client, cleaned: bool)
    | Release(client: Client)
    | Crash(client: Client)

  predicate HoldsLock(p: Phase) { !p.Waiting? }

  // ----- steps -----

  /** What ulk_session_journal_write_v1 hands to the locked part: a converted record and an effective limit. */
  predicate IsRequest(request: Record, limit: nat) {
    Fits(request) && request.sessionId != [] && request.commitOrder == 0 && 1 <= limit <= MAX_RECORDS
  }

  function Victims(s: seq<Record>, limit: nat): (names: seq<Text>)
    ensures |names| == if |s| > limit then |s| - limit else 0
    ensures forall i :: 0 <= i < |names| ==> names[i] == TargetName(s[limit + i].sessionId)
  {
    if |s| <= limit then [] else seq(|s| - limit, i requires 0 <= i < |s| - limit => TargetName(s[limit + i].sessionId))
  }

  /** The victims in deletion order, and the records in front of the cut. */
  function StartOfRetention(s: seq<Record>, limit: nat): Phase {
    Deleting(Victims(s, limit), limit, if |s| <= limit then s else s[..limit])
  }

  function TempOf(r: Record): Text { TempName(TargetName(r.sessionId)) }

  /** A committed order replaces the entry that has it, or admits a new entry. */
  function Admit(log: seq<Record>, r: Record): (admitted: seq<Record>)
    ensures |admitted| >= |log|
  {
    if exists i :: 0 <= i < |log| && log[i].commitOrder == r.commitOrder then
      seq(|log|, i requires 0 <= i < |log| => if log[i].commitOrder == r.commitOrder then r else log[i])
    else log + [r]
  }

  ghost predicate Enabled(f: Format, w: World, a: Action) {
    match a
    case Submit(c, request, limit) => c !in w.phases && IsRequest(request, limit)
    case Acquire(c) => c in w.phases && w.phases[c].Waiting? && w.lock.None?
    case Choose(c, names) =>
      c in w.phases && w.phases[c].Scanning? && Enumerates(names, w.dir) && Scan(f, w.dir, names).Loaded?
    case WriteTemp(c, n) =>
      c in w.phases && w.phases[c].Writing? && w.phases[c].written <= n <= |f.emit(w.phases[c].record)|
    case Rename(c) =>
      && c in w.phases && w.phases[c].Writing?
      && w.phases[c].written == |f.emit(w.phases[c].record)| && TempOf(w.phases[c].record) in w.dir
    case Rescan(c, names) =>
      c in w.phases && w.phases[c].Verifying? && Enumerates(names, w.dir) && Scan(f, w.dir, names).Loaded?
    case Delete(c) => c in w.phases && w.phases[c].Deleting? && w.phases[c].victims != []
    case Fail(c, cleaned) =>
      c in w.phases && HoldsLock(w.phases[c]) && !w.phases[c].Finished? &&
      (w.phases[c].Deleting? ==> w.phases[c].victims != [])
    case Release(c) => c in w.phases && (w.phases[c].Finished? || (w.phases[c].Deleting? && w.phases[c].victims == []))
    case Crash(c) => c in w.phases
  }

  function Chosen(f: Format, w: World, c: Client, names: seq<Text>): World
    requires Enabled(f, w, Choose(c, names))
  {
    var p := w.phases[c];
    match Decide(Scan(f, w.dir, names).records, p.request)
    case Commit(r) => w.(dir := w.dir[TempOf(r) := []], phases := w.phases[c := Writing(r, p.limit, 0)])
    case _ => w.(phases := w.phases[c := Finished])
  }

  function Committed(f: Format, w: World, c: Client): World
    requires Enabled(f, w, Rename(c))
  {
    var r := w.phases[c].record;
    w.(dir := (w.dir - {TempOf(r)})[TargetName(r.sessionId) := w.dir[TempOf(r)]],
       phases := w.phases[c := Verifying(w.phases[c].limit)],
       log := Admit(w.log, r),
       intact := w.intact + |Admit(w.log, r)| - |w.log|)
  }

  /** A pass that finds nothing to delete closes a gap if the intact entries are all there is. */
  function Rescanned(f: Format, w: World, c: Client, names: seq<Text>): World
    requires Enabled(f, w, Rescan(c, names))
  {
    var s, limit := Scan(f, w.dir, names).records, w.phases[c].limit;
    var closes := w.gapped && |s| <= limit && (limit <= w.intact || w.intact == |w.log|) && w.intact <= |w.log|;
    w.(phases := w.phases[c := StartOfRetention(s, limit)],
       from := if closes then |w.log| - w.intact else w.from,
       gapped := w.gapped && !closes)
  }

  /** The last deletion of a pass closes a gap if the limit is within the intact entries, or every entry is intact. */
  function Deleted(w: World, c: Client): World
    requires c in w.phases && w.phases[c].Deleting? && w.phases[c].victims != []
  {
    var p := w.phases[c];
    var last := |p.victims| == 1;
    w.(dir := w.dir - {p.victims[0]},
       phases := w.phases[c := p.(victims := p.victims[1..])],
       intact := if w.intact <= p.limit then w.intact else p.limit,
       from := if !last then w.from else if |w.log| >= p.limit then |w.log| - p.limit else 0,
       gapped := w.gapped && !(last && (p.limit <= w.intact || w.intact == |w.log|)))
  }

  /** An error return: a temporary file may be left behind, and a commit may stay without its retention. */
  function Failed(w: World, c: Client, cleaned: bool): World
    requires c in w.phases
  {
    var p := w.phases[c];
    w.(dir := if p.Writing? && cleaned then w.dir - {TempOf(p.record)} else w.dir,
       phases := w.phases[c := Finished],
       gapped := w.gapped || p.Deleting?,
       interrupted := w.interrupted || p.Deleting?,
       skipped := w.skipped || p.Verifying?)
  }

  /** The process is gone and the operating system drops its lock; the directory stays as it was. */
  function Crashed(w: World, c: Client): World
    requires c in w.phases
  {
    var p := w.phases[c];
    w.(phases := w.phases - {c},
       lock := if w.lock == Some(c) then None else w.lock,
       gapped := w.gapped || (p.Deleting? && p.victims != []),
       interrupted := w.interrupted || (p.Deleting? && p.victims != []),
       skipped := w.skipped || p.Verifying?)
  }

  function Apply(f: Format, w: World, a: Action): World
    requires Enabled(f, w, a)
  {
    match a
    case Submit(c, request, limit) => w.(phases := w.phases[c := Waiting(request, limit)])
    case Acquire(c) =>
      w.(lock := Some(c), phases := w.phases[c := Scanning(w.phases[c].request, w.phases[c].limit)])
    case Choose(c, names) => Chosen(f, w, c, names)
    case WriteTemp(c, n) =>
      var r := w.phases[c].record;
      w.(dir := w.dir[TempOf(r) := f.emit(r)[..n]], phases := w.phases[c := w.phases[c].(written := n)])
    case Rename(c) => Committed(f, w, c)
    case Rescan(c, names) => Rescanned(f, w, c, names)
    case Delete(c) => Deleted(w, c)
    case Fail(c, cleaned) => Failed(w, c, cleaned)
    case Release(c) => w.(lock := None, phases := w.phases - {c})
    case Crash(c) => Crashed(w, c)
  }

  // ----- what every reachable world keeps -----

  /** Exactly the lock holder is past waiting. */
  ghost predicate MutexOk(w: World) {
    forall c :: c in w.phases && HoldsLock(w.phases[c]) ==> w.lock == Some(c)
  }

  ghost predicate Ascending(log: seq<Record>) {
    forall i, j :: 0 <= i < j < |log| ==> log[i].commitOrder < log[j].commitOrder
  }

  /** The log is strictly ascending; every retained issued order is in it; its newest entry is retained. */
  ghost predicate LogOk(log: seq<Record>, v: map<Text, Record>) {
    && Ascending(log) && (forall i :: 0 <= i < |log| ==> log[i].commitOrder > 0)
    && (forall n :: n in v && v[n].commitOrder > 0 ==> v[n] in log)
    && (log != [] ==> Retained(v, log[|log| - 1]))
  }

  ghost predicate Retained(v: map<Text, Record>, r: Record) {
    TargetName(r.sessionId) in v && v[TargetName(r.sessionId)] == r
  }

  /** What the lock holder may rely on in its phase. */
  ghost predicate PhaseOk(f: Format, w: World, p: Phase) {
    var v := View(f, w.dir);
    match p
    case Waiting(request, limit) => IsRequest(request, limit)
    case Scanning(request, limit) => IsRequest(request, limit)
    case Writing(r, limit, n) =>
      && 1 <= limit <= MAX_RECORDS && MayCommit(v, r) && n <= |f.emit(r)|
      && TempOf(r) in w.dir && w.dir[TempOf(r)] == f.emit(r)[..n]
    case Verifying(limit) => 1 <= limit <= MAX_RECORDS
    case Deleting(victims, limit, kept) =>
      && 1 <= limit <= MAX_RECORDS && Distinct(victims)
      && (forall i :: 0 <= i < |victims| ==> victims[i] in v)
      && (w.log != [] ==> TargetName(w.log[|w.log| - 1].sessionId) !in victims)
    case Finished => true
  }

  ghost predicate PhasesOk(f: Format, w: World) {
    forall c :: c in w.phases ==> PhaseOk(f, w, w.phases[c])
  }

  ghost predicate Inv(f: Format, w: World) {
    MutexOk(w) && StoreOk(f, w.dir) && LogOk(w.log, View(f, w.dir)) && PhasesOk(f, w)
  }

  /** Nobody is active; the log lists the issued records already present. */
  ghost predicate Initial(f: Format, w: World) {
    && w.lock.None? && w.phases == map[]
    && w.intact == |w.log| && w.from == 0 && !w.gapped && !w.interrupted && !w.skipped
    && StoreOk(f, w.dir) && LogOk(w.log, View(f, w.dir))
    && (forall i :: 0 <= i < |w.log| ==> Retained(View(f, w.dir), w.log[i]))
  }

  lemma InitialInv(f: Format, w: World)
    requires Initial(f, w)
    ensures Inv(f, w)
  {}

  /** Only the lock holder's phase speaks about the directory, so a change by the holder concerns it alone. */
  lemma OthersUnaffected(f: Format, w: World, w': World, c: Client)
    requires Inv(f, w) && w.lock == Some(c)
    requires forall d :: d in w'.phases && d != c ==> d in w.phases && w'.phases[d] == w.phases[d]
    requires c in w'.phases ==> PhaseOk(f, w', w'.phases[c])
    ensures PhasesOk(f, w')
  {
    forall d | d in w'.phases
      ensures PhaseOk(f, w', w'.phases[d])
    {
      if d != c {
        assert w.phases[d].Waiting?;
        assert PhaseOk(f, w, w.phases[d]);
      }
    }
  }
}
