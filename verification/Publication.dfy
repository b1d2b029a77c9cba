/** Put, Delete and manifest lookup as concurrent clients of one bucket, one S3 request or response at a time. */
module Publication {
  import opened Basics

  type Key = Str

  /** The random identity of one Put's payload object. */
  type Attempt = Str

  type ETag = nat

  /** What a manifest promises: manifestsMatch compares exactly this, under one key. */
  datatype Content = Content(size: nat, digest: Digest)

  datatype Manifest = Manifest(key: Key, attempt: Attempt, content: Content)

  /** A manifest's backend key; a legacy row exists only for keys above 191 bytes. */
  datatype Row = Row(legacy: bool, key: Key)

  predicate Long(key: Key) {
    |key| > 191
  }

  datatype Op = Put(data: Str, attempt: Attempt) | Get | Delete

  datatype Outcome =
    | Ok
    | Conflict             // BlobConflictError
    | NotFound             // BlobNotFoundError
    | Found(m: Manifest)   // Get opened the payload of this manifest
    | Failed               // a backend, integrity or context error

  datatype Pc =
    | Uploading
    | Verifying(hashed: Option<Str>)             // before HEAD, then the bytes hashed so far
    | Reading(legacy: bool, etag: Option<ETag>)  // readManifestAt: before HEAD, then before its If-Match GET
    | Publishing
    | CleaningUp(outcome: Outcome)               // returning with cleanupSafe set
    | RemovingRow(legacy: bool, attempt: Attempt, removed: bool)
    | OpeningPayload(m: Manifest)
    | Done(outcome: Outcome)

  /** sent: the publish request has been issued. created: it has taken effect. asked: the rows whose deletion has been
      requested. */
  datatype Client = Client(op: Op, key: Key, pc: Pc, sent: bool, created: bool, asked: set<Row>)

  type Id = nat

  /** doomed: payloads whose deletion has been requested. used: attempts ever drawn, never drawn again. */
  datatype State = State(
    rows: map<Row, Manifest>,
    payloads: map<Attempt, Str>,
    doomed: set<Attempt>,
    used: set<Attempt>,
    clients: map<Id, Client>)

  /** deletes: Delete may be called. late: a publish request may take effect any number of times and at any time
      after it is issued, as when the SDK retries it; otherwise at most once, and before its response is handled.
      lingers: a row's deletion request may take effect at any time after it is issued, even after its Delete has
      returned; otherwise only while its response is awaited. */
  datatype Config = Config(sha: Hash, etag: Manifest -> ETag, deletes: bool, late: bool, lingers: bool)

  /** What can happen to one client: a request of its own takes effect in the bucket, or it handles a response. */
  datatype Event =
    | UploadLands(stored: Str)   // S3 commits some bytes, not necessarily the uploaded ones
    | UploadAcked
    | PayloadHead
    | PayloadRange
    | PayloadAgrees
    | Head
    | Fetch
    | PublishLands
    | PublishAcked
    | PublishUnsure              // 409, 412 or an ambiguous error: all three read the manifest back
    | RowRemoved(row: Row)
    | RemovalAcked
    | PayloadOpened
    | CleanedUp
    | Fails(cancelled: bool)     // any other answer to the current request, or cancellation

  /** One atomic step of the whole system. */
  datatype Step =
    | Starts(c: Id, op: Op, key: Key)
    | Happens(c: Id, event: Event)
    | Vanishes(a: Attempt)       // a requested payload deletion takes effect, perhaps late or repeatedly

  function ContentOf(cfg: Config, data: Str): Content {
    Content(|data|, cfg.sha(data))
  }

  function ManifestOf(cfg: Config, cl: Client): Manifest
    requires cl.op.Put?
  {
    Manifest(cl.key, cl.op.attempt, ContentOf(cfg, cl.op.data))
  }

  function Target(cl: Client): Row
    requires cl.pc.Reading? || cl.pc.RemovingRow?
  {
    Row(cl.pc.legacy, cl.key)
  }

  function RangeEnd(read: nat, size: nat): nat {
    Min(read + RANGE_BYTES, size)
  }

  // ---- what the client does next

  /** After a candidate without a row, or with its row removed: the legacy candidate, if there is one. */
  function NextCandidate(cl: Client, legacy: bool): Pc {
    if !legacy && Long(cl.key) then Reading(true, None)
    else Done(if cl.op.Get? then NotFound else Ok)
  }

  /** A verified Put settles against the legacy row if its key can have one, and publishes. */
  function StartPublishing(cl: Client): Client {
    cl.(pc := Publishing, sent := true)
  }

  function AfterRead(cfg: Config, cl: Client, legacy: bool, found: Option<Manifest>): Client {
    match cl.op
    case Put(data, attempt) =>
      if found.None? then
        if legacy then StartPublishing(cl) else cl.(pc := Done(Failed))
      else
        var outcome := if found.value.content == ContentOf(cfg, data) then Ok else Conflict;
        if legacy || found.value.attempt != attempt then cl.(pc := CleaningUp(outcome))
        else cl.(pc := Done(outcome))
    case Get =>
      if found.None? then cl.(pc := NextCandidate(cl, legacy)) else cl.(pc := OpeningPayload(found.value))
    case Delete =>
      if found.None? then cl.(pc := NextCandidate(cl, legacy))
      else cl.(pc := RemovingRow(legacy, found.value.attempt, false), asked := cl.asked + {Row(legacy, cl.key)})
  }

  /** A failed Put cleans up only while cleanupSafe holds and its context is alive. */
  function AfterFailure(cl: Client, cancelled: bool): Client {
    if !cancelled && cl.op.Put? && (cl.pc.Verifying? || (cl.pc.Reading? && cl.pc.legacy))
    then cl.(pc := CleaningUp(Failed))
    else cl.(pc := Done(if cl.pc.CleaningUp? then cl.pc.outcome else Failed))
  }

  // ---- the machine

  ghost predicate Enabled(cfg: Config, s: State, step: Step) {
    match step
    case Starts(c, op, key) =>
      && c !in s.clients
      && (op.Delete? ==> cfg.deletes)
      && (op.Put? ==> op.attempt !in s.used)
    case Happens(c, event) => c in s.clients && ClientEnabled(cfg, s, s.clients[c], event)
    case Vanishes(a) => a in s.doomed
  }

  ghost predicate ClientEnabled(cfg: Config, s: State, cl: Client, event: Event) {
    match event
    case UploadLands(_) => cl.op.Put? && cl.op.attempt !in s.payloads
    case UploadAcked => cl.op.Put? && cl.pc.Uploading? && cl.op.attempt in s.payloads
    case PayloadHead =>
      cl.op.Put? && cl.pc == Verifying(None)
      && cl.op.attempt in s.payloads && |s.payloads[cl.op.attempt]| == |cl.op.data|
    case PayloadRange =>
      cl.op.Put? && cl.pc.Verifying? && cl.pc.hashed.Some? && |cl.pc.hashed.value| < |cl.op.data|
      && cl.op.attempt in s.payloads
      && RangeEnd(|cl.pc.hashed.value|, |cl.op.data|) <= |s.payloads[cl.op.attempt]|
    case PayloadAgrees =>
      cl.op.Put? && cl.pc.Verifying? && cl.pc.hashed.Some? && |cl.pc.hashed.value| >= |cl.op.data|
      && cfg.sha(cl.pc.hashed.value) == cfg.sha(cl.op.data)
    case Head => cl.pc.Reading? && cl.pc.etag.None?
    case Fetch =>
      cl.pc.Reading? && Target(cl) in s.rows
      && cl.pc.etag == Some(cfg.etag(s.rows[Target(cl)])) && s.rows[Target(cl)].key == cl.key
    case PublishLands =>
      cl.op.Put? && (if cfg.late then cl.sent else cl.pc.Publishing? && !cl.created)
      && Row(false, cl.key) !in s.rows
    case PublishAcked => cl.pc.Publishing? && cl.created
    case PublishUnsure => cl.pc.Publishing?
    case RowRemoved(row) =>
      cl.op.Delete? && row in cl.asked && (cfg.lingers || (cl.pc.RemovingRow? && Target(cl) == row))
    case RemovalAcked => cl.pc.RemovingRow? && cl.pc.removed
    case PayloadOpened =>
      cl.pc.OpeningPayload? && cl.pc.m.attempt in s.payloads
      && |s.payloads[cl.pc.m.attempt]| == cl.pc.m.content.size
    case CleanedUp => cl.op.Put? && cl.pc.CleaningUp?
    case Fails(_) => !cl.pc.Done? && !cl.pc.Publishing?
  }

  ghost function ClientAfter(cfg: Config, s: State, cl: Client, event: Event): Client
    requires ClientEnabled(cfg, s, cl, event)
  {
    match event
    case UploadLands(_) => cl
    case UploadAcked => cl.(pc := Verifying(None))
    case PayloadHead => cl.(pc := Verifying(Some([])))
    case PayloadRange =>
      var read := cl.pc.hashed.value;
      cl.(pc := Verifying(Some(read + s.payloads[cl.op.attempt][|read|..RangeEnd(|read|, |cl.op.data|)])))
    case PayloadAgrees => if Long(cl.key) then cl.(pc := Reading(true, None)) else StartPublishing(cl)
    case Head =>
      if Target(cl) in s.rows then cl.(pc := Reading(cl.pc.legacy, Some(cfg.etag(s.rows[Target(cl)]))))
      else AfterRead(cfg, cl, cl.pc.legacy, None)
    case Fetch => AfterRead(cfg, cl, cl.pc.legacy, Some(s.rows[Target(cl)]))
    case PublishLands => cl.(created := true)
    case PublishAcked => cl.(pc := Done(Ok))
    case PublishUnsure => cl.(pc := Reading(false, None))
    case RowRemoved(row) => if cl.pc.RemovingRow? && Target(cl) == row then cl.(pc := cl.pc.(removed := true)) else cl
    case RemovalAcked => cl.(pc := NextCandidate(cl, cl.pc.legacy))
    case PayloadOpened => cl.(pc := Done(Found(cl.pc.m)))
    case CleanedUp => cl.(pc := Done(cl.pc.outcome))
    case Fails(cancelled) => AfterFailure(cl, cancelled)
  }

  /** What an event never changes about its client. */
  lemma ActorFrame(cfg: Config, s: State, cl: Client, event: Event)
    requires ClientEnabled(cfg, s, cl, event)
    ensures var after := ClientAfter(cfg, s, cl, event);
            && after.op == cl.op && after.key == cl.key
            && after.created == (cl.created || event.PublishLands?)
            && cl.asked <= after.asked
            && (cl.op.Put? && cl.pc.Done? ==> after.pc == cl.pc)
  {
  }

  /** Only three events touch the bucket's rows and payloads, and two request a payload's deletion. */
  ghost function BucketAfter(cfg: Config, s: State, cl: Client, event: Event): State
    requires ClientEnabled(cfg, s, cl, event)
  {
    match event
    case UploadLands(stored) => s.(payloads := s.payloads[cl.op.attempt := stored])
    case PublishLands => s.(rows := s.rows[Row(false, cl.key) := ManifestOf(cfg, cl)])
    case RowRemoved(row) => s.(rows := s.rows - {row})
    case RemovalAcked => s.(doomed := s.doomed + {cl.pc.attempt})
    case CleanedUp => s.(doomed := s.doomed + {cl.op.attempt})
    case _ => s
  }

  ghost function Apply(cfg: Config, s: State, step: Step): State
    requires Enabled(cfg, s, step)
  {
    match step
    case Starts(c, op, key) =>
      var pc := if op.Put? then Uploading else Reading(false, None);
      s.(clients := s.clients[c := Client(op, key, pc, false, false, {})],
         used := if op.Put? then s.used + {op.attempt} else s.used)
    case Happens(c, event) =>
      var cl := s.clients[c];
      BucketAfter(cfg, s, cl, event).(clients := s.clients[c := ClientAfter(cfg, s, cl, event)])
    case Vanishes(a) => s.(payloads := s.payloads - {a})
  }

  /** Clients stay, and only an event of their own moves them. */
  lemma StepFrame(cfg: Config, s: State, step: Step, c: Id)
    requires Enabled(cfg, s, step) && c in s.clients
    ensures var t := Apply(cfg, s, step);
            c in t.clients
            && t.clients[c] == if step.Happens? && step.c == c then ClientAfter(cfg, s, s.clients[c], step.event)
                               else s.clients[c]
  {
  }

  /** What a step never changes about a client. */
  lemma ClientFrame(cfg: Config, s: State, step: Step, c: Id)
    requires Enabled(cfg, s, step) && c in s.clients
    ensures c in Apply(cfg, s, step).clients
    ensures var cl, after := s.clients[c], Apply(cfg, s, step).clients[c];
            && after.op == cl.op && after.key == cl.key && cl.asked <= after.asked
            && after.created == (cl.created || step == Happens(c, PublishLands))
            && (cl.op.Put? && cl.pc.Done? ==> after.pc == cl.pc)
  {
    StepFrame(cfg, s, step, c);
    if step.Happens? && step.c == c {
      ActorFrame(cfg, s, s.clients[c], step.event);
    }
  }

  /** A manifest's payload is there, with the promised length and digest. */
  ghost predicate Intact(cfg: Config, s: State, m: Manifest) {
    m.attempt in s.payloads && ContentOf(cfg, s.payloads[m.attempt]) == m.content
  }

  /** Any rows this release or the previous one could have left, no client running. */
  ghost predicate Init(cfg: Config, s: State) {
    && s.clients == map[] && s.doomed == {}
    && s.payloads.Keys <= s.used
    && (forall r :: r in s.rows ==>
          && s.rows[r].key == r.key && (r.legacy ==> Long(r.key))
          && Row(!r.legacy, r.key) !in s.rows
          && Intact(cfg, s, s.rows[r]))
    && (forall q, r :: q in s.rows && r in s.rows && q != r ==> s.rows[q].attempt != s.rows[r].attempt)
  }

  /** The step is possible in s and leads to t. */
  ghost predicate Leads(cfg: Config, s: State, step: Step, t: State) {
    Enabled(cfg, s, step) && t == Apply(cfg, s, step)
  }

  ghost predicate Next(cfg: Config, s: State, t: State) {
    exists step :: Leads(cfg, s, step, t)
  }

  /** A finite run: every interleaving of the events of any number of clients. */
  ghost predicate Run(cfg: Config, run: seq<State>) {
    && run != [] && Init(cfg, run[0])
    && forall i :: 0 <= i < |run| - 1 ==> Next(cfg, run[i], run[i + 1])
  }

  ghost function Last(run: seq<State>): State
    requires run != []
  {
    run[|run| - 1]
  }

  /** A longer run is a run and one more step. */
  lemma LastStep(cfg: Config, run: seq<State>) returns (step: Step)
    requires Run(cfg, run) && |run| > 1
    ensures Run(cfg, run[..|run| - 1]) && Leads(cfg, Last(run[..|run| - 1]), step, Last(run))
  {
    var i := |run| - 2;
    assert Next(cfg, run[i], run[i + 1]);
    step :| Leads(cfg, run[i], step, run[i + 1]);
  }

  // ---- the abstract map

  /** A key's value, under either encoding. */
  ghost function Value(s: State, key: Key): Option<Content> {
    if Row(false, key) in s.rows then Some(s.rows[Row(false, key)].content)
    else if Row(true, key) in s.rows then Some(s.rows[Row(true, key)].content)
    else None
  }

  ghost predicate Active(s: State, c: Id) {
    c in s.clients && !s.clients[c].pc.Done?
  }
}
