/** When a stored value is there to stay: exactly while no Delete that is already running can still reach its row. */
module Durability {
  import opened Basics
  import opened Publication
  import opened PublicationSafety
  import opened PublicationRaces
  import opened Traces
  import opened AtomicMap

  /** No Delete of the key is called. */
  ghost predicate NoDeleteCalled(tr: Trace, key: Key) {
    forall i :: 0 <= i < |tr.steps| && tr.steps[i].Starts? && tr.steps[i].op.Delete? ==> tr.steps[i].key != key
  }

  /** What the run may still do without another call of Delete of the key. */
  ghost predicate GoesOn(cfg: Config, s: State, tr: Trace, key: Key) {
    Valid(cfg, tr) && tr.states[0] == s && NoDeleteCalled(tr, key)
  }

  /** A Get of the key called after s that answers definitely has found this content. */
  ghost predicate GetAnswers(s: State, t: State, g: Id, key: Key, content: Content) {
    g !in s.clients && g in t.clients && t.clients[g].op.Get? && t.clients[g].key == key && t.clients[g].pc.Done? ==>
      && !t.clients[g].pc.outcome.NotFound?
      && (t.clients[g].pc.outcome.Found? ==> t.clients[g].pc.outcome.m.content == content)
  }

  /** Whatever happens from s on, as long as no Delete of the key is called, every later Get of the key that answers
      finds this content. */
  ghost predicate Durable(cfg: Config, s: State, key: Key, content: Content) {
    forall tr, g :: GoesOn(cfg, s, tr, key) ==> GetAnswers(s, End(tr), g, key, content)
  }

  /** A Delete that can still come to remove row r: one that will look for it, one that holds the tag of its manifest,
      one that is requesting its deletion, or, if such requests linger, one that ever has. */
  ghost predicate CanReach(cfg: Config, s: State, cl: Client, r: Row)
    requires r in s.rows
  {
    && cl.op.Delete? && cl.key == r.key
    && ((cfg.lingers && r in cl.asked)
        || match cl.pc
           case Reading(legacy, None) => !legacy || r.legacy
           case Reading(legacy, Some(tag)) => legacy == r.legacy && tag == cfg.etag(s.rows[r])
           case RemovingRow(legacy, _, _) => !legacy || r.legacy
           case _ => false)
  }

  ghost predicate OutOfReach(cfg: Config, s: State, r: Row)
    requires r in s.rows
  {
    forall d :: d in s.clients ==> !CanReach(cfg, s, s.clients[d], r)
  }

  ghost predicate Standing(cfg: Config, s: State, r: Row, m: Manifest) {
    r in s.rows && s.rows[r] == m && OutOfReach(cfg, s, r)
  }

  /** The key holds the content, out of reach of every Delete that is running. */
  ghost predicate Secure(cfg: Config, s: State, key: Key, content: Content) {
    exists legacy :: Row(legacy, key) in s.rows && s.rows[Row(legacy, key)].content == content
                     && OutOfReach(cfg, s, Row(legacy, key))
  }

  // ---- out of reach is for good

  lemma RowStands(cfg: Config, s: State, step: Step, r: Row, m: Manifest)
    requires Inv(cfg, s) && Enabled(cfg, s, step) && Standing(cfg, s, r, m)
    ensures var t := Apply(cfg, s, step);
            r in t.rows && t.rows[r] == m
  {
    assert RowOk(s, r);
    if step.Happens? {
      assert ClientOk(cfg, s, s.clients[step.c]) && !CanReach(cfg, s, s.clients[step.c], r);
    }
  }

  lemma StaysOut(cfg: Config, s: State, cl: Client, event: Event, r: Row)
    requires Inv(cfg, s) && ClientOk(cfg, s, cl) && ClientEnabled(cfg, s, cl, event)
    requires r in s.rows && !CanReach(cfg, s, cl, r)
    ensures !CanReach(cfg, s, ClientAfter(cfg, s, cl, event), r)
  {
    ActorFrame(cfg, s, cl, event);
    assert RowOk(s, r);
  }

  lemma StepKeepsStanding(cfg: Config, s: State, step: Step, r: Row, m: Manifest)
    requires Inv(cfg, s) && Enabled(cfg, s, step) && Standing(cfg, s, r, m)
    requires step.Starts? && step.op.Delete? ==> step.key != r.key
    ensures Standing(cfg, Apply(cfg, s, step), r, m)
  {
    var t := Apply(cfg, s, step);
    RowStands(cfg, s, step, r, m);
    forall d | d in t.clients ensures !CanReach(cfg, t, t.clients[d], r) {
      if d in s.clients {
        StepFrame(cfg, s, step, d);
        if step.Happens? && step.c == d {
          assert ClientOk(cfg, s, s.clients[d]);
          StaysOut(cfg, s, s.clients[d], step.event, r);
        }
      }
    }
  }

  lemma {:induction false} StandsThroughout(cfg: Config, s: State, tr: Trace, r: Row, m: Manifest, i: nat)
    requires Inv(cfg, s) && GoesOn(cfg, s, tr, r.key) && Standing(cfg, s, r, m)
    requires i < |tr.states|
    ensures Inv(cfg, tr.states[i]) && Standing(cfg, tr.states[i], r, m)
    decreases i
  {
    if i > 0 {
      StandsThroughout(cfg, s, tr, r, m, i - 1);
      assert Leads(cfg, tr.states[i - 1], tr.steps[i - 1], tr.states[i - 1 + 1]);
      StepKeepsInv(cfg, tr.states[i - 1], tr.steps[i - 1]);
      StepKeepsStanding(cfg, tr.states[i - 1], tr.steps[i - 1], r, m);
    }
  }

  lemma {:induction false} ClientsAccumulate(cfg: Config, run: seq<State>, c: Id, i: nat, k: nat)
    requires Run(cfg, run) && i <= k < |run| && c in run[i].clients
    ensures c in run[k].clients
    decreases k
  {
    if i < k {
      ClientsAccumulate(cfg, run, c, i, k - 1);
      assert Next(cfg, run[k - 1], run[k - 1 + 1]);
    }
  }

  /** A call made after the run's last state can only have seen later instants. */
  lemma SawAfter(cfg: Config, run: seq<State>, all: seq<State>, c: Id, i: nat)
    requires Run(cfg, all) && run != [] && run <= all && c !in Last(run).clients && i < |all| && c in all[i].clients
    ensures i >= |run|
  {
    if i < |run| {
      ClientsAccumulate(cfg, all, c, i, |run| - 1);
    }
  }

  /** From a secure state on the key keeps its content. */
  lemma SecureStays(cfg: Config, s: State, key: Key, content: Content, tr: Trace, i: nat)
    requires Inv(cfg, s) && Secure(cfg, s, key, content)
    requires GoesOn(cfg, s, tr, key) && i < |tr.states|
    ensures Value(tr.states[i], key) == Some(content)
  {
    var legacy :| Row(legacy, key) in s.rows && s.rows[Row(legacy, key)].content == content
                  && OutOfReach(cfg, s, Row(legacy, key));
    var r := Row(legacy, key);
    StandsThroughout(cfg, s, tr, r, s.rows[r], i);
    assert RowOk(tr.states[i], r);
  }

  lemma SecureAnswers(cfg: Config, run: seq<State>, key: Key, content: Content, tr: Trace, g: Id)
    requires Run(cfg, run) && Secure(cfg, Last(run), key, content)
    requires GoesOn(cfg, Last(run), tr, key)
    ensures GetAnswers(Last(run), End(tr), g, key, content)
  {
    var s, t := Last(run), End(tr);
    if g !in s.clients && g in t.clients && t.clients[g].op.Get? && t.clients[g].key == key && t.clients[g].pc.Done? {
      var all := run + tr.states[1..];
      RunGoesOn(cfg, run, tr);
      AnswersHold(cfg, all, g);
      RunKeepsInv(cfg, run);
      forall i | 0 <= i < |all| && Active(all[i], g) ensures Value(all[i], key) == Some(content) {
        SawAfter(cfg, run, all, g, i);
        SecureStays(cfg, s, key, content, tr, i - |run| + 1);
      }
    }
  }

  // ---- within reach is not

  /** A Delete can have its request to delete a row take effect now. */
  ghost predicate CanTake(cfg: Config, s: State, d: Id, r: Row) {
    Enabled(cfg, s, Happens(d, RowRemoved(r)))
  }

  /** A Delete that looks for a row, or has just seen it, comes to where it requests its deletion. */
  lemma ReadsRow(cfg: Config, root: Trace, tr: Trace, d: Id, r: Row) returns (ext: Trace)
    requires Extends(cfg, root, tr) && d in End(tr).clients && r in End(tr).rows
    requires var s := End(tr);
             var cl := s.clients[d];
             cl.op.Delete? && cl.pc.Reading? && Target(cl) == r && s.rows[r].key == r.key
             && cl.pc.etag in {None, Some(cfg.etag(s.rows[r]))}
    ensures Extends(cfg, root, ext) && End(ext).rows == End(tr).rows && End(ext).clients.Keys == End(tr).clients.Keys
    ensures CanTake(cfg, End(ext), d, r)
  {
    if End(tr).clients[d].pc.etag == None {
      ext := Looks(cfg, root, tr, d);
    } else {
      ext := Then(cfg, root, tr, Happens(d, Fetch));
    }
  }

  /** A Delete done with the current candidate turns to the legacy one. */
  lemma TurnsToLegacy(cfg: Config, root: Trace, tr: Trace, d: Id, key: Key) returns (ext: Trace)
    requires Extends(cfg, root, tr) && d in End(tr).clients && Row(false, key) !in End(tr).rows && Long(key)
    requires var cl := End(tr).clients[d];
             && cl.op.Delete? && cl.key == key && !cl.pc.Done?
             && ((cl.pc.RemovingRow? && Target(cl) in cl.asked) || (cl.pc.Reading? && cl.pc.etag == None))
             && !cl.pc.legacy
    ensures Extends(cfg, root, ext) && End(ext).rows == End(tr).rows
    ensures End(ext).clients == End(tr).clients[d := End(tr).clients[d].(pc := Reading(true, None))]
  {
    if End(tr).clients[d].pc.Reading? {
      ext := Then(cfg, root, tr, Happens(d, Head));
    } else {
      ext := TakesRow(cfg, root, tr, d, Row(false, key));
      ext := Then(cfg, root, ext, Happens(d, RemovalAcked));
    }
  }

  /** A Delete within reach of a row comes to where its request to delete it can take effect. */
  lemma ReachesRow(cfg: Config, root: Trace, tr: Trace, d: Id, r: Row) returns (ext: Trace)
    requires Extends(cfg, root, tr) && Inv(cfg, End(tr)) && d in End(tr).clients && r in End(tr).rows
    requires CanReach(cfg, End(tr), End(tr).clients[d], r)
    ensures Extends(cfg, root, ext) && End(ext).rows == End(tr).rows && End(ext).clients.Keys == End(tr).clients.Keys
    ensures CanTake(cfg, End(ext), d, r)
  {
    assert RowOk(End(tr), r) && ClientOk(cfg, End(tr), End(tr).clients[d]);
    ext := tr;
    if !CanTake(cfg, End(tr), d, r) {
      if End(tr).clients[d].pc.legacy != r.legacy {
        ext := TurnsToLegacy(cfg, root, tr, d, r.key);
      }
      ext := ReadsRow(cfg, root, ext, d, r);
    }
  }

  /** The key's manifest, if it has one, does not dangle; KeyNeverDangles says when that is certain. */
  ghost predicate Readable(cfg: Config, s: State, key: Key) {
    forall r :: r in s.rows && r.key == key ==> Intact(cfg, s, s.rows[r])
  }

  /** A Get of a key finds its present value. */
  lemma GetFindsValue(cfg: Config, s: State, key: Key) returns (tr: Trace, g: Id)
    requires Inv(cfg, s) && Value(s, key).Some? && Readable(cfg, s, key)
    ensures GoesOn(cfg, s, tr, key)
    ensures forall content :: GetAnswers(s, End(tr), g, key, content) ==> Value(s, key) == Some(content)
  {
    g := FreshId(s.clients.Keys);
    var legacy := Row(false, key) !in s.rows;
    assert RowOk(s, Row(legacy, key));
    tr := GetFinds(cfg, From(s), From(s), g, key, legacy);
  }

  /** Once the value is gone a Get misses. */
  lemma GetMissesValue(cfg: Config, s: State, tr: Trace, key: Key) returns (ext: Trace, g: Id)
    requires Extends(cfg, From(s), tr) && End(tr).clients.Keys == s.clients.Keys && Value(End(tr), key) == None
    ensures GoesOn(cfg, s, ext, key)
    ensures forall content :: !GetAnswers(s, End(ext), g, key, content)
  {
    g := FreshId(s.clients.Keys);
    ext := GetMisses(cfg, From(s), tr, g, key);
  }

  lemma RemovedIsMissed(cfg: Config, s: State, key: Key, content: Content, d: Id, r: Row)
    requires Inv(cfg, s) && r in s.rows && r.key == key && d in s.clients && CanReach(cfg, s, s.clients[d], r)
    ensures !Durable(cfg, s, key, content)
  {
    assert RowOk(s, r);
    var tr := ReachesRow(cfg, From(s), From(s), d, r);
    tr := TakesRow(cfg, From(s), tr, d, r);
    var g;
    tr, g := GetMissesValue(cfg, s, tr, key);
    assert !GetAnswers(s, End(tr), g, key, content);
  }

  lemma InsecureIsNotDurable(cfg: Config, s: State, key: Key, content: Content)
    requires Inv(cfg, s) && !Secure(cfg, s, key, content)
    requires Value(s, key) == Some(content) || Readable(cfg, s, key)
    ensures !Durable(cfg, s, key, content)
  {
    if Value(s, key) == None {
      var tr, g := GetMissesValue(cfg, s, From(s), key);
      assert !GetAnswers(s, End(tr), g, key, content);
    } else if Value(s, key) != Some(content) {
      var tr, g := GetFindsValue(cfg, s, key);
      assert !GetAnswers(s, End(tr), g, key, content);
    } else {
      var r := Row(Row(false, key) !in s.rows, key);
      assert r in s.rows && s.rows[r].content == content;
      var d :| d in s.clients && CanReach(cfg, s, s.clients[d], r);
      RemovedIsMissed(cfg, s, key, content, d, r);
    }
  }

  /** The exact condition, at any instant of any run in any environment: from here on every Get that answers finds this
      content, as long as no Delete of the key is called, if the key holds it now and no Delete can still reach its row.
      And only then, unless the key holds other content whose manifest dangles, so that no Get can answer. */
  lemma DurableIff(cfg: Config, run: seq<State>, key: Key, content: Content)
    requires Run(cfg, run)
    ensures Secure(cfg, Last(run), key, content) ==> Durable(cfg, Last(run), key, content)
    ensures (Value(Last(run), key) == Some(content) || Readable(cfg, Last(run), key))
            && Durable(cfg, Last(run), key, content)
            ==> Secure(cfg, Last(run), key, content)
  {
    if Secure(cfg, Last(run), key, content) {
      forall tr, g | GoesOn(cfg, Last(run), tr, key) ensures GetAnswers(Last(run), End(tr), g, key, content) {
        SecureAnswers(cfg, run, key, content, tr, g);
      }
    } else if Value(Last(run), key) == Some(content) || Readable(cfg, Last(run), key) {
      RunKeepsInv(cfg, run);
      InsecureIsNotDurable(cfg, Last(run), key, content);
    }
  }

  // ---- Puts

  /** Put p has just returned nil. */
  ghost predicate ReturnsNil(run: seq<State>, p: Id) {
    && |run| > 1 && Active(run[|run| - 2], p)
    && p in Last(run).clients && Last(run).clients[p].op.Put? && Last(run).clients[p].pc == Done(Ok)
  }

  /** What Put p has put is there to stay. */
  ghost predicate PutIsDurable(cfg: Config, run: seq<State>, p: Id)
    requires run != [] && p in Last(run).clients && Last(run).clients[p].op.Put?
  {
    Durable(cfg, Last(run), Last(run).clients[p].key, ContentOf(cfg, Last(run).clients[p].op.data))
  }

  lemma NothingReaches(cfg: Config, s: State, r: Row)
    requires r in s.rows
    requires forall d :: d in s.clients && Threatens(cfg, s.clients[d]) ==> s.clients[d].key != r.key
    ensures Secure(cfg, s, r.key, s.rows[r].content)
  {
    assert Row(r.legacy, r.key) == r && OutOfReach(cfg, s, r);
  }

  /** A Put that returned nil with no Delete of its key running meanwhile has its content secure. */
  lemma UndisturbedPutIsSecure(cfg: Config, run: seq<State>, p: Id)
    requires Run(cfg, run) && p in Last(run).clients
    requires var put := Last(run).clients[p]; put.op.Put? && put.pc == Done(Ok) && Undisturbed(cfg, run, p, put.key)
    ensures var put := Last(run).clients[p]; Secure(cfg, Last(run), put.key, ContentOf(cfg, put.op.data))
  {
    var s, put := Last(run), Last(run).clients[p];
    var content := ContentOf(cfg, put.op.data);
    AnswersHold(cfg, run, p);
    var i :| 0 <= i < |run| && Active(run[i], p) && Value(run[i], put.key) == Some(content);
    ValueStays(cfg, run, put.key, i, |run| - 1);
    NothingReaches(cfg, s, Row(Row(false, put.key) !in s.rows, put.key));
  }

  /** A Delete of K that has read attempt B's manifest. */
  ghost function Waiting(removed: bool): Client {
    Client(Delete, K, RemovingRow(false, B, removed), false, false, {Row(false, K)})
  }

  const RETURNED: Client := Client(Put([], A), K, Done(Ok), true, false, {})

  /** A Delete reads the manifest of an empty blob, and waits. */
  lemma DeleteWaits(cfg: Config) returns (root: Trace, tr: Trace)
    requires cfg.deletes
    ensures Extends(cfg, root, tr) && tr.states[0] == Holding(cfg, [])
    ensures End(tr) == Holding(cfg, []).(clients := map[0 := Waiting(false)])
  {
    root, tr := DeleteIsCalled(cfg, From(Holding(cfg, [])), 0, K);
  }

  /** A Put of the same empty blob finds it and returns nil. */
  lemma PutOverlapsDelete(cfg: Config) returns (tr: Trace)
    requires cfg.deletes
    ensures Valid(cfg, tr) && Run(cfg, tr.states) && ReturnsNil(tr.states, 1)
    ensures End(tr) == Holding(cfg, []).(payloads := map[A := [], B := []], used := {A, B}, doomed := {A},
                                         clients := map[0 := Waiting(false), 1 := RETURNED])
  {
    var root, waiting := DeleteWaits(cfg);
    tr := PutFindsRow(cfg, root, waiting, 1, K, [], A);
    TraceIsRun(cfg, tr);
  }

  /** Then the older Delete removes the row. */
  lemma OlderDeleteStrikes(cfg: Config, s: State) returns (tr: Trace)
    requires s == Holding(cfg, []).(payloads := map[A := [], B := []], used := {A, B}, doomed := {A},
                                    clients := map[0 := Waiting(false), 1 := RETURNED])
    ensures Extends(cfg, From(s), tr)
    ensures End(tr) == State(map[], s.payloads, s.doomed, s.used, map[0 := Waiting(true), 1 := RETURNED])
  {
    tr := TakesRow(cfg, From(s), From(s), 0, Row(false, K));
  }

  /** A Put of one byte to K, where there is no row, is published; a Get finds it. */
  lemma OneByteIsFound(cfg: Config, s: State, tr: Trace) returns (ext: Trace)
    requires Extends(cfg, From(s), tr) && Value(End(tr), K) == None && s.clients.Keys == End(tr).clients.Keys
    requires 2 !in s.clients && 3 !in s.clients && C !in End(tr).used && C !in End(tr).payloads
    ensures GoesOn(cfg, s, ext, K) && 3 in End(ext).clients
    ensures End(ext).clients[3] ==
            Client(Get, K, Done(Found(Manifest(K, C, ContentOf(cfg, [0])))), false, false, {})
  {
    ext := Stages(cfg, From(s), tr, 2, K, [0], C);
    var root := Lands(cfg, ext, 2);
    ext := GetFinds(cfg, root, root, 3, K, false);
  }

  /** No Delete is called once that Put has returned, yet a Get called later finds other content: the older Delete
      removes the row, and another Put stores one byte. */
  lemma OverlappingDeleteLosesThePut(cfg: Config) returns (run: seq<State>, tr: Trace)
    requires cfg.deletes
    ensures Run(cfg, run) && ReturnsNil(run, 1) && Last(run).clients[1] == RETURNED
    ensures GoesOn(cfg, Last(run), tr, K)
    ensures 3 !in Last(run).clients && 3 in End(tr).clients && End(tr).clients[3].op.Get?
    ensures End(tr).clients[3].key == K && End(tr).clients[3].pc.Done? && End(tr).clients[3].pc.outcome.Found?
    ensures End(tr).clients[3].pc.outcome.m.content == ContentOf(cfg, [0])
  {
    var before := PutOverlapsDelete(cfg);
    run := before.states;
    tr := OlderDeleteStrikes(cfg, Last(run));
    tr := OneByteIsFound(cfg, Last(run), tr);
  }

  /** Every Put that returns nil has stored its content to stay, in every run, exactly when nothing is ever deleted:
      a Delete that overlaps the Put, and that no caller of the Put can see, is enough to lose it. */
  lemma PutsAreDurableIff(cfg: Config)
    ensures (forall run, p :: Run(cfg, run) && ReturnsNil(run, p) ==> PutIsDurable(cfg, run, p)) <==> !cfg.deletes
  {
    if cfg.deletes {
      var run, tr := OverlappingDeleteLosesThePut(cfg);
      assert !GetAnswers(Last(run), End(tr), 3, K, ContentOf(cfg, []));
      assert !PutIsDurable(cfg, run, 1);
    } else {
      forall run, p | Run(cfg, run) && ReturnsNil(run, p) ensures PutIsDurable(cfg, run, p) {
        NothingThreatens(cfg, run);
        UndisturbedPutIsSecure(cfg, run, p);
        var put := Last(run).clients[p];
        DurableIff(cfg, run, put.key, ContentOf(cfg, put.op.data));
      }
    }
  }
}
