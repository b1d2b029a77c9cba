/** Why publish requests must not take effect late once rows can be deleted: two runs, and the exact condition. */
module PublicationRaces {
  import opened Basics
  import opened Publication
  import opened PublicationSafety
  import opened PayloadSafety
  import opened Traces

  const K: Key := [0x61]
  const A: Attempt := [0x62]
  const B: Attempt := [0x63]
  const C: Attempt := [0x64]

  /** A bucket holding nothing. */
  const EMPTY: State := State(map[], map[], {}, {}, map[])

  /** An empty blob is put, the publish acknowledged; then it is deleted, payload and all. */
  lemma PutThenDeleted(cfg: Config) returns (tr: Trace)
    requires cfg.deletes
    ensures Valid(cfg, tr) && tr.states[0] == EMPTY
    ensures End(tr) == State(map[], map[], {A}, {A},
                             map[0 := Client(Put([], A), K, Done(Ok), true, true, {}),
                                 1 := Client(Delete, K, Done(Ok), false, false, {Row(false, K)})])
  {
    var root := From(EMPTY);
    tr := Stages(cfg, root, root, 0, K, [], A);
    tr := Lands(cfg, tr, 0);
    tr := Take(cfg, tr, Happens(0, PublishAcked));
    tr := Deletes(cfg, tr, 1, K);
    tr := Take(cfg, tr, Vanishes(A));
  }

  /** A publish request that the SDK had sent twice takes effect once more, after the blob was deleted, and leaves a
      manifest without its payload. */
  lemma LatePublishDangles(cfg: Config) returns (run: seq<State>)
    requires cfg.deletes && cfg.late
    ensures Run(cfg, run) && !NoDangling(cfg, Last(run))
  {
    var tr := PutThenDeleted(cfg);
    tr := Lands(cfg, tr, 0);
    TraceIsRun(cfg, tr);
    run := tr.states;
    assert Row(false, K) in Last(run).rows && Last(run).payloads == map[];
  }

  /** Manifests never dangle, in any run, exactly when publish requests are not late or nothing is ever deleted. */
  lemma NoDanglingIff(cfg: Config)
    ensures (forall run :: Run(cfg, run) ==> NoDangling(cfg, Last(run))) <==> Disciplined(cfg)
  {
    if Disciplined(cfg) {
      forall run | Run(cfg, run) ensures NoDangling(cfg, Last(run)) {
        ManifestsNeverDangle(cfg, run);
      }
    } else {
      var run := LatePublishDangles(cfg);
    }
  }

  // ---- once is not enough

  /** A publish request takes effect only for the first time, and only while its Put is running. */
  ghost predicate Once(s: State, step: Step) {
    step.Happens? && step.event.PublishLands? ==> Active(s, step.c) && !s.clients[step.c].created
  }

  ghost predicate AllOnce(tr: Trace)
    requires |tr.states| == |tr.steps| + 1
  {
    forall i :: 0 <= i < |tr.steps| ==> Once(tr.states[i], tr.steps[i])
  }

  lemma QuietKeepsOnce(cfg: Config, root: Trace, tr: Trace)
    requires Extends(cfg, root, tr) && AllOnce(root)
    ensures AllOnce(tr)
  {
    forall i | 0 <= i < |tr.steps| ensures Once(tr.states[i], tr.steps[i]) {
      if i < |root.steps| {
        assert tr.steps[i] == root.steps[i] && tr.states[i] == root.states[i];
      }
    }
  }

  /** A bucket holding one blob of the given bytes, published as attempt B. */
  ghost function Holding(cfg: Config, data: Str): State {
    State(map[Row(false, K) := Manifest(K, B, ContentOf(cfg, data))], map[B := data], {}, {B}, map[])
  }

  /** A Put whose publish request times out reads back another Put's manifest and prepares to clean up; a Delete
      removes that manifest. */
  lemma DeletedUnderReader(cfg: Config) returns (tr: Trace)
    requires cfg.deletes
    ensures Valid(cfg, tr) && AllOnce(tr) && tr.states[0] == Holding(cfg, [])
    ensures End(tr) == State(map[], map[A := [], B := []], {}, {A, B},
                             map[0 := Client(Put([], A), K, CleaningUp(Ok), true, false, {}),
                                 1 := Client(Delete, K, RemovingRow(false, B, true), false, false, {Row(false, K)})])
  {
    var root := From(Holding(cfg, []));
    tr := Stages(cfg, root, root, 0, K, [], A);
    tr := ReadsBack(cfg, root, tr, 0);
    QuietKeepsOnce(cfg, root, tr);
    root, tr := DeleteTakesRow(cfg, tr, 1, K);
    QuietKeepsOnce(cfg, root, tr);
  }

  /** The request takes effect now, for the first time and before its Put returns; then the clean-up deletes the
      payload the new manifest refers to. So taking effect at most once, and before Put returns, does not save the
      manifest: what matters is that the request takes effect before its own response is handled. */
  lemma OnceButLateDangles(cfg: Config) returns (tr: Trace)
    requires cfg.deletes && cfg.late
    ensures Valid(cfg, tr) && AllOnce(tr) && Run(cfg, tr.states)
    ensures !NoDangling(cfg, Last(tr.states))
  {
    tr := DeletedUnderReader(cfg);
    tr := Lands(cfg, tr, 0);
    var landed := tr;
    tr := CleansUp(cfg, landed, landed, 0);
    tr := Then(cfg, landed, tr, Vanishes(A));
    QuietKeepsOnce(cfg, landed, tr);
    TraceIsRun(cfg, tr);
    var s := Last(tr.states);
    assert Row(false, K) in s.rows && s.rows[Row(false, K)].attempt == A && A !in s.payloads;
  }

  // ---- how often a Put creates

  /** While Delete has not been called on its key, a row that a Put has created stands. */
  ghost predicate CreatedStands(cfg: Config, s: State, cl: Client) {
    cl.op.Put? && cl.created ==> Row(false, cl.key) in s.rows && s.rows[Row(false, cl.key)] == ManifestOf(cfg, cl)
  }

  lemma StepKeepsCreated(cfg: Config, s: State, step: Step, c: Id)
    requires Inv(cfg, s) && Enabled(cfg, s, step) && c in s.clients && Undeleted(s, s.clients[c].key)
    requires CreatedStands(cfg, s, s.clients[c])
    ensures var t := Apply(cfg, s, step);
            c in t.clients && CreatedStands(cfg, t, t.clients[c])
  {
    var cl := s.clients[c];
    if cl.op.Put? && cl.created {
      RowsGrow(cfg, s, step, Row(false, cl.key));
    }
    ClientFrame(cfg, s, step, c);
  }

  lemma {:induction false} CreatedRowStands(cfg: Config, run: seq<State>, c: Id)
    requires Run(cfg, run) && c in Last(run).clients && Undeleted(Last(run), Last(run).clients[c].key)
    ensures CreatedStands(cfg, Last(run), Last(run).clients[c])
  {
    if |run| > 1 {
      var before := run[..|run| - 1];
      var step := LastStep(cfg, run);
      if c in Last(before).clients {
        ClientFrame(cfg, Last(before), step, c);
        UndeletedBefore(cfg, Last(before), step, Last(run).clients[c].key);
        CreatedRowStands(cfg, before, c);
        RunKeepsInv(cfg, before);
        StepKeepsCreated(cfg, Last(before), step, c);
      }
    }
  }

  /** No Put that has created its row could ever do so again. */
  ghost predicate CreatesAtMostOnce(cfg: Config, s: State) {
    forall c :: Enabled(cfg, s, Happens(c, PublishLands)) ==> !s.clients[c].created
  }

  /** However late its request, a Put of a key on which Delete has not been called creates at most once. */
  lemma KeyCreatesAtMostOnce(cfg: Config, run: seq<State>, c: Id)
    requires Run(cfg, run) && Enabled(cfg, Last(run), Happens(c, PublishLands))
    requires Orderly(cfg, Last(run), Last(run).clients[c].key)
    ensures !Last(run).clients[c].created
  {
    if cfg.late {
      CreatedRowStands(cfg, run, c);
    }
  }

  /** A Put creates at most one value, in every run, exactly under the same discipline. */
  lemma CreatesAtMostOnceIff(cfg: Config)
    ensures (forall run :: Run(cfg, run) ==> CreatesAtMostOnce(cfg, Last(run))) <==> Disciplined(cfg)
  {
    if Disciplined(cfg) {
      forall run, c | Run(cfg, run) && Enabled(cfg, Last(run), Happens(c, PublishLands))
        ensures !Last(run).clients[c].created
      {
        RunKeepsInv(cfg, run);
        if cfg.late {
          NothingDeleted(cfg, Last(run), Last(run).clients[c].key);
        }
        KeyCreatesAtMostOnce(cfg, run, c);
      }
    } else {
      var tr := PutThenDeleted(cfg);
      TraceIsRun(cfg, tr);
      assert Enabled(cfg, Last(tr.states), Happens(0, PublishLands));
    }
  }
}
