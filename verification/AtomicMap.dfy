/** The concurrent store simulates an atomic map: every step changes at most one key, and every definite answer was
    true at an instant of its own call. What a call's own effect has to do with its answer is the subject of
    PutEffects. */
module AtomicMap {
  import opened Basics
  import opened Publication
  import opened PublicationSafety

  // ---- each step is at most one atomic change

  /** One key appears with a value, or one key disappears; nothing else changes. */
  ghost predicate Creates(s: State, t: State, key: Key, value: Content) {
    Value(s, key) == None && Value(t, key) == Some(value) && forall k :: k != key ==> Value(t, k) == Value(s, k)
  }

  ghost predicate Removes(s: State, t: State, key: Key) {
    Value(s, key).Some? && Value(t, key) == None && forall k :: k != key ==> Value(t, k) == Value(s, k)
  }

  ghost predicate Stutters(s: State, t: State) {
    forall k :: Value(t, k) == Value(s, k)
  }

  /** A Delete one of whose row deletions may still take effect, for the first time or once more. */
  predicate Removing(cfg: Config, cl: Client) {
    cl.op.Delete? && (cl.pc.RemovingRow? || (cfg.lingers && cl.asked != {}))
  }

  /** What a step may do to the map: only a Put's publication creates, with that Put's own content; only a Delete of the
      key removes, while its request is outstanding. */
  ghost predicate AtomicStep(cfg: Config, s: State, step: Step, t: State) {
    || Stutters(s, t)
    || (step.Happens? && step.event.PublishLands? && step.c in s.clients && s.clients[step.c].op.Put?
        && (Active(s, step.c) || cfg.late)
        && Creates(s, t, s.clients[step.c].key, ContentOf(cfg, s.clients[step.c].op.data)))
    || (step.Happens? && step.event.RowRemoved? && step.c in s.clients && Removing(cfg, s.clients[step.c])
        && Removes(s, t, s.clients[step.c].key))
  }

  lemma LandingIsAtomic(cfg: Config, s: State, c: Id)
    requires Inv(cfg, s) && Enabled(cfg, s, Happens(c, PublishLands))
    ensures Creates(s, Apply(cfg, s, Happens(c, PublishLands)), s.clients[c].key, ContentOf(cfg, s.clients[c].op.data))
  {
    assert ClientOk(cfg, s, s.clients[c]);
  }

  lemma RemovalIsAtomic(cfg: Config, s: State, t: State, r: Row)
    requires Inv(cfg, s) && t.rows == s.rows - {r}
    ensures Stutters(s, t) || Removes(s, t, r.key)
  {
    if r in s.rows {
      assert RowOk(s, r);
      assert Removes(s, t, r.key);
    } else {
      assert t.rows == s.rows;
    }
  }

  lemma StepIsAtomic(cfg: Config, s: State, step: Step)
    requires Inv(cfg, s) && Enabled(cfg, s, step)
    ensures AtomicStep(cfg, s, step, Apply(cfg, s, step))
  {
    if step.Happens? && step.event.PublishLands? {
      LandingIsAtomic(cfg, s, step.c);
    } else if step.Happens? && step.event.RowRemoved? {
      assert ClientOk(cfg, s, s.clients[step.c]);
      RemovalIsAtomic(cfg, s, Apply(cfg, s, step), step.event.row);
    } else {
      assert Apply(cfg, s, step).rows == s.rows;
    }
  }

  // ---- instants of a call

  /** At some instant while call c was running, the key had this value. */
  ghost predicate Saw(run: seq<State>, c: Id, key: Key, value: Option<Content>) {
    exists i :: 0 <= i < |run| && Active(run[i], c) && Value(run[i], key) == value
  }

  /** At some instant while call c was running, the key had a value, and not this one. */
  ghost predicate SawOther(run: seq<State>, c: Id, key: Key, value: Content) {
    exists i :: 0 <= i < |run| && Active(run[i], c) && Value(run[i], key).Some? && Value(run[i], key) != Some(value)
  }

  /** The legacy row is the only thing that can keep a key present once its current row was seen absent. */
  ghost predicate AbsentOrLegacy(run: seq<State>, c: Id, key: Key)
    requires run != []
  {
    Saw(run, c, key, None) || Row(true, key) in Last(run).rows
  }

  /** What a call's progress says about the instants it has lived through. */
  ghost predicate Witnessed(cfg: Config, run: seq<State>, c: Id, cl: Client)
    requires run != []
  {
    match cl.op
    case Put(data, _) =>
      var mine := ContentOf(cfg, data);
      && (cl.created && Active(Last(run), c) ==> Saw(run, c, cl.key, Some(mine)))
      && (cl.pc in {CleaningUp(Ok), Done(Ok)} ==> Saw(run, c, cl.key, Some(mine)))
      && (cl.pc in {CleaningUp(Conflict), Done(Conflict)} ==> SawOther(run, c, cl.key, mine))
    case Get =>
      && (cl.pc.Reading? && cl.pc.legacy ==> AbsentOrLegacy(run, c, cl.key))
      && (cl.pc.OpeningPayload? ==> Saw(run, c, cl.key, Some(cl.pc.m.content)))
      && (cl.pc.Done? && cl.pc.outcome.Found? ==> Saw(run, c, cl.key, Some(cl.pc.outcome.m.content)))
      && (cl.pc == Done(NotFound) ==> Saw(run, c, cl.key, None))
    case Delete =>
      && (cl.pc.Reading? && cl.pc.legacy ==> AbsentOrLegacy(run, c, cl.key))
      && (cl.pc.RemovingRow? && !cl.pc.legacy && cl.pc.removed ==> AbsentOrLegacy(run, c, cl.key))
      && (cl.pc.RemovingRow? && cl.pc.legacy ==> AbsentOrLegacy(run, c, cl.key))
      && (cl.pc.RemovingRow? && cl.pc.legacy && cl.pc.removed ==> Saw(run, c, cl.key, None))
      && (cl.pc == Done(Ok) ==> Saw(run, c, cl.key, None))
  }

  ghost predicate AllWitnessed(cfg: Config, run: seq<State>)
    requires run != []
  {
    forall c :: c in Last(run).clients ==> Witnessed(cfg, run, c, Last(run).clients[c])
  }

  lemma SawLater(run: seq<State>, t: State, c: Id, key: Key)
    ensures forall v :: Saw(run, c, key, v) ==> Saw(run + [t], c, key, v)
    ensures forall v :: SawOther(run, c, key, v) ==> SawOther(run + [t], c, key, v)
  {
    forall v | Saw(run, c, key, v) ensures Saw(run + [t], c, key, v) {
      var i :| 0 <= i < |run| && Active(run[i], c) && Value(run[i], key) == v;
      assert (run + [t])[i] == run[i];
    }
    forall v | SawOther(run, c, key, v) ensures SawOther(run + [t], c, key, v) {
      var i :| 0 <= i < |run| && Active(run[i], c) && Value(run[i], key).Some? && Value(run[i], key) != Some(v);
      assert (run + [t])[i] == run[i];
    }
  }

  /** A running call sees the state before a step, and, if it is still running, the state after. */
  lemma SawNow(run: seq<State>, c: Id, key: Key)
    requires run != [] && Active(Last(run), c)
    ensures Saw(run, c, key, Value(Last(run), key))
    ensures Value(Last(run), key).Some? ==>
              forall v :: v != Value(Last(run), key).value ==> SawOther(run, c, key, v)
  {
  }

  /** The two-candidate lookup in one piece: if the legacy row goes away, the key is absent at that instant, because
      no key ever has both rows. */
  lemma LegacyGoes(cfg: Config, run: seq<State>, step: Step, c: Id, key: Key)
    requires run != [] && Inv(cfg, Last(run)) && Enabled(cfg, Last(run), step)
    requires AbsentOrLegacy(run, c, key) && Active(Apply(cfg, Last(run), step), c)
    ensures AbsentOrLegacy(run + [Apply(cfg, Last(run), step)], c, key)
  {
    var s, t := Last(run), Apply(cfg, Last(run), step);
    SawLater(run, t, c, key);
    SawNow(run + [t], c, key);
    if Row(true, key) in s.rows && Row(true, key) !in t.rows {
      assert RowOk(s, Row(true, key));
      assert Value(t, key) == None;
    }
  }

  /** A call not involved in a step keeps its witnesses. */
  lemma OthersStayWitnessed(cfg: Config, run: seq<State>, step: Step, d: Id)
    requires run != [] && Inv(cfg, Last(run)) && Enabled(cfg, Last(run), step)
    requires d in Last(run).clients && (step.Happens? ==> step.c != d)
    requires Witnessed(cfg, run, d, Last(run).clients[d])
    ensures Witnessed(cfg, run + [Apply(cfg, Last(run), step)], d, Last(run).clients[d])
  {
    var s, t := Last(run), Apply(cfg, Last(run), step);
    var cl := s.clients[d];
    assert t.clients[d] == cl;
    SawLater(run, t, d, cl.key);
    if AbsentOrLegacy(run, d, cl.key) && Active(t, d) {
      LegacyGoes(cfg, run, step, d, cl.key);
    }
  }

  /** A Put that reads a manifest answers by what the key holds at this instant. */
  lemma PutReadIsWitnessed(cfg: Config, run: seq<State>, t: State, c: Id, event: Event)
    requires run != [] && Inv(cfg, Last(run)) && Enabled(cfg, Last(run), Happens(c, event))
    requires (event.Head? || event.Fetch?) && Last(run).clients[c].op.Put?
    requires Witnessed(cfg, run, c, Last(run).clients[c])
    ensures Witnessed(cfg, run + [t], c, ClientAfter(cfg, Last(run), Last(run).clients[c], event))
  {
    var s, cl := Last(run), Last(run).clients[c];
    SawLater(run, t, c, cl.key);
    SawNow(run, c, cl.key);
    if event.Fetch? {
      assert RowOk(s, Target(cl));
    }
  }

  /** So does a lookup's next move. */
  lemma LookupIsWitnessed(cfg: Config, run: seq<State>, t: State, c: Id, event: Event)
    requires run != [] && Inv(cfg, Last(run)) && Enabled(cfg, Last(run), Happens(c, event)) && t.rows == Last(run).rows
    requires (event.Head? || event.Fetch?) && !Last(run).clients[c].op.Put?
    requires Witnessed(cfg, run, c, Last(run).clients[c])
    ensures Witnessed(cfg, run + [t], c, ClientAfter(cfg, Last(run), Last(run).clients[c], event))
  {
    var s, cl := Last(run), Last(run).clients[c];
    assert ClientOk(cfg, s, cl);
    SawLater(run, t, c, cl.key);
    SawNow(run, c, cl.key);
    if event.Fetch? {
      assert RowOk(s, Target(cl));
    }
    if Row(true, cl.key) in s.rows {
      assert RowOk(s, Row(true, cl.key));
    }
  }

  lemma ReadIsWitnessed(cfg: Config, run: seq<State>, c: Id, event: Event)
    requires run != [] && Inv(cfg, Last(run)) && Enabled(cfg, Last(run), Happens(c, event))
    requires event.Head? || event.Fetch?
    requires Witnessed(cfg, run, c, Last(run).clients[c])
    ensures Witnessed(cfg, run + [Apply(cfg, Last(run), Happens(c, event))], c,
                      ClientAfter(cfg, Last(run), Last(run).clients[c], event))
  {
    var t := Apply(cfg, Last(run), Happens(c, event));
    if Last(run).clients[c].op.Put? {
      PutReadIsWitnessed(cfg, run, t, c, event);
    } else {
      LookupIsWitnessed(cfg, run, t, c, event);
    }
  }

  lemma PutIsWitnessed(cfg: Config, run: seq<State>, c: Id, event: Event)
    requires run != [] && Inv(cfg, Last(run)) && Enabled(cfg, Last(run), Happens(c, event))
    requires !event.Head? && !event.Fetch? && Last(run).clients[c].op.Put?
    requires Witnessed(cfg, run, c, Last(run).clients[c])
    ensures Witnessed(cfg, run + [Apply(cfg, Last(run), Happens(c, event))], c,
                      ClientAfter(cfg, Last(run), Last(run).clients[c], event))
  {
    var s, t := Last(run), Apply(cfg, Last(run), Happens(c, event));
    var cl := s.clients[c];
    assert ClientOk(cfg, s, cl);
    SawLater(run, t, c, cl.key);
    if event.PublishLands? && Active(t, c) {
      SawNow(run + [t], c, cl.key);
    }
  }

  lemma GetOrDeleteIsWitnessed(cfg: Config, run: seq<State>, c: Id, event: Event)
    requires run != [] && Inv(cfg, Last(run)) && Enabled(cfg, Last(run), Happens(c, event))
    requires !event.Head? && !event.Fetch? && !Last(run).clients[c].op.Put?
    requires Witnessed(cfg, run, c, Last(run).clients[c])
    ensures Witnessed(cfg, run + [Apply(cfg, Last(run), Happens(c, event))], c,
                      ClientAfter(cfg, Last(run), Last(run).clients[c], event))
  {
    var s, t := Last(run), Apply(cfg, Last(run), Happens(c, event));
    var cl := s.clients[c];
    assert ClientOk(cfg, s, cl);
    SawLater(run, t, c, cl.key);
    if Row(true, cl.key) in s.rows {
      assert RowOk(s, Row(true, cl.key));
    }
    if event.RowRemoved? && Active(t, c) {
      SawNow(run + [t], c, cl.key);
      if AbsentOrLegacy(run, c, cl.key) {
        LegacyGoes(cfg, run, Happens(c, event), c, cl.key);
      }
    }
  }

  lemma StepKeepsWitnesses(cfg: Config, run: seq<State>, step: Step)
    requires run != [] && Inv(cfg, Last(run)) && Enabled(cfg, Last(run), step)
    requires AllWitnessed(cfg, run)
    ensures AllWitnessed(cfg, run + [Apply(cfg, Last(run), step)])
  {
    var s, t := Last(run), Apply(cfg, Last(run), step);
    forall d | d in t.clients ensures Witnessed(cfg, run + [t], d, t.clients[d]) {
      if step.Happens? && step.c == d {
        if step.event.Head? || step.event.Fetch? {
          ReadIsWitnessed(cfg, run, d, step.event);
        } else if s.clients[d].op.Put? {
          PutIsWitnessed(cfg, run, d, step.event);
        } else {
          GetOrDeleteIsWitnessed(cfg, run, d, step.event);
        }
      } else if d in s.clients {
        OthersStayWitnessed(cfg, run, step, d);
      }
    }
  }

  lemma {:induction false} RunIsWitnessed(cfg: Config, run: seq<State>)
    requires Run(cfg, run)
    ensures AllWitnessed(cfg, run)
  {
    if |run| > 1 {
      var before := run[..|run| - 1];
      var step := LastStep(cfg, run);
      RunKeepsInv(cfg, before);
      RunIsWitnessed(cfg, before);
      StepKeepsWitnesses(cfg, before, step);
      assert run == before + [Last(run)];
    }
  }

  /** What each definite answer means for an atomic map. */
  ghost predicate AnswerHolds(cfg: Config, run: seq<State>, c: Id, cl: Client, answer: Outcome) {
    match cl.op
    case Put(data, _) =>
      && (answer.Ok? ==> Saw(run, c, cl.key, Some(ContentOf(cfg, data))))
      && (answer.Conflict? ==> SawOther(run, c, cl.key, ContentOf(cfg, data)))
    case Get =>
      && (answer.Found? ==> Saw(run, c, cl.key, Some(answer.m.content)))
      && (answer.NotFound? ==> Saw(run, c, cl.key, None))
    case Delete =>
      answer.Ok? ==> Saw(run, c, cl.key, None)
  }

  /** One step of the store is one step, or none, of the atomic map. */
  ghost predicate AtomicNext(cfg: Config, s: State, t: State) {
    exists step :: Leads(cfg, s, step, t) && AtomicStep(cfg, s, step, t)
  }

  lemma RunIsAtomic(cfg: Config, run: seq<State>, i: nat)
    requires Run(cfg, run) && i < |run| - 1
    ensures AtomicNext(cfg, run[i], run[i + 1])
  {
    assert Next(cfg, run[i], run[i + 1]);
    var step :| Leads(cfg, run[i], step, run[i + 1]);
    RunKeepsInv(cfg, run[..i + 1]);
    StepIsAtomic(cfg, run[i], step);
  }

  lemma AnswersHold(cfg: Config, run: seq<State>, c: Id)
    requires Run(cfg, run) && c in Last(run).clients && Last(run).clients[c].pc.Done?
    ensures AnswerHolds(cfg, run, c, Last(run).clients[c], Last(run).clients[c].pc.outcome)
  {
    RunIsWitnessed(cfg, run);
    assert Witnessed(cfg, run, c, Last(run).clients[c]);
  }

  /** In every run of any number of clients, with requests failing or losing their acknowledgements, the store
      simulates an atomic map whose entries only go from absent to a value and back; and whenever a call answers
      definitely, there was an instant during the call at which the map held what the answer says. In particular the
      lookup over two rows and the removal of two rows each have one such instant. */
  lemma SimulatesAtomicMap(cfg: Config, run: seq<State>)
    requires Run(cfg, run)
    ensures forall i :: 0 <= i < |run| - 1 ==> AtomicNext(cfg, run[i], run[i + 1])
    ensures forall c :: c in Last(run).clients && Last(run).clients[c].pc.Done? ==>
              AnswerHolds(cfg, run, c, Last(run).clients[c], Last(run).clients[c].pc.outcome)
  {
    forall i | 0 <= i < |run| - 1 ensures AtomicNext(cfg, run[i], run[i + 1]) {
      RunIsAtomic(cfg, run, i);
    }
    forall c | c in Last(run).clients && Last(run).clients[c].pc.Done?
      ensures AnswerHolds(cfg, run, c, Last(run).clients[c], Last(run).clients[c].pc.outcome)
    {
      AnswersHold(cfg, run, c);
    }
  }

  // ---- undisturbed keys

  /** A Delete that is running, or one of whose row deletions may still take effect. */
  predicate Threatens(cfg: Config, cl: Client) {
    cl.op.Delete? && (!cl.pc.Done? || Removing(cfg, cl))
  }

  /** No Delete of the key is running or outstanding at any instant from i on. */
  ghost predicate NoDeleteFrom(cfg: Config, run: seq<State>, i: nat, key: Key) {
    forall k, d :: i <= k < |run| && d in run[k].clients && Threatens(cfg, run[k].clients[d])
      ==> run[k].clients[d].key != key
  }

  lemma StepKeepsValue(cfg: Config, s: State, t: State, key: Key)
    requires AtomicNext(cfg, s, t) && Value(s, key).Some?
    requires forall d :: d in s.clients && Threatens(cfg, s.clients[d]) ==> s.clients[d].key != key
    ensures Value(t, key) == Value(s, key)
  {
    var step :| Leads(cfg, s, step, t) && AtomicStep(cfg, s, step, t);
    if !Stutters(s, t) {
      var k := s.clients[step.c].key;
      assert k != key;
    }
  }

  lemma ValueStaysNext(cfg: Config, run: seq<State>, key: Key, i: nat, m: nat)
    requires Run(cfg, run) && i <= m < |run| - 1 && Value(run[m], key).Some? && NoDeleteFrom(cfg, run, i, key)
    ensures Value(run[m + 1], key) == Value(run[m], key)
  {
    RunIsAtomic(cfg, run, m);
    assert forall d :: d in run[m].clients && Threatens(cfg, run[m].clients[d]) ==> run[m].clients[d].key != key;
    StepKeepsValue(cfg, run[m], run[m + 1], key);
  }

  lemma {:induction false} Persists(run: seq<State>, key: Key, i: nat, k: nat)
    requires i <= k < |run| && Value(run[i], key).Some?
    requires forall m :: i <= m < |run| - 1 && Value(run[m], key).Some? ==> Value(run[m + 1], key) == Value(run[m], key)
    ensures Value(run[k], key) == Value(run[i], key)
    decreases k
  {
    if i < k {
      Persists(run, key, i, k - 1);
      var m := k - 1;
      assert Value(run[m + 1], key) == Value(run[m], key);
    }
  }

  /** Meanwhile a value stays: nothing overwrites it. */
  lemma ValueStays(cfg: Config, run: seq<State>, key: Key, i: nat, k: nat)
    requires Run(cfg, run) && i <= k < |run| && Value(run[i], key).Some? && NoDeleteFrom(cfg, run, i, key)
    ensures Value(run[k], key) == Value(run[i], key)
  {
    forall m | i <= m < |run| - 1 && Value(run[m], key).Some? ensures Value(run[m + 1], key) == Value(run[m], key) {
      ValueStaysNext(cfg, run, key, i, m);
    }
    Persists(run, key, i, k);
  }

  /** No Delete of the key has been running or outstanding at any instant since Put p was called. */
  ghost predicate Undisturbed(cfg: Config, run: seq<State>, p: Id, key: Key) {
    forall i :: 0 <= i < |run| && p in run[i].clients ==> NoDeleteFrom(cfg, run, i, key)
  }

  lemma NothingThreatens(cfg: Config, run: seq<State>)
    requires !cfg.deletes && Run(cfg, run)
    ensures forall i, key :: 0 <= i < |run| ==> NoDeleteFrom(cfg, run, i, key)
  {
    forall k, d | 0 <= k < |run| && d in run[k].clients ensures !run[k].clients[d].op.Delete? {
      RunKeepsInv(cfg, run[..k + 1]);
      assert ClientOk(cfg, run[k], run[k].clients[d]);
    }
  }
}
