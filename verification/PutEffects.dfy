/** What a call does to the atomic map against what it answers: exactly when a conflict means that nothing was
    created, and linearizability of every key on which Delete is not called. */
module PutEffects {
  import opened Basics
  import opened Publication
  import opened PublicationSafety
  import opened PublicationRaces
  import opened Traces
  import opened AtomicMap

  predicate Answers(pc: Pc, outcome: Outcome) {
    pc == Done(outcome) || pc == CleaningUp(outcome)
  }

  /** A Put that has learnt, or said, whether the key holds its content. */
  predicate Definite(pc: Pc) {
    Answers(pc, Ok) || Answers(pc, Conflict)
  }

  // ---- the step at which a Put created

  ghost predicate CreatedAt(cfg: Config, run: seq<State>, c: Id, cl: Client, i: nat) {
    && cl.op.Put? && i + 1 < |run|
    && c in run[i].clients && !run[i].clients[c].created && c in run[i + 1].clients && run[i + 1].clients[c].created
    && Creates(run[i], run[i + 1], cl.key, ContentOf(cfg, cl.op.data))
  }

  lemma LandingCreates(cfg: Config, run: seq<State>, step: Step, c: Id)
    requires Run(cfg, run) && |run| > 1 && Leads(cfg, run[|run| - 2], step, Last(run))
    requires c in Last(run).clients && Last(run).clients[c].created
    requires c in run[|run| - 2].clients ==> !run[|run| - 2].clients[c].created
    ensures CreatedAt(cfg, run, c, Last(run).clients[c], |run| - 2)
  {
    var s := run[|run| - 2];
    assert c in s.clients;
    ClientFrame(cfg, s, step, c);
    RunKeepsInv(cfg, run[..|run| - 1]);
    assert run[..|run| - 1][|run| - 2] == s;
    assert ClientOk(cfg, s, s.clients[c]);
    LandingIsAtomic(cfg, s, c);
  }

  lemma {:induction false} FirstCreation(cfg: Config, run: seq<State>, c: Id) returns (i: nat)
    requires Run(cfg, run) && c in Last(run).clients && Last(run).clients[c].created
    ensures CreatedAt(cfg, run, c, Last(run).clients[c], i)
    decreases |run|
  {
    var step := LastStep(cfg, run);
    var before := run[..|run| - 1];
    if c in Last(before).clients && Last(before).clients[c].created {
      i := FirstCreation(cfg, before, c);
      ClientFrame(cfg, Last(before), step, c);
    } else {
      LandingCreates(cfg, run, step, c);
      i := |run| - 2;
    }
  }

  // ---- conflicts

  lemma CreationIsSeen(cfg: Config, run: seq<State>, c: Id, cl: Client, i: nat)
    requires CreatedAt(cfg, run, c, cl, i)
    ensures cl.op.Put? && i + 1 < |run| && c in run[i + 1].clients
    ensures Value(run[i + 1], cl.key) == Some(ContentOf(cfg, cl.op.data))
  {
  }

  /** What an undisturbed Put has created is what the key holds. */
  lemma CreationStands(cfg: Config, run: seq<State>, p: Id)
    requires Run(cfg, run) && p in Last(run).clients && Last(run).clients[p].created
    requires Undisturbed(cfg, run, p, Last(run).clients[p].key)
    ensures var put := Last(run).clients[p];
            put.op.Put? && Value(Last(run), put.key) == Some(ContentOf(cfg, put.op.data))
  {
    var put := Last(run).clients[p];
    var i := FirstCreation(cfg, run, p);
    CreationIsSeen(cfg, run, p, put, i);
    assert NoDeleteFrom(cfg, run, i + 1, put.key);
    ValueStays(cfg, run, put.key, i + 1, |run| - 1);
  }

  /** And what it has seen there is there still. */
  lemma SightStands(cfg: Config, run: seq<State>, p: Id, key: Key, value: Content)
    requires Run(cfg, run) && Undisturbed(cfg, run, p, key) && SawOther(run, p, key, value)
    ensures Value(Last(run), key) != Some(value)
  {
    var j :| 0 <= j < |run| && Active(run[j], p) && Value(run[j], key).Some? && Value(run[j], key) != Some(value);
    ValueStays(cfg, run, key, j, |run| - 1);
  }

  /** A Put that comes to a conflict, with no Delete of its key running or outstanding since it was called, has created
      nothing. Said of all runs, it also says that the Put never will. */
  lemma UndisturbedConflictCreatesNothing(cfg: Config, run: seq<State>, p: Id)
    requires Run(cfg, run) && p in Last(run).clients
    requires var put := Last(run).clients[p];
             put.op.Put? && Answers(put.pc, Conflict) && Undisturbed(cfg, run, p, put.key)
    ensures !Last(run).clients[p].created
  {
    var put := Last(run).clients[p];
    if put.created {
      RunIsWitnessed(cfg, run);
      assert Witnessed(cfg, run, p, put);
      SightStands(cfg, run, p, put.key, ContentOf(cfg, put.op.data));
      CreationStands(cfg, run, p);
    }
  }

  /** A Put's row is created and the acknowledgement lost; a Delete removes the row and another Put stores one byte;
      the first Put reads that back. */
  lemma ConflictAfterCreation(cfg: Config) returns (run: seq<State>)
    requires cfg.deletes
    ensures Run(cfg, run) && 0 in Last(run).clients
    ensures Last(run).clients[0] == Client(Put([], A), K, CleaningUp(Conflict), true, true, {})
  {
    var root := From(EMPTY);
    var tr := Stages(cfg, root, root, 0, K, [], A);
    tr := Lands(cfg, tr, 0);
    tr := Deletes(cfg, tr, 1, K);
    tr := Stages(cfg, tr, tr, 2, K, [0], C);
    tr := Lands(cfg, tr, 2);
    tr := ReadsBack(cfg, tr, tr, 0);
    TraceIsRun(cfg, tr);
    run := tr.states;
  }

  ghost predicate ConflictsCreateNothing(s: State) {
    forall c :: c in s.clients && s.clients[c].op.Put? && Answers(s.clients[c].pc, Conflict) ==> !s.clients[c].created
  }

  /** Whether publish requests are late or not, conflicts create nothing, in every run, exactly when nothing is ever
      deleted. */
  lemma ConflictsCreateNothingIff(cfg: Config)
    ensures (forall run :: Run(cfg, run) ==> ConflictsCreateNothing(Last(run))) <==> !cfg.deletes
  {
    if cfg.deletes {
      var run := ConflictAfterCreation(cfg);
      assert !ConflictsCreateNothing(Last(run));
    } else {
      forall run | Run(cfg, run) ensures ConflictsCreateNothing(Last(run)) {
        NothingThreatens(cfg, run);
        forall p | p in Last(run).clients && Last(run).clients[p].op.Put? && Answers(Last(run).clients[p].pc, Conflict)
          ensures !Last(run).clients[p].created
        {
          UndisturbedConflictCreatesNothing(cfg, run, p);
        }
      }
    }
  }

  // ---- a key on which Delete is not called

  /** A Put that has learnt what the key holds finds it holding something for good. */
  ghost predicate Settled(s: State, cl: Client) {
    cl.op.Put? && Definite(cl.pc) ==> Value(s, cl.key).Some?
  }

  lemma ActorSettles(cfg: Config, s: State, cl: Client, event: Event)
    requires Inv(cfg, s) && ClientOk(cfg, s, cl) && cl.op.Put? && Settled(s, cl) && CreatedStands(cfg, s, cl)
    requires ClientEnabled(cfg, s, cl, event)
    ensures Settled(s, ClientAfter(cfg, s, cl, event))
  {
  }

  lemma ValueGrows(cfg: Config, s: State, step: Step, key: Key)
    requires Inv(cfg, s) && Enabled(cfg, s, step) && Undeleted(s, key) && Value(s, key).Some?
    ensures Value(Apply(cfg, s, step), key).Some?
  {
    RowsGrow(cfg, s, step, Row(Row(false, key) !in s.rows, key));
  }

  lemma {:induction false} PutSettles(cfg: Config, run: seq<State>, c: Id)
    requires Run(cfg, run) && c in Last(run).clients && Undeleted(Last(run), Last(run).clients[c].key)
    ensures Settled(Last(run), Last(run).clients[c])
  {
    if |run| > 1 {
      var before := run[..|run| - 1];
      var step := LastStep(cfg, run);
      var s, key := Last(before), Last(run).clients[c].key;
      if c in s.clients {
        ClientFrame(cfg, s, step, c);
        UndeletedBefore(cfg, s, step, key);
        PutSettles(cfg, before, c);
        CreatedRowStands(cfg, before, c);
        RunKeepsInv(cfg, before);
        assert ClientOk(cfg, s, s.clients[c]);
        StepFrame(cfg, s, step, c);
        if step.Happens? && step.c == c && s.clients[c].op.Put? {
          ActorSettles(cfg, s, s.clients[c], step.event);
        }
        if Value(s, key).Some? {
          ValueGrows(cfg, s, step, key);
        }
      }
    }
  }

  /** A client later in the run. */
  lemma {:induction false} ClientLater(cfg: Config, run: seq<State>, c: Id, i: nat)
    requires Run(cfg, run) && i < |run| && c in run[i].clients
    ensures c in Last(run).clients
    ensures var cl, later := run[i].clients[c], Last(run).clients[c];
            && later.op == cl.op && later.key == cl.key && (cl.created ==> later.created)
            && (cl.op.Put? && cl.pc.Done? ==> later.pc == cl.pc)
    decreases |run|
  {
    if i < |run| - 1 {
      var step := LastStep(cfg, run);
      var before := run[..|run| - 1];
      ClientLater(cfg, before, c, i);
      ClientFrame(cfg, Last(before), step, c);
    }
  }

  /** Such a Put created while it was running, if it is running still or has a definite answer. */
  lemma CreationIsActive(cfg: Config, run: seq<State>, c: Id, i: nat)
    requires Run(cfg, run) && c in Last(run).clients && Undeleted(Last(run), Last(run).clients[c].key)
    requires CreatedAt(cfg, run, c, Last(run).clients[c], i) && Definite(Last(run).clients[c].pc)
    ensures Active(run[i], c)
  {
    ClientLater(cfg, run, c, i);
    if run[i].clients[c].pc.Done? {
      UndeletedEarlier(cfg, run, i, Last(run).clients[c].key);
      assert Run(cfg, run[..i + 1]) && Last(run[..i + 1]) == run[i];
      PutSettles(cfg, run[..i + 1], c);
      assert false;
    }
  }

  lemma UndeletedIsUndisturbed(cfg: Config, run: seq<State>, p: Id, key: Key)
    requires Run(cfg, run) && Undeleted(Last(run), key)
    ensures Undisturbed(cfg, run, p, key)
  {
    forall k, d | 0 <= k < |run| && d in run[k].clients && run[k].clients[d].op.Delete?
      ensures run[k].clients[d].key != key
    {
      UndeletedEarlier(cfg, run, k, key);
    }
  }

  /** The call acted on the atomic map at instant i, as its answer says: a Put that created did so then, and answered
      nil; any other Put found its own or another value; a lookup found what it reports. */
  ghost predicate ActsAt(cfg: Config, run: seq<State>, c: Id, cl: Client, answer: Outcome, i: nat) {
    && i < |run| && Active(run[i], c)
    && var value := Value(run[i], cl.key);
       match cl.op
       case Put(data, _) =>
         if cl.created then answer.Ok? && CreatedAt(cfg, run, c, cl, i)
         else value.Some? && (answer.Ok? <==> value == Some(ContentOf(cfg, data)))
       case Get =>
         value == if answer.Found? then Some(answer.m.content) else None
       case Delete => false
  }

  ghost predicate Linearized(cfg: Config, run: seq<State>, c: Id, cl: Client, answer: Outcome) {
    exists i: nat :: ActsAt(cfg, run, c, cl, answer, i)
  }

  /** A change of the key's value is the first creation of some Put of the key, of its own content, and that Put does
      not answer that it conflicted. */
  ghost predicate ChangeIsOwned(cfg: Config, run: seq<State>, i: nat, key: Key)
    requires i + 1 < |run|
  {
    || Value(run[i], key) == Value(run[i + 1], key)
    || exists c ::
         && c in Last(run).clients && Last(run).clients[c].key == key
         && CreatedAt(cfg, run, c, Last(run).clients[c], i)
         && !Answers(Last(run).clients[c].pc, Conflict)
  }

  /** Every answer but an error. */
  predicate IsDefinite(op: Op, answer: Outcome) {
    match op
    case Put(_, _) => answer.Ok? || answer.Conflict?
    case Get => answer.Found? || answer.NotFound?
    case Delete => answer.Ok?
  }

  lemma PutIsLinearized(cfg: Config, run: seq<State>, c: Id)
    requires Run(cfg, run) && c in Last(run).clients && Last(run).clients[c].op.Put?
    requires Undeleted(Last(run), Last(run).clients[c].key) && Last(run).clients[c].pc in {Done(Ok), Done(Conflict)}
    ensures Linearized(cfg, run, c, Last(run).clients[c], Last(run).clients[c].pc.outcome)
  {
    var cl := Last(run).clients[c];
    if cl.created {
      var i := FirstCreation(cfg, run, c);
      CreationIsActive(cfg, run, c, i);
      UndeletedIsUndisturbed(cfg, run, c, cl.key);
      if cl.pc == Done(Conflict) {
        UndisturbedConflictCreatesNothing(cfg, run, c);
      }
      assert ActsAt(cfg, run, c, cl, cl.pc.outcome, i);
    } else {
      AnswersHold(cfg, run, c);
      var mine := ContentOf(cfg, cl.op.data);
      var i :| 0 <= i < |run| && Active(run[i], c) && Value(run[i], cl.key).Some?
               && (cl.pc.outcome.Ok? <==> Value(run[i], cl.key) == Some(mine));
      assert ActsAt(cfg, run, c, cl, cl.pc.outcome, i);
    }
  }

  lemma GetIsLinearized(cfg: Config, run: seq<State>, c: Id)
    requires Run(cfg, run) && c in Last(run).clients && Last(run).clients[c].op.Get?
    requires Last(run).clients[c].pc.Done? && IsDefinite(Get, Last(run).clients[c].pc.outcome)
    ensures Linearized(cfg, run, c, Last(run).clients[c], Last(run).clients[c].pc.outcome)
  {
    var cl := Last(run).clients[c];
    var answer := cl.pc.outcome;
    AnswersHold(cfg, run, c);
    var i :| 0 <= i < |run| && Active(run[i], c)
             && Value(run[i], cl.key) == if answer.Found? then Some(answer.m.content) else None;
    assert ActsAt(cfg, run, c, cl, answer, i);
  }

  /** Only a publication changes the value of such a key. */
  lemma ChangeIsLanding(cfg: Config, s: State, step: Step, key: Key)
    requires Inv(cfg, s) && Enabled(cfg, s, step) && Undeleted(s, key)
    requires Value(s, key) != Value(Apply(cfg, s, step), key)
    ensures step.Happens? && step.event.PublishLands? && s.clients[step.c].key == key && s.clients[step.c].op.Put?
    ensures Creates(s, Apply(cfg, s, step), key, ContentOf(cfg, s.clients[step.c].op.data))
  {
    StepIsAtomic(cfg, s, step);
  }

  /** A landing on such a key is its Put's first, and belongs to a Put that does not come to a conflict. */
  lemma LandingIsOwned(cfg: Config, run: seq<State>, i: nat, c: Id)
    requires Run(cfg, run) && i < |run| - 1 && Leads(cfg, run[i], Happens(c, PublishLands), run[i + 1])
    requires Undeleted(Last(run), run[i].clients[c].key)
    ensures !run[i].clients[c].created && c in run[i + 1].clients && run[i + 1].clients[c].created
    ensures c in Last(run).clients && Last(run).clients[c].op == run[i].clients[c].op
            && Last(run).clients[c].key == run[i].clients[c].key
            && !Answers(Last(run).clients[c].pc, Conflict)
  {
    var key := run[i].clients[c].key;
    UndeletedEarlier(cfg, run, i, key);
    assert Run(cfg, run[..i + 1]) && Last(run[..i + 1]) == run[i];
    KeyCreatesAtMostOnce(cfg, run[..i + 1], c);
    ClientFrame(cfg, run[i], Happens(c, PublishLands), c);
    ClientLater(cfg, run, c, i + 1);
    UndeletedIsUndisturbed(cfg, run, c, key);
    if Answers(Last(run).clients[c].pc, Conflict) {
      UndisturbedConflictCreatesNothing(cfg, run, c);
    }
  }

  /** The landing behind a change. */
  lemma LandingBehind(cfg: Config, run: seq<State>, i: nat, key: Key) returns (c: Id)
    requires Run(cfg, run) && i < |run| - 1 && Undeleted(Last(run), key)
    requires Value(run[i], key) != Value(run[i + 1], key)
    ensures Leads(cfg, run[i], Happens(c, PublishLands), run[i + 1])
    ensures run[i].clients[c].key == key && run[i].clients[c].op.Put?
            && Creates(run[i], run[i + 1], key, ContentOf(cfg, run[i].clients[c].op.data))
  {
    assert Next(cfg, run[i], run[i + 1]);
    var step :| Leads(cfg, run[i], step, run[i + 1]);
    assert Run(cfg, run[..i + 1]) && Last(run[..i + 1]) == run[i];
    RunKeepsInv(cfg, run[..i + 1]);
    UndeletedEarlier(cfg, run, i, key);
    ChangeIsLanding(cfg, run[i], step, key);
    c := step.c;
    assert step == Happens(c, PublishLands);
  }

  lemma ChangesAreOwned(cfg: Config, run: seq<State>, i: nat, key: Key)
    requires Run(cfg, run) && i < |run| - 1 && Undeleted(Last(run), key)
    ensures ChangeIsOwned(cfg, run, i, key)
  {
    if Value(run[i], key) != Value(run[i + 1], key) {
      var c := LandingBehind(cfg, run, i, key);
      LandingIsOwned(cfg, run, i, c);
      assert CreatedAt(cfg, run, c, Last(run).clients[c], i);
    }
  }

  /** A key on which Delete is not called is linearizable, whatever happens to other keys and however late or often
      publish requests take effect: every definite answer has one instant of its call at which the call acted on the
      atomic map as it answers, and the key's value changes only where a Put acts, at most once and never one that
      reports a conflict. */
  lemma Linearizable(cfg: Config, run: seq<State>, key: Key)
    requires Run(cfg, run) && Undeleted(Last(run), key)
    ensures forall i :: 0 <= i < |run| - 1 ==> ChangeIsOwned(cfg, run, i, key)
    ensures forall c :: c in Last(run).clients && Last(run).clients[c].key == key && Last(run).clients[c].pc.Done?
                        && IsDefinite(Last(run).clients[c].op, Last(run).clients[c].pc.outcome)
              ==> Linearized(cfg, run, c, Last(run).clients[c], Last(run).clients[c].pc.outcome)
  {
    forall i | 0 <= i < |run| - 1 ensures ChangeIsOwned(cfg, run, i, key) {
      ChangesAreOwned(cfg, run, i, key);
    }
    forall c | c in Last(run).clients && Last(run).clients[c].key == key && Last(run).clients[c].pc.Done?
               && IsDefinite(Last(run).clients[c].op, Last(run).clients[c].pc.outcome)
      ensures Linearized(cfg, run, c, Last(run).clients[c], Last(run).clients[c].pc.outcome)
    {
      if Last(run).clients[c].op.Put? {
        PutIsLinearized(cfg, run, c);
      } else {
        GetIsLinearized(cfg, run, c);
      }
    }
  }
}
