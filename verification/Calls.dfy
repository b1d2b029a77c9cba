/** What a call comes to: it fails only by a fault, and undisturbed it gets through, with the effect it should have. */
module Calls {
  import opened Basics
  import opened Publication
  import opened PublicationSafety
  import opened Traces

  // ---- only faults fail

  predicate HasFailed(pc: Pc) {
    pc == CleaningUp(Failed) || pc == Done(Failed)
  }

  /** What makes call c fail: a request of it fails or it is cancelled, before it has anything to say; or a Put, reading
      back the manifest it could not tell whether it had published, finds none. */
  ghost predicate Faults(s: State, step: Step, c: Id) {
    && step.Happens? && step.c == c && c in s.clients
    && var cl := s.clients[c];
       || (step.event.Fails? && !cl.pc.CleaningUp?)
       || (step.event.Head? && cl.op.Put? && cl.pc == Reading(false, None) && Row(false, cl.key) !in s.rows)
  }

  lemma EventFails(cfg: Config, s: State, cl: Client, event: Event)
    requires ClientEnabled(cfg, s, cl, event)
    ensures HasFailed(ClientAfter(cfg, s, cl, event).pc) <==>
              || HasFailed(cl.pc)
              || (event.Fails? && !cl.pc.CleaningUp?)
              || (event.Head? && cl.op.Put? && cl.pc == Reading(false, None) && Row(false, cl.key) !in s.rows)
  {
  }

  lemma StepFails(cfg: Config, s: State, step: Step, c: Id)
    requires Enabled(cfg, s, step) && c in s.clients
    ensures c in Apply(cfg, s, step).clients
    ensures HasFailed(Apply(cfg, s, step).clients[c].pc) <==> HasFailed(s.clients[c].pc) || Faults(s, step, c)
  {
    StepFrame(cfg, s, step, c);
    if step.Happens? && step.c == c {
      EventFails(cfg, s, s.clients[c], step.event);
    }
  }

  ghost function ButLast(tr: Trace): Trace
    requires tr.states != [] && tr.steps != []
  {
    Trace(tr.states[..|tr.states| - 1], tr.steps[..|tr.steps| - 1])
  }

  ghost predicate Faulted(tr: Trace, c: Id)
    requires |tr.states| == |tr.steps| + 1
  {
    exists i :: 0 <= i < |tr.steps| && Faults(tr.states[i], tr.steps[i], c)
  }

  lemma FaultedGrows(tr: Trace, c: Id)
    requires |tr.states| == |tr.steps| + 1 && tr.steps != []
    ensures var n := |tr.steps| - 1;
            Faulted(tr, c) <==> Faulted(ButLast(tr), c) || Faults(tr.states[n], tr.steps[n], c)
  {
    var less := ButLast(tr);
    if Faulted(less, c) {
      var i :| 0 <= i < |less.steps| && Faults(less.states[i], less.steps[i], c);
      assert Faults(tr.states[i], tr.steps[i], c);
    }
    if Faulted(tr, c) && !Faults(tr.states[|tr.steps| - 1], tr.steps[|tr.steps| - 1], c) {
      var i :| 0 <= i < |tr.steps| && Faults(tr.states[i], tr.steps[i], c);
      assert Faults(less.states[i], less.steps[i], c);
    }
  }

  lemma {:induction false} NotYetCalled(cfg: Config, tr: Trace, c: Id)
    requires Valid(cfg, tr) && c !in End(tr).clients
    ensures !Faulted(tr, c)
    decreases |tr.steps|
  {
    if tr.steps != [] {
      var n := |tr.steps| - 1;
      assert Leads(cfg, tr.states[n], tr.steps[n], tr.states[n + 1]);
      if c in tr.states[n].clients {
        StepFrame(cfg, tr.states[n], tr.steps[n], c);
      }
      FaultedGrows(tr, c);
      NotYetCalled(cfg, ButLast(tr), c);
    }
  }

  /** Whatever the others do, a Put, Get or Delete ends in an error if and only if a fault of its own befell it. */
  lemma {:induction false} FailsIff(cfg: Config, tr: Trace, c: Id)
    requires Valid(cfg, tr) && c !in tr.states[0].clients && c in End(tr).clients
    ensures HasFailed(End(tr).clients[c].pc) <==> Faulted(tr, c)
    decreases |tr.steps|
  {
    var n := |tr.steps| - 1;
    var less := ButLast(tr);
    var s := tr.states[n];
    assert Leads(cfg, s, tr.steps[n], tr.states[n + 1]);
    FaultedGrows(tr, c);
    if c in s.clients {
      FailsIff(cfg, less, c);
      StepFails(cfg, s, tr.steps[n], c);
    } else {
      NotYetCalled(cfg, less, c);
    }
  }

  lemma DoneIsStill(cfg: Config, s: State, cl: Client, event: Event)
    requires ClientEnabled(cfg, s, cl, event) && cl.pc.Done?
    ensures ClientAfter(cfg, s, cl, event).pc == cl.pc
  {
  }

  /** Nothing a client does comes after its end. */
  lemma {:induction false} DoneStays(cfg: Config, tr: Trace, c: Id, i: nat)
    requires Valid(cfg, tr) && i < |tr.states| && c in tr.states[i].clients && tr.states[i].clients[c].pc.Done?
    ensures c in End(tr).clients && End(tr).clients[c].pc == tr.states[i].clients[c].pc
    decreases |tr.steps|
  {
    if i < |tr.steps| {
      var n := |tr.steps| - 1;
      DoneStays(cfg, ButLast(tr), c, i);
      assert Leads(cfg, tr.states[n], tr.steps[n], tr.states[n + 1]);
      StepFrame(cfg, tr.states[n], tr.steps[n], c);
      if tr.steps[n].Happens? && tr.steps[n].c == c {
        DoneIsStill(cfg, tr.states[n], tr.states[n].clients[c], tr.steps[n].event);
      }
    }
  }

  /** A cancelled call is over at once: in particular a cancelled Put does not go on to clean up. */
  lemma CancelledIsOver(cfg: Config, tr: Trace, c: Id, i: nat)
    requires Valid(cfg, tr) && i < |tr.steps| && tr.steps[i] == Happens(c, Fails(true))
    ensures c in End(tr).clients && End(tr).clients[c].pc.Done?
  {
    assert Leads(cfg, tr.states[i], tr.steps[i], tr.states[i + 1]);
    StepFrame(cfg, tr.states[i], tr.steps[i], c);
    DoneStays(cfg, tr, c, i + 1);
  }

  // ---- undisturbed calls

  lemma QuietIsFaultless(cfg: Config, root: Trace, tr: Trace)
    requires Extends(cfg, root, tr) && Faultless(root)
    ensures Faultless(tr)
  {
    forall i | 0 <= i < |tr.steps| ensures !Fault(tr.steps[i]) {
      if i < |root.steps| {
        assert tr.steps[i] == root.steps[i];
      }
    }
  }

  /** What an undisturbed Put comes to. */
  ghost function PutAnswer(cfg: Config, s: State, key: Key, data: Str): Outcome {
    if Value(s, key) in {None, Some(ContentOf(cfg, data))} then Ok else Conflict
  }

  /** Called and done, undisturbed, from state s on. */
  ghost predicate RunsTo(cfg: Config, s: State, tr: Trace, c: Id, op: Op, key: Key, answer: Outcome) {
    && Valid(cfg, tr) && tr.states[0] == s && Faultless(tr)
    && c in End(tr).clients && End(tr).clients[c].op == op && End(tr).clients[c].key == key
    && End(tr).clients[c].pc == Done(answer)
  }

  lemma PutCreates(cfg: Config, s: State, c: Id, key: Key, data: Str, a: Attempt) returns (tr: Trace)
    requires c !in s.clients && a !in s.used && a !in s.payloads && Value(s, key) == None
    ensures RunsTo(cfg, s, tr, c, Put(data, a), key, Ok)
    ensures End(tr).payloads == s.payloads[a := data] && End(tr).doomed == s.doomed
    ensures End(tr).rows == s.rows[Row(false, key) := Manifest(key, a, ContentOf(cfg, data))]
  {
    tr := Stages(cfg, From(s), From(s), c, key, data, a);
    QuietIsFaultless(cfg, From(s), tr);
    tr := Lands(cfg, tr, c);
    tr := Take(cfg, tr, Happens(c, PublishAcked));
  }

  lemma PutSettles(cfg: Config, s: State, c: Id, key: Key, data: Str, a: Attempt) returns (tr: Trace)
    requires Inv(cfg, s) && c !in s.clients && a !in s.used && a !in s.payloads && Value(s, key).Some?
    ensures RunsTo(cfg, s, tr, c, Put(data, a), key, PutAnswer(cfg, s, key, data))
    ensures End(tr).rows == s.rows && End(tr).payloads == s.payloads[a := data] && End(tr).doomed == s.doomed + {a}
  {
    var root := From(s);
    var row := Row(Row(false, key) !in s.rows, key);
    assert RowOk(s, row);
    if row.legacy {
      tr := SettlesByLegacy(cfg, root, root, c, key, data, a);
      tr := CleansUp(cfg, root, tr, c);
    } else {
      tr := PutFindsRow(cfg, root, root, c, key, data, a);
    }
    QuietIsFaultless(cfg, root, tr);
  }

  /** In any state an undisturbed Put of any key and any bytes gets through. If the key has no value it creates the
      key's current row and leaves all else alone; otherwise it answers by the value, and gives its payload up. */
  lemma PutRuns(cfg: Config, s: State, c: Id, key: Key, data: Str, a: Attempt) returns (tr: Trace)
    requires Inv(cfg, s) && c !in s.clients && a !in s.used
    ensures RunsTo(cfg, s, tr, c, Put(data, a), key, PutAnswer(cfg, s, key, data))
    ensures End(tr).payloads == s.payloads[a := data]
    ensures if Value(s, key) == None then
              && End(tr).rows == s.rows[Row(false, key) := Manifest(key, a, ContentOf(cfg, data))]
              && End(tr).doomed == s.doomed
            else
              End(tr).rows == s.rows && End(tr).doomed == s.doomed + {a}
  {
    if Value(s, key) == None {
      tr := PutCreates(cfg, s, c, key, data, a);
    } else {
      tr := PutSettles(cfg, s, c, key, data, a);
    }
  }

  /** A Delete deals with one candidate, if need be removing its row and dooming its payload. */
  lemma DeletesCandidate(cfg: Config, root: Trace, tr: Trace, d: Id) returns (ext: Trace)
    requires Extends(cfg, root, tr) && d in End(tr).clients && End(tr).clients[d].op.Delete?
    requires End(tr).clients[d].pc.Reading? && End(tr).clients[d].pc.etag == None
    requires var s := End(tr);
             var r := Target(s.clients[d]);
             r in s.rows ==> s.rows[r].key == r.key
    ensures Extends(cfg, root, ext) && d in End(ext).clients
    ensures var s, t := End(tr), End(ext);
            var cl, r := s.clients[d], Target(s.clients[d]);
            && t.clients[d] == cl.(pc := NextCandidate(cl, cl.pc.legacy), asked := t.clients[d].asked)
            && t.rows == s.rows - {r} && s.payloads == t.payloads
            && t.doomed == s.doomed + if r in s.rows then {s.rows[r].attempt} else {}
  {
    var r := Target(End(tr).clients[d]);
    if r in End(tr).rows {
      ext := Looks(cfg, root, tr, d);
      ext := TakesRow(cfg, root, ext, d, r);
      ext := Then(cfg, root, ext, Happens(d, RemovalAcked));
    } else {
      ext := Then(cfg, root, tr, Happens(d, Head));
    }
  }

  /** The payloads of a key's rows. */
  ghost function AttemptsOf(s: State, key: Key): set<Attempt> {
    set r | r in s.rows && r.key == key :: s.rows[r].attempt
  }

  /** The payload of a row, if it is there. */
  ghost function AttemptAt(s: State, r: Row): set<Attempt> {
    if r in s.rows then {s.rows[r].attempt} else {}
  }

  lemma AttemptsOfBoth(s: State, key: Key)
    ensures AttemptsOf(s, key) == AttemptAt(s, Row(false, key)) + AttemptAt(s, Row(true, key))
  {
    assert forall r :: r in s.rows && r.key == key ==> r == Row(false, key) || r == Row(true, key);
  }

  lemma DeletesBoth(cfg: Config, root: Trace, d: Id, key: Key) returns (tr: Trace)
    requires Valid(cfg, root) && Inv(cfg, End(root)) && d in End(root).clients
    requires End(root).clients[d] == Client(Delete, key, Reading(false, None), false, false, {})
    ensures Extends(cfg, root, tr) && d in End(tr).clients
    ensures End(tr).clients[d].op == Delete && End(tr).clients[d].key == key && End(tr).clients[d].pc == Done(Ok)
    ensures var s, t := End(root), End(tr);
            && t.rows == s.rows - {Row(false, key), Row(true, key)} && t.payloads == s.payloads
            && t.doomed == s.doomed + (AttemptAt(s, Row(false, key)) + AttemptAt(s, Row(true, key)))
  {
    var s := End(root);
    assert forall r :: r in s.rows ==> RowOk(s, r);
    tr := DeletesCandidate(cfg, root, root, d);
    if Long(key) {
      tr := DeletesCandidate(cfg, root, tr, d);
    }
  }

  /** In any state an undisturbed Delete of any key gets through: it removes whatever rows the key has, requests the
      deletion of their payloads, and leaves all else alone. */
  lemma DeleteRuns(cfg: Config, s: State, d: Id, key: Key) returns (tr: Trace)
    requires Inv(cfg, s) && d !in s.clients && cfg.deletes
    ensures RunsTo(cfg, s, tr, d, Delete, key, Ok)
    ensures End(tr).rows == s.rows - {Row(false, key), Row(true, key)} && Value(End(tr), key) == None
    ensures End(tr).doomed == s.doomed + AttemptsOf(s, key) && End(tr).payloads == s.payloads
  {
    StartKeepsInv(cfg, s, d, Delete, key);
    var root := Take(cfg, From(s), Starts(d, Delete, key));
    tr := DeletesBoth(cfg, root, d, key);
    QuietIsFaultless(cfg, root, tr);
    AttemptsOfBoth(s, key);
  }

  /** In any state an undisturbed Get of any key answers by the key's row, or that there is none; if there is one its
      payload must be there, with the promised length. */
  lemma GetRuns(cfg: Config, s: State, g: Id, key: Key) returns (tr: Trace, answer: Outcome)
    requires Inv(cfg, s) && g !in s.clients
    requires forall r :: r in s.rows && r.key == key ==>
               s.rows[r].attempt in s.payloads && |s.payloads[s.rows[r].attempt]| == s.rows[r].content.size
    ensures RunsTo(cfg, s, tr, g, Get, key, answer)
    ensures if Value(s, key) == None then answer == NotFound
            else answer == Found(s.rows[Row(Row(false, key) !in s.rows, key)])
    ensures End(tr) == s.(clients := End(tr).clients)
  {
    var root := From(s);
    if Value(s, key) == None {
      tr := GetMisses(cfg, root, root, g, key);
      answer := NotFound;
    } else {
      var row := Row(Row(false, key) !in s.rows, key);
      assert RowOk(s, row);
      tr := GetFinds(cfg, root, root, g, key, row.legacy);
      answer := Found(s.rows[row]);
    }
    QuietIsFaultless(cfg, root, tr);
  }
}
