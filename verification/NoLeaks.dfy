/** Nothing is left behind when nothing goes wrong. */
module NoLeaks {
  import opened Publication
  import opened PublicationSafety
  import opened PayloadSafety

  /** A step that gives no payload a chance to be forgotten: uploads commit something, though perhaps not what was sent,
      before they are acknowledged; publish requests are answered truthfully; and the requests of a Put that do fail,
      its call not being cancelled, are those of its verification and of its look for a legacy row. */
  ghost predicate Clean(s: State, step: Step) {
    match step
    case Starts(_, op, _) => !op.Delete?
    case Vanishes(_) => true
    case Happens(c, event) =>
      && c in s.clients
      && var cl := s.clients[c];
         match event
         case UploadLands(_) => cl.op.Put? && cl.pc.Uploading?
         case PublishLands => cl.pc.Publishing?
         case PublishUnsure => Row(false, cl.key) in s.rows && !cl.created
         case Fails(cancelled) =>
           !cl.op.Put? || (!cancelled && (cl.pc.Verifying? || (cl.pc.Reading? && cl.pc.legacy)))
         case _ => true
  }

  ghost predicate CleanNext(cfg: Config, s: State, t: State) {
    exists step :: Leads(cfg, s, step, t) && Clean(s, step)
  }

  ghost predicate CleanRun(cfg: Config, run: seq<State>) {
    && run != [] && Init(cfg, run[0])
    && forall i :: 0 <= i < |run| - 1 ==> CleanNext(cfg, run[i], run[i + 1])
  }

  ghost predicate Referenced(s: State, a: Attempt) {
    !Unreferenced(s, a)
  }

  /** A Put never returns leaving a payload that is neither referenced nor on its way out. */
  ghost predicate Tidy(s: State, cl: Client) {
    cl.op.Put? ==>
      && (cl.created ==> Referenced(s, cl.op.attempt))
      && (cl.pc.Reading? && !cl.pc.legacy ==> Row(false, cl.key) in s.rows)
      && (cl.pc.Done? ==> Referenced(s, cl.op.attempt) || cl.op.attempt in s.doomed)
  }

  ghost predicate AllTidy(s: State) {
    forall c :: c in s.clients ==> Tidy(s, s.clients[c])
  }

  /** Without Deletes references, too, only accumulate. */
  lemma ReferencesGrow(cfg: Config, s: State, step: Step)
    requires !cfg.deletes && Inv(cfg, s) && Enabled(cfg, s, step)
    ensures var t := Apply(cfg, s, step);
            && (forall r :: r in s.rows ==> r in t.rows && t.rows[r] == s.rows[r])
            && (forall a :: Referenced(s, a) ==> Referenced(t, a))
            && s.doomed <= t.doomed
  {
    var t := Apply(cfg, s, step);
    forall r | r in s.rows ensures r in t.rows && t.rows[r] == s.rows[r] {
      NothingDeleted(cfg, s, r.key);
      RowsGrow(cfg, s, step, r);
    }
    forall a | Referenced(s, a) ensures Referenced(t, a) {
      var r :| r in s.rows && s.rows[r].attempt == a;
      assert t.rows[r].attempt == a;
    }
  }

  lemma ActorStaysTidy(cfg: Config, s: State, c: Id, event: Event)
    requires !cfg.deletes && Inv(cfg, s) && c in s.clients && s.clients[c].op.Put? && Tidy(s, s.clients[c])
    requires Enabled(cfg, s, Happens(c, event)) && Clean(s, Happens(c, event))
    ensures var t := Apply(cfg, s, Happens(c, event));
            Tidy(t, t.clients[c])
  {
    var cl, t := s.clients[c], Apply(cfg, s, Happens(c, event));
    assert ClientOk(cfg, s, cl);
    ReferencesGrow(cfg, s, Happens(c, event));
    if event.PublishLands? {
      assert t.rows[Row(false, cl.key)].attempt == cl.op.attempt;
    } else if event.Fetch? {
      assert s.rows[Target(cl)].attempt == cl.op.attempt ==> Referenced(s, cl.op.attempt);
    }
  }

  lemma StepKeepsTidy(cfg: Config, s: State, step: Step)
    requires !cfg.deletes && Inv(cfg, s) && AllTidy(s) && Enabled(cfg, s, step) && Clean(s, step)
    ensures AllTidy(Apply(cfg, s, step))
  {
    var t := Apply(cfg, s, step);
    ReferencesGrow(cfg, s, step);
    forall c | c in t.clients ensures Tidy(t, t.clients[c]) {
      if c in s.clients {
        assert Tidy(s, s.clients[c]);
        if step.Happens? && step.c == c && s.clients[c].op.Put? {
          ActorStaysTidy(cfg, s, c, step.event);
        }
      }
    }
  }

  lemma {:induction false} CleanRunIsTidy(cfg: Config, run: seq<State>)
    requires !cfg.deletes && CleanRun(cfg, run)
    ensures Run(cfg, run) && AllTidy(Last(run))
  {
    if |run| > 1 {
      var before := run[..|run| - 1];
      CleanRunIsTidy(cfg, before);
      RunKeepsInv(cfg, before);
      assert CleanNext(cfg, run[|run| - 2], run[|run| - 2 + 1]);
      var step :| Leads(cfg, Last(before), step, run[|run| - 2 + 1]) && Clean(Last(before), step);
      StepKeepsTidy(cfg, Last(before), step);
      forall i | 0 <= i < |run| - 1 ensures Next(cfg, run[i], run[i + 1]) {
        assert CleanNext(cfg, run[i], run[i + 1]);
      }
    }
  }

  /** Every call has returned and every requested deletion has taken effect. */
  ghost predicate Quiescent(s: State) {
    && (forall c :: c in s.clients ==> s.clients[c].pc.Done?)
    && s.doomed !! s.payloads.Keys
  }

  /** Whatever the mix of winners, duplicates and conflicts, the payloads the Puts of a clean, Delete-free run leave
      behind are exactly those some manifest refers to. */
  lemma LeftoversAreReferenced(cfg: Config, run: seq<State>, c: Id)
    requires !cfg.deletes && CleanRun(cfg, run) && Quiescent(Last(run))
    requires c in Last(run).clients && Last(run).clients[c].op.Put?
    ensures var a := Last(run).clients[c].op.attempt;
            a in Last(run).payloads <==> Referenced(Last(run), a)
  {
    CleanRunIsTidy(cfg, run);
    RunKeepsInv(cfg, run);
    var s := Last(run);
    var a := s.clients[c].op.attempt;
    assert Tidy(s, s.clients[c]);
    if Referenced(s, a) {
      ManifestsNeverDangle(cfg, run);
    }
  }
}
