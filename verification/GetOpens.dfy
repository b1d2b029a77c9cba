/** A Get that answers with a manifest has opened its payload: what was there when it did, and why it never answers with
    a manifest that dangles. */
module GetOpens {
  import opened Publication
  import opened PublicationSafety
  import opened PayloadSafety

  /** The manifest is one of its key's rows. */
  ghost predicate Stands(s: State, m: Manifest) {
    exists legacy :: Row(legacy, m.key) in s.rows && s.rows[Row(legacy, m.key)] == m
  }

  /** Its payload can be opened: it is there, with the promised length. */
  ghost predicate Openable(s: State, m: Manifest) {
    m.attempt in s.payloads && |s.payloads[m.attempt]| == m.content.size
  }

  /** At some instant of call g the manifest stood, and intact, under the condition of KeyNeverDangles. */
  ghost predicate Stood(cfg: Config, run: seq<State>, g: Id, m: Manifest) {
    exists i :: 0 <= i < |run| && Active(run[i], g) && Stands(run[i], m)
                && (Orderly(cfg, run[i], m.key) ==> Intact(cfg, run[i], m))
  }

  /** At some instant of call g its payload was openable; and, if no Delete of the key had been called by then, it held
      exactly what the manifest promises. */
  ghost predicate WasOpened(cfg: Config, run: seq<State>, g: Id, m: Manifest) {
    exists i :: 0 <= i < |run| && Active(run[i], g) && Openable(run[i], m)
                && (Undeleted(run[i], m.key) ==> Intact(cfg, run[i], m))
  }

  /** What a Get's progress says of the manifest it holds. */
  ghost predicate Holds(cfg: Config, run: seq<State>, g: Id, cl: Client)
    requires run != []
  {
    cl.op.Get? ==>
      && (cl.pc.OpeningPayload? ==>
            && cl.pc.m.key == cl.key && Stood(cfg, run, g, cl.pc.m)
            && (Undeleted(Last(run), cl.key) ==> Stands(Last(run), cl.pc.m)))
      && (cl.pc.Done? && cl.pc.outcome.Found? ==>
            && cl.pc.outcome.m.key == cl.key && Stood(cfg, run, g, cl.pc.outcome.m)
            && WasOpened(cfg, run, g, cl.pc.outcome.m))
  }

  lemma StoodLater(cfg: Config, run: seq<State>, t: State, g: Id, m: Manifest)
    ensures Stood(cfg, run, g, m) ==> Stood(cfg, run + [t], g, m)
    ensures WasOpened(cfg, run, g, m) ==> WasOpened(cfg, run + [t], g, m)
  {
    if Stood(cfg, run, g, m) {
      var i :| 0 <= i < |run| && Active(run[i], g) && Stands(run[i], m)
               && (Orderly(cfg, run[i], m.key) ==> Intact(cfg, run[i], m));
      assert (run + [t])[i] == run[i];
    }
    if WasOpened(cfg, run, g, m) {
      var i :| 0 <= i < |run| && Active(run[i], g) && Openable(run[i], m)
               && (Undeleted(run[i], m.key) ==> Intact(cfg, run[i], m));
      assert (run + [t])[i] == run[i];
    }
  }

  lemma StandsLater(cfg: Config, s: State, step: Step, m: Manifest)
    requires Inv(cfg, s) && Enabled(cfg, s, step) && Undeleted(s, m.key) && Stands(s, m)
    ensures Stands(Apply(cfg, s, step), m)
  {
    var legacy :| Row(legacy, m.key) in s.rows && s.rows[Row(legacy, m.key)] == m;
    RowsGrow(cfg, s, step, Row(legacy, m.key));
  }

  /** Under the condition of KeyNeverDangles a standing manifest is intact. */
  lemma StandingIsIntact(cfg: Config, run: seq<State>, m: Manifest)
    requires Run(cfg, run) && Orderly(cfg, Last(run), m.key) && Stands(Last(run), m)
    ensures Intact(cfg, Last(run), m)
  {
    var legacy :| Row(legacy, m.key) in Last(run).rows && Last(run).rows[Row(legacy, m.key)] == m;
    KeyNeverDangles(cfg, run, Row(legacy, m.key));
  }

  lemma FetchHolds(cfg: Config, run: seq<State>, t: State, g: Id)
    requires Run(cfg, run) && g in Last(run).clients && Last(run).clients[g].op.Get? && t.rows == Last(run).rows
    requires ClientEnabled(cfg, Last(run), Last(run).clients[g], Fetch)
    ensures Holds(cfg, run + [t], g, ClientAfter(cfg, Last(run), Last(run).clients[g], Fetch))
  {
    var s, cl := Last(run), Last(run).clients[g];
    var m := s.rows[Target(cl)];
    assert Row(cl.pc.legacy, m.key) == Target(cl) && Stands(s, m) && Stands(t, m);
    if Orderly(cfg, s, m.key) {
      StandingIsIntact(cfg, run, m);
    }
    assert (run + [t])[|run| - 1] == s;
  }

  lemma OpenedHolds(cfg: Config, run: seq<State>, t: State, g: Id)
    requires Run(cfg, run) && g in Last(run).clients && Holds(cfg, run, g, Last(run).clients[g])
    requires Last(run).clients[g].op.Get? && ClientEnabled(cfg, Last(run), Last(run).clients[g], PayloadOpened)
    ensures Holds(cfg, run + [t], g, ClientAfter(cfg, Last(run), Last(run).clients[g], PayloadOpened))
  {
    var s, m := Last(run), Last(run).clients[g].pc.m;
    StoodLater(cfg, run, t, g, m);
    if Undeleted(s, m.key) {
      StandingIsIntact(cfg, run, m);
    }
    assert (run + [t])[|run| - 1] == s && Openable(s, m);
  }

  /** No other event brings a Get a manifest. */
  lemma OtherEvents(cfg: Config, s: State, cl: Client, event: Event)
    requires cl.op.Get? && Shape(cfg, cl)
    requires ClientEnabled(cfg, s, cl, event) && !event.Fetch? && !event.PayloadOpened?
    ensures var after := ClientAfter(cfg, s, cl, event);
            && (after.pc.OpeningPayload? ==> after.pc == cl.pc)
            && (after.pc.Done? && after.pc.outcome.Found? ==> after.pc == cl.pc)
  {
  }

  lemma StillHolds(cfg: Config, run: seq<State>, step: Step, g: Id, after: Client)
    requires Run(cfg, run) && Enabled(cfg, Last(run), step) && g in Last(run).clients
    requires Holds(cfg, run, g, Last(run).clients[g])
    requires var cl := Last(run).clients[g];
             && after.op == cl.op && after.key == cl.key
             && (cl.op.Get? ==>
                   && (after.pc.OpeningPayload? ==> after.pc == cl.pc)
                   && (after.pc.Done? && after.pc.outcome.Found? ==> after.pc == cl.pc))
    ensures Holds(cfg, run + [Apply(cfg, Last(run), step)], g, after)
  {
    var t := Apply(cfg, Last(run), step);
    if after.op.Get? && after.pc.OpeningPayload? {
      StoodLater(cfg, run, t, g, after.pc.m);
      if Undeleted(t, after.key) {
        UndeletedBefore(cfg, Last(run), step, after.key);
        RunKeepsInv(cfg, run);
        StandsLater(cfg, Last(run), step, after.pc.m);
      }
    } else if after.op.Get? && after.pc.Done? && after.pc.outcome.Found? {
      StoodLater(cfg, run, t, g, after.pc.outcome.m);
    }
  }

  lemma StepHolds(cfg: Config, run: seq<State>, step: Step, g: Id)
    requires Run(cfg, run) && Enabled(cfg, Last(run), step) && g in Last(run).clients
    requires Holds(cfg, run, g, Last(run).clients[g])
    ensures var t := Apply(cfg, Last(run), step);
            g in t.clients && Holds(cfg, run + [t], g, t.clients[g])
  {
    var s, t := Last(run), Apply(cfg, Last(run), step);
    StepFrame(cfg, s, step, g);
    ClientFrame(cfg, s, step, g);
    if step.Happens? && step.c == g && s.clients[g].op.Get? {
      if step.event.Fetch? {
        FetchHolds(cfg, run, t, g);
      } else if step.event.PayloadOpened? {
        OpenedHolds(cfg, run, t, g);
      } else {
        RunKeepsInv(cfg, run);
        assert ClientOk(cfg, s, s.clients[g]);
        OtherEvents(cfg, s, s.clients[g], step.event);
        StillHolds(cfg, run, step, g, t.clients[g]);
      }
    } else {
      StillHolds(cfg, run, step, g, t.clients[g]);
    }
  }

  lemma {:induction false} RunHolds(cfg: Config, run: seq<State>, g: Id)
    requires Run(cfg, run) && g in Last(run).clients
    ensures Holds(cfg, run, g, Last(run).clients[g])
  {
    if |run| > 1 {
      var before := run[..|run| - 1];
      var step := LastStep(cfg, run);
      assert run == before + [Last(run)];
      if g in Last(before).clients {
        RunHolds(cfg, before, g);
        StepHolds(cfg, before, step, g);
      }
    }
  }

  /** A Get that answers with a manifest read it while it stood as one of the key's rows, with its payload intact under
      the condition of KeyNeverDangles; and opened the payload: at an instant of the call that was there with the
      promised length, and with the promised digest too if no Delete of the key had been called. */
  lemma FoundWasOpened(cfg: Config, run: seq<State>, g: Id)
    requires Run(cfg, run) && g in Last(run).clients && Last(run).clients[g].op.Get?
    requires Last(run).clients[g].pc.Done? && Last(run).clients[g].pc.outcome.Found?
    ensures var m := Last(run).clients[g].pc.outcome.m;
            m.key == Last(run).clients[g].key && Stood(cfg, run, g, m) && WasOpened(cfg, run, g, m)
  {
    RunHolds(cfg, run, g);
  }

  /** The key's only manifest at instant s, and not openable. */
  ghost predicate DanglesAt(s: State, m: Manifest) {
    && !Openable(s, m)
    && forall legacy :: Row(legacy, m.key) in s.rows ==> s.rows[Row(legacy, m.key)] == m
  }

  /** A Get during which the key's manifest dangled never answers with it, nor with any other. */
  lemma DanglingIsNeverFound(cfg: Config, run: seq<State>, g: Id, m: Manifest)
    requires Run(cfg, run) && g in Last(run).clients && Last(run).clients[g].op.Get?
    requires Last(run).clients[g].key == m.key && Last(run).clients[g].pc.Done?
    requires forall i :: 0 <= i < |run| && Active(run[i], g) ==> DanglesAt(run[i], m)
    ensures !Last(run).clients[g].pc.outcome.Found?
  {
    if Last(run).clients[g].pc.outcome.Found? {
      FoundWasOpened(cfg, run, g);
    }
  }
}
