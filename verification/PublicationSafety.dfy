/** What every step keeps, whatever requests do: rows stay bound to their keys, exclusive and unshared. */
module PublicationSafety {
  import opened Publication

  /** A Put that has not reached its publish request, whether its payload is verified yet or not. */
  predicate Preparing(cl: Client) {
    cl.op.Put? && (cl.pc.Uploading? || cl.pc.Verifying? || (cl.pc.Reading? && cl.pc.legacy))
  }

  ghost predicate Unreferenced(s: State, a: Attempt) {
    forall r :: r in s.rows ==> s.rows[r].attempt != a
  }

  // ---- what holds whatever requests do: rows stay bound to keys, exclusive, and unshared

  ghost predicate RowOk(s: State, r: Row)
    requires r in s.rows
  {
    && s.rows[r].key == r.key && (r.legacy ==> Long(r.key))
    && Row(!r.legacy, r.key) !in s.rows
    && s.rows[r].attempt in s.used
  }

  /** Which program counters each operation reaches, and with which flags. */
  ghost predicate Shape(cfg: Config, cl: Client) {
    match cl.op
    case Put(_, _) =>
      && !cl.pc.RemovingRow? && !cl.pc.OpeningPayload? && cl.asked == {}
      && (cl.created ==> cl.sent)
      && (Preparing(cl) ==> !cl.sent)
      && (cl.pc.Publishing? || (cl.pc.Reading? && !cl.pc.legacy) ==> cl.sent)
      && (cl.pc.Reading? && cl.pc.legacy ==> Long(cl.key))
    case Get =>
      && !cl.sent && !cl.created && cl.asked == {} && (cl.pc.Reading? || cl.pc.OpeningPayload? || cl.pc.Done?)
      && (cl.pc.Reading? && cl.pc.legacy ==> Long(cl.key))
    case Delete =>
      && cfg.deletes && !cl.sent && !cl.created && (cl.pc.Reading? || cl.pc.RemovingRow? || cl.pc.Done?)
      && ((cl.pc.Reading? || cl.pc.RemovingRow?) && cl.pc.legacy ==> Long(cl.key))
      && (cl.pc.RemovingRow? ==> Target(cl) in cl.asked)
      && (forall r :: r in cl.asked ==> r.key == cl.key)
  }

  /** A Put's attempt stands only in the row the Put has created. */
  ghost predicate OwnRow(cfg: Config, s: State, cl: Client)
    requires cl.op.Put?
  {
    && cl.op.attempt in s.used
    && (cl.sent ==> Row(true, cl.key) !in s.rows)
    && (forall r :: r in s.rows && s.rows[r].attempt == cl.op.attempt ==>
          r == Row(false, cl.key) && cl.created && s.rows[r] == ManifestOf(cfg, cl))
  }

  /** The attempt a Delete is about to doom belongs to its own key. */
  ghost predicate OwnPayload(s: State, cl: Client)
    requires cl.pc.RemovingRow?
  {
    && cl.pc.attempt in s.used
    && (forall r :: r in s.rows && s.rows[r].attempt == cl.pc.attempt ==> r.key == cl.key)
    && (forall d :: d in s.clients && s.clients[d].op.Put? && s.clients[d].op.attempt == cl.pc.attempt
          ==> s.clients[d].created && s.clients[d].key == cl.key)
  }

  ghost predicate ClientOk(cfg: Config, s: State, cl: Client) {
    && Shape(cfg, cl)
    && (cl.op.Put? ==> OwnRow(cfg, s, cl))
    && (cl.pc.RemovingRow? ==> OwnPayload(s, cl))
  }

  ghost predicate Distinct(s: State) {
    && (forall q, r :: q in s.rows && r in s.rows && q != r ==> s.rows[q].attempt != s.rows[r].attempt)
    && (forall c, d :: c in s.clients && d in s.clients && c != d && s.clients[c].op.Put? && s.clients[d].op.Put?
          ==> s.clients[c].op.attempt != s.clients[d].op.attempt)
  }

  ghost predicate Inv(cfg: Config, s: State) {
    && s.doomed <= s.used && s.payloads.Keys <= s.used
    && Distinct(s)
    && (forall r :: r in s.rows ==> RowOk(s, r))
    && (forall c :: c in s.clients ==> ClientOk(cfg, s, s.clients[c]))
  }

  lemma InitInv(cfg: Config, s: State)
    requires Init(cfg, s)
    ensures Inv(cfg, s)
  {
  }

  lemma StartKeepsInv(cfg: Config, s: State, c: Id, op: Op, key: Key)
    requires Inv(cfg, s) && Enabled(cfg, s, Starts(c, op, key))
    ensures Inv(cfg, Apply(cfg, s, Starts(c, op, key)))
  {
    var t := Apply(cfg, s, Starts(c, op, key));
    forall d | d in t.clients ensures ClientOk(cfg, t, t.clients[d]) {
      assert d in s.clients ==> ClientOk(cfg, s, s.clients[d]);
    }
  }

  /** What is said of a client depends on the rows, and on other clients only through their operations, keys and
      creation flags. */
  lemma ClientOkFrame(cfg: Config, s: State, t: State, cl: Client)
    requires t.rows == s.rows && t.used == s.used && t.clients.Keys == s.clients.Keys
    requires forall d :: d in s.clients ==>
               t.clients[d].op == s.clients[d].op && t.clients[d].key == s.clients[d].key
               && t.clients[d].created == s.clients[d].created
    requires ClientOk(cfg, s, cl)
    ensures ClientOk(cfg, t, cl)
  {
  }

  lemma RowsFrame(cfg: Config, s: State, t: State, c: Id, after: Client)
    requires Inv(cfg, s) && c in s.clients && ClientOk(cfg, s, after)
    requires t.rows == s.rows && t.used == s.used && t.clients == s.clients[c := after]
    requires t.doomed <= t.used && t.payloads.Keys <= t.used
    requires var cl := s.clients[c];
             after.op == cl.op && after.key == cl.key && after.created == cl.created
    ensures Inv(cfg, t)
  {
    forall d | d in t.clients ensures ClientOk(cfg, t, t.clients[d]) {
      assert d != c ==> ClientOk(cfg, s, s.clients[d]);
      ClientOkFrame(cfg, s, t, t.clients[d]);
    }
  }

  lemma FetchedIsOwn(cfg: Config, s: State, cl: Client)
    requires Inv(cfg, s) && cl.pc.Reading? && Target(cl) in s.rows
    ensures forall r :: r in s.rows && s.rows[r].attempt == s.rows[Target(cl)].attempt ==> r == Target(cl)
    ensures forall d :: d in s.clients && s.clients[d].op.Put?
                        && s.clients[d].op.attempt == s.rows[Target(cl)].attempt
              ==> s.clients[d].created && s.clients[d].key == cl.key
  {
    forall d | d in s.clients && s.clients[d].op.Put? && s.clients[d].op.attempt == s.rows[Target(cl)].attempt
      ensures s.clients[d].created && s.clients[d].key == cl.key
    {
      assert ClientOk(cfg, s, s.clients[d]);
    }
  }

  lemma FetchIsOk(cfg: Config, s: State, cl: Client)
    requires Inv(cfg, s) && ClientOk(cfg, s, cl) && ClientEnabled(cfg, s, cl, Fetch)
    ensures ClientOk(cfg, s, ClientAfter(cfg, s, cl, Fetch))
  {
    assert RowOk(s, Target(cl));
    if cl.op.Delete? {
      FetchedIsOwn(cfg, s, cl);
    }
  }

  /** An event that does not touch the rows leaves a client's record in order. */
  lemma OtherIsOk(cfg: Config, s: State, cl: Client, event: Event)
    requires Inv(cfg, s) && ClientOk(cfg, s, cl) && ClientEnabled(cfg, s, cl, event)
    requires !event.Fetch? && !event.PublishLands? && !event.RowRemoved?
    ensures ClientOk(cfg, s, ClientAfter(cfg, s, cl, event))
  {
  }

  lemma PublishLandsKeepsClients(cfg: Config, s: State, c: Id, d: Id)
    requires Inv(cfg, s) && Enabled(cfg, s, Happens(c, PublishLands)) && d in s.clients
    ensures var t := Apply(cfg, s, Happens(c, PublishLands));
            ClientOk(cfg, t, t.clients[d])
  {
    assert ClientOk(cfg, s, s.clients[c]) && ClientOk(cfg, s, s.clients[d]);
  }

  lemma PublishLandsKeepsInv(cfg: Config, s: State, c: Id)
    requires Inv(cfg, s) && Enabled(cfg, s, Happens(c, PublishLands))
    ensures Inv(cfg, Apply(cfg, s, Happens(c, PublishLands)))
  {
    var cl, t := s.clients[c], Apply(cfg, s, Happens(c, PublishLands));
    assert ClientOk(cfg, s, cl) && Unreferenced(s, cl.op.attempt);
    forall r | r in t.rows ensures RowOk(t, r) {
      assert r in s.rows ==> RowOk(s, r);
    }
    forall d | d in t.clients ensures ClientOk(cfg, t, t.clients[d]) {
      PublishLandsKeepsClients(cfg, s, c, d);
    }
  }

  lemma RowRemovedKeepsInv(cfg: Config, s: State, c: Id, row: Row)
    requires Inv(cfg, s) && Enabled(cfg, s, Happens(c, RowRemoved(row)))
    ensures Inv(cfg, Apply(cfg, s, Happens(c, RowRemoved(row))))
  {
    var t := Apply(cfg, s, Happens(c, RowRemoved(row)));
    forall d | d in t.clients ensures ClientOk(cfg, t, t.clients[d]) {
      assert ClientOk(cfg, s, s.clients[d]);
    }
  }

  lemma OtherKeepsInv(cfg: Config, s: State, c: Id, event: Event)
    requires Inv(cfg, s) && Enabled(cfg, s, Happens(c, event)) && !event.PublishLands? && !event.RowRemoved?
    ensures Inv(cfg, Apply(cfg, s, Happens(c, event)))
  {
    var cl, t := s.clients[c], Apply(cfg, s, Happens(c, event));
    assert ClientOk(cfg, s, cl);
    if event.Fetch? {
      FetchIsOk(cfg, s, cl);
    } else {
      OtherIsOk(cfg, s, cl, event);
    }
    ActorFrame(cfg, s, cl, event);
    RowsFrame(cfg, s, t, c, ClientAfter(cfg, s, cl, event));
  }

  lemma VanishKeepsInv(cfg: Config, s: State, a: Attempt)
    requires Inv(cfg, s) && a in s.doomed
    ensures Inv(cfg, Apply(cfg, s, Vanishes(a)))
  {
    var t := Apply(cfg, s, Vanishes(a));
    forall d | d in t.clients ensures ClientOk(cfg, t, t.clients[d]) {
      ClientOkFrame(cfg, s, t, s.clients[d]);
    }
  }

  /** Every step of every client keeps the invariant, in every environment. */
  lemma StepKeepsInv(cfg: Config, s: State, step: Step)
    requires Inv(cfg, s) && Enabled(cfg, s, step)
    ensures Inv(cfg, Apply(cfg, s, step))
  {
    match step
    case Starts(c, op, key) => StartKeepsInv(cfg, s, c, op, key);
    case Vanishes(a) => VanishKeepsInv(cfg, s, a);
    case Happens(c, PublishLands) => PublishLandsKeepsInv(cfg, s, c);
    case Happens(c, RowRemoved(row)) => RowRemovedKeepsInv(cfg, s, c, row);
    case Happens(c, event) => OtherKeepsInv(cfg, s, c, event);
  }

  lemma {:induction false} RunKeepsInv(cfg: Config, run: seq<State>)
    requires Run(cfg, run)
    ensures Inv(cfg, Last(run))
  {
    if |run| == 1 {
      InitInv(cfg, run[0]);
    } else {
      var step := LastStep(cfg, run);
      RunKeepsInv(cfg, run[..|run| - 1]);
      StepKeepsInv(cfg, Last(run[..|run| - 1]), step);
    }
  }

  /** No key ever has both rows, which is what makes the lookup of one row after the other sound. */
  lemma RowsAreExclusive(cfg: Config, run: seq<State>, key: Key)
    requires Run(cfg, run)
    ensures !(Row(false, key) in Last(run).rows && Row(true, key) in Last(run).rows)
  {
    RunKeepsInv(cfg, run);
    if Row(false, key) in Last(run).rows {
      assert RowOk(Last(run), Row(false, key));
    }
  }

  /** A key on which Delete has not been called. */
  ghost predicate Undeleted(s: State, key: Key) {
    forall d :: d in s.clients && s.clients[d].op.Delete? ==> s.clients[d].key != key
  }

  /** What has been called stays called. */
  lemma UndeletedBefore(cfg: Config, s: State, step: Step, key: Key)
    requires Enabled(cfg, s, step) && Undeleted(Apply(cfg, s, step), key)
    ensures Undeleted(s, key)
  {
    var t := Apply(cfg, s, step);
    forall d | d in s.clients && s.clients[d].op.Delete? ensures s.clients[d].key != key {
      ClientFrame(cfg, s, step, d);
      assert t.clients[d].op.Delete?;
    }
  }

  lemma {:induction false} UndeletedEarlier(cfg: Config, run: seq<State>, i: nat, key: Key)
    requires Run(cfg, run) && i < |run| && Undeleted(Last(run), key)
    ensures Undeleted(run[i], key)
    decreases |run|
  {
    if i < |run| - 1 {
      var step := LastStep(cfg, run);
      UndeletedBefore(cfg, Last(run[..|run| - 1]), step, key);
      UndeletedEarlier(cfg, run[..|run| - 1], i, key);
    }
  }

  /** The rows of such a key only accumulate. */
  lemma RowsGrow(cfg: Config, s: State, step: Step, r: Row)
    requires Inv(cfg, s) && Enabled(cfg, s, step) && Undeleted(s, r.key) && r in s.rows
    ensures var t := Apply(cfg, s, step);
            r in t.rows && t.rows[r] == s.rows[r]
  {
    if step.Happens? {
      assert ClientOk(cfg, s, s.clients[step.c]);
    }
  }
}
