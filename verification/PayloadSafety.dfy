/** No manifest dangles: what keeps the payloads of one key's manifests, as long as publish requests for it are not late
    or Delete has not been called on it. */
module PayloadSafety {
  import opened Basics
  import opened Publication
  import opened PublicationSafety

  /** The client's manifest may still come to stand in the bucket. */
  ghost predicate MayLand(cfg: Config, s: State, cl: Client) {
    && cl.op.Put?
    && if cfg.late then Row(false, cl.key) !in s.rows && (cl.sent || Preparing(cl))
       else !cl.created && (cl.pc.Publishing? || Preparing(cl))
  }

  ghost predicate RowGuarded(cfg: Config, s: State, r: Row)
    requires r in s.rows
  {
    Intact(cfg, s, s.rows[r]) && s.rows[r].attempt !in s.doomed
  }

  /** cleanupSafe is set only while nothing refers to the payload, nor ever will. */
  ghost predicate PutGuarded(cfg: Config, s: State, cl: Client)
    requires cl.op.Put?
  {
    var a := cl.op.attempt;
    && (a in s.doomed ==> !MayLand(cfg, s, cl) && (cl.created || cl.pc.Done?))
    && (cl.pc.CleaningUp? ==> !MayLand(cfg, s, cl) && Unreferenced(s, a))
    && (MayLand(cfg, s, cl) && (cl.sent || cl.pc.Reading?) ==> Intact(cfg, s, ManifestOf(cfg, cl)))
    && (cl.pc.Verifying? && cl.pc.hashed.Some? ==>
          && a in s.payloads && |s.payloads[a]| == |cl.op.data|
          && cl.pc.hashed.value <= s.payloads[a])
  }

  /** A Delete about to doom a payload: only the row it is removing refers to it. */
  ghost predicate RemovalGuarded(s: State, cl: Client)
    requires cl.pc.RemovingRow?
  {
    forall r :: r in s.rows && s.rows[r].attempt == cl.pc.attempt ==> r == Target(cl) && !cl.pc.removed
  }

  ghost predicate ClientGuarded(cfg: Config, s: State, cl: Client) {
    (cl.op.Put? ==> PutGuarded(cfg, s, cl)) && (cl.pc.RemovingRow? ==> RemovalGuarded(s, cl))
  }

  ghost predicate Guarded(cfg: Config, s: State, key: Key) {
    && (forall r :: r in s.rows && r.key == key ==> RowGuarded(cfg, s, r))
    && (forall c :: c in s.clients && s.clients[c].key == key ==> ClientGuarded(cfg, s, s.clients[c]))
  }

  /** The hypothesis, for one key: no publish request takes effect late in a key whose row can be deleted. */
  ghost predicate Orderly(cfg: Config, s: State, key: Key) {
    !cfg.late || Undeleted(s, key)
  }

  lemma InitGuarded(cfg: Config, s: State, key: Key)
    requires Init(cfg, s)
    ensures Guarded(cfg, s, key)
  {
  }

  lemma StartKeepsGuarded(cfg: Config, s: State, c: Id, op: Op, key: Key, k: Key)
    requires Inv(cfg, s) && Guarded(cfg, s, k) && Enabled(cfg, s, Starts(c, op, key))
    ensures Guarded(cfg, Apply(cfg, s, Starts(c, op, key)), k)
  {
    var t := Apply(cfg, s, Starts(c, op, key));
    forall d | d in t.clients && t.clients[d].key == k ensures ClientGuarded(cfg, t, t.clients[d]) {
      assert d in s.clients ==> ClientGuarded(cfg, s, s.clients[d]);
    }
  }

  lemma VanishKeepsGuarded(cfg: Config, s: State, a: Attempt, k: Key)
    requires Inv(cfg, s) && Guarded(cfg, s, k) && a in s.doomed
    ensures Guarded(cfg, Apply(cfg, s, Vanishes(a)), k)
  {
    var t := Apply(cfg, s, Vanishes(a));
    forall d | d in t.clients && t.clients[d].key == k ensures ClientGuarded(cfg, t, t.clients[d]) {
      assert ClientOk(cfg, s, s.clients[d]) && ClientGuarded(cfg, s, s.clients[d]);
    }
  }

  lemma UploadLandsKeepsGuarded(cfg: Config, s: State, c: Id, stored: Str, k: Key)
    requires Inv(cfg, s) && Guarded(cfg, s, k) && Enabled(cfg, s, Happens(c, UploadLands(stored)))
    ensures Guarded(cfg, Apply(cfg, s, Happens(c, UploadLands(stored))), k)
  {
    var t := Apply(cfg, s, Happens(c, UploadLands(stored)));
    forall d | d in t.clients && t.clients[d].key == k ensures ClientGuarded(cfg, t, t.clients[d]) {
      assert ClientGuarded(cfg, s, s.clients[d]);
    }
  }

  /** No Put of a key with a Delete can create twice. */
  lemma PublishLandsKeepsGuarded(cfg: Config, s: State, c: Id, k: Key)
    requires Inv(cfg, s) && Guarded(cfg, s, k) && Orderly(cfg, s, k) && Enabled(cfg, s, Happens(c, PublishLands))
    ensures Guarded(cfg, Apply(cfg, s, Happens(c, PublishLands)), k)
  {
    var cl, t := s.clients[c], Apply(cfg, s, Happens(c, PublishLands));
    assert ClientOk(cfg, s, cl) && Unreferenced(s, cl.op.attempt);
    forall d | d in t.clients && t.clients[d].key == k ensures ClientGuarded(cfg, t, t.clients[d]) {
      assert ClientOk(cfg, s, s.clients[d]) && ClientGuarded(cfg, s, s.clients[d]);
    }
  }

  /** What is said of payloads does not depend on the other clients. */
  lemma GuardedFrame(cfg: Config, s: State, c: Id, after: Client, k: Key)
    requires Guarded(cfg, s, k) && (after.key == k ==> ClientGuarded(cfg, s, after))
    ensures Guarded(cfg, s.(clients := s.clients[c := after]), k)
  {
    var t := s.(clients := s.clients[c := after]);
    forall d | d in t.clients && t.clients[d].key == k ensures ClientGuarded(cfg, t, t.clients[d]) {
      assert ClientGuarded(cfg, s, t.clients[d]);
    }
  }

  /** Taking a row away spoils nothing that is said of any payload. */
  lemma WithoutRow(cfg: Config, s: State, row: Row, cl: Client)
    requires Inv(cfg, s) && ClientOk(cfg, s, cl) && ClientGuarded(cfg, s, cl)
    requires cfg.late && cl.op.Put? ==> row.key != cl.key
    ensures ClientGuarded(cfg, s.(rows := s.rows - {row}), cl)
  {
  }

  /** And the Delete that has taken its row away sees no other row with its attempt. */
  lemma RemovedIsGuarded(cfg: Config, s: State, c: Id, row: Row)
    requires Inv(cfg, s) && Enabled(cfg, s, Happens(c, RowRemoved(row))) && ClientGuarded(cfg, s, s.clients[c])
    ensures ClientGuarded(cfg, s.(rows := s.rows - {row}), ClientAfter(cfg, s, s.clients[c], RowRemoved(row)))
  {
    assert ClientOk(cfg, s, s.clients[c]);
  }

  lemma RowRemovedKeepsGuarded(cfg: Config, s: State, c: Id, row: Row, k: Key)
    requires Inv(cfg, s) && Guarded(cfg, s, k) && Orderly(cfg, s, k) && Enabled(cfg, s, Happens(c, RowRemoved(row)))
    ensures Guarded(cfg, Apply(cfg, s, Happens(c, RowRemoved(row))), k)
  {
    var less, after := s.(rows := s.rows - {row}), ClientAfter(cfg, s, s.clients[c], RowRemoved(row));
    assert ClientOk(cfg, s, s.clients[c]);
    forall d | d in s.clients && s.clients[d].key == k ensures ClientGuarded(cfg, less, s.clients[d]) {
      assert ClientOk(cfg, s, s.clients[d]) && ClientGuarded(cfg, s, s.clients[d]);
      WithoutRow(cfg, s, row, s.clients[d]);
    }
    if s.clients[c].key == k {
      RemovedIsGuarded(cfg, s, c, row);
    }
    GuardedFrame(cfg, less, c, after, k);
    assert Apply(cfg, s, Happens(c, RowRemoved(row))) == less.(clients := less.clients[c := after]);
  }

  /** Dooming a payload that no row refers to, and whose Put, if any, is done with it. */
  lemma DoomingKeepsGuarded(cfg: Config, s: State, a: Attempt, k: Key)
    requires Inv(cfg, s) && Guarded(cfg, s, k)
    requires forall r :: r in s.rows && r.key == k ==> s.rows[r].attempt != a
    requires forall d :: d in s.clients && s.clients[d].key == k && s.clients[d].op.Put? && s.clients[d].op.attempt == a
               ==> !MayLand(cfg, s, s.clients[d]) && (s.clients[d].created || s.clients[d].pc.Done?)
    ensures Guarded(cfg, s.(doomed := s.doomed + {a}), k)
  {
    var t := s.(doomed := s.doomed + {a});
    forall d | d in t.clients && t.clients[d].key == k ensures ClientGuarded(cfg, t, t.clients[d]) {
      assert ClientGuarded(cfg, s, s.clients[d]);
    }
  }

  lemma RemovalAckedKeepsGuarded(cfg: Config, s: State, c: Id, k: Key)
    requires Inv(cfg, s) && Guarded(cfg, s, k) && Orderly(cfg, s, k) && Enabled(cfg, s, Happens(c, RemovalAcked))
    ensures Guarded(cfg, Apply(cfg, s, Happens(c, RemovalAcked)), k)
  {
    var cl := s.clients[c];
    var after := ClientAfter(cfg, s, cl, RemovalAcked);
    assert ClientOk(cfg, s, cl);
    GuardedFrame(cfg, s, c, after, k);
    var gone := s.(clients := s.clients[c := after]);
    ActorFrame(cfg, s, cl, RemovalAcked);
    RowsFrame(cfg, s, gone, c, after);
    DoomingKeepsGuarded(cfg, gone, cl.pc.attempt, k);
  }

  lemma CleanedUpKeepsGuarded(cfg: Config, s: State, c: Id, k: Key)
    requires Inv(cfg, s) && Guarded(cfg, s, k) && Enabled(cfg, s, Happens(c, CleanedUp))
    ensures Guarded(cfg, Apply(cfg, s, Happens(c, CleanedUp)), k)
  {
    var cl := s.clients[c];
    var after := ClientAfter(cfg, s, cl, CleanedUp);
    assert ClientOk(cfg, s, cl) && (cl.key == k ==> ClientGuarded(cfg, s, cl));
    GuardedFrame(cfg, s, c, after, k);
    var gone := s.(clients := s.clients[c := after]);
    RowsFrame(cfg, s, gone, c, after);
    DoomingKeepsGuarded(cfg, gone, cl.op.attempt, k);
  }

  /** An event that changes nothing but its client's own record. */
  predicate IsLocal(event: Event) {
    !event.UploadLands? && !event.PublishLands? && !event.RowRemoved? && !event.RemovalAcked? && !event.CleanedUp?
  }

  lemma PayloadAgreesIsGuarded(cfg: Config, s: State, cl: Client)
    requires ClientOk(cfg, s, cl) && ClientGuarded(cfg, s, cl) && ClientEnabled(cfg, s, cl, PayloadAgrees)
    ensures ClientGuarded(cfg, s, ClientAfter(cfg, s, cl, PayloadAgrees))
  {
    assert cl.pc.hashed.value == s.payloads[cl.op.attempt];
  }

  lemma FetchIsGuarded(cfg: Config, s: State, cl: Client)
    requires Inv(cfg, s) && ClientOk(cfg, s, cl) && ClientGuarded(cfg, s, cl) && ClientEnabled(cfg, s, cl, Fetch)
    ensures ClientGuarded(cfg, s, ClientAfter(cfg, s, cl, Fetch))
  {
    assert RowOk(s, Target(cl));
  }

  lemma OtherIsGuarded(cfg: Config, s: State, cl: Client, event: Event)
    requires ClientOk(cfg, s, cl) && ClientGuarded(cfg, s, cl) && ClientEnabled(cfg, s, cl, event)
    requires IsLocal(event) && !event.PayloadAgrees? && !event.Fetch?
    ensures ClientGuarded(cfg, s, ClientAfter(cfg, s, cl, event))
  {
  }

  lemma LocalIsGuarded(cfg: Config, s: State, cl: Client, event: Event)
    requires Inv(cfg, s) && ClientOk(cfg, s, cl) && ClientGuarded(cfg, s, cl)
    requires ClientEnabled(cfg, s, cl, event) && IsLocal(event)
    ensures ClientGuarded(cfg, s, ClientAfter(cfg, s, cl, event))
  {
    match event {
      case PayloadAgrees => PayloadAgreesIsGuarded(cfg, s, cl);
      case Fetch => FetchIsGuarded(cfg, s, cl);
      case _ => OtherIsGuarded(cfg, s, cl, event);
    }
  }

  lemma LocalKeepsGuarded(cfg: Config, s: State, c: Id, event: Event, k: Key)
    requires Inv(cfg, s) && Guarded(cfg, s, k) && Enabled(cfg, s, Happens(c, event)) && IsLocal(event)
    ensures Guarded(cfg, Apply(cfg, s, Happens(c, event)), k)
  {
    var cl := s.clients[c];
    var after := ClientAfter(cfg, s, cl, event);
    ActorFrame(cfg, s, cl, event);
    if cl.key == k {
      assert ClientOk(cfg, s, cl);
      LocalIsGuarded(cfg, s, cl, event);
    }
    GuardedFrame(cfg, s, c, after, k);
    assert Apply(cfg, s, Happens(c, event)) == s.(clients := s.clients[c := after]);
  }

  /** Every step of every client, whatever its key, keeps this key's payloads. */
  lemma StepKeepsGuarded(cfg: Config, s: State, step: Step, k: Key)
    requires Inv(cfg, s) && Guarded(cfg, s, k) && Orderly(cfg, s, k) && Enabled(cfg, s, step)
    ensures Guarded(cfg, Apply(cfg, s, step), k)
  {
    match step
    case Starts(c, op, key) => StartKeepsGuarded(cfg, s, c, op, key, k);
    case Vanishes(a) => VanishKeepsGuarded(cfg, s, a, k);
    case Happens(c, UploadLands(stored)) => UploadLandsKeepsGuarded(cfg, s, c, stored, k);
    case Happens(c, PublishLands) => PublishLandsKeepsGuarded(cfg, s, c, k);
    case Happens(c, RowRemoved(row)) => RowRemovedKeepsGuarded(cfg, s, c, row, k);
    case Happens(c, RemovalAcked) => RemovalAckedKeepsGuarded(cfg, s, c, k);
    case Happens(c, CleanedUp) => CleanedUpKeepsGuarded(cfg, s, c, k);
    case Happens(c, event) => LocalKeepsGuarded(cfg, s, c, event, k);
  }

  lemma {:induction false} RunKeepsGuarded(cfg: Config, run: seq<State>, key: Key)
    requires Run(cfg, run) && Orderly(cfg, Last(run), key)
    ensures Guarded(cfg, Last(run), key)
  {
    if |run| == 1 {
      InitGuarded(cfg, run[0], key);
    } else {
      var step := LastStep(cfg, run);
      var before := Last(run[..|run| - 1]);
      if cfg.late {
        UndeletedBefore(cfg, before, step, key);
      }
      RunKeepsGuarded(cfg, run[..|run| - 1], key);
      RunKeepsInv(cfg, run[..|run| - 1]);
      StepKeepsGuarded(cfg, before, step, key);
    }
  }

  /** A key's manifests never dangle, whatever happens to other keys, if its publish requests are not late or Delete has
      not been called on it. */
  lemma KeyNeverDangles(cfg: Config, run: seq<State>, r: Row)
    requires Run(cfg, run) && r in Last(run).rows && (!cfg.late || Undeleted(Last(run), r.key))
    ensures Intact(cfg, Last(run), Last(run).rows[r])
  {
    RunKeepsGuarded(cfg, run, r.key);
    assert RowGuarded(cfg, Last(run), r);
  }

  // ---- the whole store

  /** Every manifest's payload exists with its exact length and digest. */
  ghost predicate NoDangling(cfg: Config, s: State) {
    forall r :: r in s.rows ==> Intact(cfg, s, s.rows[r])
  }

  /** The same hypothesis for every key at once, as a matter of the environment. */
  predicate Disciplined(cfg: Config) {
    !(cfg.deletes && cfg.late)
  }

  lemma NothingDeleted(cfg: Config, s: State, key: Key)
    requires Inv(cfg, s) && !cfg.deletes
    ensures Undeleted(s, key)
  {
    forall d | d in s.clients ensures !s.clients[d].op.Delete? {
      assert ClientOk(cfg, s, s.clients[d]);
    }
  }

  /** No reachable manifest dangles, retried and delayed requests included, unless rows can be deleted meanwhile. */
  lemma ManifestsNeverDangle(cfg: Config, run: seq<State>)
    requires Disciplined(cfg) && Run(cfg, run)
    ensures NoDangling(cfg, Last(run))
  {
    RunKeepsInv(cfg, run);
    forall r | r in Last(run).rows ensures Intact(cfg, Last(run), Last(run).rows[r]) {
      if cfg.late {
        NothingDeleted(cfg, Last(run), r.key);
      }
      KeyNeverDangles(cfg, run, r);
    }
  }
}
