/** Labelled runs, and the stretches of behaviour that concrete runs are composed of. */
module Traces {
  import opened Basics
  import opened Publication

  datatype Trace = Trace(states: seq<State>, steps: seq<Step>)

  /** From any state on: each step is possible and leads to the next state. */
  ghost predicate Valid(cfg: Config, tr: Trace) {
    && |tr.states| == |tr.steps| + 1
    && forall i :: 0 <= i < |tr.steps| ==> Leads(cfg, tr.states[i], tr.steps[i], tr.states[i + 1])
  }

  ghost function End(tr: Trace): State
    requires tr.states != []
  {
    tr.states[|tr.states| - 1]
  }

  ghost function From(s: State): Trace {
    Trace([s], [])
  }

  ghost function Take(cfg: Config, tr: Trace, step: Step): (ext: Trace)
    requires Valid(cfg, tr) && Enabled(cfg, End(tr), step)
    ensures Valid(cfg, ext) && End(ext) == Apply(cfg, End(tr), step)
    ensures ext.states == tr.states + [End(ext)] && ext.steps == tr.steps + [step]
  {
    Trace(tr.states + [Apply(cfg, End(tr), step)], tr.steps + [step])
  }

  /** A request fails, or a call is cancelled. */
  predicate Fault(step: Step) {
    step.Happens? && step.event.Fails?
  }

  ghost predicate Faultless(tr: Trace) {
    forall i :: 0 <= i < |tr.steps| ==> !Fault(tr.steps[i])
  }

  /** Neither a call of Delete, nor a publication, nor a fault. */
  predicate Quiet(step: Step) {
    !(step.Starts? && step.op.Delete?) && !(step.Happens? && step.event.PublishLands?) && !Fault(step)
  }

  /** tr goes on from root by quiet steps only. */
  ghost predicate Extends(cfg: Config, root: Trace, tr: Trace) {
    && Valid(cfg, root) && Valid(cfg, tr)
    && root.states <= tr.states && root.steps <= tr.steps
    && forall i :: |root.steps| <= i < |tr.steps| ==> Quiet(tr.steps[i])
  }

  ghost function Then(cfg: Config, root: Trace, tr: Trace, step: Step): (ext: Trace)
    requires Extends(cfg, root, tr) && Enabled(cfg, End(tr), step) && Quiet(step)
    ensures Extends(cfg, root, ext) && End(ext) == Apply(cfg, End(tr), step)
    ensures ext.states == tr.states + [End(ext)]
  {
    Take(cfg, tr, step)
  }

  lemma TraceIsRun(cfg: Config, tr: Trace)
    requires Valid(cfg, tr) && Init(cfg, tr.states[0])
    ensures Run(cfg, tr.states) && Last(tr.states) == End(tr)
  {
    forall i | 0 <= i < |tr.states| - 1 ensures Next(cfg, tr.states[i], tr.states[i + 1]) {
      assert Leads(cfg, tr.states[i], tr.steps[i], tr.states[i + 1]);
    }
  }

  /** A run goes on as the trace says. */
  lemma RunGoesOn(cfg: Config, run: seq<State>, tr: Trace)
    requires Run(cfg, run) && Valid(cfg, tr) && tr.states[0] == Last(run)
    ensures Run(cfg, run + tr.states[1..]) && Last(run + tr.states[1..]) == End(tr)
  {
    var all := run + tr.states[1..];
    forall i | 0 <= i < |all| - 1 ensures Next(cfg, all[i], all[i + 1]) {
      if i < |run| - 1 {
        assert Next(cfg, run[i], run[i + 1]);
      } else {
        var k := i - (|run| - 1);
        assert Leads(cfg, tr.states[k], tr.steps[k], tr.states[k + 1]);
      }
    }
  }

  // ---- stretches of behaviour

  lemma Uploads(cfg: Config, root: Trace, tr: Trace, c: Id, key: Key, data: Str, a: Attempt) returns (ext: Trace)
    requires Extends(cfg, root, tr)
    requires var s := End(tr); c !in s.clients && a !in s.used && a !in s.payloads
    ensures Extends(cfg, root, ext) && |ext.states| >= |tr.states|
    ensures var s := End(tr);
            End(ext) == s.(payloads := s.payloads[a := data], used := s.used + {a},
                           clients := s.clients[c := Client(Put(data, a), key, Verifying(None), false, false, {})])
  {
    ext := Then(cfg, root, tr, Starts(c, Put(data, a), key));
    ext := Then(cfg, root, ext, Happens(c, UploadLands(data)));
    ext := Then(cfg, root, ext, Happens(c, UploadAcked));
  }

  /** A Put reads back the rest of its payload, range by range. */
  lemma {:induction false} Rereads(cfg: Config, root: Trace, tr: Trace, c: Id, read: nat) returns (ext: Trace)
    requires Extends(cfg, root, tr)
    requires var s := End(tr);
             && c in s.clients && s.clients[c].op.Put? && read <= |s.clients[c].op.data|
             && s.clients[c].pc == Verifying(Some(s.clients[c].op.data[..read]))
             && s.clients[c].op.attempt in s.payloads && s.payloads[s.clients[c].op.attempt] == s.clients[c].op.data
    ensures Extends(cfg, root, ext) && |ext.states| >= |tr.states|
    ensures var s := End(tr);
            var cl := s.clients[c];
            End(ext) == s.(clients := s.clients[c := cl.(pc := Verifying(Some(cl.op.data)))])
    decreases |End(tr).clients[c].op.data| - read
  {
    var s, cl := End(tr), End(tr).clients[c];
    var data := cl.op.data;
    if read == |data| {
      ext := tr;
      assert data[..read] == data;
      assert s == s.(clients := s.clients[c := cl]);
    } else {
      var end := RangeEnd(read, |data|);
      assert data[..read] + data[read..end] == data[..end];
      ext := Then(cfg, root, tr, Happens(c, PayloadRange));
      ext := Rereads(cfg, root, ext, c, end);
    }
  }

  /** A Put uploads and verifies, and is about to see that its payload agrees. */
  lemma Verifies(cfg: Config, root: Trace, tr: Trace, c: Id, key: Key, data: Str, a: Attempt) returns (ext: Trace)
    requires Extends(cfg, root, tr)
    requires var s := End(tr); c !in s.clients && a !in s.used && a !in s.payloads
    ensures Extends(cfg, root, ext) && |ext.states| >= |tr.states|
    ensures var s := End(tr);
            var verified := Client(Put(data, a), key, Verifying(Some(data)), false, false, {});
            End(ext) == s.(payloads := s.payloads[a := data], used := s.used + {a},
                           clients := s.clients[c := verified])
  {
    ext := Uploads(cfg, root, tr, c, key, data, a);
    ext := Then(cfg, root, ext, Happens(c, PayloadHead));
    assert data[..0] == [];
    ext := Rereads(cfg, root, ext, c, 0);
  }

  /** A Put of any key without a legacy row uploads, verifies and comes to its publish request. */
  lemma Stages(cfg: Config, root: Trace, tr: Trace, c: Id, key: Key, data: Str, a: Attempt) returns (ext: Trace)
    requires Extends(cfg, root, tr) && Row(true, key) !in End(tr).rows
    requires var s := End(tr); c !in s.clients && a !in s.used && a !in s.payloads
    ensures Extends(cfg, root, ext) && |ext.states| >= |tr.states|
    ensures var s := End(tr);
            End(ext) == s.(payloads := s.payloads[a := data], used := s.used + {a},
                           clients := s.clients[c := Client(Put(data, a), key, Publishing, true, false, {})])
  {
    ext := Verifies(cfg, root, tr, c, key, data, a);
    ext := Then(cfg, root, ext, Happens(c, PayloadAgrees));
    if Long(key) {
      ext := Then(cfg, root, ext, Happens(c, Head));
    }
  }

  /** A client about to look at a row finds it, and reads it whole. */
  lemma Looks(cfg: Config, root: Trace, tr: Trace, c: Id) returns (ext: Trace)
    requires Extends(cfg, root, tr)
    requires var s := End(tr);
             && c in s.clients && s.clients[c].pc.Reading? && s.clients[c].pc.etag == None
             && Target(s.clients[c]) in s.rows && s.rows[Target(s.clients[c])].key == s.clients[c].key
    ensures Extends(cfg, root, ext) && |ext.states| >= |tr.states|
    ensures var s := End(tr);
            var cl := s.clients[c];
            End(ext) == s.(clients := s.clients[c := AfterRead(cfg, cl, cl.pc.legacy, Some(s.rows[Target(cl)]))])
  {
    ext := Then(cfg, root, tr, Happens(c, Head));
    ext := Then(cfg, root, ext, Happens(c, Fetch));
  }

  /** A Put of a key with a legacy row comes to settle by it. */
  lemma SettlesByLegacy(cfg: Config, root: Trace, tr: Trace, c: Id, key: Key, data: Str, a: Attempt)
    returns (ext: Trace)
    requires Extends(cfg, root, tr) && Long(key)
    requires Row(true, key) in End(tr).rows && End(tr).rows[Row(true, key)].key == key
    requires var s := End(tr); c !in s.clients && a !in s.used && a !in s.payloads
    ensures Extends(cfg, root, ext) && |ext.states| >= |tr.states|
    ensures var s := End(tr);
            var answer := if s.rows[Row(true, key)].content == ContentOf(cfg, data) then Ok else Conflict;
            End(ext) == s.(payloads := s.payloads[a := data], used := s.used + {a},
                           clients := s.clients[c := Client(Put(data, a), key, CleaningUp(answer), false, false, {})])
  {
    ext := Verifies(cfg, root, tr, c, key, data, a);
    ext := Then(cfg, root, ext, Happens(c, PayloadAgrees));
    ext := Looks(cfg, root, ext, c);
  }

  /** A Put whose publish request was answered with an error reads the manifest back. */
  lemma ReadsBack(cfg: Config, root: Trace, tr: Trace, c: Id) returns (ext: Trace)
    requires Extends(cfg, root, tr)
    requires var s := End(tr);
             && c in s.clients && s.clients[c].pc.Publishing?
             && var row := Row(false, s.clients[c].key); row in s.rows && s.rows[row].key == row.key
    ensures Extends(cfg, root, ext) && |ext.states| >= |tr.states|
    ensures var s := End(tr);
            var cl := s.clients[c];
            End(ext) == s.(clients := s.clients[c := AfterRead(cfg, cl, false, Some(s.rows[Row(false, cl.key)]))])
  {
    ext := Then(cfg, root, tr, Happens(c, PublishUnsure));
    ext := Looks(cfg, root, ext, c);
  }

  /** A Put cleans up and returns. */
  lemma CleansUp(cfg: Config, root: Trace, tr: Trace, c: Id) returns (ext: Trace)
    requires Extends(cfg, root, tr)
    requires c in End(tr).clients && End(tr).clients[c].op.Put? && End(tr).clients[c].pc.CleaningUp?
    ensures ext == Then(cfg, root, tr, Happens(c, CleanedUp))
    ensures var s := End(tr);
            var cl := s.clients[c];
            End(ext) == s.(doomed := s.doomed + {cl.op.attempt},
                           clients := s.clients[c := cl.(pc := Done(cl.pc.outcome))])
  {
    ext := Then(cfg, root, tr, Happens(c, CleanedUp));
  }

  /** A Put of a key whose current row another Put has created answers by it. */
  lemma PutFindsRow(cfg: Config, root: Trace, tr: Trace, c: Id, key: Key, data: Str, a: Attempt) returns (ext: Trace)
    requires Extends(cfg, root, tr) && Row(true, key) !in End(tr).rows
    requires var s := End(tr);
             && c !in s.clients && a !in s.used && a !in s.payloads
             && var row := Row(false, key);
                row in s.rows && s.rows[row].key == key && s.rows[row].attempt != a
    ensures Extends(cfg, root, ext) && |ext.states| > |tr.states| && Active(ext.states[|ext.states| - 2], c)
    ensures var s := End(tr);
            var answer := if s.rows[Row(false, key)].content == ContentOf(cfg, data) then Ok else Conflict;
            End(ext) == s.(payloads := s.payloads[a := data], used := s.used + {a}, doomed := s.doomed + {a},
                           clients := s.clients[c := Client(Put(data, a), key, Done(answer), true, false, {})])
  {
    ext := Stages(cfg, root, tr, c, key, data, a);
    var published := ReadsBack(cfg, root, ext, c);
    ext := CleansUp(cfg, root, published, c);
    assert ext.states[|ext.states| - 2] == End(published);
  }

  /** A Get is called and comes to the candidate where the key's row would be. */
  lemma GetTurnsTo(cfg: Config, root: Trace, tr: Trace, g: Id, key: Key, legacy: bool) returns (ext: Trace)
    requires Extends(cfg, root, tr) && g !in End(tr).clients
    requires legacy ==> Long(key) && Row(false, key) !in End(tr).rows
    ensures Extends(cfg, root, ext) && |ext.states| >= |tr.states|
    ensures var s := End(tr);
            End(ext) == s.(clients := s.clients[g := Client(Get, key, Reading(legacy, None), false, false, {})])
  {
    ext := Then(cfg, root, tr, Starts(g, Get, key));
    if legacy {
      ext := Then(cfg, root, ext, Happens(g, Head));
    }
  }

  lemma GetFinds(cfg: Config, root: Trace, tr: Trace, g: Id, key: Key, legacy: bool) returns (ext: Trace)
    requires Extends(cfg, root, tr) && g !in End(tr).clients
    requires legacy ==> Long(key) && Row(false, key) !in End(tr).rows
    requires var s := End(tr);
             && Row(legacy, key) in s.rows
             && var m := s.rows[Row(legacy, key)];
                m.key == key && m.attempt in s.payloads && |s.payloads[m.attempt]| == m.content.size
    ensures Extends(cfg, root, ext) && |ext.states| >= |tr.states|
    ensures var s := End(tr);
            var found := Done(Found(s.rows[Row(legacy, key)]));
            End(ext) == s.(clients := s.clients[g := Client(Get, key, found, false, false, {})])
  {
    ext := GetTurnsTo(cfg, root, tr, g, key, legacy);
    ext := Looks(cfg, root, ext, g);
    ext := Then(cfg, root, ext, Happens(g, PayloadOpened));
  }

  lemma GetMisses(cfg: Config, root: Trace, tr: Trace, g: Id, key: Key) returns (ext: Trace)
    requires Extends(cfg, root, tr) && g !in End(tr).clients && Value(End(tr), key) == None
    ensures Extends(cfg, root, ext) && |ext.states| >= |tr.states|
    ensures var s := End(tr);
            End(ext) == s.(clients := s.clients[g := Client(Get, key, Done(NotFound), false, false, {})])
  {
    ext := GetTurnsTo(cfg, root, tr, g, key, Long(key));
    ext := Then(cfg, root, ext, Happens(g, Head));
  }

  /** A Delete of a current row is called and comes to remove it. */
  lemma DeleteIsCalled(cfg: Config, tr: Trace, d: Id, key: Key) returns (root: Trace, ext: Trace)
    requires Valid(cfg, tr) && cfg.deletes && d !in End(tr).clients
    requires Row(false, key) in End(tr).rows && End(tr).rows[Row(false, key)].key == key
    ensures root == Take(cfg, tr, Starts(d, Delete, key)) && Extends(cfg, root, ext)
    ensures var s := End(tr);
            var removing := RemovingRow(false, s.rows[Row(false, key)].attempt, false);
            End(ext) == s.(clients := s.clients[d := Client(Delete, key, removing, false, false, {Row(false, key)})])
  {
    root := Take(cfg, tr, Starts(d, Delete, key));
    ext := Looks(cfg, root, root, d);
    var asked: set<Row> := {};
    assert asked + {Row(false, key)} == {Row(false, key)};
  }

  /** A Delete's request takes effect. */
  lemma TakesRow(cfg: Config, root: Trace, tr: Trace, d: Id, r: Row) returns (ext: Trace)
    requires Extends(cfg, root, tr) && Enabled(cfg, End(tr), Happens(d, RowRemoved(r)))
    ensures Extends(cfg, root, ext) && |ext.states| >= |tr.states|
    ensures var s := End(tr);
            var cl := s.clients[d];
            var after := if cl.pc.RemovingRow? && Target(cl) == r then cl.(pc := cl.pc.(removed := true)) else cl;
            End(ext) == s.(rows := s.rows - {r}, clients := s.clients[d := after])
  {
    ext := Then(cfg, root, tr, Happens(d, RowRemoved(r)));
  }

  /** A Delete of a current row is called and takes it away. */
  lemma DeleteTakesRow(cfg: Config, tr: Trace, d: Id, key: Key) returns (root: Trace, ext: Trace)
    requires Valid(cfg, tr) && cfg.deletes && d !in End(tr).clients
    requires Row(false, key) in End(tr).rows && End(tr).rows[Row(false, key)].key == key
    ensures root == Take(cfg, tr, Starts(d, Delete, key)) && Extends(cfg, root, ext)
    ensures var s := End(tr);
            var removing := RemovingRow(false, s.rows[Row(false, key)].attempt, true);
            End(ext) == s.(rows := s.rows - {Row(false, key)},
                           clients := s.clients[d := Client(Delete, key, removing, false, false, {Row(false, key)})])
  {
    root, ext := DeleteIsCalled(cfg, tr, d, key);
    ext := TakesRow(cfg, root, ext, d, Row(false, key));
  }

  /** A Delete of a short key, from its call to its return. */
  lemma Deletes(cfg: Config, tr: Trace, d: Id, key: Key) returns (ext: Trace)
    requires Valid(cfg, tr) && cfg.deletes && d !in End(tr).clients && !Long(key)
    requires Row(false, key) in End(tr).rows && End(tr).rows[Row(false, key)].key == key
    ensures Valid(cfg, ext) && ext.states[0] == tr.states[0]
    ensures var s := End(tr);
            End(ext) == s.(rows := s.rows - {Row(false, key)}, doomed := s.doomed + {s.rows[Row(false, key)].attempt},
                           clients := s.clients[d := Client(Delete, key, Done(Ok), false, false, {Row(false, key)})])
  {
    var root;
    root, ext := DeleteTakesRow(cfg, tr, d, key);
    ext := Then(cfg, root, ext, Happens(d, RemovalAcked));
  }

  /** A publish request takes effect. */
  lemma Lands(cfg: Config, tr: Trace, c: Id) returns (ext: Trace)
    requires Valid(cfg, tr) && Enabled(cfg, End(tr), Happens(c, PublishLands))
    ensures ext == Take(cfg, tr, Happens(c, PublishLands))
    ensures var s := End(tr);
            var cl := s.clients[c];
            End(ext) == s.(rows := s.rows[Row(false, cl.key) := ManifestOf(cfg, cl)],
                           clients := s.clients[c := cl.(created := true)])
  {
    ext := Take(cfg, tr, Happens(c, PublishLands));
  }

  /** Some client name is still free. */
  lemma {:induction false} FreshId(ids: set<Id>) returns (n: Id)
    ensures forall i :: i in ids ==> i < n
  {
    if ids == {} {
      n := 0;
    } else {
      var i :| i in ids;
      var rest := FreshId(ids - {i});
      n := if i < rest then rest else i + 1;
      forall j | j in ids ensures j < n {
        assert j != i ==> j in ids - {i};
      }
    }
  }
}
