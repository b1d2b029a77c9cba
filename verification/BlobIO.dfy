/** The hashing upload reader and the verifying download reader, over any source and any buffer sizes. */
module BlobIO {
  import opened Basics
  import opened Streams

  /** What a read reports: the source's own error (nil included), or a verdict of the reader. */
  datatype Outcome = Passed(error: ReadError) | TooLarge | Integrity

  datatype Result = Result(data: Str, outcome: Outcome)

  // ---- upload

  datatype Upload = Upload(returned: Str, script: Script)

  /** One Read of the accounted reader into `room` bytes. */
  function UploadStep(maximum: nat, st: Upload, room: nat): (r: (Upload, Result))
    requires |st.returned| <= maximum
    ensures |r.0.returned| <= maximum && r.0.returned == st.returned + r.1.data
  {
    if room == 0 then (st, Result([], Passed(NoError)))
    else if |st.returned| == maximum then
      var p := Pull(st.script, 1);
      (st.(script := p.rest), Result([], if p.data != [] then TooLarge else Passed(p.error)))
    else
      var p := Pull(st.script, Min(room, maximum - |st.returned|));
      (Upload(st.returned + p.data, p.rest), Result(p.data, Passed(p.error)))
  }

  class AccountedHashReader {
    const sha: Hash
    const source: Source
    const maximum: nat
    var size: nat
    /** The hash state: the bytes written to it so far. */
    var hashed: Str
    var digest: Digest
    var final: bool
    /** Everything Read has returned. */
    ghost var returned: Str

    ghost predicate Valid()
      reads this
    {
      && hashed == returned && size == |returned| <= maximum
      && (final ==> digest == sha(returned))
    }

    ghost function State(): Upload
      reads this, source
    {
      Upload(returned, source.script)
    }

    constructor (sha: Hash, source: Source, maximum: nat)
      ensures Valid() && State() == Upload([], source.script)
      ensures this.sha == sha && this.source == source && this.maximum == maximum
    {
      this.sha, this.source, this.maximum := sha, source, maximum;
      size, hashed, final := 0, [], false;
      digest := seq(32, _ => 0);
      returned := [];
    }

    method Read(buffer: array<Byte>) returns (n: nat, outcome: Outcome)
      requires Valid()
      modifies this, source, buffer
      ensures Valid()
      ensures var (st, r) := UploadStep(maximum, old(State()), buffer.Length);
              && State() == st
              && outcome == r.outcome && n == |r.data| <= buffer.Length && buffer[..n] == r.data
    {
      if buffer.Length == 0 {
        return 0, Passed(NoError);
      }
      if size == maximum {
        var probe := new Byte[1](_ => 0);
        var k, err := source.Read(probe, 0, 1);
        if k > 0 {
          return 0, TooLarge;
        }
        return 0, Passed(err);
      }
      var limit := Min(buffer.Length, maximum - size);
      var err;
      n, err := source.Read(buffer, 0, limit);
      assert buffer[..n] == Pull(old(source.script), limit).data;
      if n > 0 {
        hashed := hashed + buffer[..n];
        size := size + n;
        final := false;
      }
      returned := returned + buffer[..n];
      return n, Passed(err);
    }

    method Size() returns (r: nat)
      requires Valid()
      ensures r == |returned|
    {
      return size;
    }

    method Digest() returns (d: Digest)
      requires Valid()
      modifies this
      ensures Valid() && State() == old(State())
      ensures d == sha(returned)
    {
      if !final {
        digest := sha(hashed);
        final := true;
      }
      return digest;
    }
  }

  /** An upload reads until the first answer that is not a plain success. */
  function UploadRun(maximum: nat, st: Upload, rooms: seq<nat>): (r: (Upload, Outcome))
    requires |st.returned| <= maximum
    decreases |rooms|
  {
    if rooms == [] then (st, Passed(NoError))
    else
      var (next, result) := UploadStep(maximum, st, rooms[0]);
      if result.outcome == Passed(NoError) then UploadRun(maximum, next, rooms[1..]) else (next, result.outcome)
  }

  lemma PullContent(script: Script, limit: nat)
    requires Terminated(script) && limit > 0
    ensures var p := Pull(script, limit);
            && p.data <= Content(script)
            && (p.error == NoError ==> Terminated(p.rest) && Content(script) == p.data + Content(p.rest))
            && (p.error != NoError ==> Content(script) == p.data)
  {
    if script != [] && |script[0].data| <= limit && script[0].error == NoError {
      assert Content(script) == script[0].data + Content(script[1..]);
    }
  }

  /** What an answer says of a body of which `returned` has been returned and `content` is still to come. */
  ghost predicate Accounts(maximum: nat, body: Str, next: Upload, outcome: Outcome) {
    && next.returned <= body
    && (outcome == Passed(NoError) ==> Terminated(next.script) && next.returned + Content(next.script) == body)
    && (outcome == Passed(Eof) ==> next.returned == body)
    && (outcome == TooLarge ==> |body| > maximum && next.returned == body[..maximum])
  }

  lemma ProbeAccounts(maximum: nat, st: Upload)
    requires |st.returned| == maximum && Terminated(st.script)
    ensures var p := Pull(st.script, 1);
            Accounts(maximum, st.returned + Content(st.script), st.(script := p.rest),
                     if p.data != [] then TooLarge else Passed(p.error))
  {
    PullContent(st.script, 1);
    var p := Pull(st.script, 1);
    if p.data == [] {
      assert p.data + Content(p.rest) == Content(p.rest);
    }
  }

  lemma PassingAccounts(maximum: nat, st: Upload, limit: nat)
    requires Terminated(st.script) && limit > 0
    ensures var p := Pull(st.script, limit);
            Accounts(maximum, st.returned + Content(st.script), Upload(st.returned + p.data, p.rest), Passed(p.error))
  {
    PullContent(st.script, limit);
    var p := Pull(st.script, limit);
    assert st.returned + p.data + Content(p.rest) == st.returned + (p.data + Content(p.rest));
  }

  lemma UploadStepAccounts(maximum: nat, st: Upload, room: nat)
    requires |st.returned| <= maximum && Terminated(st.script)
    ensures var (next, result) := UploadStep(maximum, st, room);
            Accounts(maximum, st.returned + Content(st.script), next, result.outcome)
  {
    if room > 0 && |st.returned| == maximum {
      ProbeAccounts(maximum, st);
    } else if room > 0 {
      PassingAccounts(maximum, st, Min(room, maximum - |st.returned|));
    }
  }

  /** Whatever the chunking and the buffer sizes, an upload that ends cleanly has returned exactly the body, within
      the maximum, and one refused as too large has a body above the maximum, of which only the maximum was returned. */
  lemma {:induction false} UploadAccountsExactly(maximum: nat, st: Upload, rooms: seq<nat>)
    requires |st.returned| <= maximum && Terminated(st.script)
    ensures var body := st.returned + Content(st.script);
            var (end, outcome) := UploadRun(maximum, st, rooms);
            && |end.returned| <= maximum && end.returned <= body
            && (outcome == Passed(Eof) ==> end.returned == body)
            && (outcome == TooLarge ==> |body| > maximum && end.returned == body[..maximum])
    decreases |rooms|
  {
    if rooms != [] {
      UploadStepAccounts(maximum, st, rooms[0]);
      var (next, result) := UploadStep(maximum, st, rooms[0]);
      if result.outcome == Passed(NoError) {
        UploadAccountsExactly(maximum, next, rooms[1..]);
      }
    }
  }

  lemma HonestPull(script: Script, limit: nat)
    requires Honest(script) && limit > 0
    ensures var p := Pull(script, limit);
            && p.error != Failure && Honest(p.rest)
            && (p.error == NoError ==> Content(script) == p.data + Content(p.rest))
            && (p.error != NoError ==> Content(script) == p.data)
  {
    PullContent(script, limit);
    if script != [] {
      assert script[0] in script;
    }
  }

  /** Bodies none of whose answers is empty without being the last. */
  ghost predicate NoIdleReads(script: Script) {
    forall c :: c in script && c.error == NoError ==> c.data != []
  }

  /** How a body ends: at its first error, or after its last answer. */
  function Ending(script: Script): ReadError {
    if script == [] then Eof else if script[0].error != NoError then script[0].error else Ending(script[1..])
  }

  /** One read of such a body hands on some of it, or comes to its end. */
  lemma BusyPull(script: Script, limit: nat)
    requires Terminated(script) && NoIdleReads(script) && limit > 0
    ensures var p := Pull(script, limit);
            if p.error == NoError then
              && Terminated(p.rest) && NoIdleReads(p.rest) && p.data != []
              && Content(script) == p.data + Content(p.rest) && Ending(p.rest) == Ending(script)
            else
              Content(script) == p.data && p.error == Ending(script)
  {
    PullContent(script, limit);
    if script != [] {
      assert script[0] in script;
    }
  }

  /** An upload of such a body, with n reads still to come. */
  ghost predicate Uploading(maximum: nat, st: Upload, n: nat) {
    && |st.returned| <= maximum && Terminated(st.script) && NoIdleReads(st.script)
    && n > Min(|Content(st.script)|, maximum - |st.returned|)
  }

  lemma UploadGoesOn(maximum: nat, st: Upload, limit: nat, n: nat)
    requires Uploading(maximum, st, n) && 0 < limit <= maximum - |st.returned|
    requires Pull(st.script, limit).error == NoError
    ensures var p := Pull(st.script, limit);
            && n > 1 && Uploading(maximum, Upload(st.returned + p.data, p.rest), n - 1)
            && st.returned + p.data + Content(p.rest) == st.returned + Content(st.script)
            && Ending(p.rest) == Ending(st.script)
  {
    BusyPull(st.script, limit);
    var p := Pull(st.script, limit);
    assert st.returned + p.data + Content(p.rest) == st.returned + (p.data + Content(p.rest));
  }

  lemma UploadProbe(maximum: nat, st: Upload, room: nat, n: nat)
    requires Uploading(maximum, st, n) && room > 0 && |st.returned| == maximum
    ensures UploadStep(maximum, st, room).1.outcome ==
            if Content(st.script) == [] then Passed(Ending(st.script)) else TooLarge
    ensures Content(st.script) == [] ==> Ending(st.script) != NoError
  {
    BusyPull(st.script, 1);
  }

  lemma UploadingStep(maximum: nat, st: Upload, room: nat, n: nat)
    requires Uploading(maximum, st, n) && room > 0
    ensures var (next, result) := UploadStep(maximum, st, room);
            var fits := |st.returned| + |Content(st.script)| <= maximum;
            if result.outcome == Passed(NoError) then
              && n > 1 && Uploading(maximum, next, n - 1)
              && next.returned + Content(next.script) == st.returned + Content(st.script)
              && Ending(next.script) == Ending(st.script)
            else
              result.outcome == if fits then Passed(Ending(st.script)) else TooLarge
  {
    if |st.returned| == maximum {
      UploadProbe(maximum, st, room, n);
    } else {
      var limit := Min(room, maximum - |st.returned|);
      BusyPull(st.script, limit);
      if Pull(st.script, limit).error == NoError {
        UploadGoesOn(maximum, st, limit, n);
      }
    }
  }

  /** Read with room, in at most one read more than the body or the maximum has bytes, a body within the maximum comes
      to its own ending, clean or not, and a larger one is refused. */
  lemma {:induction false} UploadIsDecided(maximum: nat, st: Upload, rooms: seq<nat>)
    requires Uploading(maximum, st, |rooms|) && forall i :: 0 <= i < |rooms| ==> rooms[i] > 0
    ensures UploadRun(maximum, st, rooms).1 ==
            if |st.returned| + |Content(st.script)| <= maximum then Passed(Ending(st.script)) else TooLarge
    decreases |rooms|
  {
    UploadingStep(maximum, st, rooms[0], |rooms|);
    var (next, result) := UploadStep(maximum, st, rooms[0]);
    if result.outcome == Passed(NoError) {
      assert |next.returned + Content(next.script)| == |st.returned + Content(st.script)|;
      UploadIsDecided(maximum, next, rooms[1..]);
    }
  }

  // ---- download

  /** What the manifest promises of a payload. */
  datatype Expected = Expected(size: nat, digest: Digest)

  datatype Download = Download(delivered: Str, terminal: Option<Outcome>, script: Script)

  function Finish(sha: Hash, want: Expected, delivered: Str): Outcome {
    if sha(delivered) == want.digest then Passed(Eof) else Integrity
  }

  /** One Read of the verifying reader into `room` bytes. */
  function DownloadStep(sha: Hash, want: Expected, st: Download, room: nat): (r: (Download, Result))
    requires |st.delivered| <= want.size
    ensures |r.0.delivered| <= want.size && r.0.delivered == st.delivered + r.1.data
  {
    if st.terminal.Some? then (st, Result([], st.terminal.value))
    else if room == 0 then (st, Result([], Passed(NoError)))
    else if |st.delivered| == want.size then
      var p := Pull(st.script, 1);
      var verdict := if p.data != [] then Integrity else Finish(sha, want, st.delivered);
      if p.data == [] && p.error == Failure then (st.(script := p.rest), Result([], Passed(Failure)))
      else (Download(st.delivered, Some(verdict), p.rest), Result([], verdict))
    else
      var p := Pull(st.script, Min(room, want.size - |st.delivered|));
      var delivered := st.delivered + p.data;
      if p.error != Eof then (Download(delivered, None, p.rest), Result(p.data, Passed(p.error)))
      else
        var verdict := if |delivered| != want.size then Integrity else Finish(sha, want, delivered);
        (Download(delivered, Some(verdict), p.rest), Result(p.data, verdict))
  }

  class VerifyingBlobReader {
    const sha: Hash
    const body: Source
    const want: Expected
    var read: nat
    var hashed: Str
    var terminal: Option<Outcome>
    ghost var delivered: Str

    ghost predicate Valid()
      reads this
    {
      hashed == delivered && read == |delivered| <= want.size
    }

    ghost function State(): Download
      reads this, body
    {
      Download(delivered, terminal, body.script)
    }

    constructor (sha: Hash, body: Source, want: Expected)
      ensures Valid() && State() == Download([], None, body.script)
      ensures this.sha == sha && this.body == body && this.want == want
    {
      this.sha, this.body, this.want := sha, body, want;
      read, hashed, terminal := 0, [], None;
      delivered := [];
    }

    method Read(buffer: array<Byte>) returns (n: nat, outcome: Outcome)
      requires Valid()
      modifies this, body, buffer
      ensures Valid()
      ensures var (st, r) := DownloadStep(sha, want, old(State()), buffer.Length);
              && State() == st
              && outcome == r.outcome && n == |r.data| <= buffer.Length && buffer[..n] == r.data
    {
      if terminal.Some? {
        return 0, terminal.value;
      }
      if buffer.Length == 0 {
        return 0, Passed(NoError);
      }
      if read == want.size {
        var probe := new Byte[1](_ => 0);
        var k, err := body.Read(probe, 0, 1);
        if k > 0 {
          terminal := Some(Integrity);
          return 0, Integrity;
        }
        if err == Failure {
          return 0, Passed(err);
        }
        var verdict := FinishRead();
        return 0, verdict;
      }
      var limit := Min(buffer.Length, want.size - read);
      var err;
      n, err := body.Read(buffer, 0, limit);
      assert buffer[..n] == Pull(old(body.script), limit).data;
      if n > 0 {
        hashed := hashed + buffer[..n];
        read := read + n;
      }
      delivered := delivered + buffer[..n];
      if err == Eof {
        if read != want.size {
          terminal := Some(Integrity);
          return n, Integrity;
        }
        var verdict := FinishRead();
        return n, verdict;
      }
      return n, Passed(err);
    }

    method FinishRead() returns (verdict: Outcome)
      requires Valid()
      modifies this`terminal
      ensures verdict in {Passed(Eof), Integrity} && terminal == Some(verdict)
      ensures verdict == Passed(Eof) <==> sha(delivered) == want.digest
    {
      if sha(hashed) != want.digest {
        terminal := Some(Integrity);
        return Integrity;
      }
      terminal := Some(Passed(Eof));
      return Passed(Eof);
    }
  }

  /** Any number of reads, whatever they answer; the caller may ignore errors and go on reading. */
  function Reads(sha: Hash, want: Expected, st: Download, rooms: seq<nat>): (results: seq<Result>)
    requires |st.delivered| <= want.size
    ensures |results| == |rooms|
    decreases |rooms|
  {
    if rooms == [] then []
    else
      var (next, result) := DownloadStep(sha, want, st, rooms[0]);
      [result] + Reads(sha, want, next, rooms[1..])
  }

  function Delivered(results: seq<Result>): Str {
    if results == [] then [] else results[0].data + Delivered(results[1..])
  }

  predicate Verified(sha: Hash, want: Expected, delivered: Str) {
    |delivered| == want.size && sha(delivered) == want.digest
  }

  /** An invariant of every reachable state: a latched end of stream vouches for the delivered bytes. */
  predicate Sound(sha: Hash, want: Expected, st: Download) {
    |st.delivered| <= want.size && (st.terminal == Some(Passed(Eof)) ==> Verified(sha, want, st.delivered))
  }

  /** A reader that has latched a verdict answers nothing else ever again. */
  lemma {:induction false} TerminalIsStable(sha: Hash, want: Expected, st: Download, rooms: seq<nat>)
    requires |st.delivered| <= want.size && st.terminal.Some?
    ensures forall i :: 0 <= i < |rooms| ==> Reads(sha, want, st, rooms)[i] == Result([], st.terminal.value)
  {
    if rooms != [] {
      TerminalIsStable(sha, want, st, rooms[1..]);
    }
  }

  /** The i-th answer of a run, when it is a verdict: an end of stream is earned, and no later read differs. */
  predicate VerdictHolds(sha: Hash, want: Expected, before: Str, results: seq<Result>, i: nat)
    requires i < |results|
  {
    && (results[i].outcome == Passed(Eof) ==> Verified(sha, want, before + Delivered(results[..i + 1])))
    && (results[i].outcome in {Passed(Eof), Integrity} ==>
          forall j :: i < j < |results| ==> results[j] == Result([], results[i].outcome))
  }

  lemma DeliveredAfter(first: Result, rest: seq<Result>, before: Str)
    ensures before + Delivered([first] + rest) == before + first.data + Delivered(rest)
  {
    assert ([first] + rest)[1..] == rest;
  }

  lemma {:induction false} NothingDelivered(results: seq<Result>)
    requires forall r :: r in results ==> r.data == []
    ensures Delivered(results) == []
  {
    if results != [] {
      NothingDelivered(results[1..]);
    }
  }

  lemma VerdictNow(sha: Hash, want: Expected, before: Str, first: Result, rest: seq<Result>)
    requires first.outcome == Passed(Eof) ==> Verified(sha, want, before + first.data)
    requires first.outcome in {Passed(Eof), Integrity} ==>
               forall j :: 0 <= j < |rest| ==> rest[j] == Result([], first.outcome)
    ensures VerdictHolds(sha, want, before, [first] + rest, 0)
  {
    assert ([first] + rest)[..1] == [first] + [];
    DeliveredAfter(first, [], before);
    assert before + first.data + [] == before + first.data;
  }

  lemma VerdictLater(sha: Hash, want: Expected, before: Str, first: Result, rest: seq<Result>, i: nat)
    requires i < |rest| && VerdictHolds(sha, want, before + first.data, rest, i)
    ensures VerdictHolds(sha, want, before, [first] + rest, i + 1)
  {
    assert ([first] + rest)[..i + 2] == [first] + rest[..i + 1];
    DeliveredAfter(first, rest[..i + 1], before);
  }

  /** A verdict is latched as it is given. */
  lemma StepIsSound(sha: Hash, want: Expected, st: Download, room: nat)
    requires Sound(sha, want, st)
    ensures var (next, result) := DownloadStep(sha, want, st, room);
            && Sound(sha, want, next)
            && (result.outcome in {Passed(Eof), Integrity} ==> next.terminal == Some(result.outcome))
  {
  }

  lemma {:induction false} VerdictAt(sha: Hash, want: Expected, st: Download, rooms: seq<nat>, i: nat)
    requires Sound(sha, want, st) && i < |rooms|
    ensures VerdictHolds(sha, want, st.delivered, Reads(sha, want, st, rooms), i)
    decreases i
  {
    var (next, result) := DownloadStep(sha, want, st, rooms[0]);
    StepIsSound(sha, want, st, rooms[0]);
    if i == 0 {
      if result.outcome in {Passed(Eof), Integrity} {
        TerminalIsStable(sha, want, next, rooms[1..]);
      }
      VerdictNow(sha, want, st.delivered, result, Reads(sha, want, next, rooms[1..]));
    } else {
      VerdictAt(sha, want, next, rooms[1..], i - 1);
      VerdictLater(sha, want, st.delivered, result, Reads(sha, want, next, rooms[1..]), i - 1);
    }
  }

  lemma {:induction false} NeverTooMuch(sha: Hash, want: Expected, st: Download, rooms: seq<nat>)
    requires |st.delivered| <= want.size
    ensures |st.delivered| + |Delivered(Reads(sha, want, st, rooms))| <= want.size
    decreases |rooms|
  {
    if rooms != [] {
      NeverTooMuch(sha, want, DownloadStep(sha, want, st, rooms[0]).0, rooms[1..]);
    }
  }

  /** Over every body and every sequence of buffer sizes, from a fresh reader: never more than the expected bytes are
      delivered; the end of stream is reported at read i only when what was delivered up to i has the expected length
      and digest; and once it, or an integrity error, is reported, every later read repeats it with no bytes. */
  lemma DownloadIsVerified(sha: Hash, want: Expected, script: Script, rooms: seq<nat>)
    ensures var results := Reads(sha, want, Download([], None, script), rooms);
            && |Delivered(results)| <= want.size
            && forall i :: 0 <= i < |rooms| ==> VerdictHolds(sha, want, [], results, i)
  {
    var st := Download([], None, script);
    NeverTooMuch(sha, want, st, rooms);
    forall i | 0 <= i < |rooms| ensures VerdictHolds(sha, want, [], Reads(sha, want, st, rooms), i) {
      VerdictAt(sha, want, st, rooms, i);
    }
  }

  /** All the bytes of a body, errors notwithstanding. */
  function Everything(script: Script): Str {
    if script == [] then [] else script[0].data + Everything(script[1..])
  }

  /** The strings of a given size a body can deliver: a caller may go on reading after an error, but gets no bytes
      other than the body's first. */
  ghost function Deliverable(script: Script, size: nat): iset<Str> {
    if size <= |Everything(script)| then iset{Everything(script)[..size]} else iset{}
  }

  lemma Regroup(a: Str, b: Str, c: Str, whole: Str)
    requires a + b == whole
    ensures a + (b + c) == whole + c
  {
  }

  lemma Front(a: Str, b: Str, whole: Str)
    requires a + b == whole
    ensures a <= whole && (a == [] ==> b == whole)
  {
  }

  /** A pull takes the next bytes, and leaves the others. */
  lemma PullTakesFromFront(script: Script, limit: nat)
    ensures var p := Pull(script, limit);
            && p.data + Everything(p.rest) == Everything(script)
            && p.data <= Everything(script)
            && (p.data == [] ==> Everything(p.rest) == Everything(script))
  {
    var p := Pull(script, limit);
    if script != [] && |script[0].data| > limit {
      var data := script[0].data;
      assert p.rest[1..] == script[1..];
      Regroup(data[..limit], data[limit..], Everything(script[1..]), data);
    }
    Front(p.data, Everything(p.rest), Everything(script));
  }

  lemma StepTakesFromFront(sha: Hash, want: Expected, st: Download, room: nat)
    requires |st.delivered| <= want.size
    ensures var (next, result) := DownloadStep(sha, want, st, room);
            && (next.terminal == None ==>
                  result.data + Everything(next.script) == Everything(st.script)
                  || (result.data == [] && Everything(next.script) == Everything(st.script)))
            && (result.data == [] || result.data <= Everything(st.script))
  {
    if |st.delivered| == want.size {
      PullTakesFromFront(st.script, 1);
    } else {
      PullTakesFromFront(st.script, Min(room, want.size - |st.delivered|));
    }
  }

  lemma PrefixOfRest(first: Str, more: Str, rest: Str, all: Str)
    requires first + rest == all && more <= rest
    ensures first + more <= all
  {
    assert rest == more + rest[|more|..];
    assert all == (first + more) + rest[|more|..];
  }

  lemma {:induction false} DeliveredFromFront(sha: Hash, want: Expected, st: Download, rooms: seq<nat>, n: nat)
    requires |st.delivered| <= want.size && n <= |rooms|
    ensures Delivered(Reads(sha, want, st, rooms)[..n]) <= Everything(st.script)
    decreases n
  {
    if n > 0 {
      var (next, result) := DownloadStep(sha, want, st, rooms[0]);
      var rest := Reads(sha, want, next, rooms[1..]);
      assert Reads(sha, want, st, rooms)[..n] == [result] + rest[..n - 1];
      DeliveredAfter(result, rest[..n - 1], []);
      StepTakesFromFront(sha, want, st, rooms[0]);
      if next.terminal == None {
        DeliveredFromFront(sha, want, next, rooms[1..], n - 1);
        PrefixOfRest(result.data, Delivered(rest[..n - 1]), Everything(next.script), Everything(st.script));
      } else {
        TerminalIsStable(sha, want, next, rooms[1..]);
        NothingDelivered(rest[..n - 1]);
      }
    }
  }

  /** A reader whose remaining body is honest and completes the promised bytes, or which has reported the end. */
  ghost predicate OnTrack(sha: Hash, want: Expected, st: Download) {
    && |st.delivered| <= want.size
    && st.terminal in {None, Some(Passed(Eof))}
    && (st.terminal == None ==> Honest(st.script) && Verified(sha, want, st.delivered + Content(st.script)))
  }

  lemma HonestStep(sha: Hash, want: Expected, st: Download, room: nat)
    requires OnTrack(sha, want, st)
    ensures var (next, result) := DownloadStep(sha, want, st, room);
            OnTrack(sha, want, next) && result.outcome in {Passed(NoError), Passed(Eof)}
  {
    if st.terminal == None && room > 0 {
      if |st.delivered| == want.size {
        HonestPull(st.script, 1);
        assert Content(st.script) == [];
        assert st.delivered + [] == st.delivered;
      } else {
        var limit := Min(room, want.size - |st.delivered|);
        HonestPull(st.script, limit);
        var p := Pull(st.script, limit);
        assert st.delivered + p.data + Content(p.rest) == st.delivered + (p.data + Content(p.rest));
      }
    }
  }

  /** The converse: an honest body with the expected length and digest is never refused, however it is chunked. */
  lemma {:induction false} HonestBodyIsAccepted(sha: Hash, want: Expected, st: Download, rooms: seq<nat>)
    requires OnTrack(sha, want, st)
    ensures forall r :: r in Reads(sha, want, st, rooms) ==> r.outcome in {Passed(NoError), Passed(Eof)}
    decreases |rooms|
  {
    if rooms != [] {
      HonestStep(sha, want, st, rooms[0]);
      HonestBodyIsAccepted(sha, want, DownloadStep(sha, want, st, rooms[0]).0, rooms[1..]);
    }
  }

  lemma BusyStep(sha: Hash, want: Expected, st: Download, room: nat)
    requires OnTrack(sha, want, st) && st.terminal == None && NoIdleReads(st.script) && room > 0
    ensures var (next, result) := DownloadStep(sha, want, st, room);
            if next.terminal == None then
              NoIdleReads(next.script) && result.data != [] && Content(st.script) == result.data + Content(next.script)
            else
              result.outcome == next.terminal.value && result.data == Content(st.script)
  {
    var limit := if |st.delivered| == want.size then 1 else Min(room, want.size - |st.delivered|);
    HonestPull(st.script, limit);
  }

  lemma LastAndAll(first: Result, rest: seq<Result>)
    ensures ([first] + rest)[|rest|] == if rest == [] then first else rest[|rest| - 1]
    ensures Delivered([first] + rest) == first.data + Delivered(rest)
    ensures Delivered(rest) == [] ==> Delivered([first] + rest) == first.data
  {
    assert ([first] + rest)[1..] == rest;
  }

  /** Before its end, with n reads still to come. */
  ghost predicate Ahead(sha: Hash, want: Expected, st: Download, n: nat) {
    OnTrack(sha, want, st) && st.terminal == None && NoIdleReads(st.script) && n > want.size - |st.delivered|
  }

  lemma AheadStep(sha: Hash, want: Expected, st: Download, room: nat, n: nat)
    requires Ahead(sha, want, st, n) && room > 0
    ensures var (next, result) := DownloadStep(sha, want, st, room);
            if next.terminal == None then
              n > 1 && Ahead(sha, want, next, n - 1) && Content(st.script) == result.data + Content(next.script)
            else
              next.terminal == Some(Passed(Eof)) && result == Result(Content(st.script), Passed(Eof))
  {
    HonestStep(sha, want, st, room);
    BusyStep(sha, want, st, room);
  }

  /** Such a body, read with room, reaches its end in at most one read more than it has bytes left, and has then been
      delivered in full. */
  lemma {:induction false} HonestBodyReachesItsEnd(sha: Hash, want: Expected, st: Download, rooms: seq<nat>)
    requires Ahead(sha, want, st, |rooms|) && forall i :: 0 <= i < |rooms| ==> rooms[i] > 0
    ensures var results := Reads(sha, want, st, rooms);
            && results[|rooms| - 1].outcome == Passed(Eof)
            && Delivered(results) == Content(st.script)
    decreases |rooms|
  {
    var (next, result) := DownloadStep(sha, want, st, rooms[0]);
    var rest := Reads(sha, want, next, rooms[1..]);
    AheadStep(sha, want, st, rooms[0], |rooms|);
    LastAndAll(result, rest);
    if next.terminal == None {
      HonestBodyReachesItsEnd(sha, want, next, rooms[1..]);
    } else {
      TerminalIsStable(sha, want, next, rooms[1..]);
      NothingDelivered(rest);
    }
  }

  /** A caller that reads until the first answer that is not a plain success. */
  function DownloadRun(sha: Hash, want: Expected, st: Download, rooms: seq<nat>): (r: (Download, Outcome))
    requires |st.delivered| <= want.size
    decreases |rooms|
  {
    if rooms == [] then (st, Passed(NoError))
    else
      var (next, result) := DownloadStep(sha, want, st, rooms[0]);
      if result.outcome == Passed(NoError) then DownloadRun(sha, want, next, rooms[1..]) else (next, result.outcome)
  }

  /** What is to become of a body of these bytes with this ending. */
  function Decision(sha: Hash, want: Expected, bytes: Str, ending: ReadError): Outcome {
    if |bytes| > want.size then Integrity
    else if ending == Failure then Passed(Failure)
    else if Verified(sha, want, bytes) then Passed(Eof)
    else Integrity
  }

  /** A download that has come to no verdict, with n reads still to come. */
  ghost predicate Downloading(want: Expected, st: Download, n: nat) {
    && |st.delivered| <= want.size && st.terminal == None && Terminated(st.script) && NoIdleReads(st.script)
    && n > Min(|Content(st.script)|, want.size - |st.delivered|)
  }

  lemma ProbeDecides(sha: Hash, want: Expected, st: Download, room: nat, n: nat)
    requires Downloading(want, st, n) && room > 0 && |st.delivered| == want.size
    ensures var (next, result) := DownloadStep(sha, want, st, room);
            && result.outcome == Decision(sha, want, st.delivered + Content(st.script), Ending(st.script))
            && result.outcome != Passed(NoError)
            && next.delivered == st.delivered
  {
    BusyPull(st.script, 1);
    if Content(st.script) == [] {
      assert st.delivered + Content(st.script) == st.delivered;
    }
  }

  lemma Onward(want: Expected, st: Download, limit: nat, n: nat)
    requires Downloading(want, st, n) && 0 < limit <= want.size - |st.delivered|
    requires Pull(st.script, limit).error == NoError
    ensures var p := Pull(st.script, limit);
            && n > 1 && Downloading(want, Download(st.delivered + p.data, None, p.rest), n - 1)
            && st.delivered + p.data + Content(p.rest) == st.delivered + Content(st.script)
            && Ending(p.rest) == Ending(st.script)
  {
    BusyPull(st.script, limit);
    var p := Pull(st.script, limit);
    assert st.delivered + p.data + Content(p.rest) == st.delivered + (p.data + Content(p.rest));
  }

  lemma ReadDecides(sha: Hash, want: Expected, st: Download, room: nat, n: nat)
    requires Downloading(want, st, n) && room > 0 && |st.delivered| < want.size
    ensures var (next, result) := DownloadStep(sha, want, st, room);
            var body := st.delivered + Content(st.script);
            if result.outcome == Passed(NoError) then
              && n > 1 && Downloading(want, next, n - 1)
              && next.delivered + Content(next.script) == body && Ending(next.script) == Ending(st.script)
            else
              result.outcome == Decision(sha, want, body, Ending(st.script)) && next.delivered == body
  {
    var limit := Min(room, want.size - |st.delivered|);
    BusyPull(st.script, limit);
    var p := Pull(st.script, limit);
    if p.error == NoError {
      Onward(want, st, limit, n);
    } else {
      assert st.delivered + p.data == st.delivered + Content(st.script);
    }
  }

  /** Any body whose answers are not idle, read with room, is decided in at most one read more than there are bytes to
      deliver: it is refused if it is too long, too short or has the wrong digest; its own failure is passed on; and
      what is delivered are its first bytes. */
  lemma {:induction false} BodyIsDecided(sha: Hash, want: Expected, st: Download, rooms: seq<nat>)
    requires Downloading(want, st, |rooms|) && forall i :: 0 <= i < |rooms| ==> rooms[i] > 0
    ensures var body := st.delivered + Content(st.script);
            var (end, outcome) := DownloadRun(sha, want, st, rooms);
            && outcome == Decision(sha, want, body, Ending(st.script))
            && end.delivered == body[..Min(|body|, want.size)]
    decreases |rooms|
  {
    if |st.delivered| == want.size {
      ProbeDecides(sha, want, st, rooms[0], |rooms|);
    } else {
      ReadDecides(sha, want, st, rooms[0], |rooms|);
      var (next, result) := DownloadStep(sha, want, st, rooms[0]);
      if result.outcome == Passed(NoError) {
        BodyIsDecided(sha, want, next, rooms[1..]);
      }
    }
  }
}
