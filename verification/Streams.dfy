/** io.Reader with an adversarial but conforming source, and io.ReadFull over it. */
module Streams {
  import opened Basics

  datatype ReadError = NoError | Eof | Failure

  /** What one Read hands back. */
  datatype Chunk = Chunk(data: Str, error: ReadError)

  /** A source's remaining answers. Every run of reads is the run of some script, so a result for all scripts is a
      result for every way a source can split, delay, fail or resume. */
  type Script = seq<Chunk>

  datatype Pulled = Pulled(data: Str, error: ReadError, rest: Script)

  /** One Read into room for `limit` bytes. An exhausted script reports the end of the stream. */
  function Pull(script: Script, limit: nat): (p: Pulled)
    ensures |p.data| <= limit
  {
    if script == [] then Pulled([], Eof, [])
    else
      var c := script[0];
      if |c.data| <= limit then Pulled(c.data, c.error, script[1..])
      else Pulled(c.data[..limit], NoError, [Chunk(c.data[limit..], c.error)] + script[1..])
  }

  /** Writes `data` into `buffer` at `at`, as the built-in copy does. */
  method Copy(buffer: array<Byte>, at: nat, data: Str)
    requires at + |data| <= buffer.Length
    modifies buffer
    ensures buffer[..] == old(buffer[..at]) + data + old(buffer[at + |data|..])
  {
    var i := 0;
    while i < |data|
      invariant 0 <= i <= |data|
      invariant buffer[..] == old(buffer[..at]) + data[..i] + old(buffer[at + i..])
    {
      buffer[at + i] := data[i];
      i := i + 1;
    }
    assert data[..i] == data;
  }

  class Source {
    var script: Script

    constructor (script: Script)
      ensures this.script == script
    {
      this.script := script;
    }

    /** Read(buffer[at : at+limit]). */
    method Read(buffer: array<Byte>, at: nat, limit: nat) returns (n: nat, err: ReadError)
      requires at + limit <= buffer.Length
      modifies this, buffer
      ensures var p := Pull(old(script), limit);
              && n == |p.data| && err == p.error && script == p.rest
              && buffer[..] == old(buffer[..at]) + p.data + old(buffer[at + n..])
      ensures buffer[..at + n] == old(buffer[..at]) + Pull(old(script), limit).data
    {
      var p := Pull(script, limit);
      Copy(buffer, at, p.data);
      script := p.rest;
      n, err := |p.data|, p.error;
    }
  }

  datatype Filled = Filled(data: Str, ok: bool, rest: Script)

  /** io.ReadFull for `need` bytes; io.CopyN of `need` bytes ends in the same states. */
  function Fill(script: Script, need: nat): (f: Filled)
    ensures f.ok ==> |f.data| == need
    ensures |f.data| <= need
    decreases |script|
  {
    if need == 0 then Filled([], true, script)
    else
      var p := Pull(script, need);
      if |p.data| == need then Filled(p.data, true, p.rest)
      else if p.error != NoError then Filled(p.data, false, p.rest)
      else
        var f := Fill(p.rest, need - |p.data|);
        Filled(p.data + f.data, f.ok, f.rest)
  }

  /** ReadFull's loop after `done` bytes: the rest of the fill is the fill of the rest. */
  ghost predicate FillSoFar(script: Script, need: nat, done: Str, err: ReadError, rest: Script) {
    && |done| <= need
    && (var f := Fill(script, need);
        if |done| == need || err == NoError
        then var g := Fill(rest, need - |done|); f == Filled(done + g.data, g.ok, g.rest)
        else !f.ok && f.rest == rest)
  }

  lemma FillStep(script: Script, need: nat, done: Str, rest: Script)
    requires |done| < need && FillSoFar(script, need, done, NoError, rest)
    ensures var p := Pull(rest, need - |done|);
            FillSoFar(script, need, done + p.data, p.error, p.rest)
  {
    var p := Pull(rest, need - |done|);
    var g := Fill(rest, need - |done|);
    assert Fill(p.rest, 0) == Filled([], true, p.rest);
    if |p.data| < need - |done| && p.error == NoError {
      var h := Fill(p.rest, need - |done| - |p.data|);
      assert done + g.data == done + p.data + h.data;
    }
  }

  method ReadFull(reader: Source, buffer: array<Byte>) returns (ok: bool)
    modifies reader, buffer
    ensures var f := Fill(old(reader.script), buffer.Length);
            && ok == f.ok && reader.script == f.rest
            && (ok ==> buffer[..] == f.data)
  {
    var n, err := 0, NoError;
    ghost var done: Str := [];
    while n < buffer.Length && err == NoError
      invariant 0 <= n <= buffer.Length && buffer[..n] == done
      invariant FillSoFar(old(reader.script), buffer.Length, done, err, reader.script)
      decreases buffer.Length - n, |reader.script| + (if err == NoError then 1 else 0)
    {
      ghost var p := Pull(reader.script, buffer.Length - n);
      FillStep(old(reader.script), buffer.Length, done, reader.script);
      var k;
      k, err := reader.Read(buffer, n, buffer.Length - n);
      n := n + k;
      done := done + p.data;
    }
    ok := n == buffer.Length;
    assert buffer[..buffer.Length] == buffer[..];
  }

  /** The bytes a script delivers before it first reports an error or its end. */
  function Content(script: Script): Str {
    if script == [] then []
    else if script[0].error != NoError then script[0].data
    else script[0].data + Content(script[1..])
  }

  /** A body that ends once: nothing follows an error. */
  ghost predicate Terminated(script: Script) {
    forall i :: 0 <= i < |script| - 1 ==> script[i].error == NoError
  }

  /** A body that ends without failing. */
  ghost predicate Honest(script: Script) {
    Terminated(script) && forall c :: c in script ==> c.error != Failure
  }

  /** However a body is chunked, a full read of it succeeds exactly when it is long enough, and returns its bytes. */
  lemma {:induction false} FillReadsContent(script: Script, need: nat)
    requires Terminated(script)
    ensures var f := Fill(script, need);
            && (f.ok <==> need <= |Content(script)|)
            && (f.ok ==> f.data == Content(script)[..need] && Terminated(f.rest)
                         && Content(f.rest) == Content(script)[need..])
    decreases |script|
  {
    if need > 0 && script != [] {
      var c, p := script[0], Pull(script, need);
      if |c.data| > need {
        assert Content(p.rest) == Content(script)[need..];
      } else if |script| == 1 {
        assert Content(script[1..]) == [];
      } else {
        assert Terminated(script[1..]);
        FillReadsContent(script[1..], need - |c.data|);
      }
    }
  }

  lemma {:induction false} FillKeepsHonest(script: Script, need: nat)
    requires Honest(script)
    ensures Honest(Fill(script, need).rest)
    decreases |script|
  {
    if need > 0 && script != [] {
      var c, p := script[0], Pull(script, need);
      assert Honest(p.rest);
      if |c.data| < need && c.error == NoError {
        FillKeepsHonest(p.rest, need - |c.data|);
      }
    }
  }
}
