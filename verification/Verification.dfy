/** Reading a committed payload back in bounded ranges before anything is published. */
module Verification {
  import opened Basics
  import opened Streams
  import Publication

  datatype Verdict = Verified | BackendError | IntegrityError

  /** The Range header's two inclusive positions (section 14.1.2 of RFC 9110). */
  datatype Range = Range(first: nat, last: nat)

  /** One answer: a failed request, or a response whose length, body and close may each be wrong. */
  datatype Reply = NoReply | Reply(contentLength: Option<int>, body: Option<Script>, closeFails: bool)

  datatype Head = NoHead | Head(contentLength: Option<int>)

  /** Each range is requested at most once, so a function of the range is any server. */
  type Server = Range -> Reply

  /** Ordered, non-empty, non-overlapping ranges of at most 1 MiB that cover [0, upto) without a gap. */
  ghost predicate Partition(ranges: seq<Range>, upto: int) {
    && (forall i :: 0 <= i < |ranges| ==> ranges[i].first <= ranges[i].last < ranges[i].first + RANGE_BYTES)
    && (forall i :: 0 <= i < |ranges| - 1 ==> ranges[i + 1].first == ranges[i].last + 1)
    && (if ranges == [] then upto == 0 else ranges[0].first == 0 && ranges[|ranges| - 1].last == upto - 1)
  }

  /** The ranges requested before an early return. */
  ghost predicate PartOfPartition(ranges: seq<Range>, size: int) {
    exists upto :: upto <= size && Partition(ranges, upto)
  }

  function Length(range: Range): (n: nat)
    requires range.first <= range.last
  {
    range.last - range.first + 1
  }

  /** The bytes hashed for one range. */
  function Hashed(serve: Server, range: Range): Str {
    var reply := serve(range);
    if reply.Reply? && reply.body.Some? && range.first <= range.last
    then Fill(reply.body.value, Length(range)).data else []
  }

  function Received(serve: Server, ranges: seq<Range>): Str {
    if ranges == [] then []
    else Received(serve, ranges[..|ranges| - 1]) + Hashed(serve, ranges[|ranges| - 1])
  }

  /** The body gives the expected bytes in full and nothing after them. */
  ghost predicate ExactBody(body: Script, expected: nat) {
    var f := Fill(body, expected);
    var probe := Pull(f.rest, 1);
    f.ok && probe.data == [] && probe.error != Failure
  }

  /** A response for a range of the expected length, exact but for the result of closing it. */
  ghost predicate ExactResponse(reply: Reply, expected: nat) {
    reply.Reply? && reply.contentLength == Some(expected) && reply.body.Some? && ExactBody(reply.body.value, expected)
  }

  ghost predicate Accepted(reply: Reply, expected: nat) {
    ExactResponse(reply, expected) && !reply.closeFails
  }

  /** A request that fails, or an exact response that fails to close. */
  ghost predicate BackendFault(reply: Reply, expected: nat) {
    reply.NoReply? || (ExactResponse(reply, expected) && reply.closeFails)
  }

  lemma HonestBodyIsExact(body: Script)
    requires Honest(body)
    ensures ExactBody(body, |Content(body)|) && Fill(body, |Content(body)|).data == Content(body)
  {
    FillReadsContent(body, |Content(body)|);
    FillKeepsHonest(body, |Content(body)|);
  }

  lemma ExtendPartition(ranges: seq<Range>, range: Range)
    requires Partition(ranges, range.first) && range.first <= range.last < range.first + RANGE_BYTES
    ensures Partition(ranges + [range], range.last + 1)
  {
  }

  lemma ExtendReceived(serve: Server, ranges: seq<Range>, range: Range)
    ensures Received(serve, ranges + [range]) == Received(serve, ranges) + Hashed(serve, range)
  {
    assert (ranges + [range])[..|ranges|] == ranges;
  }

  ghost predicate AllAccepted(serve: Server, requests: seq<Range>) {
    forall i :: 0 <= i < |requests| ==> requests[i].first <= requests[i].last
                                        && Accepted(serve(requests[i]), Length(requests[i]))
  }

  /** The hash state once [0, covered) is read and accepted. */
  ghost predicate Progress(serve: Server, requests: seq<Range>, hasher: Str, covered: int) {
    && Partition(requests, covered)
    && hasher == Received(serve, requests) && |hasher| == covered
    && AllAccepted(serve, requests)
  }

  lemma Advance(serve: Server, requests: seq<Range>, hasher: Str, range: Range)
    requires Progress(serve, requests, hasher, range.first)
    requires range.first <= range.last < range.first + RANGE_BYTES && Accepted(serve(range), Length(range))
    ensures Progress(serve, requests + [range], hasher + Hashed(serve, range), range.last + 1)
  {
    ExtendPartition(requests, range);
    ExtendReceived(serve, requests, range);
  }

  // ---- an object that does not change

  /** One range of x answered in full, in any chunking. */
  ghost predicate ServesRange(x: Str, serve: Server, r: Range)
    requires r.first <= r.last < |x|
  {
    && serve(r).Reply? && !serve(r).closeFails
    && serve(r).contentLength == Some(Length(r))
    && serve(r).body.Some? && Honest(serve(r).body.value)
    && Content(serve(r).body.value) == x[r.first..r.last + 1]
  }

  /** A server holding x unchanged, answering every request for it. */
  ghost predicate Serves(x: Str, head: Head, serve: Server) {
    && head == Head(Some(|x|))
    && forall r: Range :: r.first <= r.last < |x| ==> ServesRange(x, serve, r)
  }

  lemma ServedRange(x: Str, serve: Server, r: Range)
    requires r.first <= r.last < |x| && ServesRange(x, serve, r)
    ensures Accepted(serve(r), Length(r)) && Hashed(serve, r) == x[r.first..r.last + 1]
  {
    HonestBodyIsExact(serve(r).body.value);
  }

  /** A range that is not accepted was not served from an unchanging object of this size. */
  lemma RejectedRange(head: Head, serve: Server, r: Range, size: nat)
    requires r.first <= r.last < size && !Accepted(serve(r), Length(r))
    ensures forall x :: Serves(x, head, serve) ==> |x| != size
  {
    forall x | Serves(x, head, serve) && |x| == size ensures false {
      assert ServesRange(x, serve, r);
      ServedRange(x, serve, r);
    }
  }

  lemma AllButLast(requests: seq<Range>, upto: nat)
    requires Partition(requests, upto) && requests != []
    ensures var r := requests[|requests| - 1];
            r.first <= r.last && r.last + 1 == upto && Partition(requests[..|requests| - 1], r.first)
  {
  }

  lemma Glue(x: Str, middle: nat, end: nat)
    requires middle <= end <= |x|
    ensures x[..middle] + x[middle..end] == x[..end]
  {
  }

  /** Any partition of an object served as it is gives back the object. */
  lemma {:induction false} ReceivedIsObject(x: Str, head: Head, serve: Server, requests: seq<Range>, upto: nat)
    requires Serves(x, head, serve) && Partition(requests, upto) && upto <= |x|
    ensures Received(serve, requests) == x[..upto]
    decreases |requests|
  {
    if requests != [] {
      var r := requests[|requests| - 1];
      AllButLast(requests, upto);
      ReceivedIsObject(x, head, serve, requests[..|requests| - 1], r.first);
      assert ServesRange(x, serve, r);
      ServedRange(x, serve, r);
      Glue(x, r.first, upto);
    }
  }

  lemma ReceivedIsWholeObject(x: Str, head: Head, serve: Server, requests: seq<Range>)
    requires Serves(x, head, serve) && Partition(requests, |x|)
    ensures Received(serve, requests) == x
  {
    ReceivedIsObject(x, head, serve, requests, |x|);
    assert x[..|x|] == x;
  }

  /** What success means. */
  ghost predicate Agreed(sha: Hash, head: Head, serve: Server, size: nat, digest: Digest, requests: seq<Range>) {
    && head == Head(Some(size)) && Partition(requests, size) && AllAccepted(serve, requests)
    && |Received(serve, requests)| == size && sha(Received(serve, requests)) == digest
  }

  /** The last request is what failed. */
  ghost predicate LastFailed(serve: Server, requests: seq<Range>) {
    requests != []
    && var r := requests[|requests| - 1]; r.first <= r.last && BackendFault(serve(r), Length(r))
  }

  /** The verdict and the requests it rests on. Success is agreement; a failed request or close is reported as such, and
      anything else wrong as an integrity error; and over an unchanging object success is agreement with the object. */
  ghost predicate Judged(sha: Hash, head: Head, serve: Server, size: nat, digest: Digest,
                         verdict: Verdict, requests: seq<Range>) {
    && PartOfPartition(requests, size)
    && (verdict == Verified <==> Agreed(sha, head, serve, size, digest, requests))
    && (verdict == BackendError <==> head == NoHead || (head == Head(Some(size)) && LastFailed(serve, requests)))
    && (forall x :: Serves(x, head, serve) ==> (verdict == Verified <==> |x| == size && sha(x) == digest))
  }

  lemma StopsAtHead(sha: Hash, head: Head, serve: Server, size: nat, digest: Digest, verdict: Verdict)
    requires head != Head(Some(size)) && verdict == if head == NoHead then BackendError else IntegrityError
    ensures Judged(sha, head, serve, size, digest, verdict, [])
  {
    assert Partition([], 0);
  }

  lemma StopsAtRejected(sha: Hash, head: Head, serve: Server, size: nat, digest: Digest, verdict: Verdict,
                        requests: seq<Range>, range: Range)
    requires head == Head(Some(size)) && Partition(requests, range.first)
    requires range.first <= range.last < size && range.last < range.first + RANGE_BYTES
    requires !Accepted(serve(range), Length(range)) && verdict != Verified
    requires verdict == BackendError <==> BackendFault(serve(range), Length(range))
    ensures Judged(sha, head, serve, size, digest, verdict, requests + [range])
  {
    ExtendPartition(requests, range);
    assert (requests + [range])[|requests|] == range;
    RejectedRange(head, serve, range, size);
  }

  lemma Completed(sha: Hash, head: Head, serve: Server, size: nat, digest: Digest, verdict: Verdict,
                  requests: seq<Range>, hasher: Str)
    requires head == Head(Some(size)) && Progress(serve, requests, hasher, size)
    requires verdict == if sha(hasher) == digest then Verified else IntegrityError
    ensures Judged(sha, head, serve, size, digest, verdict, requests)
  {
    forall x | Serves(x, head, serve) ensures hasher == x {
      ReceivedIsWholeObject(x, head, serve, requests);
    }
  }

  /** One turn of the loop. */
  lemma NextTurn(serve: Server, requests: seq<Range>, hasher: Str, offset: nat, size: nat)
    requires offset < size && Progress(serve, requests, hasher, offset)
    ensures var range := Range(offset, Min(offset + RANGE_BYTES - 1, size - 1));
            && range.first <= range.last < size && range.last < range.first + RANGE_BYTES
            && (Accepted(serve(range), Length(range)) ==>
                  Progress(serve, requests + [range], hasher + Hashed(serve, range), Min(offset + RANGE_BYTES, size)))
  {
    var range := Range(offset, Min(offset + RANGE_BYTES - 1, size - 1));
    if Accepted(serve(range), Length(range)) {
      Advance(serve, requests, hasher, range);
    }
  }

  /** One range: its bytes exactly when it is accepted, or the error that ends the verification. */
  method VerifyRange(serve: Server, range: Range) returns (verdict: Verdict, data: Str)
    requires range.first <= range.last
    ensures verdict == Verified <==> Accepted(serve(range), Length(range))
    ensures verdict == BackendError <==> BackendFault(serve(range), Length(range))
    ensures verdict == Verified ==> data == Hashed(serve, range) && |data| == Length(range)
  {
    var reply, expected := serve(range), range.last - range.first + 1;
    data := [];
    if reply == NoReply {
      return BackendError, data;
    }
    if reply.body == None || reply.contentLength != Some(expected) {
      return IntegrityError, data;
    }
    var body := new Source(reply.body.value);
    var buffer := new Byte[expected](_ => 0);
    var copied := ReadFull(body, buffer);
    var probe := new Byte[1](_ => 0);
    var extra, probeErr := body.Read(probe, 0, 1);
    if !copied || extra != 0 || probeErr == Failure {
      return IntegrityError, data;
    }
    if reply.closeFails {
      return BackendError, data;
    }
    return Verified, buffer[..];
  }

  /** verifyPayload, with the ranges it requested. It succeeds exactly when they partition the object, each is answered
      in full with nothing after it and closed cleanly, and the bytes served have the digest. */
  method VerifyPayload(sha: Hash, head: Head, serve: Server, size: nat, digest: Digest)
    returns (verdict: Verdict, requests: seq<Range>)
    ensures Judged(sha, head, serve, size, digest, verdict, requests)
  {
    requests := [];
    if head == NoHead {
      StopsAtHead(sha, head, serve, size, digest, BackendError);
      return BackendError, requests;
    }
    if head.contentLength != Some(size) {
      StopsAtHead(sha, head, serve, size, digest, IntegrityError);
      return IntegrityError, requests;
    }
    var hasher: Str := [];
    var offset := 0;
    while offset < size
      invariant 0 <= offset
      invariant Progress(serve, requests, hasher, Min(offset, size))
    {
      var end := Min(offset + RANGE_BYTES - 1, size - 1);
      var range := Range(offset, end);
      NextTurn(serve, requests, hasher, offset, size);
      var data;
      verdict, data := VerifyRange(serve, range);
      if verdict != Verified {
        StopsAtRejected(sha, head, serve, size, digest, verdict, requests, range);
        return verdict, requests + [range];
      }
      requests := requests + [range];
      hasher := hasher + data;
      offset := offset + RANGE_BYTES;
    }
    if sha(hasher) != digest {
      Completed(sha, head, serve, size, digest, IntegrityError, requests, hasher);
      return IntegrityError, requests;
    }
    Completed(sha, head, serve, size, digest, Verified, requests, hasher);
    return Verified, requests;
  }

  // ---- the publication machine's verification is this one

  /** A verifying Put has hashed what these requests were answered with. */
  ghost predicate VerifiesAs(serve: Server, requests: seq<Range>, cl: Publication.Client) {
    cl.pc.Verifying? && cl.pc.hashed.Some? && Progress(serve, requests, cl.pc.hashed.value, |cl.pc.hashed.value|)
  }

  /** The range a PayloadRange event reads. */
  function NextRange(cl: Publication.Client): Range
    requires cl.op.Put? && cl.pc.Verifying? && cl.pc.hashed.Some? && |cl.pc.hashed.value| < |cl.op.data|
  {
    Range(|cl.pc.hashed.value|, Publication.RangeEnd(|cl.pc.hashed.value|, |cl.op.data|) - 1)
  }

  lemma MachineHashes(cfg: Publication.Config, s: Publication.State, cl: Publication.Client)
    requires Publication.ClientEnabled(cfg, s, cl, Publication.PayloadRange)
    ensures var payload, r := s.payloads[cl.op.attempt], NextRange(cl);
            && r.first <= r.last < |payload| && r.last < r.first + RANGE_BYTES
            && Publication.ClientAfter(cfg, s, cl, Publication.PayloadRange).pc
               == Publication.Verifying(Some(cl.pc.hashed.value + payload[r.first..r.last + 1]))
  {
  }

  /** Each PayloadRange event is the request of the next range, answered with the bytes the payload holds then, which
      may not be those it held before. */
  lemma MachineReadsRanges(cfg: Publication.Config, s: Publication.State, cl: Publication.Client,
                           serve: Server, requests: seq<Range>)
    requires VerifiesAs(serve, requests, cl) && Publication.ClientEnabled(cfg, s, cl, Publication.PayloadRange)
    requires NextRange(cl).last < |s.payloads[cl.op.attempt]|
             && ServesRange(s.payloads[cl.op.attempt], serve, NextRange(cl))
    ensures VerifiesAs(serve, requests + [NextRange(cl)],
                       Publication.ClientAfter(cfg, s, cl, Publication.PayloadRange))
  {
    MachineHashes(cfg, s, cl);
    ServedRange(s.payloads[cl.op.attempt], serve, NextRange(cl));
    Advance(serve, requests, cl.pc.hashed.value, NextRange(cl));
  }

  /** And PayloadAgrees is possible exactly when VerifyPayload, having made these requests, succeeds. */
  lemma MachineVerifies(cfg: Publication.Config, s: Publication.State, cl: Publication.Client,
                        serve: Server, requests: seq<Range>)
    requires cl.op.Put? && VerifiesAs(serve, requests, cl) && |cl.pc.hashed.value| <= |cl.op.data|
    ensures Publication.ClientEnabled(cfg, s, cl, Publication.PayloadAgrees)
            <==> Agreed(cfg.sha, Head(Some(|cl.op.data|)), serve, |cl.op.data|, cfg.sha(cl.op.data), requests)
  {
  }
}
