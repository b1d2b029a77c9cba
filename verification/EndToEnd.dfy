/** From Put's bytes to the bytes a later Get delivers, across the protocol, the network and the reader. */
module EndToEnd {
  import opened Basics
  import opened Publication
  import opened Traces
  import opened Durability
  import Streams
  import BlobIO
  import Reader = ReaderShutdown

  /** Put p had returned nil at the end of the run, with its content secure; the run went on as tr, without a call of
      Delete of the key; and Get g of the key, called meanwhile, has answered. */
  ghost predicate PutThenGet(cfg: Config, run: seq<State>, p: Id, tr: Trace, g: Id) {
    && Run(cfg, run) && p in Last(run).clients
    && var put := Last(run).clients[p];
       && put.op.Put? && put.pc == Done(Ok) && Secure(cfg, Last(run), put.key, ContentOf(cfg, put.op.data))
       && GoesOn(cfg, Last(run), tr, put.key)
       && g !in Last(run).clients && g in End(tr).clients
       && End(tr).clients[g].op.Get? && End(tr).clients[g].key == put.key && End(tr).clients[g].pc.Done?
  }

  /** What the manifest Get found makes its reader expect. */
  ghost function ExpectedBy(s: State, g: Id): BlobIO.Expected
    requires g in s.clients && s.clients[g].pc.Done? && s.clients[g].pc.outcome.Found?
  {
    var content := s.clients[g].pc.outcome.m.content;
    BlobIO.Expected(content.size, content.digest)
  }

  /** Such a Get never misses, and what it finds has the Put's length and digest. UndisturbedPutIsSecure and DurableIff
      say when a Put's content is secure. */
  lemma GetFindsWhatPutStored(cfg: Config, run: seq<State>, p: Id, tr: Trace, g: Id)
    requires PutThenGet(cfg, run, p, tr, g)
    ensures var answer := End(tr).clients[g].pc.outcome;
            && answer != NotFound
            && (answer.Found? ==> answer.m.content == ContentOf(cfg, Last(run).clients[p].op.data))
  {
    var put := Last(run).clients[p];
    var content := ContentOf(cfg, put.op.data);
    SecureAnswers(cfg, run, put.key, content, tr, g);
    assert GetAnswers(Last(run), End(tr), g, put.key, content);
  }

  /** End to end: whatever S3 committed at upload and whatever bytes the response body delivers in whatever chunks, a
      stream of such a Get that reports its end has delivered exactly the length and digest of the bytes that were put.
      It has delivered those very bytes if the hash tells apart the strings of some set that holds them and all that
      the body can deliver. */
  lemma StreamsDeliverWhatWasPut(cfg: Config, run: seq<State>, p: Id, tr: Trace, g: Id,
                                 body: Streams.Script, rooms: seq<nat>, i: nat)
    requires PutThenGet(cfg, run, p, tr, g) && End(tr).clients[g].pc.outcome.Found?
    requires var results := BlobIO.Reads(cfg.sha, ExpectedBy(End(tr), g), BlobIO.Download([], None, body), rooms);
             i < |rooms| && results[i].outcome == BlobIO.Passed(Streams.Eof)
    ensures var results := BlobIO.Reads(cfg.sha, ExpectedBy(End(tr), g), BlobIO.Download([], None, body), rooms);
            var delivered := BlobIO.Delivered(results[..i + 1]);
            var data := Last(run).clients[p].op.data;
            && |delivered| == |data| && cfg.sha(delivered) == cfg.sha(data)
            && (forall strings: iset<Str> ::
                  InjectiveOn(cfg.sha, strings) && data in strings && BlobIO.Deliverable(body, |data|) <= strings
                  ==> delivered == data)
  {
    GetFindsWhatPutStored(cfg, run, p, tr, g);
    var want := ExpectedBy(End(tr), g);
    BlobIO.DownloadIsVerified(cfg.sha, want, body, rooms);
    var results := BlobIO.Reads(cfg.sha, want, BlobIO.Download([], None, body), rooms);
    assert BlobIO.VerdictHolds(cfg.sha, want, [], results, i);
    assert [] + BlobIO.Delivered(results[..i + 1]) == BlobIO.Delivered(results[..i + 1]);
    BlobIO.DeliveredFromFront(cfg.sha, want, BlobIO.Download([], None, body), rooms, i + 1);
    var delivered := BlobIO.Delivered(results[..i + 1]);
    assert delivered == BlobIO.Everything(body)[..|delivered|] && delivered in BlobIO.Deliverable(body, |delivered|);
  }

  // ---- through the reader that Get returns

  /** The verifier's result as the reader passes it on. */
  function AnswerOf(result: BlobIO.Result): Reader.Answer {
    Reader.Answer(result.data, match result.outcome
                               case Passed(NoError) => None
                               case Passed(Eof) => Some(Reader.EndOfStream)
                               case _ => Some(Reader.Other))
  }

  function AnswersOf(results: seq<BlobIO.Result>): seq<Reader.Answer> {
    seq(|results|, i requires 0 <= i < |results| => AnswerOf(results[i]))
  }

  /** The bytes the caller has received. */
  function Received(answers: seq<Reader.Answer>): Str {
    if answers == [] then [] else answers[0].data + Received(answers[1..])
  }

  lemma {:induction false} ReceivedIsDelivered(results: seq<BlobIO.Result>)
    ensures Received(AnswersOf(results)) == BlobIO.Delivered(results)
  {
    if results != [] {
      ReceivedIsDelivered(results[1..]);
      assert AnswersOf(results)[1..] == AnswersOf(results[1..]);
    }
  }

  /** Up to an end of stream the reader has returned exactly what the verifier gave it. */
  lemma ReturnedUpToEnd(history: seq<Reader.State>, events: seq<Reader.Event>, results: seq<BlobIO.Result>, i: nat)
    requires Reader.History(history, events) && Reader.Given(events) == AnswersOf(results)
    requires i < |Reader.Last(history).answers|
    requires Reader.Last(history).answers[i].error == Some(Reader.EndOfStream)
    ensures i < |results| && results[i].outcome == BlobIO.Passed(Streams.Eof)
    ensures Received(Reader.Last(history).answers[..i + 1]) == BlobIO.Delivered(results[..i + 1])
  {
    var answers := Reader.Last(history).answers;
    var k := Reader.ReadsRelay(history, events);
    assert i < k;
    assert answers[i] == answers[..k][i] == Reader.Given(events)[..k][i] == AnswerOf(results[i]);
    assert answers[..i + 1] == answers[..k][..i + 1] == Reader.Given(events)[..k][..i + 1];
    assert AnswersOf(results)[..k][..i + 1] == AnswersOf(results[..i + 1]);
    ReceivedIsDelivered(results[..i + 1]);
  }

  /** The whole way: the caller of such a Get reads from the reader it was given, while any number of Closes may be
      called. If a Read reports the end of the stream, the caller has received the length and digest of the bytes that
      were put, and those very bytes under the same condition on the hash. */
  lemma ReadersDeliverWhatWasPut(cfg: Config, run: seq<State>, p: Id, tr: Trace, g: Id,
                                 body: Streams.Script, rooms: seq<nat>,
                                 history: seq<Reader.State>, events: seq<Reader.Event>, i: nat)
    requires PutThenGet(cfg, run, p, tr, g) && End(tr).clients[g].pc.outcome.Found?
    requires Reader.History(history, events)
    requires Reader.Given(events)
             == AnswersOf(BlobIO.Reads(cfg.sha, ExpectedBy(End(tr), g), BlobIO.Download([], None, body), rooms))
    requires i < |Reader.Last(history).answers|
             && Reader.Last(history).answers[i].error == Some(Reader.EndOfStream)
    ensures var received := Received(Reader.Last(history).answers[..i + 1]);
            var data := Last(run).clients[p].op.data;
            && |received| == |data| && cfg.sha(received) == cfg.sha(data)
            && (forall strings: iset<Str> ::
                  InjectiveOn(cfg.sha, strings) && data in strings && BlobIO.Deliverable(body, |data|) <= strings
                  ==> received == data)
  {
    var results := BlobIO.Reads(cfg.sha, ExpectedBy(End(tr), g), BlobIO.Download([], None, body), rooms);
    ReturnedUpToEnd(history, events, results, i);
    StreamsDeliverWhatWasPut(cfg, run, p, tr, g, body, rooms, i);
  }
}
