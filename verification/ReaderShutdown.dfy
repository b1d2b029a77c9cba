/** The reader Get returns, as one reading thread and any number of closing threads over an atomic flag and two
    sync.Onces. A step is one atomic action of one thread. */
module ReaderShutdown {
  import opened Basics

  datatype Error = EndOfStream | Closed | Other

  /** What a Read returns: the bytes it has put into the caller's buffer, and an error. */
  datatype Answer = Answer(data: Str, error: Option<Error>)

  const CLOSED: Answer := Answer([], Some(Closed))

  datatype ReaderPc =
    | Idle
    | Called                      // before the first latch check
    | Reading                     // in the verifier
    | Checking(answer: Answer)    // before the second latch check
    | Entering(answer: Answer)    // at releaseOnce.Do
    | Releasing(answer: Answer)   // in release, having won the Once
    | Returning(answer: Answer)

  datatype CloserPc =
    | Arriving       // at closeOnce.Do
    | Storing        // won the Once
    | Aborting
    | ClosingBody
    | EnteringRelease
    | InRelease
    | Leaving
    | Returned(result: int)

  datatype Once = Fresh | Running | Ran

  type Id = nat

  /** The body's own Close results are opaque numbers. */
  datatype State = State(
    closed: bool,
    closeOnce: Once, closeResult: int,
    releaseOnce: Once,
    aborts: nat, bodyCloses: nat, releases: nat,
    reader: ReaderPc, answers: seq<Answer>,
    closers: map<Id, CloserPc>)

  datatype Event =
    | ReadCalled
    | FirstCheck
    | VerifierAnswers(answer: Answer)
    | SecondCheck
    | ReadEntersRelease
    | ReadReleases
    | ReadReturns
    | CloseCalled(c: Id)
    | CloseArrives(c: Id)
    | StoresClosed(c: Id)
    | Aborts(c: Id)
    | ClosesBody(c: Id, result: int)
    | CloseEntersRelease(c: Id)
    | CloseReleases(c: Id)
    | CloseLeaves(c: Id)

  function Initial(): State {
    State(false, Fresh, 0, Fresh, 0, 0, 0, Idle, [], map[])
  }

  ghost predicate At(s: State, c: Id, pc: CloserPc) {
    c in s.closers && s.closers[c] == pc
  }

  /** A Once blocks its other callers until the winner's function has returned. */
  ghost predicate Enabled(s: State, e: Event) {
    match e
    case ReadCalled => s.reader.Idle?
    case FirstCheck => s.reader.Called?
    case VerifierAnswers(answer) => s.reader.Reading? && answer.error != Some(Closed)
    case SecondCheck => s.reader.Checking?
    case ReadEntersRelease => s.reader.Entering? && !s.releaseOnce.Running?
    case ReadReleases => s.reader.Releasing?
    case ReadReturns => s.reader.Returning?
    case CloseCalled(c) => c !in s.closers
    case CloseArrives(c) => At(s, c, Arriving) && !s.closeOnce.Running?
    case StoresClosed(c) => At(s, c, Storing)
    case Aborts(c) => At(s, c, Aborting)
    case ClosesBody(c, _) => At(s, c, ClosingBody)
    case CloseEntersRelease(c) => At(s, c, EnteringRelease) && !s.releaseOnce.Running?
    case CloseReleases(c) => At(s, c, InRelease)
    case CloseLeaves(c) => At(s, c, Leaving)
  }

  ghost function Apply(s: State, e: Event): State
    requires Enabled(s, e)
  {
    match e
    case ReadCalled => s.(reader := Called)
    case FirstCheck => s.(reader := if s.closed then Returning(CLOSED) else Reading)
    case VerifierAnswers(answer) => s.(reader := Checking(answer))
    case SecondCheck =>
      var answer := s.reader.answer;
      s.(reader := if s.closed then Returning(CLOSED)
                   else if answer.error.Some? then Entering(answer) else Returning(answer))
    case ReadEntersRelease =>
      if s.releaseOnce.Ran? then s.(reader := Returning(s.reader.answer))
      else s.(releaseOnce := Running, reader := Releasing(s.reader.answer))
    case ReadReleases => s.(releases := s.releases + 1, releaseOnce := Ran, reader := Returning(s.reader.answer))
    case ReadReturns => s.(answers := s.answers + [s.reader.answer], reader := Idle)
    case CloseCalled(c) => s.(closers := s.closers[c := Arriving])
    case CloseArrives(c) =>
      if s.closeOnce.Ran? then s.(closers := s.closers[c := Returned(s.closeResult)])
      else s.(closeOnce := Running, closers := s.closers[c := Storing])
    case StoresClosed(c) => s.(closed := true, closers := s.closers[c := Aborting])
    case Aborts(c) => s.(aborts := s.aborts + 1, closers := s.closers[c := ClosingBody])
    case ClosesBody(c, result) =>
      s.(bodyCloses := s.bodyCloses + 1, closeResult := result, closers := s.closers[c := EnteringRelease])
    case CloseEntersRelease(c) =>
      if s.releaseOnce.Ran? then s.(closers := s.closers[c := Leaving])
      else s.(releaseOnce := Running, closers := s.closers[c := InRelease])
    case CloseReleases(c) => s.(releases := s.releases + 1, releaseOnce := Ran, closers := s.closers[c := Leaving])
    case CloseLeaves(c) => s.(closeOnce := Ran, closers := s.closers[c := Returned(s.closeResult)])
  }

  /** The thread that won closeOnce and has not left it. */
  predicate InClose(pc: CloserPc) {
    !pc.Arriving? && !pc.Returned?
  }

  /** A finished stream, as Read reports it. */
  predicate Terminal(a: Answer) {
    a.error.Some? && a.error != Some(Closed)
  }

  ghost predicate CloserOk(s: State, pc: CloserPc) {
    && (InClose(pc) ==> s.closeOnce.Running?)
    && (pc.Storing? ==> !s.closed && s.bodyCloses == 0)
    && (pc.Storing? || pc.Aborting? ==> s.aborts == 0)
    && (pc.Aborting? || pc.ClosingBody? ==> s.closed && s.bodyCloses == 0)
    && (pc.ClosingBody? || pc.EnteringRelease? || pc.InRelease? || pc.Leaving? ==> s.aborts == 1)
    && (pc.EnteringRelease? || pc.InRelease? || pc.Leaving? ==> s.closed && s.bodyCloses == 1)
    && (pc.InRelease? ==> s.releaseOnce.Running? && !s.reader.Releasing?)
    && (pc.Leaving? ==> s.releaseOnce.Ran?)
    && (pc.Returned? ==> s.closeOnce.Ran? && pc.result == s.closeResult)
  }

  ghost predicate ClosersOk(s: State) {
    && (forall c :: c in s.closers ==> CloserOk(s, s.closers[c]))
    && (forall c, d :: c in s.closers && d in s.closers && InClose(s.closers[c]) && InClose(s.closers[d]) ==> c == d)
  }

  /** What is said of the shared flags and of the reading thread. */
  ghost predicate Latched(s: State) {
    && s.releases == (if s.releaseOnce.Ran? then 1 else 0)
    && s.bodyCloses <= 1
    && s.bodyCloses <= s.aborts <= 1
    && (s.closeOnce.Fresh? ==> !s.closed && s.bodyCloses == 0 && s.aborts == 0)
    && (s.closeOnce.Ran? ==> s.closed && s.bodyCloses == 1 && s.releaseOnce.Ran?)
    && (s.reader.Releasing? ==> s.releaseOnce.Running?)
    && (s.reader.Checking? ==> s.reader.answer.error != Some(Closed))
    && (s.reader.Entering? || s.reader.Releasing? ==> Terminal(s.reader.answer))
    && (s.reader.Returning? && Terminal(s.reader.answer) ==> s.releaseOnce.Ran?)
    && (forall a :: a in s.answers && Terminal(a) ==> s.releaseOnce.Ran?)
  }

  ghost predicate Safe(s: State) {
    Latched(s) && ClosersOk(s)
  }

  /** A running Once has a thread inside it. */
  ghost predicate Owned(s: State) {
    && (s.closeOnce.Running? ==> exists c :: c in s.closers && InClose(s.closers[c]))
    && (s.releaseOnce.Running? ==> s.reader.Releasing? || exists c :: At(s, c, InRelease))
  }

  /** A Close has begun, or a Read has come to the end or to a failure. */
  ghost predicate Ended(s: State) {
    || s.closed
    || (exists a :: a in s.answers && Terminal(a))
    || (s.reader.Returning? && Terminal(s.reader.answer))
  }

  ghost predicate Inv(s: State) {
    Safe(s) && Owned(s) && (s.releases > 0 ==> Ended(s))
  }

  /** An event of the reading thread. */
  predicate IsReading(e: Event) {
    || e.ReadCalled? || e.FirstCheck? || e.VerifierAnswers? || e.SecondCheck?
    || e.ReadEntersRelease? || e.ReadReleases? || e.ReadReturns?
  }

  lemma ReadingKeepsSafe(s: State, e: Event)
    requires Safe(s) && Enabled(s, e) && IsReading(e)
    ensures Safe(Apply(s, e))
  {
    var t := Apply(s, e);
    forall c | c in t.closers ensures CloserOk(t, t.closers[c]) {
      assert CloserOk(s, s.closers[c]);
    }
  }

  lemma ClosingKeepsClosers(s: State, e: Event, c: Id)
    requires Safe(s) && Enabled(s, e) && !IsReading(e) && c in Apply(s, e).closers
    ensures CloserOk(Apply(s, e), Apply(s, e).closers[c])
  {
    assert e.c in s.closers ==> CloserOk(s, s.closers[e.c]);
    assert c in s.closers ==> CloserOk(s, s.closers[c]);
  }

  lemma ClosingKeepsLatched(s: State, e: Event)
    requires Safe(s) && Enabled(s, e) && !IsReading(e)
    ensures Latched(Apply(s, e))
  {
    assert e.c in s.closers ==> CloserOk(s, s.closers[e.c]);
  }

  lemma StepKeepsSafe(s: State, e: Event)
    requires Safe(s) && Enabled(s, e)
    ensures Safe(Apply(s, e))
  {
    if IsReading(e) {
      ReadingKeepsSafe(s, e);
    } else {
      ClosingKeepsLatched(s, e);
      assert e.c in s.closers ==> CloserOk(s, s.closers[e.c]);
      forall c | c in Apply(s, e).closers ensures CloserOk(Apply(s, e), Apply(s, e).closers[c]) {
        ClosingKeepsClosers(s, e, c);
      }
    }
  }

  lemma StepKeepsOwned(s: State, e: Event)
    requires Safe(s) && Owned(s) && Enabled(s, e)
    ensures Owned(Apply(s, e))
  {
    var t := Apply(s, e);
    if s.closeOnce.Running? {
      var c :| c in s.closers && InClose(s.closers[c]);
      assert t.closeOnce.Running? ==> c in t.closers && InClose(t.closers[c]);
    } else if e.CloseArrives? {
      assert t.closeOnce.Running? ==> InClose(t.closers[e.c]);
    }
    if s.releaseOnce.Running? && !s.reader.Releasing? {
      var c :| At(s, c, InRelease);
      assert t.releaseOnce.Running? ==> At(t, c, InRelease);
    } else if e.CloseEntersRelease? {
      assert t.releaseOnce.Running? ==> At(t, e.c, InRelease);
    }
  }

  /** The slot is released only by an ending. */
  lemma StepKeepsEnded(s: State, e: Event)
    requires Safe(s) && (s.releases > 0 ==> Ended(s)) && Enabled(s, e)
    ensures Apply(s, e).releases > 0 ==> Ended(Apply(s, e))
  {
    var t := Apply(s, e);
    if exists a :: a in s.answers && Terminal(a) {
      var a :| a in s.answers && Terminal(a);
      assert a in t.answers;
    } else if e.ReadReturns? {
      assert s.reader.answer in t.answers;
    } else if e.CloseReleases? {
      assert CloserOk(s, s.closers[e.c]);
    }
  }

  lemma StepKeepsInv(s: State, e: Event)
    requires Inv(s) && Enabled(s, e)
    ensures Inv(Apply(s, e))
  {
    StepKeepsSafe(s, e);
    StepKeepsOwned(s, e);
    StepKeepsEnded(s, e);
  }

  ghost predicate Next(s: State, t: State) {
    exists e :: Enabled(s, e) && t == Apply(s, e)
  }

  ghost predicate Steps(run: seq<State>) {
    run != [] && forall i :: 0 <= i < |run| - 1 ==> Next(run[i], run[i + 1])
  }

  /** Every interleaving of the threads, from the reader Get hands over. */
  ghost predicate Run(run: seq<State>) {
    Steps(run) && run[0] == Initial()
  }

  ghost function Last(run: seq<State>): State
    requires run != []
  {
    run[|run| - 1]
  }

  lemma {:induction false} RunKeepsInv(run: seq<State>)
    requires Run(run)
    ensures Inv(Last(run))
  {
    if |run| > 1 {
      RunKeepsInv(run[..|run| - 1]);
      assert Next(run[|run| - 2], run[|run| - 2 + 1]);
      var e :| Enabled(run[|run| - 2], e) && Last(run) == Apply(run[|run| - 2], e);
      StepKeepsInv(run[|run| - 2], e);
    }
  }

  /** In every interleaving: all Closes return one result; the request is aborted, then the body closed, and the slot
      released at most once, and all that by the time any Close has returned; and the release has run by the time any
      Read has returned the end of stream or a failure. */
  lemma ShutdownIsLatched(run: seq<State>)
    requires Run(run)
    ensures var s := Last(run);
            && s.bodyCloses <= s.aborts <= 1 && s.releases <= 1
            && (forall c, d :: c in s.closers && d in s.closers && s.closers[c].Returned? && s.closers[d].Returned?
                  ==> s.closers[c].result == s.closers[d].result)
            && (forall c :: c in s.closers && s.closers[c].Returned?
                  ==> s.closed && s.aborts == 1 && s.bodyCloses == 1 && s.releases == 1)
            && (forall a :: a in s.answers && Terminal(a) ==> s.releases == 1)
  {
    RunKeepsInv(run);
    var s := Last(run);
    assert forall c :: c in s.closers ==> CloserOk(s, s.closers[c]);
  }

  /** A Read past its second latch check, whose answer is already decided. */
  predicate Decided(pc: ReaderPc) {
    pc.Entering? || pc.Releasing? || pc.Returning?
  }

  /** What s can hold of answers once the flag was stored in the state `first`. */
  ghost predicate AfterClosed(first: State, s: State) {
    var before, late := |first.answers|, if Decided(first.reader) then 1 else 0;
    && s.closed && first.answers <= s.answers
    && (forall i :: before + late <= i < |s.answers| ==> s.answers[i] == CLOSED)
    && (s.reader.Entering? || s.reader.Releasing? ==> late == 1 && |s.answers| == before)
    && (s.reader.Returning? ==> s.reader.answer == CLOSED || (late == 1 && |s.answers| == before))
  }

  lemma StepAfterClosed(first: State, s: State, e: Event)
    requires AfterClosed(first, s) && Enabled(s, e)
    ensures AfterClosed(first, Apply(s, e))
  {
  }

  /** Once the flag is stored, only a Read that had already passed its second check may still return bytes or an end
      of stream; every other Read, in flight or yet to come, answers that the reader is closed, with no bytes. */
  lemma {:induction false} ReadsAfterClosed(run: seq<State>)
    requires Steps(run) && run[0].closed
    ensures AfterClosed(run[0], Last(run))
    ensures var before, late := |run[0].answers|, if Decided(run[0].reader) then 1 else 0;
            forall i :: before + late <= i < |Last(run).answers| ==> Last(run).answers[i] == CLOSED
  {
    if |run| > 1 {
      ReadsAfterClosed(run[..|run| - 1]);
      assert Next(run[|run| - 2], run[|run| - 2 + 1]);
      var e :| Enabled(run[|run| - 2], e) && Last(run) == Apply(run[|run| - 2], e);
      StepAfterClosed(run[0], run[|run| - 2], e);
    }
  }

  /** The number of times that the body is read, through the verifier. */
  function BodyReads(events: seq<Event>): nat {
    if events == [] then 0
    else BodyReads(events[..|events| - 1]) + if events[|events| - 1].VerifierAnswers? then 1 else 0
  }

  ghost predicate StepsBy(run: seq<State>, events: seq<Event>) {
    && |run| == |events| + 1
    && forall i :: 0 <= i < |events| ==> Enabled(run[i], events[i]) && run[i + 1] == Apply(run[i], events[i])
  }

  /** 1 while a Read is at the body. */
  function AtBody(s: State): nat {
    if s.reader.Reading? then 1 else 0
  }

  lemma StepLeavesBody(s: State, e: Event)
    requires s.closed && Enabled(s, e)
    ensures var t := Apply(s, e);
            t.closed && AtBody(t) + (if e.VerifierAnswers? then 1 else 0) <= AtBody(s)
  {
  }

  lemma StepsBefore(run: seq<State>, events: seq<Event>)
    requires StepsBy(run, events) && events != []
    ensures var n := |events| - 1;
            && StepsBy(run[..n + 1], events[..n]) && Last(run[..n + 1]) == run[n] && run[..n + 1][0] == run[0]
            && Enabled(run[n], events[n]) && Last(run) == Apply(run[n], events[n])
  {
  }

  /** Once the flag is stored no Read turns to the body any more: only the one already there comes back from it. */
  lemma {:induction false} BodyIsLeftAlone(run: seq<State>, events: seq<Event>)
    requires StepsBy(run, events) && run[0].closed
    ensures Last(run).closed
    ensures BodyReads(events) + AtBody(Last(run)) <= AtBody(run[0])
    decreases |events|
  {
    if events != [] {
      var n := |events| - 1;
      StepsBefore(run, events);
      BodyIsLeftAlone(run[..n + 1], events[..n]);
      StepLeavesBody(run[n], events[n]);
    }
  }

  // ---- what Read and Close pass on

  /** A run with its events. */
  ghost predicate History(run: seq<State>, events: seq<Event>) {
    StepsBy(run, events) && run[0] == Initial()
  }

  /** What the verifier answered, Read by Read. */
  function Given(events: seq<Event>): seq<Answer> {
    if events == [] then []
    else
      var last := events[|events| - 1];
      Given(events[..|events| - 1]) + if last.VerifierAnswers? then [last.answer] else []
  }

  /** What closing the body resulted in. */
  function Results(events: seq<Event>): seq<int> {
    if events == [] then []
    else
      var last := events[|events| - 1];
      Results(events[..|events| - 1]) + if last.ClosesBody? then [last.result] else []
  }

  /** The verifier's answer that a Read has not returned yet. */
  function InFlight(pc: ReaderPc): seq<Answer> {
    if pc.Checking? || pc.Entering? || pc.Releasing? || pc.Returning? then [pc.answer] else []
  }

  /** A Read bound to return what the verifier gave it. */
  predicate Owes(pc: ReaderPc) {
    pc.Entering? || pc.Releasing? || (pc.Returning? && pc.answer != CLOSED)
  }

  /** The first k Reads have returned what the verifier gave them, in order, and the others that the reader is closed.
      */
  ghost predicate Relays(s: State, given: seq<Answer>, k: nat) {
    && k <= |s.answers| && k <= |given| && s.answers[..k] == given[..k]
    && (forall j :: k <= j < |s.answers| ==> s.answers[j] == CLOSED)
    && (k < |s.answers| ==> s.closed)
  }

  ghost predicate Relaying(s: State, given: seq<Answer>, k: nat) {
    && Relays(s, given, k)
    && (!s.closed ==> k == |s.answers| && given == s.answers + InFlight(s.reader))
    && (Owes(s.reader) ==> k == |s.answers| && given == s.answers + InFlight(s.reader))
    && (s.reader.Returning? && s.reader.answer == CLOSED ==> s.closed)
    && (InFlight(s.reader) == [CLOSED] ==> s.reader.Returning?)
  }

  lemma StepRelays(s: State, e: Event, given: seq<Answer>, k: nat) returns (after: nat)
    requires Safe(s) && Enabled(s, e) && Relaying(s, given, k)
    ensures Relaying(Apply(s, e), given + if e.VerifierAnswers? then [e.answer] else [], after)
  {
    after := k;
    if e.ReadReturns? && s.reader.answer != CLOSED {
      after := k + 1;
    }
    if e.VerifierAnswers? {
      assert (given + [e.answer])[..k] == given[..k];
    } else {
      assert given + [] == given;
    }
  }

  lemma GivenNext(events: seq<Event>)
    requires events != []
    ensures var e := events[|events| - 1];
            Given(events) == Given(events[..|events| - 1]) + if e.VerifierAnswers? then [e.answer] else []
  {
  }

  lemma {:induction false} HistoryRelays(run: seq<State>, events: seq<Event>) returns (k: nat)
    requires History(run, events)
    ensures Safe(Last(run)) && Relaying(Last(run), Given(events), k)
    decreases |events|
  {
    if events == [] {
      k := 0;
    } else {
      var n := |events| - 1;
      StepsBefore(run, events);
      GivenNext(events);
      k := HistoryRelays(run[..n + 1], events[..n]);
      StepKeepsSafe(run[n], events[n]);
      k := StepRelays(run[n], events[n], Given(events[..n]), k);
    }
  }

  /** Reads return what the verifier answers, bytes and errors, in order and without a loss, until the reader is closed;
      from some Read on they may all answer that it is, but only if it is. */
  lemma ReadsRelay(run: seq<State>, events: seq<Event>) returns (k: nat)
    requires History(run, events)
    ensures Relays(Last(run), Given(events), k)
    ensures !Last(run).closed ==> k == |Last(run).answers| && |Given(events)| <= k + 1
  {
    k := HistoryRelays(run, events);
  }

  ghost predicate Passes(s: State, results: seq<int>) {
    |results| == s.bodyCloses && (results != [] ==> s.closeResult == results[0])
  }

  lemma {:induction false} HistoryPasses(run: seq<State>, events: seq<Event>)
    requires History(run, events)
    ensures Inv(Last(run)) && Passes(Last(run), Results(events))
    decreases |events|
  {
    if events != [] {
      var n := |events| - 1;
      StepsBefore(run, events);
      HistoryPasses(run[..n + 1], events[..n]);
      StepKeepsInv(run[n], events[n]);
      if events[n].ClosesBody? {
        assert CloserOk(run[n], run[n].closers[events[n].c]);
      }
    }
  }

  /** Every Close returns what closing the body resulted in, the one time that it was closed. */
  lemma ClosesPassOnTheResult(run: seq<State>, events: seq<Event>, c: Id)
    requires History(run, events) && c in Last(run).closers && Last(run).closers[c].Returned?
    ensures Results(events) == [Last(run).closers[c].result]
  {
    HistoryPasses(run, events);
    assert CloserOk(Last(run), Last(run).closers[c]);
  }

  /** An event of a closing thread. */
  predicate IsClosing(e: Event) {
    || e.CloseArrives? || e.StoresClosed? || e.Aborts? || e.ClosesBody?
    || e.CloseEntersRelease? || e.CloseReleases? || e.CloseLeaves?
  }

  /** How many steps of its own a closing thread has left. */
  function StepsLeft(pc: CloserPc): nat {
    match pc
    case Arriving => 1
    case Storing => 6
    case Aborting => 5
    case ClosingBody => 4
    case EnteringRelease => 3
    case InRelease => 2
    case Leaving => 1
    case Returned(_) => 0
  }

  /** The thread inside closeOnce. */
  ghost function Winner(s: State): (d: Id)
    requires Owned(s) && s.closeOnce.Running?
    ensures d in s.closers && InClose(s.closers[d])
  {
    var d :| d in s.closers && InClose(s.closers[d]);
    d
  }

  /** The steps, of whichever thread is in closeOnce or in release, that Close c may still have to wait for. */
  ghost function Wait(s: State, c: Id): nat
    requires Inv(s) && c in s.closers
  {
    if s.closers[c].Returned? then 0
    else
      (if InClose(s.closers[c]) then 0 else 1)
      + (if s.closeOnce.Running? then StepsLeft(s.closers[Winner(s)]) else if s.closeOnce.Fresh? then 7 else 0)
      + (if s.releaseOnce.Fresh? then 2 else if s.releaseOnce.Running? then 1 else 0)
  }

  lemma WinnerIs(s: State, d: Id)
    requires Inv(s) && d in s.closers && InClose(s.closers[d])
    ensures s.closeOnce.Running? && Winner(s) == d
  {
    assert CloserOk(s, s.closers[d]);
  }

  /** An event of a closing thread, or a Read leaving release: none is a Read in the network. */
  predicate IsShort(e: Event) {
    IsClosing(e) || e.ReadReleases?
  }

  lemma EntersRelease(s: State, d: Id)
    requires Inv(s) && At(s, d, EnteringRelease) && !s.reader.Releasing?
    ensures Enabled(s, CloseEntersRelease(d))
  {
    assert forall c :: At(s, c, InRelease) ==> InClose(s.closers[c]) && c != d;
  }

  /** While another thread, or a Read, takes a step the winner stays where it is. */
  lemma WinnerWaits(s: State, e: Event, c: Id)
    requires Inv(s) && Enabled(s, e) && Inv(Apply(s, e)) && c in s.closers && s.closeOnce.Running?
    requires IsReading(e) || e.c != Winner(s)
    ensures c in Apply(s, e).closers && Wait(Apply(s, e), c) <= Wait(s, c)
  {
    var t, d := Apply(s, e), Winner(s);
    assert CloserOk(s, s.closers[d]) && CloserOk(s, s.closers[c]);
    assert t.closers[d] == s.closers[d];
    WinnerIs(t, d);
  }

  lemma WinnerMoves(s: State, e: Event, c: Id)
    requires Inv(s) && Enabled(s, e) && Inv(Apply(s, e)) && c in s.closers && s.closeOnce.Running?
    requires IsClosing(e) && e.c == Winner(s)
    ensures c in Apply(s, e).closers && Wait(Apply(s, e), c) <= Wait(s, c)
    ensures !s.closers[c].Returned? ==> Wait(Apply(s, e), c) < Wait(s, c)
  {
    var t, d := Apply(s, e), Winner(s);
    assert CloserOk(s, s.closers[d]) && CloserOk(s, s.closers[c]);
    if InClose(t.closers[d]) {
      WinnerIs(t, d);
    }
    if InClose(s.closers[c]) {
      WinnerIs(s, c);
    }
  }

  lemma OthersArrive(s: State, e: Event, c: Id)
    requires Inv(s) && Enabled(s, e) && Inv(Apply(s, e)) && c in s.closers && !s.closeOnce.Running?
    ensures c in Apply(s, e).closers && Wait(Apply(s, e), c) <= Wait(s, c)
    ensures e == CloseArrives(c) && !s.closers[c].Returned? ==> Wait(Apply(s, e), c) < Wait(s, c)
  {
    var t := Apply(s, e);
    assert CloserOk(s, s.closers[c]);
    assert !IsReading(e) && e.c in s.closers ==> CloserOk(s, s.closers[e.c]);
    if e.CloseArrives? && InClose(t.closers[e.c]) {
      WinnerIs(t, e.c);
    }
  }

  /** No event of any thread makes a Close wait longer. */
  lemma WaitNeverGrows(s: State, e: Event, c: Id)
    requires Inv(s) && Enabled(s, e) && c in s.closers
    ensures Inv(Apply(s, e)) && c in Apply(s, e).closers && Wait(Apply(s, e), c) <= Wait(s, c)
  {
    StepKeepsInv(s, e);
    if !s.closeOnce.Running? {
      OthersArrive(s, e, c);
    } else if IsClosing(e) && e.c == Winner(s) {
      WinnerMoves(s, e, c);
    } else {
      WinnerWaits(s, e, c);
    }
  }

  lemma WinnersEvent(s: State) returns (e: Event)
    requires Inv(s) && s.closeOnce.Running? && !s.reader.Releasing?
    ensures IsClosing(e) && e.c == Winner(s) && Enabled(s, e)
  {
    var d := Winner(s);
    match s.closers[d] {
      case Storing => e := StoresClosed(d);
      case Aborting => e := Aborts(d);
      case ClosingBody => e := ClosesBody(d, 0);
      case EnteringRelease => EntersRelease(s, d); e := CloseEntersRelease(d);
      case InRelease => e := CloseReleases(d);
      case Leaving => e := CloseLeaves(d);
    }
  }

  /** The next event a Close waits for. */
  lemma NextShortEvent(s: State, c: Id) returns (e: Event)
    requires Inv(s) && c in s.closers && !s.closers[c].Returned?
    ensures IsShort(e) && Enabled(s, e) && Inv(Apply(s, e)) && c in Apply(s, e).closers
    ensures Wait(Apply(s, e), c) < Wait(s, c)
  {
    assert CloserOk(s, s.closers[c]);
    if s.closeOnce.Running? && s.reader.Releasing? {
      e := ReadReleases;
    } else if s.closeOnce.Running? {
      e := WinnersEvent(s);
    } else {
      e := CloseArrives(c);
    }
    WaitNeverGrows(s, e, c);
    if !s.closeOnce.Running? {
      OthersArrive(s, e, c);
    } else if e != ReadReleases {
      WinnerMoves(s, e, c);
    }
  }

  /** Close never waits for a Read in the network: until a Close returns, some event other than a Read in the
      network is possible that brings its return nearer; no event of any thread puts it off; ten such events suffice. */
  lemma CloseNeverWaitsForRead(run: seq<State>, c: Id)
    requires Run(run) && c in Last(run).closers
    ensures var s := Last(run);
            && Inv(s) && Wait(s, c) <= 10 && (Wait(s, c) == 0 <==> s.closers[c].Returned?)
            && (forall e :: Enabled(s, e) ==>
                  Inv(Apply(s, e)) && c in Apply(s, e).closers && Wait(Apply(s, e), c) <= Wait(s, c))
            && (!s.closers[c].Returned? ==>
                  exists e :: IsShort(e) && Enabled(s, e) && Inv(Apply(s, e)) && c in Apply(s, e).closers
                              && Wait(Apply(s, e), c) < Wait(s, c))
  {
    RunKeepsInv(run);
    var s := Last(run);
    assert CloserOk(s, s.closers[c]);
    forall e | Enabled(s, e)
      ensures Inv(Apply(s, e)) && c in Apply(s, e).closers && Wait(Apply(s, e), c) <= Wait(s, c)
    {
      WaitNeverGrows(s, e, c);
    }
    if !s.closers[c].Returned? {
      var e := NextShortEvent(s, c);
    }
  }
}
