/** The Store-wide slot channel, shared by every operation and by the readers Get hands over. */
module TransferSlots {
  import Reader = ReaderShutdown

  /** Working: the deferred function will release the slot. HandingOff: Get has set release = false. Streaming: the
      slot's fate has passed to the reader. */
  datatype Operation =
    | Waiting(get: bool)
    | Working(get: bool)
    | HandingOff
    | Streaming(reader: Reader.State)
    | Finished

  type Id = nat

  /** tokens: how many values the buffered channel holds. */
  datatype State = State(capacity: nat, tokens: nat, operations: map<Id, Operation>)

  datatype Event =
    | Called(o: Id, get: bool)
    | Acquired(o: Id)            // the send succeeds
    | GaveUp(o: Id)              // no deadline, or the context ends first
    | KeepsSlot(o: Id)           // Get: release = false
    | HandedOff(o: Id)           // Get returns its reader
    | Returned(o: Id)            // the deferred function runs
    | Streams(o: Id, e: Reader.Event)

  /** The reader's release function receives from the channel. */
  predicate Receives(e: Reader.Event) {
    e.ReadReleases? || e.CloseReleases?
  }

  ghost predicate At(s: State, o: Id, x: Operation) {
    o in s.operations && s.operations[o] == x
  }

  /** The event is due, whether or not the channel lets it happen. */
  ghost predicate Due(s: State, e: Event) {
    match e
    case Called(o, _) => o !in s.operations
    case Acquired(o) => o in s.operations && s.operations[o].Waiting?
    case GaveUp(o) => o in s.operations && s.operations[o].Waiting?
    case KeepsSlot(o) => At(s, o, Working(true))
    case HandedOff(o) => At(s, o, HandingOff)
    case Returned(o) => o in s.operations && s.operations[o].Working?
    case Streams(o, e) => o in s.operations && s.operations[o].Streaming? && Reader.Enabled(s.operations[o].reader, e)
  }

  /** The event receives from the channel. */
  predicate Frees(e: Event) {
    e.Returned? || (e.Streams? && Receives(e.e))
  }

  /** A send waits for room, a receive for a value. */
  ghost predicate Enabled(s: State, e: Event) {
    && Due(s, e)
    && (e.Acquired? ==> s.tokens < s.capacity)
    && (Frees(e) ==> s.tokens > 0)
  }

  ghost function Apply(s: State, e: Event): State
    requires Enabled(s, e)
  {
    match e
    case Called(o, get) => s.(operations := s.operations[o := Waiting(get)])
    case Acquired(o) => s.(tokens := s.tokens + 1, operations := s.operations[o := Working(s.operations[o].get)])
    case GaveUp(o) => s.(operations := s.operations[o := Finished])
    case KeepsSlot(o) => s.(operations := s.operations[o := HandingOff])
    case HandedOff(o) => s.(operations := s.operations[o := Streaming(Reader.Initial())])
    case Returned(o) => s.(tokens := s.tokens - 1, operations := s.operations[o := Finished])
    case Streams(o, e) =>
      s.(tokens := if Receives(e) then s.tokens - 1 else s.tokens,
         operations := s.operations[o := Streaming(Reader.Apply(s.operations[o].reader, e))])
  }

  predicate Holds(x: Operation) {
    x.Working? || x.HandingOff? || (x.Streaming? && x.reader.releases == 0)
  }

  ghost function Holders(s: State): set<Id> {
    set o | o in s.operations && Holds(s.operations[o])
  }

  ghost predicate Inv(s: State) {
    && s.tokens == |Holders(s)| <= s.capacity
    && (forall o :: o in s.operations && s.operations[o].Streaming? ==> Reader.Inv(s.operations[o].reader))
  }

  /** The holders other than one operation do not depend on it. */
  lemma OthersUnchanged(s: State, t: State, o: Id)
    requires t.operations.Keys == s.operations.Keys + {o}
    requires forall p :: p in s.operations && p != o ==> t.operations[p] == s.operations[p]
    ensures Holders(t) - {o} == Holders(s) - {o}
  {
  }

  lemma Without(x: set<Id>, o: Id)
    ensures |x| == |x - {o}| + if o in x then 1 else 0
  {
    if o in x {
      assert x == (x - {o}) + {o};
    } else {
      assert x == x - {o};
    }
  }

  /** Changing one operation moves the count by its own share. */
  lemma HoldersAfter(s: State, t: State, o: Id)
    requires t.operations.Keys == s.operations.Keys + {o}
    requires forall p :: p in s.operations && p != o ==> t.operations[p] == s.operations[p]
    ensures |Holders(t)| == |Holders(s)| - (if o in Holders(s) then 1 else 0)
                          + (if Holds(t.operations[o]) then 1 else 0)
  {
    OthersUnchanged(s, t, o);
    Without(Holders(s), o);
    Without(Holders(t), o);
  }

  lemma InitialReaderInv()
    ensures Reader.Inv(Reader.Initial())
  {
  }

  /** A due receive finds a value: its operation is one of the holders counted in the channel. */
  lemma ReceiveNeverBlocks(s: State, e: Event)
    requires Inv(s) && Due(s, e) && Frees(e)
    ensures s.tokens > 0 && e.o in Holders(s)
  {
    if e.Streams? {
      var r := s.operations[e.o].reader;
      assert Reader.Inv(r);
      assert e.e.CloseReleases? ==> Reader.CloserOk(r, r.closers[e.e.c]);
    }
    assert e.o in Holders(s);
  }

  lemma ReaderHolds(r: Reader.State, e: Reader.Event)
    requires Reader.Inv(r) && Reader.Enabled(r, e)
    ensures Reader.Apply(r, e).releases == r.releases + if Receives(e) then 1 else 0
    ensures Receives(e) ==> r.releases == 0
  {
    if e.CloseReleases? {
      assert Reader.CloserOk(r, r.closers[e.c]);
    }
  }

  /** The token moves exactly when the operation starts or stops holding its slot. */
  lemma TokenFollowsHolder(s: State, e: Event)
    requires Inv(s) && Enabled(s, e)
    ensures var t := Apply(s, e);
            t.tokens == s.tokens - (if e.o in Holders(s) then 1 else 0) + (if Holds(t.operations[e.o]) then 1 else 0)
  {
    if e.Streams? {
      ReaderHolds(s.operations[e.o].reader, e.e);
    }
  }

  lemma OperationsStayOk(s: State, e: Event)
    requires Inv(s) && Enabled(s, e)
    ensures var t := Apply(s, e);
            forall o :: o in t.operations && t.operations[o].Streaming? ==> Reader.Inv(t.operations[o].reader)
  {
    InitialReaderInv();
    if e.Streams? {
      Reader.StepKeepsInv(s.operations[e.o].reader, e.e);
    }
  }

  lemma StepKeepsInv(s: State, e: Event)
    requires Inv(s) && Enabled(s, e)
    ensures Inv(Apply(s, e))
  {
    var t := Apply(s, e);
    HoldersAfter(s, t, e.o);
    TokenFollowsHolder(s, e);
    OperationsStayOk(s, e);
  }

  ghost predicate Next(s: State, t: State) {
    exists e :: Enabled(s, e) && t == Apply(s, e)
  }

  ghost predicate Run(run: seq<State>) {
    && run != [] && run[0] == State(run[0].capacity, 0, map[])
    && forall i :: 0 <= i < |run| - 1 ==> Next(run[i], run[i + 1])
  }

  ghost function Last(run: seq<State>): State
    requires run != []
  {
    run[|run| - 1]
  }

  lemma {:induction false} RunKeepsInv(run: seq<State>)
    requires Run(run)
    ensures Inv(Last(run))
  {
    if |run| == 1 {
      assert Holders(run[0]) == {};
    } else {
      RunKeepsInv(run[..|run| - 1]);
      assert Next(run[|run| - 2], run[|run| - 2 + 1]);
      var e :| Enabled(run[|run| - 2], e) && Last(run) == Apply(run[|run| - 2], e);
      StepKeepsInv(run[|run| - 2], e);
    }
  }

  /** A handed-over reader none of whose Reads has returned an end or failure, and none of whose Closes has returned. */
  ghost predicate Unfinished(r: Reader.State) {
    && (forall a :: a in r.answers ==> !Reader.Terminal(a))
    && (forall c :: c in r.closers ==> !r.closers[c].Returned?)
  }

  /** In every interleaving of operations, readers and closers: the channel holds exactly one value per operation in
      flight and per handed-over reader not yet released, never more than its capacity; a reader gives its value back
      only once a Close has begun or a Read has ended, and has done so by the time a Close, or a Read with an error of
      its own, has returned; and no release ever waits for a value. */
  lemma SlotsAreConserved(run: seq<State>)
    requires Run(run)
    ensures var s := Last(run);
            && s.tokens == |Holders(s)| <= s.capacity
            && (forall o :: o in s.operations && s.operations[o].Streaming? && !Unfinished(s.operations[o].reader)
                  ==> o !in Holders(s))
            && (forall o :: o in s.operations && s.operations[o].Streaming? && o !in Holders(s)
                  ==> Reader.Ended(s.operations[o].reader))
            && (forall e :: Due(s, e) && Frees(e) ==> Enabled(s, e))
  {
    RunKeepsInv(run);
    var s := Last(run);
    forall o | o in s.operations && s.operations[o].Streaming? && !Unfinished(s.operations[o].reader)
      ensures o !in Holders(s)
    {
      var r := s.operations[o].reader;
      assert Reader.Inv(r);
      assert forall c :: c in r.closers ==> Reader.CloserOk(r, r.closers[c]);
    }
    forall o | o in s.operations && s.operations[o].Streaming? && o !in Holders(s)
      ensures Reader.Ended(s.operations[o].reader)
    {
      assert Reader.Inv(s.operations[o].reader);
    }
    forall e | Due(s, e) && Frees(e) ensures Enabled(s, e) {
      ReceiveNeverBlocks(s, e);
    }
  }
}
