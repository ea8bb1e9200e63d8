/**
  The queue as the object of lib/mulch/src/bipqueue.rs: the shared fields, updated in place by
  `grant`, `commit`, `read` and `release`. The other side may take any number of its own actions
  between two atomic accesses of a call, so each call is verified under that interference, and
  `Valid` says that the object is in a state the transition system of `BipQueue` reaches.
*/
module BipQueueObject {
  import opened Numbers
  import opened BipQueue

  datatype GrantResult = GrantOk(start: nat, length: nat) | WriteAlreadyGranted | NotEnoughSpace

  datatype ReadResult = ReadOk(start: nat, length: nat) | ReadAlreadyGranted | NoBytes

  ghost predicate AllByConsumer(actions: seq<Action>) {
    forall i | 0 <= i < |actions| :: ByConsumer(actions[i])
  }

  ghost predicate AllByProducer(actions: seq<Action>) {
    forall i | 0 <= i < |actions| :: !ByConsumer(actions[i])
  }

  /**
    `Run`, phrased so that the verifier does not unfold the run wherever only the fact that the
    state was reached matters.
  */
  ghost predicate Reached(s: State, actions: seq<Action>, t: State) {
    forall u | u == t :: Run(s, actions, u)
  }

  lemma RunExtends(s: State, actions: seq<Action>, t: State, a: Action)
    requires Reached(s, actions, t) && Enabled(t, a)
    ensures Reached(s, actions + [a], Apply(t, a))
  {
    assert Run(s, actions, t);
    assert Run(t, [a], Apply(t, a)) by {
      assert [a][1..] == [];
    }
    RunTransitive(s, actions, t, [a], Apply(t, a));
  }

  lemma InitialInv(s: State)
    requires Initial(s)
    ensures Inv(s)
  {
  }

  lemma ReachedInv(s: State, actions: seq<Action>, t: State)
    requires Initial(s) && Reached(s, actions, t)
    ensures Inv(t)
  {
    assert Run(s, actions, t);
    InitialInv(s);
    RunKeepsInv(s, actions, t);
  }

  /** The fields only the producer writes are as they were. */
  ghost predicate SameProducerSide(s: State, t: State) {
    && t.n == s.n && t.storage == s.storage && t.p == s.p && t.writeGranted == s.writeGranted
    && t.write == s.write && t.watermark == s.watermark && t.reserve == s.reserve
    && t.committed == s.committed
  }

  /** The fields only the consumer writes are as they were. */
  ghost predicate SameConsumerSide(s: State, t: State) {
    && t.n == s.n && t.c == s.c && t.readGranted == s.readGranted && t.read == s.read
    && t.released == s.released
  }

  predicate ShowsBytes(s: State) {
    s.c.ReadGranted? || s.c.ReleaseAdd?
  }

  function Shown(s: State): seq<Byte>
    requires ShowsBytes(s)
  {
    Slice(s.storage, s.c.start, s.c.start + s.c.length)
  }

  lemma {:induction false} ConsumerRunFrame(s: State, actions: seq<Action>, t: State)
    requires Run(s, actions, t) && AllByConsumer(actions)
    ensures SameProducerSide(s, t)
    decreases |actions|
  {
    if actions != [] {
      assert ByConsumer(actions[0]);
      ConsumerRunFrame(Apply(s, actions[0]), actions[1..], t);
    }
  }

  lemma {:induction false} ProducerRunFrame(s: State, actions: seq<Action>, t: State)
    requires Run(s, actions, t) && AllByProducer(actions)
    ensures SameConsumerSide(s, t)
    decreases |actions|
  {
    if actions != [] {
      assert !ByConsumer(actions[0]);
      ProducerRunFrame(Apply(s, actions[0]), actions[1..], t);
    }
  }

  lemma ShownBytesStep(s: State, a: Action)
    requires Inv(s) && ShowsBytes(s) && Enabled(s, a) && !ByConsumer(a)
    ensures Apply(s, a).c == s.c && Shown(Apply(s, a)) == Shown(s)
  {
    ReadGrantIsStable(s, a);
    ProducerKeepsConsumer(s, a);
  }

  lemma ProducerKeepsConsumer(s: State, a: Action)
    requires Enabled(s, a) && !ByConsumer(a)
    ensures Apply(s, a).c == s.c
  {
  }

  /** Whatever the producer does, the bytes the consumer is looking at stay the same. */
  lemma {:induction false} ShownBytesStay(s: State, actions: seq<Action>, t: State)
    requires Inv(s) && ShowsBytes(s) && Run(s, actions, t) && AllByProducer(actions)
    ensures t.c == s.c && Shown(t) == Shown(s)
    decreases |actions|
  {
    if actions != [] {
      assert !ByConsumer(actions[0]);
      StepKeepsInv(s, actions[0]);
      ShownBytesStep(s, actions[0]);
      ShownBytesStay(Apply(s, actions[0]), actions[1..], t);
    }
  }

  lemma ReadMovesOnFurther(s: State, m: State, t: State)
    requires Bounds(s) && ReadMovesOn(s, m) && ReadMovesOn(m, t)
    requires m.write == s.write && m.watermark == s.watermark
    ensures ReadMovesOn(s, t)
  {
  }

  lemma ReadMovesOnStep(s: State, a: Action)
    requires Inv(s) && Enabled(s, a) && ByConsumer(a)
    ensures ReadMovesOn(s, Apply(s, a))
  {
    if a.ConsumerStep? {
      ConsumerGuarantee(s);
    }
  }

  lemma {:induction false} ReadMovesOnRun(s: State, actions: seq<Action>, t: State)
    requires Inv(s) && Run(s, actions, t) && AllByConsumer(actions)
    ensures ReadMovesOn(s, t)
    decreases |actions|
  {
    if actions != [] {
      assert ByConsumer(actions[0]);
      var m := Apply(s, actions[0]);
      StepKeepsInv(s, actions[0]);
      ReadMovesOnStep(s, actions[0]);
      ReadMovesOnRun(m, actions[1..], t);
      ConsumerRunFrame(s, [actions[0]], m);
      ReadMovesOnFurther(s, m, t);
    }
  }

  /**
    What a call of `read` under way can still count on: bytes, and bytes at the front. Phrased so that
    the verifier looks inside only where an access is examined.
  */
  ghost predicate Hope(s: State, bytes: bool, front: bool) {
    forall u | u == s :: (bytes ==> FirstCall(u)) && (front ==> SecondCall(u))
  }

  lemma FreshHope(s: State, bytes: bool, front: bool)
    requires s.c.CIdle? && (bytes ==> Contents(s) != []) && (front ==> s.read == 0 < s.write)
    ensures Hope(s, bytes, front)
  {
  }

  ghost predicate KeepsHope(s: State, t: State) {
    forall bytes, front | Hope(s, bytes, front) :: Hope(t, bytes, front)
  }

  lemma AccessKeepsHope(s: State, a: Action)
    requires Inv(s) && Enabled(s, a) && (a.CallRead? || a.ConsumerStep?)
    requires !s.c.ReadRefuse? && !Apply(s, a).c.ReadGranted?
    ensures KeepsHope(s, Apply(s, a))
  {
    var t := Apply(s, a);
    forall bytes, front | Hope(s, bytes, front)
      ensures Hope(t, bytes, front)
    {
      assert (bytes ==> FirstCall(s)) && (front ==> SecondCall(s));
      if bytes {
        FirstCallStep(s, a);
      }
      if front {
        SecondCallStep(s, a);
      }
    }
  }

  /** A call that is about to report `NoBytes` has had no bytes at the front, and leaves them there if there were any. */
  lemma RefusedHope(s: State, bytes: bool, front: bool)
    requires Hope(s, bytes, front) && s.c.ReadRefuse?
    ensures !front && (bytes ==> s.read == 0 < s.write)
  {
    assert (bytes ==> FirstCall(s)) && (front ==> SecondCall(s));
  }

  lemma ProducerKeepsHope(s: State, a: Action)
    requires Inv(s) && Enabled(s, a) && !ByConsumer(a)
    ensures FirstCall(s) ==> FirstCall(Apply(s, a))
    ensures SecondCall(s) ==> SecondCall(Apply(s, a))
  {
    ProducerKeepsBytes(s, a);
  }

  /** A call of `read` that had bytes to hope for still has them, whatever the producer does. */
  lemma {:induction false} HopeStays(s: State, actions: seq<Action>, t: State)
    requires Inv(s) && Run(s, actions, t) && AllByProducer(actions)
    ensures KeepsHope(s, t)
    decreases |actions|
  {
    if actions != [] {
      assert !ByConsumer(actions[0]);
      var m := Apply(s, actions[0]);
      StepKeepsInv(s, actions[0]);
      ProducerKeepsHope(s, actions[0]);
      HopeStays(m, actions[1..], t);
      forall bytes, front | Hope(s, bytes, front)
        ensures Hope(t, bytes, front)
      {
        assert (bytes ==> FirstCall(s)) && (front ==> SecondCall(s));
        assert Hope(m, bytes, front);
      }
    }
  }

  /** What a call of `read` under way will show at least; phrased like `Hope`. */
  ghost predicate Owed(s: State, count: int) {
    forall u | u == s :: Offers(u, count)
  }

  ghost predicate KeepsOwed(s: State, t: State) {
    forall count | Owed(s, count) :: Owed(t, count)
  }

  lemma AccessKeepsOwed(s: State, a: Action)
    requires Inv(s) && Enabled(s, a) && (a.CallRead? || a.ConsumerStep?) && !s.c.ReadRefuse?
    ensures KeepsOwed(s, Apply(s, a))
  {
    forall count | Owed(s, count)
      ensures Owed(Apply(s, a), count)
    {
      assert Offers(s, count);
      ReadOffers(s, a, count);
    }
  }

  /** A call of `read` shows no less for what the producer does meanwhile. */
  lemma {:induction false} OwedStays(s: State, actions: seq<Action>, t: State)
    requires Inv(s) && Run(s, actions, t) && AllByProducer(actions)
    ensures KeepsOwed(s, t)
    decreases |actions|
  {
    if actions != [] {
      assert !ByConsumer(actions[0]);
      var m := Apply(s, actions[0]);
      StepKeepsInv(s, actions[0]);
      OwedStays(m, actions[1..], t);
      forall count | Owed(s, count)
        ensures Owed(t, count)
      {
        assert Offers(s, count);
        ProducerKeepsOffers(s, actions[0], count);
        assert Owed(m, count);
      }
    }
  }

  lemma FreshOwed(s: State)
    requires s.c.CIdle?
    ensures Owed(s, InOnePiece(s))
  {
  }

  lemma OwedShown(s: State, count: int)
    requires Owed(s, count) && s.c.ReadGranted?
    ensures count <= s.c.length
  {
    assert Offers(s, count);
  }

  /** What the producer finds after any number of consumer actions. */
  ghost predicate ConsumerMayDo(s: State, t: State) {
    SameProducerSide(s, t) && ReadMovesOn(s, t)
  }

  /** What the consumer finds after any number of producer actions. */
  ghost predicate ProducerMayDo(s: State, t: State) {
    && SameConsumerSide(s, t)
    && (ShowsBytes(s) ==> ShowsBytes(t) && Shown(t) == Shown(s))
    && KeepsHope(s, t) && KeepsOwed(s, t)
  }

  lemma ReachedFurther(first: State, history: seq<Action>, s: State, actions: seq<Action>, t: State)
    requires Reached(first, history, s) && Run(s, actions, t)
    ensures Reached(first, history + actions, t)
  {
    assert Run(first, history, s);
    RunTransitive(first, history, s, actions, t);
  }

  /** Every run of the consumer, from any state the queue can be in, meets the contract of `ConsumerInterferes`. */
  lemma ConsumerInterference(first: State, history: seq<Action>, s: State, actions: seq<Action>, t: State)
    requires Initial(first) && Reached(first, history, s) && Run(s, actions, t) && AllByConsumer(actions)
    ensures Reached(first, history + actions, t) && ConsumerMayDo(s, t)
  {
    ReachedInv(first, history, s);
    ReachedFurther(first, history, s, actions, t);
    ConsumerRunFrame(s, actions, t);
    ReadMovesOnRun(s, actions, t);
  }

  /** Every run of the producer, from any state the queue can be in, meets the contract of `ProducerInterferes`. */
  lemma ProducerInterference(first: State, history: seq<Action>, s: State, actions: seq<Action>, t: State)
    requires Initial(first) && Reached(first, history, s) && Run(s, actions, t) && AllByProducer(actions)
    ensures Reached(first, history + actions, t) && ProducerMayDo(s, t)
  {
    ReachedInv(first, history, s);
    ReachedFurther(first, history, s, actions, t);
    ProducerRunFrame(s, actions, t);
    HopeStays(s, actions, t);
    OwedStays(s, actions, t);
    if ShowsBytes(s) {
      ShownBytesStay(s, actions, t);
    }
  }

  /** The bytes a release adds are the first of those shown. */
  lemma ShownPrefix(first: State, history: seq<Action>, s: State)
    requires Initial(first) && Reached(first, history, s) && s.c.ReleaseAdd?
    ensures 0 <= s.c.count <= |Shown(s)| == s.c.length
    ensures Slice(s.storage, s.c.start, s.c.start + s.c.count) == Shown(s)[..s.c.count]
  {
    ReachedInv(first, history, s);
  }

  /** Room there was is room there is. */
  lemma RoomKept(first: State, s: State, t: State, history: seq<Action>, length: nat)
    requires Initial(first) && Reached(first, history, s) && ConsumerMayDo(s, t)
    ensures HasRoom(s.n, s.read, s.write, length) ==> HasRoom(t.n, t.read, t.write, length)
    ensures RoomAhead(s.n, s.read, s.write, length) ==> RoomAhead(t.n, t.read, t.write, length)
  {
    ReachedInv(first, history, s);
    if HasRoom(s.n, s.read, s.write, length) {
      RoomGrows(s, t, length);
    }
  }

  class Queue {
    const n: nat
    const storage: array<Byte>
    var read: int
    var write: int
    var reserve: int
    var watermark: int
    var readGranted: bool
    var writeGranted: bool

    // Where each side is, and what has gone through the queue
    ghost var p: Producer
    ghost var c: Consumer
    ghost var committed: seq<Byte>
    ghost var released: seq<Byte>
    // The run that led here
    ghost var first: State
    ghost var history: seq<Action>

    ghost function Abs(): State
      reads this, storage
    {
      State(n, storage[..], read, write, reserve, watermark, readGranted, writeGranted, p, c, committed, released)
    }

    ghost predicate Valid()
      reads this, storage
    {
      storage.Length == n && Initial(first) && Reached(first, history, Abs())
    }

    constructor (n: nat)
      requires n <= USIZE_MAX
      ensures Valid() && this.n == n && fresh(storage)
      ensures p == PIdle && c == CIdle && Contents(Abs()) == []
    {
      this.n := n;
      storage := new Byte[n];
      read := 0;
      write := 0;
      reserve := 0;
      watermark := n;
      readGranted := false;
      writeGranted := false;
      p := PIdle;
      c := CIdle;
      committed := [];
      released := [];
      history := [];
      new;
      first := Abs();
    }

    // -------------------------------------------------------------------------------------------
    // Interference
    // -------------------------------------------------------------------------------------------

    /**
      The consumer may take any number of its actions here. A caller knows only the contract, which
      `ConsumerInterference` proves of every such run; the body stands for the run of no actions.
    */
    method ConsumerInterferes()
      requires Valid()
      modifies this`read, this`readGranted, this`c, this`released, this`history
      ensures Valid() && ConsumerMayDo(old(Abs()), Abs())
    {
      ConsumerInterference(first, history, Abs(), [], Abs());
    }

    /**
      The producer may take any number of its actions here. A caller knows only the contract, which
      `ProducerInterference` proves of every such run; the body stands for the run of no actions.
    */
    method ProducerInterferes()
      requires Valid()
      modifies this`write, this`reserve, this`watermark, this`writeGranted, this`p, this`committed, this`history, storage
      ensures Valid() && ProducerMayDo(old(Abs()), Abs())
    {
      ProducerInterference(first, history, Abs(), [], Abs());
    }

    // -------------------------------------------------------------------------------------------
    // The producer's atomic accesses
    // -------------------------------------------------------------------------------------------

    method SwapWriteGranted(length: nat) returns (was: bool)
      requires Valid() && (p.PIdle? || p.WriteGranted?)
      modifies this`writeGranted, this`p, this`history
      ensures Valid() && history == old(history) + [CallGrant(length)]
      ensures was <==> old(p.WriteGranted?)
      ensures p == if was then old(p) else GrantLoadRead(length)
    {
      ghost var s := Abs();
      ReachedInv(first, history, s);
      RunExtends(first, history, s, CallGrant(length));
      was := writeGranted;
      writeGranted := true;
      if !was {
        p := GrantLoadRead(length);
      }
      history := history + [CallGrant(length)];
      assert Abs() == Apply(s, CallGrant(length));
    }

    method LoadReadForGrant() returns (read': int)
      requires Valid() && p.GrantLoadRead?
      modifies this`p, this`history
      ensures Valid()
      ensures p == GrantLoadWrite(old(p.length), read') && read' == read
    {
      ghost var s := Abs();
      RunExtends(first, history, s, ProducerStep);
      read' := read;
      p := GrantLoadWrite(p.length, read');
      history := history + [ProducerStep];
      assert Abs() == Apply(s, ProducerStep);
    }

    method LoadWriteForGrant() returns (write': int)
      requires Valid() && p.GrantLoadWrite? && n + p.length <= USIZE_MAX
      modifies this`p, this`history
      ensures Valid() && 0 <= write' <= n && write' == write
      ensures p == Place(n, old(p.length), old(p.read), write')
    {
      ghost var s := Abs();
      ReachedInv(first, history, s);
      RunExtends(first, history, s, ProducerStep);
      write' := write;
      p := Place(n, p.length, p.read, write');
      history := history + [ProducerStep];
      assert Abs() == Apply(s, ProducerStep);
    }

    method StoreReserve(value: int)
      requires Valid() && p.GrantStoreReserve? && value == p.start + p.length
      modifies this`reserve, this`p, this`history
      ensures Valid()
      ensures p == WriteGranted(old(p.start), old(p.length)) && Exclusive(Abs())
      ensures HasRoom(n, read, write, old(p.length))
      ensures !RoomAhead(n, read, write, old(p.length)) ==> p.start == 0
    {
      ghost var s := Abs();
      RunExtends(first, history, s, ProducerStep);
      reserve := value;
      p := WriteGranted(p.start, p.length);
      history := history + [ProducerStep];
      assert Abs() == Apply(s, ProducerStep);
      ReachedInv(first, history, Abs());
      InvImpliesExclusive(Abs());
      GrantHasRoom(Abs());
    }

    method ClearWriteGranted()
      requires Valid() && (p.GrantRefuse? || p.CommitClear? || p.CommitDrop?)
      modifies this`writeGranted, this`p, this`history
      ensures Valid()
      ensures p == if old(p).CommitClear? then CommitDrop else PIdle
    {
      ghost var s := Abs();
      RunExtends(first, history, s, ProducerStep);
      writeGranted := false;
      p := if p.CommitClear? then CommitDrop else PIdle;
      history := history + [ProducerStep];
      assert Abs() == Apply(s, ProducerStep);
    }

    method LoadWriteForCommit() returns (write': int)
      requires Valid() && p.CommitLoadWrite?
      modifies this`p, this`history
      ensures Valid()
      ensures p == CommitSubReserve(old(p.start), old(p.length), old(p.written), write')
    {
      ghost var s := Abs();
      RunExtends(first, history, s, ProducerStep);
      write' := write;
      p := CommitSubReserve(p.start, p.length, p.written, write');
      history := history + [ProducerStep];
      assert Abs() == Apply(s, ProducerStep);
    }

    method FetchSubReserve(amount: int)
      requires Valid() && p.CommitSubReserve? && amount == p.length - p.written
      modifies this`reserve, this`p, this`history
      ensures Valid()
      ensures p == CommitLoadWatermark(old(p.start), old(p.length), old(p.written), old(p.write))
    {
      ghost var s := Abs();
      RunExtends(first, history, s, ProducerStep);
      reserve := reserve - amount;
      p := CommitLoadWatermark(p.start, p.length, p.written, p.write);
      history := history + [ProducerStep];
      assert Abs() == Apply(s, ProducerStep);
    }

    method LoadWatermarkForCommit() returns (watermark': int)
      requires Valid() && p.CommitLoadWatermark?
      modifies this`p, this`history
      ensures Valid()
      ensures p == CommitLoadReserve(old(p.start), old(p.length), old(p.written), old(p.write), watermark')
    {
      ghost var s := Abs();
      RunExtends(first, history, s, ProducerStep);
      watermark' := watermark;
      p := CommitLoadReserve(p.start, p.length, p.written, p.write, watermark');
      history := history + [ProducerStep];
      assert Abs() == Apply(s, ProducerStep);
    }

    method LoadReserve() returns (newWrite: int)
      requires Valid() && p.CommitLoadReserve?
      modifies this`p, this`history
      ensures Valid()
      ensures p == Mark(n, old(p), newWrite)
    {
      ghost var s := Abs();
      RunExtends(first, history, s, ProducerStep);
      newWrite := reserve;
      p := Mark(n, p, newWrite);
      history := history + [ProducerStep];
      assert Abs() == Apply(s, ProducerStep);
    }

    method StoreWatermark(value: int)
      requires Valid() && p.CommitStoreWatermark? && p.value == value
      modifies this`watermark, this`p, this`history
      ensures Valid()
      ensures p == CommitStoreWrite(old(p.start), old(p.length), old(p.written), old(p.newWrite))
    {
      ghost var s := Abs();
      RunExtends(first, history, s, ProducerStep);
      watermark := value;
      p := CommitStoreWrite(p.start, p.length, p.written, p.newWrite);
      history := history + [ProducerStep];
      assert Abs() == Apply(s, ProducerStep);
    }

    /** The store that makes the bytes of the commit readable. */
    method StoreWrite(value: int)
      requires Valid() && p.CommitStoreWrite? && p.newWrite == value
      modifies this`write, this`committed, this`p, this`history
      ensures Valid() && p == CommitClear
      ensures 0 <= old(p.start) <= old(p.start) + old(p.written) <= n
      ensures committed == old(committed) + storage[old(p.start)..old(p.start) + old(p.written)]
    {
      ghost var s := Abs();
      ReachedInv(first, history, s);
      RunExtends(first, history, s, ProducerStep);
      write := value;
      committed := committed + Slice(storage[..], p.start, p.start + p.written);
      p := CommitClear;
      history := history + [ProducerStep];
      assert Abs() == Apply(s, ProducerStep);
    }

    // -------------------------------------------------------------------------------------------
    // The consumer's atomic accesses
    // -------------------------------------------------------------------------------------------

    method SwapReadGranted() returns (was: bool)
      requires Valid() && (c.CIdle? || c.ReadGranted?)
      modifies this`readGranted, this`c, this`history
      ensures Valid() && (!c.ReadGranted? ==> KeepsHope(old(Abs()), Abs())) && KeepsOwed(old(Abs()), Abs())
      ensures was <==> old(c.ReadGranted?)
      ensures c == if was then old(c) else ReadLoadRead
    {
      ghost var s := Abs();
      ReachedInv(first, history, s);
      RunExtends(first, history, s, CallRead);
      AccessKeepsOwed(s, CallRead);
      if !Apply(s, CallRead).c.ReadGranted? {
        AccessKeepsHope(s, CallRead);
      }
      was := readGranted;
      readGranted := true;
      if !was {
        c := ReadLoadRead;
      }
      history := history + [CallRead];
      assert Abs() == Apply(s, CallRead);
    }

    method LoadReadForRead() returns (read': int)
      requires Valid() && c.ReadLoadRead?
      modifies this`c, this`history
      ensures Valid() && KeepsHope(old(Abs()), Abs()) && KeepsOwed(old(Abs()), Abs())
      ensures c == ReadLoadWrite(read')
    {
      ghost var s := Abs();
      ReachedInv(first, history, s);
      RunExtends(first, history, s, ConsumerStep);
      AccessKeepsOwed(s, ConsumerStep);
      AccessKeepsHope(s, ConsumerStep);
      read' := read;
      c := ReadLoadWrite(read');
      history := history + [ConsumerStep];
      assert Abs() == Apply(s, ConsumerStep);
    }

    method LoadWriteForRead() returns (write': int)
      requires Valid() && c.ReadLoadWrite?
      modifies this`c, this`history
      ensures Valid() && KeepsHope(old(Abs()), Abs()) && KeepsOwed(old(Abs()), Abs())
      ensures c == ReadLoadWatermark(old(c.read), write')
    {
      ghost var s := Abs();
      ReachedInv(first, history, s);
      RunExtends(first, history, s, ConsumerStep);
      AccessKeepsOwed(s, ConsumerStep);
      AccessKeepsHope(s, ConsumerStep);
      write' := write;
      c := ReadLoadWatermark(c.read, write');
      history := history + [ConsumerStep];
      assert Abs() == Apply(s, ConsumerStep);
    }

    method LoadWatermarkForRead() returns (watermark': int)
      requires Valid() && c.ReadLoadWatermark?
      modifies this`c, this`history
      ensures Valid() && (!c.ReadGranted? ==> KeepsHope(old(Abs()), Abs())) && KeepsOwed(old(Abs()), Abs())
      ensures c == if old(c.write) < old(c.read) && old(c.read) == watermark'
                   then ReadWrap(old(c.read), old(c.write), watermark')
                   else Offer(old(c.read), old(c.write), watermark')
    {
      ghost var s := Abs();
      ReachedInv(first, history, s);
      RunExtends(first, history, s, ConsumerStep);
      AccessKeepsOwed(s, ConsumerStep);
      if !Apply(s, ConsumerStep).c.ReadGranted? {
        AccessKeepsHope(s, ConsumerStep);
      }
      watermark' := watermark;
      c := if c.write < c.read && c.read == watermark' then ReadWrap(c.read, c.write, watermark')
           else Offer(c.read, c.write, watermark');
      history := history + [ConsumerStep];
      assert Abs() == Apply(s, ConsumerStep);
    }

    method StoreReadFront()
      requires Valid() && c.ReadWrap?
      modifies this`read, this`c, this`history
      ensures Valid() && (!c.ReadGranted? ==> KeepsHope(old(Abs()), Abs())) && KeepsOwed(old(Abs()), Abs())
      ensures c == Offer(old(c.read), old(c.write), old(c.watermark))
    {
      ghost var s := Abs();
      ReachedInv(first, history, s);
      RunExtends(first, history, s, ConsumerStep);
      AccessKeepsOwed(s, ConsumerStep);
      if !Apply(s, ConsumerStep).c.ReadGranted? {
        AccessKeepsHope(s, ConsumerStep);
      }
      read := 0;
      c := Offer(c.read, c.write, c.watermark);
      history := history + [ConsumerStep];
      assert Abs() == Apply(s, ConsumerStep);
    }

    method ClearReadGranted()
      requires Valid() && (c.ReadRefuse? || c.ReleaseClear? || c.ReleaseDrop?)
      modifies this`readGranted, this`c, this`history
      ensures Valid()
      ensures c == if old(c).ReleaseClear? then ReleaseDrop else CIdle
    {
      ghost var s := Abs();
      RunExtends(first, history, s, ConsumerStep);
      readGranted := false;
      c := if c.ReleaseClear? then ReleaseDrop else CIdle;
      history := history + [ConsumerStep];
      assert Abs() == Apply(s, ConsumerStep);
    }

    /** The addition that gives the released bytes back to the producer. */
    method FetchAddRead(amount: int, ghost bytes: seq<Byte>)
      requires Valid() && c.ReleaseAdd? && c.count == amount && Shown(Abs()) == bytes
      modifies this`read, this`released, this`c, this`history
      ensures Valid() && c == ReleaseClear
      ensures 0 <= amount <= |bytes| && released == old(released) + bytes[..amount]
    {
      ghost var s := Abs();
      ShownPrefix(first, history, s);
      RunExtends(first, history, s, ConsumerStep);
      read := read + amount;
      released := released + Slice(storage[..], c.start, c.start + amount);
      c := ReleaseClear;
      history := history + [ConsumerStep];
      assert Abs() == Apply(s, ConsumerStep);
    }

    // -------------------------------------------------------------------------------------------
    // The calls
    // -------------------------------------------------------------------------------------------

    /**
      `grant`: a region of `length` bytes that no readable byte and no read grant touches, whatever
      the consumer did while the region was being chosen. It is given if there was room when the call
      was made, and only if there is room when the call returns.
    */
    method Grant(length: nat) returns (r: GrantResult)
      requires Valid() && (p.PIdle? || p.WriteGranted?)
      requires n + length <= USIZE_MAX
      modifies this`writeGranted, this`reserve, this`p, this`read, this`readGranted, this`c, this`released, this`history
      ensures Valid() && committed == old(committed)
      ensures r.WriteAlreadyGranted? <==> old(p.WriteGranted?)
      ensures r.WriteAlreadyGranted? ==> p == old(p)
      ensures r.NotEnoughSpace? ==> p == PIdle
      ensures r.GrantOk? ==> p == WriteGranted(r.start, length) && r.length == length && Exclusive(Abs())
      ensures old(p.PIdle?) && HasRoom(n, old(read), old(write), length) ==> r.GrantOk?
      ensures r.GrantOk? ==> HasRoom(n, read, write, length)
      ensures r.GrantOk? && RoomAhead(n, old(read), old(write), length) ==> r.start == write
      ensures r.GrantOk? && !RoomAhead(n, read, write, length) ==> r.start == 0
    {
      var was := SwapWriteGranted(length);
      if was {
        return WriteAlreadyGranted;
      }
      ghost var s := Abs();
      ConsumerInterferes();
      RoomKept(first, s, Abs(), old(history) + [CallGrant(length)], length);
      var read' := LoadReadForGrant();
      ConsumerInterferes();
      var write' := LoadWriteForGrant();
      ConsumerInterferes();
      r := Choose(length, read', write');
    }

    /** The end of `grant`: the region is reserved, or the flag cleared if the loaded indices leave no room. */
    method Choose(length: nat, read': int, write': int) returns (r: GrantResult)
      requires Valid() && 0 <= write' <= n && p == Place(n, length, read', write')
      modifies this`writeGranted, this`reserve, this`p, this`history
      ensures Valid() && !r.WriteAlreadyGranted?
      ensures r.NotEnoughSpace? ==> p == PIdle
      ensures r.GrantOk? ==> p == WriteGranted(r.start, length) && r.length == length && Exclusive(Abs())
      ensures r.GrantOk? <==> HasRoom(n, read', write', length)
      ensures r.GrantOk? ==> r.start == if RoomAhead(n, read', write', length) then write' else 0
      ensures r.GrantOk? && !RoomAhead(n, read, write, length) ==> r.start == 0
      ensures r.GrantOk? ==> HasRoom(n, read, write, length)
    {
      var start;
      if write' < read' {
        if write' + length < read' {
          start := write';
        } else {
          ClearWriteGranted();
          return NotEnoughSpace;
        }
      } else {
        if write' + length <= n {
          start := write';
        } else if length < read' {
          start := 0;
        } else {
          ClearWriteGranted();
          return NotEnoughSpace;
        }
      }
      StoreReserve(start + length);
      r := GrantOk(start, length);
    }

    /** A byte stored through the slice of the grant at `start`. */
    method Fill(start: nat, offset: nat, value: Byte)
      requires Valid() && p.WriteGranted? && p.start == start && offset < p.length
      modifies storage, this`history
      ensures Valid() && history == old(history) + [FillByte(offset, value)]
      ensures start + offset < n && storage[..] == old(storage[..])[start + offset := value]
      ensures Contents(Abs()) == old(Contents(Abs()))
    {
      ghost var s := Abs();
      ReachedInv(first, history, s);
      assert start + offset < n by {
        InvImpliesExclusive(s);
        assert InWriteGrant(s, start + offset);
      }
      RunExtends(first, history, s, FillByte(offset, value));
      FillKeepsInv(s, offset, value);
      history := history + [FillByte(offset, value)];
      storage[start + offset] := value;
      assert Abs() == Apply(s, FillByte(offset, value));
    }

    /**
      `commit` on the grant of `length` bytes at `start`: appends the first `min(written, length)`
      bytes of the grant, exactly as they stand in the buffer, to everything committed so far.
    */
    method Commit(start: nat, length: nat, written: nat)
      requires Valid() && p == WriteGranted(start, length)
      modifies this`write, this`reserve, this`watermark, this`writeGranted, this`committed, this`p
      modifies this`read, this`readGranted, this`c, this`released, this`history
      ensures Valid() && p == PIdle
      ensures start + Min(written, length) <= n
      ensures committed == old(committed) + storage[start..start + Min(written, length)]
    {
      var write' := ShrinkReserve(start, length, written);
      var newWrite := SettleWatermark(write');
      ConsumerInterferes();
      StoreWrite(newWrite);
      FinishCommit();
    }

    /** The start of `commit`: the part of the region that was not written is given up. */
    method ShrinkReserve(start: nat, length: nat, written: nat) returns (write': int)
      requires Valid() && p == WriteGranted(start, length)
      modifies this`reserve, this`p, this`read, this`readGranted, this`c, this`released, this`history
      ensures Valid()
      ensures p == CommitLoadWatermark(start, length, Min(written, length), write')
    {
      BeginCommit(written);
      var written' := Min(written, length);
      ConsumerInterferes();
      write' := LoadWriteForCommit();
      ConsumerInterferes();
      FetchSubReserve(length - written');
      ConsumerInterferes();
    }

    /** The middle of `commit`: where to publish `write`, and the watermark that has to go with it. */
    method SettleWatermark(write': int) returns (newWrite: int)
      requires Valid() && p.CommitLoadWatermark? && p.write == write'
      modifies this`watermark, this`p, this`read, this`readGranted, this`c, this`released, this`history
      ensures Valid()
      ensures p == CommitStoreWrite(old(p.start), old(p.length), old(p.written), newWrite)
    {
      var watermark' := LoadWatermarkForCommit();
      ConsumerInterferes();
      newWrite := LoadReserve();
      ConsumerInterferes();
      if newWrite < write' && write' != n {
        StoreWatermark(write');
      } else if newWrite > watermark' {
        StoreWatermark(n);
      }
    }

    /** The end of `commit`: the flag is cleared, and cleared again as the grant is dropped. */
    method FinishCommit()
      requires Valid() && p.CommitClear?
      modifies this`writeGranted, this`p, this`read, this`readGranted, this`c, this`released, this`history
      ensures Valid() && p == PIdle
    {
      ConsumerInterferes();
      ClearWriteGranted();
      ConsumerInterferes();
      ClearWriteGranted();
    }

    ghost method BeginCommit(written: nat)
      requires Valid() && p.WriteGranted?
      modifies this`p, this`history
      ensures Valid()
      ensures p == CommitLoadWrite(old(p.start), old(p.length), Min(written, old(p.length)))
    {
      var s := Abs();
      RunExtends(first, history, s, CallCommit(written));
      p := CommitLoadWrite(p.start, p.length, Min(written, p.length));
      history := history + [CallCommit(written)];
      assert Abs() == Apply(s, CallCommit(written));
    }

    /** Dropping a write grant without committing it: nothing becomes readable. */
    method DropGrant()
      requires Valid() && p.WriteGranted?
      modifies this`writeGranted, this`p, this`history
      ensures Valid() && p == PIdle
      ensures committed == old(committed) && Contents(Abs()) == old(Contents(Abs()))
    {
      ghost var s := Abs();
      RunExtends(first, history, s, DropWriteGrant);
      writeGranted := false;
      p := PIdle;
      history := history + [DropWriteGrant];
      assert Abs() == Apply(s, DropWriteGrant);
    }

    /**
      `read`: a non-empty region holding the next bytes of the queue in order, and no fewer of them than
      could be read in one piece when the call was made. `NoBytes` means that the
      queue was empty when the call was made, or that the call has moved `read` to the front, with bytes
      above it; and with `read` at the front and bytes above it a call does not report `NoBytes`.
    */
    method Read() returns (r: ReadResult)
      requires Valid() && (c.CIdle? || c.ReadGranted?)
      modifies this`read, this`readGranted, this`c
      modifies this`write, this`reserve, this`watermark, this`writeGranted, this`p, this`committed, this`history, storage
      ensures Valid() && released == old(released)
      ensures r.ReadAlreadyGranted? <==> old(c.ReadGranted?)
      ensures r.ReadAlreadyGranted? ==> c == old(c)
      ensures r.NoBytes? ==> c == CIdle
      ensures r.ReadOk? ==> c == ReadGranted(r.start, r.length) && 0 < r.length && r.start + r.length <= n
      ensures r.ReadOk? ==> storage[r.start..r.start + r.length] <= Contents(Abs())
      ensures r.NoBytes? && old(Contents(Abs())) != [] ==> read == 0 < write
      ensures old(c.CIdle?) && old(read) == 0 < old(write) ==> r.ReadOk?
      ensures r.ReadOk? ==> old(InOnePiece(Abs())) <= r.length
    {
      ghost var bytes := Contents(Abs()) != [];
      ghost var front := read == 0 < write;
      if c.CIdle? {
        FreshHope(Abs(), bytes, front);
        FreshOwed(Abs());
      }
      ghost var count := InOnePiece(Abs());
      var was := SwapReadGranted();
      if was {
        return ReadAlreadyGranted;
      }
      r := Look(bytes, front, count);
    }

    /** The body of `read`, once the flag is set. */
    method Look(ghost bytes: bool, ghost front: bool, ghost count: int) returns (r: ReadResult)
      requires Valid() && c == ReadLoadRead && Hope(Abs(), bytes, front) && Owed(Abs(), count)
      modifies this`read, this`readGranted, this`c
      modifies this`write, this`reserve, this`watermark, this`writeGranted, this`p, this`committed, this`history, storage
      ensures Valid() && released == old(released) && !r.ReadAlreadyGranted?
      ensures r.NoBytes? ==> c == CIdle && !front && (bytes ==> read == 0 < write)
      ensures r.ReadOk? ==> c == ReadGranted(r.start, r.length) && 0 < r.length && r.start + r.length <= n
      ensures r.ReadOk? ==> storage[r.start..r.start + r.length] <= Contents(Abs()) && count <= r.length
    {
      ProducerInterferes();
      var read' := LoadReadForRead();
      ProducerInterferes();
      var write' := LoadWriteForRead();
      ProducerInterferes();
      r := Inspect(read', write', bytes, front, count);
    }

    /** The second half of `read`: settles what the three loaded indices have to offer. */
    method Inspect(read': int, write': int, ghost bytes: bool, ghost front: bool, ghost count: int)
      returns (r: ReadResult)
      requires Valid() && c == ReadLoadWatermark(read', write')
      requires Hope(Abs(), bytes, front) && Owed(Abs(), count)
      modifies this`read, this`readGranted, this`c
      modifies this`write, this`reserve, this`watermark, this`writeGranted, this`p, this`committed, this`history, storage
      ensures Valid() && released == old(released) && !r.ReadAlreadyGranted?
      ensures r.NoBytes? ==> c == CIdle && !front && (bytes ==> read == 0 < write)
      ensures r.ReadOk? ==> c == ReadGranted(r.start, r.length) && 0 < r.length && r.start + r.length <= n
      ensures r.ReadOk? ==> storage[r.start..r.start + r.length] <= Contents(Abs()) && count <= r.length
    {
      var watermark' := LoadWatermarkForRead();
      ProducerInterferes();
      if write' < read' && read' == watermark' {
        StoreReadFront();
        ProducerInterferes();
      }
      r := Answer(read', if write' < read' then watermark' - read' else write' - read', bytes, front, count);
    }

    /** The end of `read`: the slice it returns, or the flag cleared if there is nothing to show. */
    method Answer(read': int, length: int, ghost bytes: bool, ghost front: bool, ghost count: int)
      returns (r: ReadResult)
      requires Valid() && c == if length == 0 then ReadRefuse else ReadGranted(read', length)
      requires (length == 0 ==> Hope(Abs(), bytes, front)) && Owed(Abs(), count)
      modifies this`readGranted, this`c, this`history
      ensures Valid() && !r.ReadAlreadyGranted?
      ensures r.NoBytes? ==> c == CIdle && !front && (bytes ==> read == 0 < write)
      ensures r.ReadOk? ==> c == ReadGranted(r.start, r.length) && 0 < r.length && r.start + r.length <= n
      ensures r.ReadOk? ==> storage[r.start..r.start + r.length] <= Contents(Abs()) && count <= r.length
    {
      if length == 0 {
        RefusedHope(Abs(), bytes, front);
        ClearReadGranted();
        return NoBytes;
      }
      ReadGrantHolds();
      OwedShown(Abs(), count);
      r := ReadOk(read', length);
    }

    lemma ReadGrantHolds()
      requires Valid() && c.ReadGranted?
      ensures 0 <= c.start && 0 < c.length && c.start + c.length <= n
      ensures storage[c.start..c.start + c.length] <= Contents(Abs())
    {
      ReachedInv(first, history, Abs());
      ReadGrantIsPrefix(Abs());
    }

    /** `release` on the grant of `length` bytes at `start`: exactly its first `min(count, length)` bytes leave the queue. */
    method Release(start: nat, length: nat, count: nat)
      requires Valid() && c == ReadGranted(start, length)
      modifies this`read, this`readGranted, this`c, this`released
      modifies this`write, this`reserve, this`watermark, this`writeGranted, this`p, this`committed, this`history, storage
      ensures Valid() && c == CIdle
      ensures start + length <= n
      ensures released == old(released) + old(storage[start..start + length])[..Min(count, length)]
    {
      ReadGrantHolds();
      ghost var bytes := Shown(Abs());
      BeginRelease(count);
      var count' := Min(count, length);
      ProducerInterferes();
      FetchAddRead(count', bytes);
      FinishRelease();
    }

    /** The end of `release`: the flag is cleared, and cleared again as the grant is dropped. */
    method FinishRelease()
      requires Valid() && c.ReleaseClear?
      modifies this`readGranted, this`c
      modifies this`write, this`reserve, this`watermark, this`writeGranted, this`p, this`committed, this`history, storage
      ensures Valid() && c == CIdle && released == old(released)
    {
      ProducerInterferes();
      ClearReadGranted();
      ProducerInterferes();
      ClearReadGranted();
    }

    ghost method BeginRelease(count: nat)
      requires Valid() && c.ReadGranted?
      modifies this`c, this`history
      ensures Valid() && history == old(history) + [CallRelease(count)]
      ensures c == ReleaseAdd(old(c.start), old(c.length), Min(count, old(c.length)))
    {
      var s := Abs();
      RunExtends(first, history, s, CallRelease(count));
      c := ReleaseAdd(c.start, c.length, Min(count, c.length));
      history := history + [CallRelease(count)];
      assert Abs() == Apply(s, CallRelease(count));
    }

    /** Dropping a read grant without releasing it: the same bytes stay queued. */
    method DropRead()
      requires Valid() && c.ReadGranted?
      modifies this`readGranted, this`c, this`history
      ensures Valid() && c == CIdle
      ensures released == old(released) && Contents(Abs()) == old(Contents(Abs()))
    {
      ghost var s := Abs();
      RunExtends(first, history, s, DropReadGrant);
      readGranted := false;
      c := CIdle;
      history := history + [DropReadGrant];
      assert Abs() == Apply(s, DropReadGrant);
    }
  }
}
