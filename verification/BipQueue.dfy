/**
  `BipQueue` (lib/mulch/src/bipqueue.rs): a lock-free queue of bytes for one producer and one
  consumer, kept in a buffer of `n` bytes.

  Every atomic load, store, swap, `fetch_add` and `fetch_sub` of the source is one action of a
  transition system, so a run is an arbitrary interleaving of the two sides' atomic accesses
  (under sequential consistency). Values a side has loaded live in its program counter and go
  stale while the other side moves on.
*/
module BipQueue {
  import opened Numbers

  newtype Byte = x: int | 0 <= x < 256

  const USIZE_MAX: nat := 0xFFFF_FFFF_FFFF_FFFF

  /** What the producer does next, with the values it holds in local variables. */
  datatype Producer =
    | PIdle
    | GrantLoadRead(length: nat)
    | GrantLoadWrite(length: nat, read: int)
    | GrantStoreReserve(start: int, length: nat)
    | GrantRefuse
    | WriteGranted(start: int, length: nat)
    | CommitLoadWrite(start: int, length: nat, written: nat)
    | CommitSubReserve(start: int, length: nat, written: nat, write: int)
    | CommitLoadWatermark(start: int, length: nat, written: nat, write: int)
    | CommitLoadReserve(start: int, length: nat, written: nat, write: int, watermark: int)
    | CommitStoreWatermark(start: int, length: nat, written: nat, newWrite: int, value: int)
    | CommitStoreWrite(start: int, length: nat, written: nat, newWrite: int)
    | CommitClear
    | CommitDrop

  /** What the consumer does next, with the values it holds in local variables. */
  datatype Consumer =
    | CIdle
    | ReadLoadRead
    | ReadLoadWrite(read: int)
    | ReadLoadWatermark(read: int, write: int)
    | ReadWrap(read: int, write: int, watermark: int)
    | ReadRefuse
    | ReadGranted(start: int, length: int)
    | ReleaseAdd(start: int, length: int, count: int)
    | ReleaseClear
    | ReleaseDrop

  /**
    The shared fields, both sides' program counters, and two histories: every byte ever committed
    by the producer and every byte ever released by the consumer.
  */
  datatype State = State(
    n: nat,
    storage: seq<Byte>,
    read: int,
    write: int,
    reserve: int,
    watermark: int,
    readGranted: bool,
    writeGranted: bool,
    p: Producer,
    c: Consumer,
    committed: seq<Byte>,
    released: seq<Byte>)

  datatype Action =
    // producer
    | CallGrant(length: nat)
    | ProducerStep
    | FillByte(offset: nat, value: Byte)
    | CallCommit(written: nat)
    | DropWriteGrant
    // consumer
    | CallRead
    | ConsumerStep
    | CallRelease(count: nat)
    | DropReadGrant

  predicate ByConsumer(a: Action) {
    a.CallRead? || a.ConsumerStep? || a.CallRelease? || a.DropReadGrant?
  }

  function Slice(s: seq<Byte>, lo: int, hi: int): seq<Byte> {
    if 0 <= lo <= hi <= |s| then s[lo..hi] else []
  }

  function Put(s: seq<Byte>, i: int, b: Byte): seq<Byte> {
    if 0 <= i < |s| then s[i := b] else s
  }

  predicate Initial(s: State) {
    && |s.storage| == s.n <= USIZE_MAX
    && s.read == 0 && s.write == 0 && s.reserve == 0 && s.watermark == s.n
    && !s.readGranted && !s.writeGranted
    && s.p == PIdle && s.c == CIdle
    && s.committed == [] && s.released == []
  }

  /** The bytes committed and not yet released, as the shared indices present them. */
  function Contents(s: State): seq<Byte> {
    if s.read <= s.write then
      Slice(s.storage, s.read, s.write)
    else
      Slice(s.storage, s.read, s.watermark) + Slice(s.storage, 0, s.write)
  }

  /** `write + length` is computed in `usize`; a sum that does not fit stops the program. */
  predicate Enabled(s: State, a: Action) {
    match a
    case CallGrant(_) => s.p.PIdle? || s.p.WriteGranted?
    case ProducerStep =>
      && !s.p.PIdle? && !s.p.WriteGranted?
      && (s.p.GrantLoadWrite? ==> s.write + s.p.length <= USIZE_MAX)
    case FillByte(offset, _) => s.p.WriteGranted? && offset < s.p.length
    case CallCommit(_) => s.p.WriteGranted?
    case DropWriteGrant => s.p.WriteGranted?
    case CallRead => s.c.CIdle? || s.c.ReadGranted?
    case ConsumerStep => !s.c.CIdle? && !s.c.ReadGranted?
    case CallRelease(_) => s.c.ReadGranted?
    case DropReadGrant => s.c.ReadGranted?
  }

  /** The placement decision of `grant`, made from the producer's copies of `read` and `write`. */
  function Place(n: nat, length: nat, read: int, write: int): Producer {
    if write < read then
      if write + length < read then GrantStoreReserve(write, length) else GrantRefuse
    else if write + length <= n then
      GrantStoreReserve(write, length)
    else if length < read then
      GrantStoreReserve(0, length)
    else
      GrantRefuse
  }

  /** What `commit` does about the watermark once it has loaded everything. */
  function Mark(n: nat, p: Producer, newWrite: int): Producer
    requires p.CommitLoadReserve?
  {
    if newWrite < p.write && p.write != n then
      CommitStoreWatermark(p.start, p.length, p.written, newWrite, p.write)
    else if newWrite > p.watermark then
      CommitStoreWatermark(p.start, p.length, p.written, newWrite, n)
    else
      CommitStoreWrite(p.start, p.length, p.written, newWrite)
  }

  /** How many bytes `read` offers, from the consumer's copies of the three indices. */
  function Offer(read: int, write: int, watermark: int): Consumer {
    var length := if write < read then watermark - read else write - read;
    if length == 0 then ReadRefuse else ReadGranted(read, length)
  }

  function ProducerNext(s: State): State
    requires Enabled(s, ProducerStep)
  {
    match s.p
    case GrantLoadRead(length) => s.(p := GrantLoadWrite(length, s.read))
    case GrantLoadWrite(length, read) => s.(p := Place(s.n, length, read, s.write))
    case GrantStoreReserve(start, length) => s.(reserve := start + length, p := WriteGranted(start, length))
    case GrantRefuse => s.(writeGranted := false, p := PIdle)
    case CommitLoadWrite(start, length, written) =>
      s.(p := CommitSubReserve(start, length, written, s.write))
    case CommitSubReserve(start, length, written, write) =>
      s.(reserve := s.reserve - (length - written), p := CommitLoadWatermark(start, length, written, write))
    case CommitLoadWatermark(start, length, written, write) =>
      s.(p := CommitLoadReserve(start, length, written, write, s.watermark))
    case CommitLoadReserve(_, _, _, _, _) => s.(p := Mark(s.n, s.p, s.reserve))
    case CommitStoreWatermark(start, length, written, newWrite, value) =>
      s.(watermark := value, p := CommitStoreWrite(start, length, written, newWrite))
    case CommitStoreWrite(start, length, written, newWrite) =>
      s.(write := newWrite,
         committed := s.committed + Slice(s.storage, start, start + written),
         p := CommitClear)
    case CommitClear => s.(writeGranted := false, p := CommitDrop)
    case CommitDrop => s.(writeGranted := false, p := PIdle)
  }

  function ConsumerNext(s: State): State
    requires Enabled(s, ConsumerStep)
  {
    match s.c
    case ReadLoadRead => s.(c := ReadLoadWrite(s.read))
    case ReadLoadWrite(read) => s.(c := ReadLoadWatermark(read, s.write))
    case ReadLoadWatermark(read, write) =>
      if write < read && read == s.watermark then
        s.(c := ReadWrap(read, write, s.watermark))
      else
        s.(c := Offer(read, write, s.watermark))
    case ReadWrap(read, write, watermark) => s.(read := 0, c := Offer(read, write, watermark))
    case ReadRefuse => s.(readGranted := false, c := CIdle)
    case ReleaseAdd(start, length, count) =>
      s.(read := s.read + count,
         released := s.released + Slice(s.storage, start, start + count),
         c := ReleaseClear)
    case ReleaseClear => s.(readGranted := false, c := ReleaseDrop)
    case ReleaseDrop => s.(readGranted := false, c := CIdle)
  }

  function Apply(s: State, a: Action): State
    requires Enabled(s, a)
  {
    match a
    case CallGrant(length) =>
      if s.writeGranted then s else s.(writeGranted := true, p := GrantLoadRead(length))
    case ProducerStep => ProducerNext(s)
    case FillByte(offset, value) => s.(storage := Put(s.storage, s.p.start + offset, value))
    case CallCommit(written) =>
      s.(p := CommitLoadWrite(s.p.start, s.p.length, Min(written, s.p.length)))
    case DropWriteGrant => s.(writeGranted := false, p := PIdle)
    case CallRead =>
      if s.readGranted then s else s.(readGranted := true, c := ReadLoadRead)
    case ConsumerStep => ConsumerNext(s)
    case CallRelease(count) =>
      s.(c := ReleaseAdd(s.c.start, s.c.length, Min(count, s.c.length)))
    case DropReadGrant => s.(readGranted := false, c := CIdle)
  }

  // ---------------------------------------------------------------------------------------------
  // The invariant
  // ---------------------------------------------------------------------------------------------

  predicate Bounds(s: State) {
    && |s.storage| == s.n <= USIZE_MAX
    && 0 <= s.read <= s.watermark
    && 0 <= s.write <= s.watermark <= s.n
  }

  /** What is still true of a `read` index the producer loaded some time ago. */
  predicate StaleRead(s: State, r: int) {
    if s.write < r then
      r <= s.watermark && (r <= s.read || s.read <= s.write)
    else
      0 <= r <= s.read <= s.write
  }

  /** A reserved region either extends the current upper end or starts a new one below `read`. */
  predicate Reserved(s: State, start: int, length: int) {
    || (start == s.write && start + length <= s.n && (s.write < s.read ==> start + length < s.read))
    || (start == 0 && length < s.read <= s.write)
  }

  predicate ProducerInv(s: State) {
    && (s.writeGranted <==> !s.p.PIdle? && !s.p.CommitDrop?)
    && match s.p
       case GrantLoadWrite(_, r) => StaleRead(s, r)
       case GrantStoreReserve(start, length) => Reserved(s, start, length)
       case WriteGranted(start, length) => Reserved(s, start, length) && s.reserve == start + length
       case CommitLoadWrite(start, length, written) =>
         Reserved(s, start, length) && s.reserve == start + length && written <= length
       case CommitSubReserve(start, length, written, write) =>
         Reserved(s, start, length) && s.reserve == start + length && written <= length && write == s.write
       case CommitLoadWatermark(start, length, written, write) =>
         Reserved(s, start, length) && s.reserve == start + written && written <= length && write == s.write
       case CommitLoadReserve(start, length, written, write, watermark) =>
         && Reserved(s, start, length) && s.reserve == start + written && written <= length
         && write == s.write && watermark == s.watermark
       case CommitStoreWatermark(start, length, written, newWrite, value) =>
         && Reserved(s, start, length) && written <= length && newWrite == start + written
         && s.read <= s.write
         && (if newWrite < s.write then value == s.write && start == 0 else value == s.n && start == s.write)
       case CommitStoreWrite(start, length, written, newWrite) =>
         && Reserved(s, start, length) && written <= length && newWrite == start + written
         && (if newWrite < s.write then s.watermark == s.write && start == 0
             else newWrite <= s.watermark && start == s.write)
       case _ => true
  }

  /** The `length` bytes from `read` on are committed and contiguous. */
  predicate Readable(s: State, length: int) {
    && 0 <= length
    && s.read + length <= if s.read <= s.write then s.write else s.watermark
  }

  predicate ConsumerInv(s: State) {
    && (s.readGranted <==> !s.c.CIdle? && !s.c.ReleaseDrop?)
    && match s.c
       case ReadLoadWrite(r) => r == s.read
       case ReadLoadWatermark(r, w) =>
         r == s.read && (if w < r then 0 <= w <= s.write < s.read else Readable(s, w - r))
       case ReadWrap(r, w, m) => r == s.read == m == s.watermark && s.write < s.read && w < r
       case ReadGranted(start, length) => start == s.read && 0 < length && Readable(s, length)
       case ReleaseAdd(start, length, count) =>
         start == s.read && 0 < length && Readable(s, length) && 0 <= count <= length
       case _ => true
  }

  predicate Fifo(s: State) {
    s.released + Contents(s) == s.committed
  }

  /** The part of the invariant that speaks of indices only. */
  predicate Shape(s: State) {
    Bounds(s) && ProducerInv(s) && ConsumerInv(s)
  }

  predicate Inv(s: State) {
    Shape(s) && Fifo(s)
  }

  /** The bytes of the buffer the producer may be writing. */
  predicate InWriteGrant(s: State, i: int) {
    && (s.p.WriteGranted? || s.p.CommitLoadWrite? || s.p.CommitSubReserve? || s.p.CommitLoadWatermark?
        || s.p.CommitLoadReserve? || s.p.CommitStoreWatermark? || s.p.CommitStoreWrite?)
    && s.p.start <= i < s.p.start + s.p.length
  }

  /** The bytes of the buffer the consumer may be reading. */
  predicate InReadGrant(s: State, i: int) {
    (s.c.ReadGranted? || s.c.ReleaseAdd?) && s.c.start <= i < s.c.start + s.c.length
  }

  predicate IsReadable(s: State, i: int) {
    if s.read <= s.write then s.read <= i < s.write
    else s.read <= i < s.watermark || 0 <= i < s.write
  }

  /** The producer's region is inside the buffer and apart from every byte the consumer can see. */
  ghost predicate Exclusive(s: State) {
    && (forall i | InWriteGrant(s, i) :: 0 <= i < s.n && !IsReadable(s, i) && !InReadGrant(s, i))
    && (forall i | InReadGrant(s, i) :: IsReadable(s, i))
  }

  lemma InvImpliesExclusive(s: State)
    requires Inv(s)
    ensures Exclusive(s)
  {
  }

  /** The bytes a read grant offers are a non-empty prefix of the queue. */
  lemma ReadGrantIsPrefix(s: State)
    requires Inv(s) && s.c.ReadGranted?
    ensures 0 < s.c.length && s.c.start + s.c.length <= s.n
    ensures s.storage[s.c.start..s.c.start + s.c.length] <= Contents(s)
  {
    if s.read <= s.write {
      assert Contents(s)[..s.c.length] == s.storage[s.read..s.read + s.c.length];
    } else {
      assert Contents(s) == s.storage[s.read..s.watermark] + s.storage[0..s.write];
      assert Contents(s)[..s.c.length] == s.storage[s.read..s.read + s.c.length];
    }
  }

  // ---------------------------------------------------------------------------------------------
  // Every action keeps the invariant
  // ---------------------------------------------------------------------------------------------

  /** Filling the grant does not touch the bytes of the queue. */
  lemma FillKeepsContents(s: State, offset: nat, value: Byte)
    requires Shape(s) && Enabled(s, FillByte(offset, value)) && Exclusive(s)
    ensures Contents(Apply(s, FillByte(offset, value))) == Contents(s)
  {
    var t := Apply(s, FillByte(offset, value));
    assert InWriteGrant(s, s.p.start + offset);
    if s.read <= s.write {
      assert Slice(t.storage, s.read, s.write) == Slice(s.storage, s.read, s.write);
    } else {
      assert Slice(t.storage, s.read, s.watermark) == Slice(s.storage, s.read, s.watermark);
      assert Slice(t.storage, 0, s.write) == Slice(s.storage, 0, s.write);
    }
  }

  lemma FillKeepsInv(s: State, offset: nat, value: Byte)
    requires Inv(s) && Enabled(s, FillByte(offset, value))
    ensures Inv(Apply(s, FillByte(offset, value)))
    ensures Contents(Apply(s, FillByte(offset, value))) == Contents(s)
  {
    InvImpliesExclusive(s);
    FillKeepsContents(s, offset, value);
  }

  lemma SliceSplits(bytes: seq<Byte>, lo: nat, mid: nat, hi: nat)
    requires lo <= mid <= hi <= |bytes|
    ensures bytes[lo..hi] == bytes[lo..mid] + bytes[mid..hi]
  {
  }

  lemma AppendAssociates(a: seq<Byte>, b: seq<Byte>, c: seq<Byte>)
    ensures a + (b + c) == (a + b) + c
  {
  }

  /** Publishing `write` appends exactly the bytes of this commit. */
  lemma PublishAppends(s: State)
    requires Shape(s) && s.p.CommitStoreWrite?
    ensures 0 <= s.p.start <= s.p.start + s.p.written <= s.n
    ensures Contents(ProducerNext(s)) == Contents(s) + s.storage[s.p.start..s.p.start + s.p.written]
  {
    if s.p.newWrite < s.write {
      PublishWraps(s);
    } else {
      PublishExtends(s);
    }
  }

  lemma PublishExtends(s: State)
    requires Shape(s) && s.p.CommitStoreWrite? && s.write <= s.p.newWrite
    ensures s.p.newWrite <= s.n && Contents(ProducerNext(s)) == Contents(s) + s.storage[s.write..s.p.newWrite]
  {
    var w := s.p.newWrite;
    if s.read <= s.write {
      SliceSplits(s.storage, s.read, s.write, w);
    } else {
      WrappedGrows(s.storage, s.read, s.watermark, s.write, w);
    }
  }

  lemma PublishWraps(s: State)
    requires Shape(s) && s.p.CommitStoreWrite? && s.p.newWrite < s.write
    ensures Contents(ProducerNext(s)) == Contents(s) + s.storage[0..s.p.newWrite]
  {
  }

  lemma WrappedGrows(bytes: seq<Byte>, read: nat, watermark: nat, write: nat, w: nat)
    requires write <= w <= |bytes| && read <= watermark <= |bytes|
    ensures bytes[read..watermark] + bytes[0..w] == bytes[read..watermark] + bytes[0..write] + bytes[write..w]
  {
    SliceSplits(bytes, 0, write, w);
    AppendAssociates(bytes[read..watermark], bytes[0..write], bytes[write..w]);
  }

  /** Everything a producer action can do to the indices, as the consumer sees it. */
  predicate ProducerMoves(s: State, t: State) {
    && t.c == s.c && t.readGranted == s.readGranted && t.read == s.read && t.n == s.n
    && (if s.write < s.read then s.write <= t.write < t.read && t.watermark == s.watermark
        else s.write <= if t.read <= t.write then t.write else t.watermark)
  }

  /** Everything a consumer action can do to the indices, as the producer sees it. */
  predicate ConsumerMoves(s: State, t: State) {
    && t.p == s.p && t.writeGranted == s.writeGranted && t.n == s.n
    && t.write == s.write && t.watermark == s.watermark && t.reserve == s.reserve
    && (if s.read <= s.write then s.read <= t.read <= t.write else s.read <= t.read <= s.watermark || t.read == 0)
  }

  /** The consumer's stale values survive whatever the producer does. */
  lemma ConsumerRely(s: State, t: State)
    requires Shape(s) && ProducerMoves(s, t)
    ensures ConsumerInv(t)
  {
  }

  /** The producer's stale values survive whatever the consumer does. */
  lemma ProducerRely(s: State, t: State)
    requires Shape(s) && ConsumerMoves(s, t)
    ensures ProducerInv(t)
  {
  }

  lemma ProducerKeepsShape(s: State)
    requires Shape(s) && Enabled(s, ProducerStep)
    ensures Shape(ProducerNext(s)) && ProducerMoves(s, ProducerNext(s))
  {
    var t := ProducerNext(s);
    assert Bounds(t) && ProducerInv(t) && ProducerMoves(s, t) by { ProducerGuarantee(s); }
    ConsumerRely(s, t);
  }

  lemma ProducerGuarantee(s: State)
    requires Bounds(s) && ProducerInv(s) && Enabled(s, ProducerStep)
    ensures Bounds(ProducerNext(s)) && ProducerInv(ProducerNext(s)) && ProducerMoves(s, ProducerNext(s))
  {
    match s.p
    case CommitLoadReserve(_, _, _, _, _) => MarkGuarantee(s);
    case CommitStoreWatermark(_, _, _, _, _) => PublishGuarantee(s);
    case CommitStoreWrite(_, _, _, _) => PublishGuarantee(s);
    case GrantLoadWrite(_, _) => PlaceGuarantee(s);
    case CommitLoadWrite(_, _, _) => LoadGuarantee(s);
    case CommitSubReserve(_, _, _, _) => LoadGuarantee(s);
    case CommitLoadWatermark(_, _, _, _) => LoadGuarantee(s);
    case _ => LocalGuarantee(s);
  }

  lemma LoadGuarantee(s: State)
    requires Bounds(s) && ProducerInv(s) && (s.p.CommitLoadWrite? || s.p.CommitSubReserve? || s.p.CommitLoadWatermark?)
    ensures Bounds(ProducerNext(s)) && ProducerInv(ProducerNext(s)) && ProducerMoves(s, ProducerNext(s))
  {
  }

  lemma LocalGuarantee(s: State)
    requires Bounds(s) && ProducerInv(s)
    requires s.p.GrantLoadRead? || s.p.GrantStoreReserve? || s.p.GrantRefuse? || s.p.CommitClear? || s.p.CommitDrop?
    ensures Bounds(ProducerNext(s)) && ProducerInv(ProducerNext(s)) && ProducerMoves(s, ProducerNext(s))
  {
  }

  /** The region `grant` picks from a stale `read` is safe now and stays safe. */
  lemma PlaceGuarantee(s: State)
    requires Bounds(s) && ProducerInv(s) && s.p.GrantLoadWrite?
    requires Enabled(s, ProducerStep)
    ensures Bounds(ProducerNext(s)) && ProducerInv(ProducerNext(s)) && ProducerMoves(s, ProducerNext(s))
  {
  }

  /** Bytes free in one piece from `write` on: up to the end, or up to the oldest byte once the queue has wrapped. */
  function FreeAhead(n: nat, read: int, write: int): int {
    if write < read then read - write else n - write
  }

  /** Bytes free in one piece at the front; a queue that has wrapped has its newest bytes there. */
  function FreeInFront(read: int, write: int): int {
    if write < read then 0 else read
  }

  /**
    Room for `length` more bytes: in the piece ahead or in the piece in front, with one byte to spare
    wherever the new bytes would otherwise come up to `read`.
  */
  predicate HasRoom(n: nat, read: int, write: int, length: nat) {
    RoomAhead(n, read, write, length) || length <= FreeInFront(read, write) - 1
  }

  predicate RoomAhead(n: nat, read: int, write: int, length: nat) {
    length <= FreeAhead(n, read, write) - (if write < read then 1 else 0)
  }

  /** The bytes that are not readable are the two free pieces, and what a wrapped queue has given up at the end. */
  lemma FreePieces(s: State, i: int)
    requires Bounds(s) && 0 <= i < s.n
    ensures !IsReadable(s, i) <==>
              || s.write <= i < s.write + FreeAhead(s.n, s.read, s.write)
              || i < FreeInFront(s.read, s.write)
              || (s.write < s.read && s.watermark <= i)
  {
  }

  /** `grant` refuses a request if and only if its copies of the indices leave no room for it. */
  lemma GrantRefusesIffNoRoom(s: State)
    requires Bounds(s) && s.p.GrantLoadWrite? && Enabled(s, ProducerStep)
    ensures ProducerNext(s).p.GrantRefuse? <==> !HasRoom(s.n, s.p.read, s.write, s.p.length)
    ensures !ProducerNext(s).p.GrantRefuse? ==> ProducerNext(s).p.GrantStoreReserve?
  {
  }

  /** It takes the piece ahead whenever that has room, and only then the piece in front. */
  lemma GrantPrefersAhead(s: State)
    requires Bounds(s) && s.p.GrantLoadWrite? && Enabled(s, ProducerStep) && ProducerNext(s).p.GrantStoreReserve?
    ensures ProducerNext(s).p.length == s.p.length
    ensures ProducerNext(s).p.start == if RoomAhead(s.n, s.p.read, s.write, s.p.length) then s.write else 0
  {
  }

  /** The byte kept free can cost a request that would fit: eight bytes into eight free ones. */
  lemma OneByteIsKept(s: State)
    requires Bounds(s) && s.n == 16 && s.read == 8 && s.write == 16 && s.p == GrantLoadWrite(8, 8)
    ensures forall i | 0 <= i < 8 :: !IsReadable(s, i)
    ensures ProducerNext(s).p.GrantRefuse?
  {
  }

  /** What the consumer can have done to `read` over any number of its actions. */
  predicate ReadMovesOn(s: State, t: State) {
    if s.read <= s.write then s.read <= t.read <= s.write
    else s.read <= t.read <= s.watermark || 0 <= t.read <= s.write
  }

  /** The consumer only ever makes room. */
  lemma RoomGrows(s: State, t: State, length: nat)
    requires Bounds(s) && ReadMovesOn(s, t) && HasRoom(s.n, s.read, s.write, length)
    ensures HasRoom(s.n, t.read, s.write, length)
    ensures RoomAhead(s.n, s.read, s.write, length) ==> RoomAhead(s.n, t.read, s.write, length)
  {
  }

  lemma GrantHasRoom(s: State)
    requires Bounds(s) && ProducerInv(s) && s.p.WriteGranted?
    ensures HasRoom(s.n, s.read, s.write, s.p.length)
    ensures !RoomAhead(s.n, s.read, s.write, s.p.length) ==> s.p.start == 0
  {
  }

  /** `commit` leaves the watermark such that publishing its `newWrite` is safe. */
  lemma MarkGuarantee(s: State)
    requires Bounds(s) && ProducerInv(s) && s.p.CommitLoadReserve?
    ensures Bounds(ProducerNext(s)) && ProducerInv(ProducerNext(s)) && ProducerMoves(s, ProducerNext(s))
  {
  }

  lemma PublishGuarantee(s: State)
    requires Bounds(s) && ProducerInv(s) && (s.p.CommitStoreWatermark? || s.p.CommitStoreWrite?)
    ensures Bounds(ProducerNext(s)) && ProducerInv(ProducerNext(s)) && ProducerMoves(s, ProducerNext(s))
  {
  }

  lemma PublishKeepsFifo(s: State)
    requires Inv(s) && s.p.CommitStoreWrite?
    ensures Fifo(ProducerNext(s))
  {
    PublishAppends(s);
    AppendAssociates(s.released, Contents(s), s.storage[s.p.start..s.p.start + s.p.written]);
  }

  lemma ProducerKeepsFifo(s: State)
    requires Inv(s) && Enabled(s, ProducerStep)
    ensures Fifo(ProducerNext(s))
    ensures Contents(s) <= Contents(ProducerNext(s))
  {
    if s.p.CommitStoreWrite? {
      PublishKeepsFifo(s);
      PublishAppends(s);
    } else {
      ProducerKeepsContents(s);
    }
  }

  /** Moving the watermark never changes what the queue holds. */
  lemma ProducerKeepsContents(s: State)
    requires Shape(s) && Enabled(s, ProducerStep) && !s.p.CommitStoreWrite?
    ensures Contents(ProducerNext(s)) == Contents(s)
    ensures ProducerNext(s).committed == s.committed && ProducerNext(s).released == s.released
  {
  }

  /** Advancing `read` drops exactly the released bytes from the front. */
  lemma ReleaseDropsPrefix(s: State)
    requires Shape(s) && s.c.ReleaseAdd?
    ensures 0 <= s.c.start <= s.c.start + s.c.count <= s.n
    ensures Contents(s) == s.storage[s.c.start..s.c.start + s.c.count] + Contents(ConsumerNext(s))
  {
    if s.read <= s.write {
      ReleaseUnwrapped(s);
    } else {
      ReleaseWrapped(s);
    }
  }

  lemma ReleaseUnwrapped(s: State)
    requires Shape(s) && s.c.ReleaseAdd? && s.read <= s.write
    ensures Contents(s) == s.storage[s.c.start..s.c.start + s.c.count] + Contents(ConsumerNext(s))
  {
    SliceSplits(s.storage, s.read, s.read + s.c.count, s.write);
  }

  lemma ReleaseWrapped(s: State)
    requires Shape(s) && s.c.ReleaseAdd? && s.write < s.read
    ensures Contents(s) == s.storage[s.c.start..s.c.start + s.c.count] + Contents(ConsumerNext(s))
  {
    WrappedSplits(s.storage, s.read, s.read + s.c.count, s.watermark, s.write);
  }

  lemma WrappedSplits(bytes: seq<Byte>, read: nat, r: nat, watermark: nat, write: nat)
    requires write <= read <= r <= watermark <= |bytes|
    ensures bytes[read..watermark] + bytes[0..write] == bytes[read..r] + (bytes[r..watermark] + bytes[0..write])
  {
    SliceSplits(bytes, read, r, watermark);
    AppendAssociates(bytes[read..r], bytes[r..watermark], bytes[0..write]);
  }

  lemma ConsumerGuarantee(s: State)
    requires Bounds(s) && ConsumerInv(s) && Enabled(s, ConsumerStep)
    ensures Bounds(ConsumerNext(s)) && ConsumerInv(ConsumerNext(s)) && ConsumerMoves(s, ConsumerNext(s))
  {
  }

  lemma ConsumerKeepsShape(s: State)
    requires Shape(s) && Enabled(s, ConsumerStep)
    ensures Shape(ConsumerNext(s)) && ConsumerMoves(s, ConsumerNext(s))
  {
    ConsumerGuarantee(s);
    ProducerRely(s, ConsumerNext(s));
  }

  /** Moving `read` from the watermark to the front never changes what the queue holds. */
  lemma WrapKeepsContents(s: State)
    requires Shape(s) && s.c.ReadWrap?
    ensures Contents(ConsumerNext(s)) == Contents(s)
  {
    assert Contents(s) == [] + s.storage[0..s.write];
  }

  lemma ConsumerKeepsContents(s: State)
    requires Shape(s) && Enabled(s, ConsumerStep) && !s.c.ReleaseAdd?
    ensures Contents(ConsumerNext(s)) == Contents(s)
    ensures ConsumerNext(s).committed == s.committed && ConsumerNext(s).released == s.released
  {
    if s.c.ReadWrap? {
      WrapKeepsContents(s);
    }
  }

  lemma ConsumerKeepsFifo(s: State)
    requires Inv(s) && Enabled(s, ConsumerStep)
    ensures Fifo(ConsumerNext(s))
  {
    var t := ConsumerNext(s);
    if s.c.ReleaseAdd? {
      ReleaseDropsPrefix(s);
      AppendAssociates(s.released, s.storage[s.c.start..s.c.start + s.c.count], Contents(t));
    } else {
      ConsumerKeepsContents(s);
    }
  }

  lemma CallKeepsInv(s: State, a: Action)
    requires Inv(s) && Enabled(s, a) && !a.ProducerStep? && !a.ConsumerStep? && !a.FillByte?
    ensures Inv(Apply(s, a))
    ensures Contents(Apply(s, a)) == Contents(s)
  {
    var t := Apply(s, a);
    if ByConsumer(a) {
      ProducerRely(s, t);
      assert ConsumerInv(t);
    } else {
      ConsumerRely(s, t);
      assert ProducerInv(t);
    }
  }

  lemma StepKeepsInv(s: State, a: Action)
    requires Inv(s) && Enabled(s, a)
    ensures Inv(Apply(s, a))
  {
    match a
    case ProducerStep => ProducerKeepsShape(s); ProducerKeepsFifo(s);
    case ConsumerStep => ConsumerKeepsShape(s); ConsumerKeepsFifo(s);
    case FillByte(offset, value) => FillKeepsInv(s, offset, value);
    case _ => CallKeepsInv(s, a);
  }

  // ---------------------------------------------------------------------------------------------
  // Whole runs
  // ---------------------------------------------------------------------------------------------

  /** `actions` leads from `s` to `t`, each action being enabled when it is taken. */
  predicate Run(s: State, actions: seq<Action>, t: State)
    decreases |actions|
  {
    if actions == [] then s == t
    else Enabled(s, actions[0]) && Run(Apply(s, actions[0]), actions[1..], t)
  }

  lemma {:induction false} RunKeepsInv(s: State, actions: seq<Action>, t: State)
    requires Inv(s) && Run(s, actions, t)
    ensures Inv(t)
    decreases |actions|
  {
    if actions != [] {
      StepKeepsInv(s, actions[0]);
      RunKeepsInv(Apply(s, actions[0]), actions[1..], t);
    }
  }

  lemma {:induction false} RunTransitive(s: State, first: seq<Action>, t: State, second: seq<Action>, u: State)
    requires Run(s, first, t) && Run(t, second, u)
    ensures Run(s, first + second, u)
    decreases |first|
  {
    if first == [] {
      assert first + second == second;
    } else {
      RunTransitive(Apply(s, first[0]), first[1..], t, second, u);
      assert (first + second)[1..] == first[1..] + second;
    }
  }

  /**
    The queue is a FIFO under every interleaving: what has been released, followed by what the
    indices present, is exactly what has been committed. The indices stay in order, and the region
    the producer writes never meets a byte the consumer may look at.
  */
  lemma FifoUnderEveryInterleaving(s: State, actions: seq<Action>, t: State)
    requires Initial(s) && Run(s, actions, t)
    ensures t.released + Contents(t) == t.committed
    ensures 0 <= t.read <= t.watermark && 0 <= t.write <= t.watermark <= t.n
    ensures Exclusive(t)
  {
    RunKeepsInv(s, actions, t);
    InvImpliesExclusive(t);
  }

  /** While a read grant is out, the bytes it shows do not change. */
  lemma ReadGrantIsStable(s: State, a: Action)
    requires Inv(s) && Enabled(s, a) && (s.c.ReadGranted? || s.c.ReleaseAdd?)
    ensures var t := Apply(s, a);
            Slice(t.storage, s.c.start, s.c.start + s.c.length) == Slice(s.storage, s.c.start, s.c.start + s.c.length)
  {
    InvImpliesExclusive(s);
    if a.FillByte? {
      var t := Apply(s, a);
      var at := s.p.start + a.offset;
      assert InWriteGrant(s, at) && !InReadGrant(s, at);
      forall i | s.c.start <= i < s.c.start + s.c.length
        ensures t.storage[i] == s.storage[i]
      {
        assert InReadGrant(s, i);
      }
    }
  }

  // ---------------------------------------------------------------------------------------------
  // Progress of the consumer
  // ---------------------------------------------------------------------------------------------

  function ConsumerActions(actions: seq<Action>): nat {
    if actions == [] then 0
    else (if ByConsumer(actions[0]) then 1 else 0) + ConsumerActions(actions[1..])
  }

  /** The action that reports `NoBytes`. */
  predicate Refuses(s: State, a: Action) {
    a.ConsumerStep? && s.c.ReadRefuse?
  }

  /** How many times `read` reports `NoBytes` along the run. */
  function NoBytesReports(s: State, actions: seq<Action>, t: State): nat
    requires Run(s, actions, t)
    decreases |actions|
  {
    if actions == [] then 0
    else (if Refuses(s, actions[0]) then 1 else 0)
         + NoBytesReports(Apply(s, actions[0]), actions[1..], t)
  }

  predicate NeverGranted(s: State, actions: seq<Action>, t: State)
    requires Run(s, actions, t)
    decreases |actions|
  {
    && !s.c.ReadGranted?
    && (actions != [] ==> NeverGranted(Apply(s, actions[0]), actions[1..], t))
  }

  /** Bytes remain, and the call under way cannot miss them except by moving `read` to the front. */
  predicate FirstCall(s: State) {
    && Contents(s) != []
    && match s.c
       case ReadLoadWatermark(r, w) => w != r
       case ReadRefuse => s.read == 0 < s.write
       case CIdle | ReadLoadRead | ReadLoadWrite(_) | ReadWrap(_, _, _) => true
       case _ => false
  }

  /** `read` is at the front with bytes above it, and the call under way must see them. */
  predicate SecondCall(s: State) {
    && s.read == 0 < s.write
    && match s.c
       case ReadLoadWatermark(_, w) => 0 < w
       case CIdle | ReadLoadRead | ReadLoadWrite(_) => true
       case _ => false
  }

  /** Consumer actions that can still pass, at most, without a grant being given. */
  function Patience(s: State, second: bool): nat {
    match s.c
    case CIdle => if second then 3 else 9
    case ReadLoadRead => if second then 2 else 8
    case ReadLoadWrite(_) => if second then 1 else 7
    case ReadLoadWatermark(_, _) => if second then 0 else 6
    case ReadWrap(_, _, _) => 5
    case ReadRefuse => 4
    case _ => 0
  }

  /** The bytes that can be read in one piece from `read` on. */
  function InOnePiece(s: State): int {
    if s.read <= s.write then s.write - s.read else s.watermark - s.read
  }

  /** What is read in one piece ends where nothing is readable, or at the end of the buffer. */
  lemma PieceEnds(s: State)
    requires Bounds(s)
    ensures forall i | s.read <= i < s.read + InOnePiece(s) :: IsReadable(s, i)
    ensures !IsReadable(s, s.read + InOnePiece(s))
  {
  }

  /** With nothing published since `write` was loaded, `read` shows all there is in one piece. */
  lemma ReadShowsWholePiece(s: State)
    requires Inv(s) && s.c.ReadLoadWatermark? && s.c.write == s.write && ConsumerNext(s).c.ReadGranted?
    ensures ConsumerNext(s).c == ReadGranted(s.read, InOnePiece(s))
  {
  }

  /** The call of `read` under way, if it shows bytes, will show at least `count`. */
  predicate Offers(s: State, count: int) {
    match s.c
    case CIdle | ReadLoadRead | ReadLoadWrite(_) => count <= InOnePiece(s)
    case ReadLoadWatermark(r, w) => count <= if w < r then InOnePiece(s) else w - r
    case ReadWrap(_, _, _) | ReadRefuse => count <= 0
    case ReadGranted(_, length) => count <= length
    case _ => false
  }

  lemma ReadOffers(s: State, a: Action, count: int)
    requires Inv(s) && Enabled(s, a) && (a.CallRead? || a.ConsumerStep?) && !s.c.ReadRefuse? && Offers(s, count)
    ensures Offers(Apply(s, a), count)
  {
  }

  lemma ProducerKeepsOffers(s: State, a: Action, count: int)
    requires Inv(s) && Enabled(s, a) && !ByConsumer(a) && Offers(s, count)
    ensures Offers(Apply(s, a), count)
  {
    if a.ProducerStep? {
      ProducerGuarantee(s);
    }
  }

  lemma ProducerKeepsBytes(s: State, a: Action)
    requires Inv(s) && Enabled(s, a) && !ByConsumer(a)
    ensures Contents(s) <= Contents(Apply(s, a))
    ensures s.read == 0 < s.write ==> Apply(s, a).read == 0 < Apply(s, a).write
    ensures Apply(s, a).c == s.c
  {
    match a
    case ProducerStep => ProducerKeepsFifo(s);
    case FillByte(offset, value) => FillKeepsInv(s, offset, value);
    case _ => CallKeepsInv(s, a);
  }

  lemma FirstCallStep(s: State, a: Action)
    requires Inv(s) && FirstCall(s) && Enabled(s, a)
    requires !Apply(s, a).c.ReadGranted?
    ensures if Refuses(s, a) then SecondCall(Apply(s, a)) else FirstCall(Apply(s, a))
    ensures ByConsumer(a) ==> Patience(Apply(s, a), Refuses(s, a)) < Patience(s, false)
  {
    if ByConsumer(a) {
      if a.ConsumerStep? {
        ConsumerKeepsContents(s);
      } else {
        CallKeepsInv(s, a);
      }
    } else {
      ProducerKeepsBytes(s, a);
    }
  }

  lemma SecondCallStep(s: State, a: Action)
    requires Inv(s) && SecondCall(s) && Enabled(s, a)
    requires !Apply(s, a).c.ReadGranted?
    ensures SecondCall(Apply(s, a))
    ensures ByConsumer(a) ==> Patience(Apply(s, a), true) < Patience(s, true)
  {
    if !ByConsumer(a) {
      ProducerKeepsBytes(s, a);
    }
  }

  /** The consumer has yet to see the bytes, in its first call or its second. */
  ghost predicate Waits(s: State, second: bool) {
    forall u | u == s :: Inv(u) && if second then SecondCall(u) else FirstCall(u)
  }

  lemma WaitsOn(s: State, a: Action, second: bool)
    requires Waits(s, second) && Enabled(s, a) && !Apply(s, a).c.ReadGranted?
    ensures Waits(Apply(s, a), second || Refuses(s, a)) && (second ==> !Refuses(s, a))
    ensures Patience(Apply(s, a), second || Refuses(s, a)) + (if ByConsumer(a) then 1 else 0) <= Patience(s, second)
  {
    StepKeepsInv(s, a);
    if !ByConsumer(a) {
      ProducerKeepsBytes(s, a);
    }
    if second {
      SecondCallStep(s, a);
    } else {
      FirstCallStep(s, a);
    }
  }

  lemma {:induction false} PatienceRunsOut(s: State, actions: seq<Action>, t: State, second: bool)
    requires Waits(s, second)
    requires Run(s, actions, t) && NeverGranted(s, actions, t)
    ensures ConsumerActions(actions) <= Patience(s, second)
    ensures NoBytesReports(s, actions, t) <= if second then 0 else 1
    decreases |actions|
  {
    if actions != [] {
      var a := actions[0];
      WaitsOn(s, a, second);
      PatienceRunsOut(Apply(s, a), actions[1..], t, second || Refuses(s, a));
    }
  }

  /**
    Two calls of `read` are enough. Start anywhere with bytes queued and the consumer between calls,
    let the producer do anything meanwhile: as long as no grant has been given, `NoBytes` has been
    reported at most once, and the consumer has taken fewer than the ten atomic accesses that two
    calls need. (By `ReadGrantIsPrefix` the grant then shows a non-empty prefix of the queue.)
  */
  lemma TwoReadsSuffice(s: State, actions: seq<Action>, t: State)
    requires Inv(s) && s.c.CIdle? && Contents(s) != []
    requires Run(s, actions, t) && NeverGranted(s, actions, t)
    ensures NoBytesReports(s, actions, t) <= 1
    ensures ConsumerActions(actions) < 10
  {
    PatienceRunsOut(s, actions, t, false);
  }
}
