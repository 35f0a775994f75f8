/** The invariant of the sub-queue: where every element is and why every consumer finds it. */
module SubQueueProof {
  import opened Arithmetic
  import opened Wrappers
  import opened SubQueueMachine
  import TM = TicketMachine
  import TP = TicketProof

  /**
   Bookkeeping the program does not have. `blockOf[q]` is the block that holds, or held, the indices
   q * BLOCK_SIZE and up; `log` the elements in the order they were enqueued; `emptied` the indices
   whose flag a consumer has set. For every block index: `origins` is the block number in slot 0 when
   it was made, `tops` the number of the first block it does not list yet.
   */
  datatype Aux = Aux(blockOf: seq<Block>, log: seq<Element>, emptied: set<nat>, origins: seq<nat>, tops: seq<nat>)

  /** The number of the oldest block that is in the ring. */
  function Lo(slotsUsed: nat, blockOf: seq<Block>): nat {
    if slotsUsed <= |blockOf| then |blockOf| - slotsUsed else 0
  }

  /** The slot of block number q in a table of the given size and origin. */
  function SlotOf(q: int, origin: int, size: nat): nat
    requires size > 0
  {
    (q - origin) % size
  }

  /** The successor of the i-th block in the circular list. */
  predicate Follows(next: map<Block, Block>, blockOf: seq<Block>, lo: nat, i: nat)
    requires lo <= i < |blockOf|
  {
    NextOf(next, blockOf[i]) == if i == |blockOf| - 1 then blockOf[lo] else blockOf[i + 1]
  }

  predicate RingOk(next: map<Block, Block>, blocks: set<Block>, tailBlock: Option<Block>, slotsUsed: nat, blockOf: seq<Block>) {
    var n, lo := |blockOf|, Lo(slotsUsed, blockOf);
    && slotsUsed <= n && (n > 0 ==> slotsUsed > 0)
    && tailBlock == (if n == 0 then None else Some(blockOf[n - 1]))
    && (forall i, j | lo <= i < j < n :: blockOf[i] != blockOf[j])
    && (forall i | lo <= i < n :: blockOf[i] in blocks)
    && (forall i | lo <= i < n :: Follows(next, blockOf, lo, i))
  }

  predicate FlagsOk(flags: map<(Block, nat), bool>, blockOf: seq<Block>, lo: nat, emptied: set<nat>) {
    forall k {:trigger k in emptied} | lo * BLOCK_SIZE <= k < |blockOf| * BLOCK_SIZE ::
      Flag(flags, blockOf[k / BLOCK_SIZE], k) <==> k in emptied
  }

  predicate EmptiedOk(emptied: set<nat>, lo: nat, head: nat) {
    && (forall k | 0 <= k < lo * BLOCK_SIZE :: k in emptied)
    && (forall k <- emptied :: k < head)
  }

  predicate HasElement(cells: map<(Block, nat), Element>, b: Block, k: nat, e: Element) {
    (b, k % BLOCK_SIZE) in cells && cells[(b, k % BLOCK_SIZE)] == e
  }

  predicate CellsOk(cells: map<(Block, nat), Element>, blockOf: seq<Block>, log: seq<Element>, emptied: set<nat>) {
    && |log| <= |blockOf| * BLOCK_SIZE
    && forall k | 0 <= k < |log| && k !in emptied :: HasElement(cells, blockOf[k / BLOCK_SIZE], k, log[k])
  }

  predicate SizeOk(size: nat) {
    IsPowerOfTwo(size) && size <= LARGEST_INDEX
  }

  predicate HeaderOk(h: Header, origin: nat, top: nat, blockOf: seq<Block>, lo: nat) {
    && SizeOk(h.size) && h.size > 0 && |h.entries| == h.size
    && origin <= lo && origin <= top <= |blockOf| && top <= lo + h.size
    && (origin < top ==> h.front == SlotOf(top - 1, origin, h.size))
    && (forall q | lo <= q < top :: h.entries[SlotOf(q, origin, h.size)] == Entry(q * BLOCK_SIZE, blockOf[q]))
  }

  predicate HeadersOk(headers: seq<Header>, x: Aux, lo: nat) {
    && |headers| == |x.origins| == |x.tops|
    && forall i | 0 <= i < |headers| :: HeaderOk(headers[i], x.origins[i], x.tops[i], x.blockOf, lo)
  }

  /** A block has been added to the ring but is not in the index yet. */
  predicate Unlisted(p: Producer) {
    p.PStoreBase? || p.PStoreBlock? || p.PStoreFront?
  }

  predicate CurrentOk(s: State, x: Aux) {
    && SizeOk(s.indexSize) && s.indexSize > 0 && s.slotsUsed <= s.indexSize
    && |s.headers| == |x.origins| == |x.tops|
    && if s.headers == [] then x.blockOf == []
       else
         var i := |s.headers| - 1;
         && s.headers[i].size == s.indexSize
         && x.tops[i] == |x.blockOf| - (if Unlisted(s.producer) then 1 else 0)
         && s.indexFront == SlotOf(x.tops[i], x.origins[i], s.indexSize)
  }

  predicate ProducerOk(s: State, x: Aux) {
    var tail, n := s.tickets.tail, |x.blockOf|;
    match s.producer
    case PIdle => n == (tail + BLOCK_SIZE - 1) / BLOCK_SIZE
    case PStart(_) => n == (tail + BLOCK_SIZE - 1) / BLOCK_SIZE
    case PCheckNext(_) => tail == n * BLOCK_SIZE
    case PLoadHead(_) => tail == n * BLOCK_SIZE
    case PGrow(_) => tail == n * BLOCK_SIZE && IndexIsFull(s)
    case PAlloc(_) => tail == n * BLOCK_SIZE && !IndexIsFull(s)
    case PStoreBase(_) => n > 0 && tail == (n - 1) * BLOCK_SIZE && IndexOk(s)
    case PStoreBlock(_) => n > 0 && tail == (n - 1) * BLOCK_SIZE && IndexOk(s) && FrontEntry(s).base == tail
    case PStoreFront(_) => n > 0 && tail == (n - 1) * BLOCK_SIZE && IndexOk(s) && FrontEntry(s) == Entry(tail, x.blockOf[n - 1])
    case PWriteCell(_) => n == tail / BLOCK_SIZE + 1
    case PStoreTail(e) => n == tail / BLOCK_SIZE + 1 && HasElement(s.cells, x.blockOf[n - 1], tail, e)
    case PCrash => false
  }

  predicate Unemptied(emptied: set<nat>, from: nat, to: nat) {
    forall k | from <= k < to :: k !in emptied
  }

  function EndOf(first: nat, count: nat, index: nat): nat {
    TM.Min(first + count, index - index % BLOCK_SIZE + BLOCK_SIZE)
  }

  /** Everything in the claim is listed in the block index the consumer uses. */
  predicate Listed(headers: seq<Header>, x: Aux, hdr: nat, first: nat, count: nat) {
    && hdr < |headers| == |x.tops| == |x.origins| && headers[hdr].size > 0
    && first + count <= x.tops[hdr] * BLOCK_SIZE
  }

  predicate IsSlotOf(slot: nat, q: int, origin: int, size: nat) {
    size > 0 && slot == SlotOf(q, origin, size)
  }

  predicate ConsumerOk(headers: seq<Header>, x: Aux, c: Consumer) {
    match c
    case CIdle => true
    case CLoadHeader(first, count) =>
      count > 0 && first + count <= |x.log| && Unemptied(x.emptied, first, first + count)
    case CLoadFront(first, count, hdr) =>
      count > 0 && first + count <= |x.log| && Unemptied(x.emptied, first, first + count)
      && Listed(headers, x, hdr, first, count)
    case CLoadBase(first, count, hdr, front) =>
      count > 0 && first + count <= |x.log| && Unemptied(x.emptied, first, first + count)
      && Listed(headers, x, hdr, first, count)
      && exists q | first / BLOCK_SIZE <= q < x.tops[hdr] :: IsSlotOf(front, q, x.origins[hdr], headers[hdr].size)
    case CLoadBlock(first, count, hdr, slot, index, got) =>
      first <= index < first + count <= |x.log| && Unemptied(x.emptied, index, first + count)
      && Listed(headers, x, hdr, first, count) && got == x.log[first..index]
      && IsSlotOf(slot, index / BLOCK_SIZE, x.origins[hdr], headers[hdr].size)
    case CReadCell(first, count, hdr, slot, start, block, index, got) =>
      first <= start <= index < EndOf(first, count, start) && first + count <= |x.log| <= |x.blockOf| * BLOCK_SIZE
      && Unemptied(x.emptied, start, first + count)
      && Listed(headers, x, hdr, first, count) && got == x.log[first..index]
      && IsSlotOf(slot, start / BLOCK_SIZE, x.origins[hdr], headers[hdr].size)
      && block == x.blockOf[start / BLOCK_SIZE]
    case CSetFlag(first, count, hdr, slot, start, block, end, k, got) =>
      first <= start <= k < end == EndOf(first, count, start) && first + count <= |x.log| <= |x.blockOf| * BLOCK_SIZE
      && Unemptied(x.emptied, start, k + 1) && Unemptied(x.emptied, end, first + count)
      && Listed(headers, x, hdr, first, count) && got == x.log[first..end]
      && IsSlotOf(slot, start / BLOCK_SIZE, x.origins[hdr], headers[hdr].size)
      && block == x.blockOf[start / BLOCK_SIZE]
    case CDone(first, count, got) => first + count <= |x.log| && got == x.log[first..first + count]
    case CCrash => false
  }

  predicate ConsumersOk(headers: seq<Header>, x: Aux, consumers: seq<Consumer>) {
    forall t | 0 <= t < |consumers| :: ConsumerOk(headers, x, consumers[t])
  }

  /** The indices a consumer works on are the ones the ticket protocol gave it. */
  predicate Matches(pc: TM.PC, c: Consumer) {
    match c
    case CIdle => !pc.Holding?
    case CCrash => false
    case _ => pc == TM.Holding(c.first, c.count)
  }

  predicate LinksOk(pcs: seq<TM.PC>, consumers: seq<Consumer>) {
    |pcs| == |consumers| && forall t | 0 <= t < |pcs| :: Matches(pcs[t], consumers[t])
  }

  /** The blocks, the index and the producer. */
  predicate MemoryOk(s: State, x: Aux) {
    var lo := Lo(s.slotsUsed, x.blockOf);
    && |x.log| == s.tickets.tail
    && RingOk(s.next, s.blocks, s.tailBlock, s.slotsUsed, x.blockOf)
    && FlagsOk(s.emptyFlags, x.blockOf, lo, x.emptied)
    && EmptiedOk(x.emptied, lo, s.tickets.head)
    && CellsOk(s.cells, x.blockOf, x.log, x.emptied)
    && HeadersOk(s.headers, x, lo)
    && CurrentOk(s, x)
    && ProducerOk(s, x)
  }

  predicate Inv(s: State, x: Aux, tx: TP.Aux) {
    && TP.Inv(s.tickets, tx)
    && MemoryOk(s, x)
    && ConsumersOk(s.headers, x, s.consumers)
    && LinksOk(s.tickets.pcs, s.consumers)
  }

  // ---------------------------------------------------------------------------------------------
  // Arithmetic of the circular index
  // ---------------------------------------------------------------------------------------------

  lemma {:induction false} PowersDivide(a: nat, b: nat)
    requires IsPowerOfTwo(a) && IsPowerOfTwo(b) && a <= b
    ensures b % a == 0
  {
    if a > 1 {
      PowersDivide(a / 2, b / 2);
      var m := b / 2 / (a / 2);
      assert b / 2 == m * (a / 2);
      ModIsZero(b, a, m);
    }
  }

  lemma ModIsZero(b: nat, a: nat, m: nat)
    requires a > 0 && b == m * a
    ensures b % a == 0
  {
    DivModUnique(b, a, m, 0);
  }

  lemma ModShift(x: int, size: nat, k: int)
    requires size > 0
    ensures (x + k * size) % size == x % size
  {
    var q := x / size;
    assert x == q * size + x % size;
    assert x + k * size == (q + k) * size + x % size;
    DivModUnique(x + k * size, size, q + k, x % size);
  }

  /** Two block numbers less than the size apart have different slots. */
  lemma SlotsDiffer(p: int, q: int, origin: int, size: nat)
    requires size > 0 && p < q < p + size
    ensures SlotOf(p, origin, size) != SlotOf(q, origin, size)
  {
    var k := (q - origin) / size - (p - origin) / size;
    NotMultiple(q - p, size, k);
    assert (q - origin) / size * size - (p - origin) / size * size == k * size;
  }

  lemma NotMultiple(x: int, size: nat, k: int)
    requires 0 < x < size
    ensures x != k * size
  {
    MulAtLeast(k, size);
  }

  lemma NextSlot(q: int, origin: int, size: nat)
    requires size > 0
    ensures (SlotOf(q, origin, size) + 1) % size == SlotOf(q + 1, origin, size)
  {
    SlotPlus(q, origin, size, 1);
  }

  lemma SlotPlus(q: int, origin: int, size: nat, d: int)
    requires size > 0
    ensures (SlotOf(q, origin, size) + d) % size == SlotOf(q + d, origin, size)
  {
    var a := (q - origin) / size;
    assert q + d - origin == SlotOf(q, origin, size) + d + a * size;
    ModShift(SlotOf(q, origin, size) + d, size, a);
  }

  lemma {:induction false} PowerProduct(x: nat, k: nat)
    requires IsPowerOfTwo(x) && IsPowerOfTwo(k)
    ensures IsPowerOfTwo(x * k)
  {
    if k > 1 {
      PowerProduct(x, k / 2);
      assert x * k == 2 * (x * (k / 2));
    }
  }

  lemma LargestIndexIsPower()
    ensures IsPowerOfTwo(LARGEST_INDEX)
  {
    assert IsPowerOfTwo(0x400) && IsPowerOfTwo(0x200);
    PowerProduct(0x400, 0x400);
    PowerProduct(0x10_0000, 0x10_0000);
    PowerProduct(0x100_0000_0000, 0x400);
    PowerProduct(0x4_0000_0000_0000, 0x200);
  }

  /** The unsigned quotient of line 1943, for a block `d` before the front one. */
  lemma UnsignedOffset(p: nat, q: nat)
    requires p <= q < p + LARGEST_INDEX
    ensures TM.WordSub(TM.Word(p * BLOCK_SIZE), TM.Word(q * BLOCK_SIZE)) / BLOCK_SIZE
            == if p == q then 0 else LARGEST_INDEX - (q - p)
  {
    TP.WordSubIsWord(p * BLOCK_SIZE, q * BLOCK_SIZE);
  }

  /**
   The lookup of lines 1941 to 1944 finds the slot of the block that holds the index, from any front
   slot whose block is not older, although the quotient is taken in an unsigned type.
   */
  lemma LookupFindsSlot(index: nat, q: nat, front: nat, origin: nat, size: nat)
    requires SizeOk(size) && size > 0 && front == SlotOf(q, origin, size)
    requires index / BLOCK_SIZE <= q < index / BLOCK_SIZE + size
    ensures SlotFor(index, q * BLOCK_SIZE, front, size) == SlotOf(index / BLOCK_SIZE, origin, size)
  {
    var p := index / BLOCK_SIZE;
    FrontPlusOffset(index, q, front, size);
    if p < q {
      LargestIsMultiple(size, front + p - q);
    }
    SlotPlus(q, origin, size, p - q);
  }

  lemma FrontPlusOffset(index: nat, q: nat, front: nat, size: nat)
    requires front < size <= LARGEST_INDEX && index / BLOCK_SIZE <= q < index / BLOCK_SIZE + size
    ensures SlotFor(index, q * BLOCK_SIZE, front, size)
            == (if index / BLOCK_SIZE == q then front else front + index / BLOCK_SIZE - q + LARGEST_INDEX) % size
  {
    var p := index / BLOCK_SIZE;
    assert index - index % BLOCK_SIZE == p * BLOCK_SIZE;
    UnsignedOffset(p, q);
    SmallWord(if p == q then front else front + p - q + LARGEST_INDEX);
  }

  lemma SmallWord(x: nat)
    requires x < TM.WORDS
    ensures TM.Word(x) == x
  {
  }

  lemma LargestIsMultiple(size: nat, x: int)
    requires SizeOk(size) && size > 0
    ensures (x + LARGEST_INDEX) % size == x % size
  {
    LargestIndexIsPower();
    PowersDivide(size, LARGEST_INDEX);
    ModShift(x, size, LARGEST_INDEX / size);
  }

  lemma EndIsMin(first: nat, count: nat, index: nat)
    requires first <= index < first + count && count < TM.HALF
    ensures EndInBlock(first, count, index) == EndOf(first, count, index)
  {
    var blockEnd := index - index % BLOCK_SIZE + BLOCK_SIZE;
    TP.WordSubIsWord(first + count, blockEnd);
    var d := first + count - blockEnd;
    assert TM.Word(d) == if d >= 0 then d else d + TM.WORDS;
  }

  // ---------------------------------------------------------------------------------------------
  // Consumers
  // ---------------------------------------------------------------------------------------------

  function NextAux(s: State, x: Aux, a: Action): Aux
    requires Enabled(s, a)
  {
    match a
    case Enqueue(_) => x
    case Dequeue(_, _) => x
    case Consume(t) =>
      if s.consumers[t].CSetFlag? then x.(emptied := x.emptied + {s.consumers[t].k}) else x
    case Produce(seenEmpty, memory, spare) =>
      match s.producer
      case PCheckNext(_) =>
        if seenEmpty && s.tailBlock.Some? then x.(blockOf := x.blockOf + [NextOf(s.next, s.tailBlock.value)]) else x
      case PGrow(_) =>
        if memory then x.(origins := x.origins + [Lo(s.slotsUsed, x.blockOf)], tops := x.tops + [|x.blockOf|]) else x
      case PAlloc(_) => if memory then x.(blockOf := x.blockOf + [spare]) else x
      case PStoreFront(_) => if x.tops == [] then x else x.(tops := x.tops[|x.tops| - 1 := |x.blockOf|])
      case PStoreTail(e) => x.(log := x.log + [e])
      case _ => x
  }

  function NextTickets(s: State, tx: TP.Aux, a: Action): TP.Aux
    requires Enabled(s, a)
  {
    match a
    case Enqueue(_) => tx
    case Dequeue(t, max) => TP.NextAux(s.tickets, tx, TM.Call(t, max))
    case Consume(t) => if s.consumers[t].CIdle? then TP.NextAux(s.tickets, tx, TM.Run(t)) else tx
    case Produce(_, _, _) => tx
  }

  lemma LoadHeaderOk(s: State, x: Aux, c: Consumer)
    requires c.CLoadHeader? && ConsumerOk(s.headers, x, c)
    requires CurrentOk(s, x) && ProducerOk(s, x) && |x.log| == s.tickets.tail <= |x.blockOf| * BLOCK_SIZE
    ensures ConsumerOk(s.headers, x, NextConsumer(s, c))
  {
  }

  /** An index that is still to be read lies in a block that is in the ring. */
  lemma LiveBlock(emptied: set<nat>, lo: nat, head: nat, k: nat)
    requires EmptiedOk(emptied, lo, head) && k !in emptied
    ensures lo <= k / BLOCK_SIZE
  {
  }

  lemma LoadFrontOk(s: State, x: Aux, c: Consumer, lo: nat, head: nat)
    requires c.CLoadFront? && ConsumerOk(s.headers, x, c) && EmptiedOk(x.emptied, lo, head)
    requires HeaderOk(s.headers[c.hdr], x.origins[c.hdr], x.tops[c.hdr], x.blockOf, lo)
    ensures ConsumerOk(s.headers, x, NextConsumer(s, c))
  {
    LiveBlock(x.emptied, lo, head, c.first);
    var q := x.tops[c.hdr] - 1;
    assert IsSlotOf(s.headers[c.hdr].front, q, x.origins[c.hdr], s.headers[c.hdr].size);
  }

  lemma LoadBaseOk(s: State, x: Aux, c: Consumer, lo: nat, head: nat)
    requires c.CLoadBase? && ConsumerOk(s.headers, x, c) && EmptiedOk(x.emptied, lo, head)
    requires HeaderOk(s.headers[c.hdr], x.origins[c.hdr], x.tops[c.hdr], x.blockOf, lo)
    ensures ConsumerOk(s.headers, x, NextConsumer(s, c))
  {
    LiveBlock(x.emptied, lo, head, c.first);
    var h, origin := s.headers[c.hdr], x.origins[c.hdr];
    var q :| c.first / BLOCK_SIZE <= q < x.tops[c.hdr] && IsSlotOf(c.front, q, origin, h.size);
    assert h.entries[SlotOf(q, origin, h.size)] == Entry(q * BLOCK_SIZE, x.blockOf[q]);
    LookupFindsSlot(c.first, q, c.front, origin, h.size);
  }

  lemma LoadBlockOk(s: State, x: Aux, c: Consumer, lo: nat, head: nat)
    requires c.CLoadBlock? && ConsumerOk(s.headers, x, c) && EmptiedOk(x.emptied, lo, head)
    requires HeaderOk(s.headers[c.hdr], x.origins[c.hdr], x.tops[c.hdr], x.blockOf, lo)
    requires |x.log| <= |x.blockOf| * BLOCK_SIZE
    ensures ConsumerOk(s.headers, x, NextConsumer(s, c))
  {
    LiveBlock(x.emptied, lo, head, c.index);
    var q := c.index / BLOCK_SIZE;
    assert s.headers[c.hdr].entries[SlotOf(q, x.origins[c.hdr], s.headers[c.hdr].size)] == Entry(q * BLOCK_SIZE, x.blockOf[q]);
  }

  lemma ReadCellOk(s: State, x: Aux, c: Consumer)
    requires c.CReadCell? && ConsumerOk(s.headers, x, c) && c.count < TM.HALF
    requires CellsOk(s.cells, x.blockOf, x.log, x.emptied)
    ensures ConsumerOk(s.headers, x, NextConsumer(s, c))
  {
    EndIsMin(c.first, c.count, c.start);
    assert c.index / BLOCK_SIZE == c.start / BLOCK_SIZE;
    assert HasElement(s.cells, x.blockOf[c.index / BLOCK_SIZE], c.index, x.log[c.index]);
    assert x.log[c.first..c.index + 1] == x.log[c.first..c.index] + [x.log[c.index]];
  }

  lemma SetFlagOk(s: State, x: Aux, c: Consumer)
    requires c.CSetFlag? && ConsumerOk(s.headers, x, c)
    ensures ConsumerOk(s.headers, x.(emptied := x.emptied + {c.k}), NextConsumer(s, c))
  {
    if c.k == c.start && c.end != c.first + c.count {
      NextSlot(c.start / BLOCK_SIZE, x.origins[c.hdr], s.headers[c.hdr].size);
      assert c.end / BLOCK_SIZE == c.start / BLOCK_SIZE + 1;
    }
  }

  /** Every load of a consumer gives it what it needs for the next one. */
  lemma ConsumerNextOk(s: State, x: Aux, tx: TP.Aux, t: Tid)
    requires Inv(s, x, tx) && t < |s.consumers| && !s.consumers[t].CIdle?
    ensures s.consumers[t].CSetFlag? || ConsumerOk(s.headers, x, NextConsumer(s, s.consumers[t]))
  {
    var c, lo := s.consumers[t], Lo(s.slotsUsed, x.blockOf);
    assert ConsumerOk(s.headers, x, c);
    assert Matches(s.tickets.pcs[t], c);
    assert TP.OverOk(s.tickets, tx, s.tickets.pcs[t]);
    match c
    case CLoadHeader(_, _) => LoadHeaderOk(s, x, c);
    case CLoadFront(_, _, hdr) => LoadFrontOk(s, x, c, lo, s.tickets.head);
    case CLoadBase(_, _, hdr, _) => LoadBaseOk(s, x, c, lo, s.tickets.head);
    case CLoadBlock(_, _, hdr, _, _, _) => LoadBlockOk(s, x, c, lo, s.tickets.head);
    case CReadCell(_, _, _, _, _, _, _, _) => ReadCellOk(s, x, c);
    case _ =>
  }

  /** Consumers that only move leave the memory part of the invariant alone. */
  lemma MemoryFrame(s: State, x: Aux, tickets: TM.State, consumers: seq<Consumer>)
    requires MemoryOk(s, x) && tickets.tail == s.tickets.tail && s.tickets.head <= tickets.head
    ensures MemoryOk(s.(tickets := tickets, consumers := consumers), x)
  {
  }

  lemma MoveLink(pcs: seq<TM.PC>, consumers: seq<Consumer>, t: Tid, pc: TM.PC, c: Consumer)
    requires LinksOk(pcs, consumers) && t < |pcs| && Matches(pc, c)
    ensures LinksOk(pcs[t := pc], consumers[t := c])
  {
  }

  lemma MoveConsumer(headers: seq<Header>, x: Aux, consumers: seq<Consumer>, t: Tid, c: Consumer)
    requires ConsumersOk(headers, x, consumers) && t < |consumers| && ConsumerOk(headers, x, c)
    ensures ConsumersOk(headers, x, consumers[t := c])
  {
  }

  /** A consumer's load changes only the consumer. */
  lemma LoadStepInv(s: State, x: Aux, tx: TP.Aux, t: Tid)
    requires Inv(s, x, tx) && Enabled(s, Consume(t))
    requires !s.consumers[t].CIdle? && !s.consumers[t].CSetFlag? && !s.consumers[t].CDone?
    ensures Inv(Apply(s, Consume(t)), x, tx)
  {
    hide MemoryOk, TP.Inv, ConsumersOk;
    ConsumerNextOk(s, x, tx, t);
    var c := NextConsumer(s, s.consumers[t]);
    assert Matches(s.tickets.pcs[t], s.consumers[t]);
    MemoryFrame(s, x, s.tickets, s.consumers[t := c]);
    MoveConsumer(s.headers, x, s.consumers, t, c);
    assert LinksOk(s.tickets.pcs, s.consumers[t := c]);
    assert Apply(s, Consume(t)) == s.(tickets := s.tickets, consumers := s.consumers[t := c]);
  }

  lemma DoneStepInv(s: State, x: Aux, tx: TP.Aux, t: Tid)
    requires Inv(s, x, tx) && Enabled(s, Consume(t)) && s.consumers[t].CDone?
    ensures Inv(Apply(s, Consume(t)), x, tx)
  {
    var tickets := TM.Apply(s.tickets, TM.Release(t));
    TP.ActionInv(s.tickets, tx, TM.Release(t));
    MemoryFrame(s, x, tickets, s.consumers[t := CIdle]);
    MoveConsumer(s.headers, x, s.consumers, t, CIdle);
    MoveLink(s.tickets.pcs, s.consumers, t, TM.Idle, CIdle);
    assert Apply(s, Consume(t)) == s.(tickets := tickets, consumers := s.consumers[t := CIdle]);
  }

  /** Setting the flag of one index is seen at no other index of the ring. */
  lemma FlagsAfterSet(flags: map<(Block, nat), bool>, blockOf: seq<Block>, lo: nat, emptied: set<nat>, k: nat)
    requires FlagsOk(flags, blockOf, lo, emptied) && lo <= k / BLOCK_SIZE < |blockOf|
    requires forall i, j | lo <= i < j < |blockOf| :: blockOf[i] != blockOf[j]
    ensures FlagsOk(flags[(blockOf[k / BLOCK_SIZE], FlagSlot(k)) := true], blockOf, lo, emptied + {k})
  {
    var block := blockOf[k / BLOCK_SIZE];
    var flags' := flags[(block, FlagSlot(k)) := true];
    forall j | lo * BLOCK_SIZE <= j < |blockOf| * BLOCK_SIZE
      ensures Flag(flags', blockOf[j / BLOCK_SIZE], j) <==> j in emptied + {k}
    {
      assert Flag(flags, blockOf[j / BLOCK_SIZE], j) <==> j in emptied;
      if blockOf[j / BLOCK_SIZE] == block && FlagSlot(j) == FlagSlot(k) {
        assert j / BLOCK_SIZE == k / BLOCK_SIZE;
      }
    }
  }

  /** Another consumer never waits for an index that `c` has emptied. */
  lemma OtherConsumerOk(headers: seq<Header>, x: Aux, u: Consumer, k: nat)
    requires ConsumerOk(headers, x, u)
    requires !u.CIdle? && !u.CCrash? ==> k < u.first || u.first + u.count <= k
    ensures ConsumerOk(headers, x.(emptied := x.emptied + {k}), u)
  {
  }

  lemma SetFlagConsumers(s: State, x: Aux, tx: TP.Aux, t: Tid)
    requires Inv(s, x, tx) && t < |s.consumers| && s.consumers[t].CSetFlag?
    ensures ConsumersOk(s.headers, x.(emptied := x.emptied + {s.consumers[t].k}),
                        s.consumers[t := NextConsumer(s, s.consumers[t])])
  {
    var c := s.consumers[t];
    var consumers := s.consumers[t := NextConsumer(s, c)];
    forall u | 0 <= u < |consumers| ensures ConsumerOk(s.headers, x.(emptied := x.emptied + {c.k}), consumers[u]) {
      assert ConsumerOk(s.headers, x, s.consumers[u]);
      if u == t {
        SetFlagOk(s, x, c);
      } else {
        assert Matches(s.tickets.pcs[t], c) && Matches(s.tickets.pcs[u], s.consumers[u]);
        assert if u < t then TP.DisjointHoldings(s.tickets.pcs[u], s.tickets.pcs[t])
               else TP.DisjointHoldings(s.tickets.pcs[t], s.tickets.pcs[u]);
        OtherConsumerOk(s.headers, x, s.consumers[u], c.k);
      }
    }
  }

  lemma SetFlagMemory(s: State, x: Aux, c: Consumer, consumers: seq<Consumer>)
    requires MemoryOk(s, x) && c.CSetFlag? && ConsumerOk(s.headers, x, c) && c.first + c.count <= s.tickets.head
    ensures MemoryOk(s.(emptyFlags := s.emptyFlags[(c.block, FlagSlot(c.k)) := true], consumers := consumers),
                     x.(emptied := x.emptied + {c.k}))
  {
    hide HeaderOk, FlagsOk, SlotOf, Follows;
    var lo := Lo(s.slotsUsed, x.blockOf);
    assert c.k / BLOCK_SIZE == c.start / BLOCK_SIZE;
    LiveBlock(x.emptied, lo, s.tickets.head, c.k);
    FlagsAfterSet(s.emptyFlags, x.blockOf, lo, x.emptied, c.k);
  }

  lemma SetFlagInv(s: State, x: Aux, tx: TP.Aux, t: Tid)
    requires Inv(s, x, tx) && Enabled(s, Consume(t)) && s.consumers[t].CSetFlag?
    ensures Inv(Apply(s, Consume(t)), NextAux(s, x, Consume(t)), tx)
  {
    hide MemoryOk, TP.CountersOk, TP.TicketHistoryOk;
    var c := s.consumers[t];
    var consumers := s.consumers[t := NextConsumer(s, c)];
    assert ConsumerOk(s.headers, x, c);
    assert Matches(s.tickets.pcs[t], c) && TP.OverOk(s.tickets, tx, s.tickets.pcs[t]);
    SetFlagMemory(s, x, c, consumers);
    SetFlagConsumers(s, x, tx, t);
    assert LinksOk(s.tickets.pcs, consumers);
  }

  /** How a step of the ticket protocol looks from the memory side. */
  lemma TicketMove(tickets: TM.State, t: Tid)
    requires TM.Enabled(tickets, TM.Run(t))
    ensures var after := TM.Apply(tickets, TM.Run(t));
      && after.tail == tickets.tail && tickets.head <= after.head
      && |after.pcs| == |tickets.pcs| && after.pcs == tickets.pcs[t := after.pcs[t]]
      && (after.pcs[t].Holding? ==> after.pcs[t].first == tickets.head
                                    && after.pcs[t].first + after.pcs[t].count == after.head)
  {
  }

  lemma ClaimedOk(headers: seq<Header>, x: Aux, first: nat, count: nat, lo: nat)
    requires EmptiedOk(x.emptied, lo, first) && first + count <= |x.log|
    ensures ConsumerOk(headers, x, Claimed(first, count)) && Matches(TM.Holding(first, count), Claimed(first, count))
  {
    assert x.log[first..first] == [];
  }

  /** A step of the ticket protocol; the one that adds to head starts the search for the block. */
  lemma TicketStepInv(s: State, x: Aux, tx: TP.Aux, t: Tid)
    requires Inv(s, x, tx) && Enabled(s, Consume(t)) && s.consumers[t].CIdle?
    ensures Inv(Apply(s, Consume(t)), x, NextTickets(s, tx, Consume(t)))
  {
    var tickets := TM.Apply(s.tickets, TM.Run(t));
    TicketMove(s.tickets, t);
    TP.ActionInv(s.tickets, tx, TM.Run(t));
    TP.HeadBelowTail(tickets, TP.NextAux(s.tickets, tx, TM.Run(t)));
    var pc := tickets.pcs[t];
    var c := if pc.Holding? then Claimed(pc.first, pc.count) else CIdle;
    if pc.Holding? {
      ClaimedOk(s.headers, x, pc.first, pc.count, Lo(s.slotsUsed, x.blockOf));
    }
    MemoryFrame(s, x, tickets, s.consumers[t := c]);
    MoveConsumer(s.headers, x, s.consumers, t, c);
    MoveLink(s.tickets.pcs, s.consumers, t, pc, c);
    assert s.consumers[t := CIdle] == s.consumers;
    assert Apply(s, Consume(t)) == s.(tickets := tickets, consumers := s.consumers[t := c]);
  }

  lemma DequeueInv(s: State, x: Aux, tx: TP.Aux, t: Tid, max: nat)
    requires Inv(s, x, tx) && Enabled(s, Dequeue(t, max))
    ensures Inv(Apply(s, Dequeue(t, max)), x, NextTickets(s, tx, Dequeue(t, max)))
  {
    var tickets := TM.Apply(s.tickets, TM.Call(t, max));
    TP.ActionInv(s.tickets, tx, TM.Call(t, max));
    assert Matches(s.tickets.pcs[t], s.consumers[t]);
    MemoryFrame(s, x, tickets, s.consumers);
    MoveLink(s.tickets.pcs, s.consumers, t, tickets.pcs[t], s.consumers[t]);
    assert s.consumers[t := s.consumers[t]] == s.consumers;
    assert Apply(s, Dequeue(t, max)) == s.(tickets := tickets, consumers := s.consumers);
  }

  // ---------------------------------------------------------------------------------------------
  // The producer
  // ---------------------------------------------------------------------------------------------

  /** The producer adds to what consumers rely on and takes nothing away. */
  predicate Grows(headers: seq<Header>, x: Aux, headers': seq<Header>, x': Aux) {
    && |headers| <= |headers'| && (forall i | 0 <= i < |headers| :: headers'[i].size == headers[i].size)
    && |x.origins| == |x.tops| == |headers| && |x'.origins| == |x'.tops| == |headers'|
    && (forall i | 0 <= i < |headers| :: x'.origins[i] == x.origins[i] && x.tops[i] <= x'.tops[i])
    && x.blockOf <= x'.blockOf && x.log <= x'.log && x'.emptied == x.emptied
    && |x'.log| <= |x'.blockOf| * BLOCK_SIZE
  }

  lemma ConsumerGrows(headers: seq<Header>, x: Aux, headers': seq<Header>, x': Aux, c: Consumer)
    requires Grows(headers, x, headers', x') && ConsumerOk(headers, x, c)
    ensures ConsumerOk(headers', x', c)
  {
    hide SlotOf;
  }

  lemma ConsumersGrow(headers: seq<Header>, x: Aux, headers': seq<Header>, x': Aux, consumers: seq<Consumer>)
    requires Grows(headers, x, headers', x') && ConsumersOk(headers, x, consumers)
    ensures ConsumersOk(headers', x', consumers)
  {
    hide Grows, ConsumerOk;
    forall t | 0 <= t < |consumers| ensures ConsumerOk(headers', x', consumers[t]) {
      ConsumerGrows(headers, x, headers', x', consumers[t]);
    }
  }


  lemma ProducerMove(s: State, x: Aux, p: Producer)
    requires MemoryOk(s, x) && ProducerOk(s.(producer := p), x) && Unlisted(p) == Unlisted(s.producer)
    ensures MemoryOk(s.(producer := p), x) && Grows(s.headers, x, s.headers, x)
  {
  }

  lemma WriteCellMemory(s: State, x: Aux, e: Element)
    requires MemoryOk(s, x) && s.producer == PWriteCell(e)
    ensures MemoryOk(ProducerStep(s, false, false, 0), x)
    ensures Grows(s.headers, x, ProducerStep(s, false, false, 0).headers, x)
  {
    var tail, n := s.tickets.tail, |x.blockOf|;
    var s' := ProducerStep(s, false, false, 0);
    assert s'.cells == s.cells[(x.blockOf[n - 1], tail % BLOCK_SIZE) := e];
    forall k | 0 <= k < |x.log| && k !in x.emptied
      ensures HasElement(s'.cells, x.blockOf[k / BLOCK_SIZE], k, x.log[k])
    {
      LiveBlock(x.emptied, Lo(s.slotsUsed, x.blockOf), s.tickets.head, k);
      assert HasElement(s.cells, x.blockOf[k / BLOCK_SIZE], k, x.log[k]);
    }
  }

  lemma StoreTailMemory(s: State, x: Aux, e: Element)
    requires MemoryOk(s, x) && s.producer == PStoreTail(e)
    ensures MemoryOk(ProducerStep(s, false, false, 0), x.(log := x.log + [e]))
    ensures Grows(s.headers, x, ProducerStep(s, false, false, 0).headers, x.(log := x.log + [e]))
  {
    assert s.tickets.tail / BLOCK_SIZE == |x.blockOf| - 1;
  }

  /** All flags of a block are set only when all its indices are emptied. */
  lemma EmptyBlock(flags: map<(Block, nat), bool>, blockOf: seq<Block>, lo: nat, emptied: set<nat>)
    requires FlagsOk(flags, blockOf, lo, emptied) && lo < |blockOf| && IsEmpty(flags, blockOf[lo])
    ensures forall k | lo * BLOCK_SIZE <= k < (lo + 1) * BLOCK_SIZE :: k in emptied
  {
    forall k | lo * BLOCK_SIZE <= k < (lo + 1) * BLOCK_SIZE ensures k in emptied {
      assert k / BLOCK_SIZE == lo;
      assert Flag(flags, blockOf[lo], k % BLOCK_SIZE);
      assert FlagSlot(k % BLOCK_SIZE) == FlagSlot(k);
      assert Flag(flags, blockOf[k / BLOCK_SIZE], k) <==> k in emptied;
    }
  }

  /** A block that enters the ring, new or used again, has no flag set. */
  lemma FlagsAfterReset(flags: map<(Block, nat), bool>, blockOf: seq<Block>, lo: nat, lo': nat, emptied: set<nat>, b: Block)
    requires FlagsOk(flags, blockOf, lo, emptied) && lo <= lo' <= |blockOf|
    requires forall i | lo' <= i < |blockOf| :: blockOf[i] != b
    requires forall k <- emptied :: k < |blockOf| * BLOCK_SIZE
    ensures FlagsOk(ResetEmpty(flags, b), blockOf + [b], lo', emptied)
  {
    forall k | lo' * BLOCK_SIZE <= k < |blockOf + [b]| * BLOCK_SIZE
      ensures Flag(ResetEmpty(flags, b), (blockOf + [b])[k / BLOCK_SIZE], k) <==> k in emptied
    {
      if k / BLOCK_SIZE < |blockOf| {
        assert Flag(flags, blockOf[k / BLOCK_SIZE], k) <==> k in emptied;
      }
    }
  }

  lemma HeadersKeep(headers: seq<Header>, x: Aux, x': Aux, lo: nat, lo': nat)
    requires HeadersOk(headers, x, lo) && lo <= lo' && x.blockOf <= x'.blockOf
    requires x'.origins == x.origins && x'.tops == x.tops
    ensures HeadersOk(headers, x', lo')
  {
    forall i | 0 <= i < |headers| ensures HeaderOk(headers[i], x'.origins[i], x'.tops[i], x'.blockOf, lo') {
      assert HeaderOk(headers[i], x.origins[i], x.tops[i], x.blockOf, lo);
    }
  }

  lemma ReuseRing(next: map<Block, Block>, blocks: set<Block>, slotsUsed: nat, blockOf: seq<Block>)
    requires blockOf != [] && RingOk(next, blocks, Some(blockOf[|blockOf| - 1]), slotsUsed, blockOf)
    ensures var lo := Lo(slotsUsed, blockOf);
      && lo < |blockOf| && Lo(slotsUsed, blockOf + [blockOf[lo]]) == lo + 1
      && RingOk(next, blocks, Some(blockOf[lo]), slotsUsed, blockOf + [blockOf[lo]])
  {
    var n, lo := |blockOf|, Lo(slotsUsed, blockOf);
    var blockOf' := blockOf + [blockOf[lo]];
    var lo' := lo + 1;
    forall i | lo' <= i < n + 1 ensures Follows(next, blockOf', lo', i) {
      assert Follows(next, blockOf, lo, if i == n then lo else i);
    }
  }

  lemma CellsExtend(cells: map<(Block, nat), Element>, blockOf: seq<Block>, log: seq<Element>, emptied: set<nat>, b: Block)
    requires CellsOk(cells, blockOf, log, emptied)
    ensures CellsOk(cells, blockOf + [b], log, emptied)
  {
    hide HasElement;
    forall k | 0 <= k < |log| && k !in emptied
      ensures HasElement(cells, (blockOf + [b])[k / BLOCK_SIZE], k, log[k])
    {
      assert (blockOf + [b])[k / BLOCK_SIZE] == blockOf[k / BLOCK_SIZE];
    }
  }

  lemma EmptiedExtend(emptied: set<nat>, lo: nat, head: nat, bound: nat)
    requires EmptiedOk(emptied, lo, head) && head <= bound
    requires forall k | lo * BLOCK_SIZE <= k < (lo + 1) * BLOCK_SIZE :: k in emptied
    ensures EmptiedOk(emptied, lo + 1, head) && forall k <- emptied :: k < bound
  {
  }

  /** The block after the last one is the oldest in the ring. */
  lemma OldestBlock(s: State, blockOf: seq<Block>)
    requires s.tailBlock.Some? && RingOk(s.next, s.blocks, s.tailBlock, s.slotsUsed, blockOf)
    ensures var lo := Lo(s.slotsUsed, blockOf);
      && lo < |blockOf| && s.tailBlock.value == blockOf[|blockOf| - 1] && NextOf(s.next, s.tailBlock.value) == blockOf[lo]
      && forall i | lo + 1 <= i < |blockOf| :: blockOf[i] != blockOf[lo]
  {
    var lo := Lo(s.slotsUsed, blockOf);
    assert Follows(s.next, blockOf, lo, |blockOf| - 1) && Follows(s.next, blockOf, lo, lo);
  }

  lemma CurrentEntries(headers: seq<Header>, x: Aux, lo: nat)
    requires HeadersOk(headers, x, lo) && headers != []
    ensures var h := headers[|headers| - 1]; |h.entries| == h.size
  {
    var i := |headers| - 1;
    assert HeaderOk(headers[i], x.origins[i], x.tops[i], x.blockOf, lo);
  }

  lemma ReuseMemory(s: State, x: Aux, e: Element)
    requires MemoryOk(s, x) && s.producer == PCheckNext(e) && s.tailBlock.Some? && s.tickets.head <= s.tickets.tail
    requires IsEmpty(s.emptyFlags, NextOf(s.next, s.tailBlock.value))
    ensures MemoryOk(ReuseNext(s, e), x.(blockOf := x.blockOf + [NextOf(s.next, s.tailBlock.value)]))
    ensures Grows(s.headers, x, ReuseNext(s, e).headers, x.(blockOf := x.blockOf + [NextOf(s.next, s.tailBlock.value)]))
  {
    hide FlagsOk, CellsOk, EmptiedOk, RingOk, HeadersOk, HeaderOk, NextOf, IsEmpty;
    OldestBlock(s, x.blockOf);
    var lo := Lo(s.slotsUsed, x.blockOf);
    var b := x.blockOf[lo];
    var x' := x.(blockOf := x.blockOf + [b]);
    EmptyBlock(s.emptyFlags, x.blockOf, lo, x.emptied);
    EmptiedExtend(x.emptied, lo, s.tickets.head, |x.blockOf| * BLOCK_SIZE);
    FlagsAfterReset(s.emptyFlags, x.blockOf, lo, lo + 1, x.emptied, b);
    CellsExtend(s.cells, x.blockOf, x.log, x.emptied, b);
    HeadersKeep(s.headers, x, x', lo, lo + 1);
    CurrentEntries(s.headers, x, lo);
    ReuseRing(s.next, s.blocks, s.slotsUsed, x.blockOf);
  }

  lemma LinkRing(s: State, blockOf: seq<Block>, b: Block, e: Element)
    requires RingOk(s.next, s.blocks, s.tailBlock, s.slotsUsed, blockOf) && b !in s.blocks
    ensures var s' := LinkBlock(s, b, e);
      && RingOk(s'.next, s'.blocks, s'.tailBlock, s'.slotsUsed, blockOf + [b])
      && Lo(s'.slotsUsed, blockOf + [b]) == Lo(s.slotsUsed, blockOf)
  {
    var s' := LinkBlock(s, b, e);
    var n, lo := |blockOf|, Lo(s.slotsUsed, blockOf);
    var blockOf' := blockOf + [b];
    forall i | lo <= i < n + 1 ensures Follows(s'.next, blockOf', lo, i) {
      if n > 0 {
        assert Follows(s.next, blockOf, lo, if i == n then n - 1 else i);
      }
    }
  }

  lemma LinkMemory(s: State, x: Aux, b: Block, e: Element)
    requires MemoryOk(s, x) && s.producer == PAlloc(e) && b !in s.blocks && s.tickets.head <= s.tickets.tail
    ensures MemoryOk(LinkBlock(s, b, e), x.(blockOf := x.blockOf + [b]))
    ensures Grows(s.headers, x, LinkBlock(s, b, e).headers, x.(blockOf := x.blockOf + [b]))
  {
    var lo := Lo(s.slotsUsed, x.blockOf);
    var x' := x.(blockOf := x.blockOf + [b]);
    LinkRing(s, x.blockOf, b, e);
    FlagsAfterReset(s.emptyFlags, x.blockOf, lo, lo, x.emptied, b);
    HeadersKeep(s.headers, x, x', lo, lo);
  }

  /** Writing the front slot touches the entry of no block that is in the ring and listed. */
  lemma FrontSlotIsFree(h: Header, origin: nat, top: nat, blockOf: seq<Block>, lo: nat, entry: Entry)
    requires HeaderOk(h, origin, top, blockOf, lo) && top < lo + h.size
    ensures HeaderOk(h.(entries := h.entries[SlotOf(top, origin, h.size) := entry]), origin, top, blockOf, lo)
  {
    forall q | lo <= q < top ensures SlotOf(q, origin, h.size) != SlotOf(top, origin, h.size) {
      SlotsDiffer(q, top, origin, h.size);
    }
  }

  lemma SetEntryMemory(s: State, x: Aux, entry: Entry, p: Producer)
    requires MemoryOk(s, x) && Unlisted(s.producer) && Unlisted(p) && IndexOk(s)
    requires ProducerOk(SetEntry(s, entry).(producer := p), x)
    ensures MemoryOk(SetEntry(s, entry).(producer := p), x)
    ensures Grows(s.headers, x, SetEntry(s, entry).headers, x)
  {
    var i, lo := |s.headers| - 1, Lo(s.slotsUsed, x.blockOf);
    assert HeaderOk(s.headers[i], x.origins[i], x.tops[i], x.blockOf, lo);
    FrontSlotIsFree(s.headers[i], x.origins[i], x.tops[i], x.blockOf, lo, entry);
  }

  lemma StoreBaseMemory(s: State, x: Aux, e: Element)
    requires MemoryOk(s, x) && s.producer == PStoreBase(e)
    ensures MemoryOk(ProducerStep(s, false, false, 0), x)
    ensures Grows(s.headers, x, ProducerStep(s, false, false, 0).headers, x)
  {
    SetEntryMemory(s, x, FrontEntry(s).(base := s.tickets.tail), PStoreBlock(e));
  }

  lemma StoreBlockMemory(s: State, x: Aux, e: Element)
    requires MemoryOk(s, x) && s.producer == PStoreBlock(e)
    ensures MemoryOk(ProducerStep(s, false, false, 0), x)
    ensures Grows(s.headers, x, ProducerStep(s, false, false, 0).headers, x)
  {
    SetEntryMemory(s, x, FrontEntry(s).(block := s.tailBlock.value), PStoreFront(e));
  }

  lemma StoreFrontMemory(s: State, x: Aux, e: Element)
    requires MemoryOk(s, x) && s.producer == PStoreFront(e)
    ensures MemoryOk(PublishFront(s).(producer := PWriteCell(e)), x.(tops := x.tops[|x.tops| - 1 := |x.blockOf|]))
    ensures Grows(s.headers, x, PublishFront(s).headers, x.(tops := x.tops[|x.tops| - 1 := |x.blockOf|]))
  {
    var i, lo, n := |s.headers| - 1, Lo(s.slotsUsed, x.blockOf), |x.blockOf|;
    assert HeaderOk(s.headers[i], x.origins[i], x.tops[i], x.blockOf, lo);
    NextSlot(n - 1, x.origins[i], s.indexSize);
    assert HeaderOk(s.headers[i].(front := s.indexFront), x.origins[i], n, x.blockOf, lo);
  }

  lemma CopiedEntry(h: Header, origin: nat, n: nat, blockOf: seq<Block>, used: nat, j: nat)
    requires h.size > 0 && |h.entries| == h.size && n == |blockOf| && j < used <= n
    requires forall q | n - used <= q < n :: h.entries[SlotOf(q, origin, h.size)] == Entry(q * BLOCK_SIZE, blockOf[q])
    ensures |CopyEntries(h.entries, SlotOf(n, origin, h.size), used, h.size)| == used
    ensures CopyEntries(h.entries, SlotOf(n, origin, h.size), used, h.size)[j]
            == Entry((n - used + j) * BLOCK_SIZE, blockOf[n - used + j])
  {
    SlotPlus(n, origin, h.size, j - used);
    assert h.entries[SlotOf(n - used + j, origin, h.size)] == Entry((n - used + j) * BLOCK_SIZE, blockOf[n - used + j]);
  }

  lemma CopiedEntries(h: Header, origin: nat, blockOf: seq<Block>, used: nat)
    requires h.size > 0 && |h.entries| == h.size && used <= |blockOf|
    requires forall q | |blockOf| - used <= q < |blockOf| :: h.entries[SlotOf(q, origin, h.size)] == Entry(q * BLOCK_SIZE, blockOf[q])
    ensures var copied, lo := CopyEntries(h.entries, SlotOf(|blockOf|, origin, h.size), used, h.size), |blockOf| - used;
      && |copied| == used
      && forall q | lo <= q < |blockOf| :: copied[q - lo] == Entry(q * BLOCK_SIZE, blockOf[q])
  {
    forall q | |blockOf| - used <= q < |blockOf|
      ensures CopyEntries(h.entries, SlotOf(|blockOf|, origin, h.size), used, h.size)[q - (|blockOf| - used)]
              == Entry(q * BLOCK_SIZE, blockOf[q])
    {
      CopiedEntry(h, origin, |blockOf|, blockOf, used, q - (|blockOf| - used));
    }
  }

  /** An index that lists the ring from slot 0 and has room left. */
  lemma FreshHeader(h: Header, blockOf: seq<Block>, lo: nat)
    requires SizeOk(h.size) && |h.entries| == h.size > |blockOf| - lo && lo <= |blockOf|
    requires lo < |blockOf| ==> h.front == |blockOf| - lo - 1
    requires forall q | lo <= q < |blockOf| :: h.entries[q - lo] == Entry(q * BLOCK_SIZE, blockOf[q])
    ensures HeaderOk(h, lo, |blockOf|, blockOf, lo) && SlotOf(|blockOf|, lo, h.size) == |blockOf| - lo
  {
    forall q | lo <= q <= |blockOf| ensures SlotOf(q, lo, h.size) == q - lo {
      DivModUnique(q - lo, h.size, 0, q - lo);
    }
  }

  /** The new index lists the blocks of the ring, oldest first, from slot 0. */
  lemma GrownHeader(s: State, x: Aux)
    requires HeadersOk(s.headers, x, Lo(s.slotsUsed, x.blockOf)) && CurrentOk(s, x)
    requires s.producer.PGrow? && s.indexSize * 2 <= LARGEST_INDEX && s.slotsUsed <= |x.blockOf|
    ensures var s', lo := GrowIndex(s), Lo(s.slotsUsed, x.blockOf);
      && |s'.headers| == |s.headers| + 1 && s.headers <= s'.headers
      && HeaderOk(s'.headers[|s.headers|], lo, |x.blockOf|, x.blockOf, lo)
      && s'.headers[|s.headers|].size == s'.indexSize == s.indexSize * 2
      && s'.indexFront == s.slotsUsed == SlotOf(|x.blockOf|, lo, s'.indexSize)
  {
    hide FilledSlots, CopyEntries, HeaderOk, HeadersOk, SlotOf;
    var s', lo := GrowIndex(s), Lo(s.slotsUsed, x.blockOf);
    FilledSlotsOk(s, x);
    assert IsPowerOfTwo(s.indexSize * 2);
    if s.slotsUsed > 0 {
      TP.WordSubIsWord(s.slotsUsed, 1);
      SmallWord(s.slotsUsed - 1);
    }
    FreshHeader(s'.headers[|s.headers|], x.blockOf, lo);
  }

  lemma FilledSlotsOk(s: State, x: Aux)
    requires HeadersOk(s.headers, x, Lo(s.slotsUsed, x.blockOf)) && CurrentOk(s, x)
    requires s.producer.PGrow? && s.slotsUsed <= |x.blockOf|
    ensures var copied, lo := FilledSlots(s), Lo(s.slotsUsed, x.blockOf);
      && |copied| == s.slotsUsed
      && forall q | lo <= q < |x.blockOf| :: copied[q - lo] == Entry(q * BLOCK_SIZE, x.blockOf[q])
  {
    if s.slotsUsed > 0 {
      var i := |s.headers| - 1;
      assert HeaderOk(s.headers[i], x.origins[i], x.tops[i], x.blockOf, Lo(s.slotsUsed, x.blockOf));
      CopiedEntries(s.headers[i], x.origins[i], x.blockOf, s.slotsUsed);
    }
  }

  lemma GrowMemory(s: State, x: Aux, e: Element)
    requires MemoryOk(s, x) && s.producer == PGrow(e) && s.indexSize * 2 <= LARGEST_INDEX
    ensures MemoryOk(GrowIndex(s).(producer := PAlloc(e)),
                     x.(origins := x.origins + [Lo(s.slotsUsed, x.blockOf)], tops := x.tops + [|x.blockOf|]))
    ensures Grows(s.headers, x, GrowIndex(s).headers, x.(origins := x.origins + [Lo(s.slotsUsed, x.blockOf)], tops := x.tops + [|x.blockOf|]))
  {
    var lo := Lo(s.slotsUsed, x.blockOf);
    var s' := GrowIndex(s).(producer := PAlloc(e));
    var x' := x.(origins := x.origins + [lo], tops := x.tops + [|x.blockOf|]);
    GrownHeader(s, x);
    assert HeadersOk(s'.headers, x', lo) by {
      forall i | 0 <= i < |s'.headers| ensures HeaderOk(s'.headers[i], x'.origins[i], x'.tops[i], x'.blockOf, lo) {
        if i < |s.headers| {
          assert HeaderOk(s.headers[i], x.origins[i], x.tops[i], x.blockOf, lo);
        }
      }
    }
    assert CurrentOk(s', x');
  }

  predicate OnlyMoves(s: State, a: Action) {
    match a
    case Produce(seenEmpty, memory, _) =>
      s.producer.PStart? || s.producer.PLoadHead? || (s.producer.PCheckNext? && !seenEmpty)
      || ((s.producer.PGrow? || s.producer.PAlloc?) && !memory)
    case _ => false
  }

  lemma MoveMemory(s: State, x: Aux, a: Action)
    requires MemoryOk(s, x) && Enabled(s, a) && OnlyMoves(s, a)
    ensures MemoryOk(Apply(s, a), x) && Grows(s.headers, x, Apply(s, a).headers, x) && NextAux(s, x, a) == x
  {
    hide HeaderOk, HeadersOk, RingOk, FlagsOk, CellsOk, EmptiedOk;
    var p := Apply(s, a).producer;
    assert Apply(s, a) == s.(producer := p);
    assert ProducerOk(s.(producer := p), x) by {
      assert ProducerOk(s, x) && CurrentOk(s, x);
    }
    ProducerMove(s, x, p);
  }

  /** The state and bookkeeping after a producer step, spelled out. */
  lemma ProduceCases(s: State, x: Aux, a: Action)
    requires Enabled(s, a) && a.Produce? && !OnlyMoves(s, a)
    ensures var s', x' := Apply(s, a), NextAux(s, x, a);
      match s.producer
      case PCheckNext(e) =>
        s.tailBlock.Some? && s' == ReuseNext(s, e) && x' == x.(blockOf := x.blockOf + [NextOf(s.next, s.tailBlock.value)])
      case PGrow(e) =>
        s' == GrowIndex(s).(producer := PAlloc(e)) && s.indexSize * 2 <= LARGEST_INDEX
        && x' == x.(origins := x.origins + [Lo(s.slotsUsed, x.blockOf)], tops := x.tops + [|x.blockOf|])
      case PAlloc(e) =>
        s' == LinkBlock(s, a.spare, e) && x' == x.(blockOf := x.blockOf + [a.spare]) && a.spare !in s.blocks
      case PStoreFront(e) =>
        (IndexOk(s) ==> s' == PublishFront(s).(producer := PWriteCell(e)))
        && (x.tops != [] ==> x' == x.(tops := x.tops[|x.tops| - 1 := |x.blockOf|]))
      case PStoreTail(e) => s' == ProducerStep(s, false, false, 0) && x' == x.(log := x.log + [e])
      case PStoreBase(_) => s' == ProducerStep(s, false, false, 0) && x' == x
      case PStoreBlock(_) => s' == ProducerStep(s, false, false, 0) && x' == x
      case PWriteCell(_) => s' == ProducerStep(s, false, false, 0) && x' == x
      case _ => true
  {
  }

  /** What one producer step does to the memory part, with its bookkeeping. */
  lemma ProduceMemory(s: State, x: Aux, a: Action)
    requires MemoryOk(s, x) && Enabled(s, a) && a.Produce? && s.tickets.head <= s.tickets.tail
    ensures MemoryOk(Apply(s, a), NextAux(s, x, a)) && Grows(s.headers, x, Apply(s, a).headers, NextAux(s, x, a))
  {
    hide HeaderOk, HeadersOk, RingOk, FlagsOk, CellsOk, EmptiedOk;
    if OnlyMoves(s, a) {
      MoveMemory(s, x, a);
    } else {
      ProduceCases(s, x, a);
      var s', x' := Apply(s, a), NextAux(s, x, a);
      match s.producer {
        case PCheckNext(e) => ReuseMemory(s, x, e);
        case PGrow(e) => GrowMemory(s, x, e);
        case PAlloc(e) => LinkMemory(s, x, a.spare, e);
        case PStoreBase(e) => StoreBaseMemory(s, x, e);
        case PStoreBlock(e) => StoreBlockMemory(s, x, e);
        case PStoreFront(e) => StoreFrontMemory(s, x, e);
        case PWriteCell(e) => WriteCellMemory(s, x, e);
        case PStoreTail(e) => StoreTailMemory(s, x, e);
        case PCrash => assert false;
      }
    }
  }

  lemma ProducerStepFrame(s: State, seenEmpty: bool, memory: bool, spare: Block)
    requires !s.producer.PIdle? && !s.producer.PStoreTail?
    ensures var s' := ProducerStep(s, seenEmpty, memory, spare); s'.consumers == s.consumers && s'.tickets == s.tickets
  {
    hide CopyEntries, FrontEntry, NextOf, AtBoundary, HasLeeway, IndexIsFull, ResetEmpty;
  }

  lemma ProduceTickets(s: State, a: Action)
    requires Enabled(s, a) && a.Produce?
    ensures Apply(s, a).consumers == s.consumers
    ensures Apply(s, a).tickets == if s.producer.PStoreTail? then TM.Apply(s.tickets, TM.Enqueued) else s.tickets
  {
    if !s.producer.PStoreTail? {
      hide ProducerStep;
      ProducerStepFrame(s, a.seenEmpty, a.memory, a.spare);
    }
  }

  lemma ProduceInv(s: State, x: Aux, tx: TP.Aux, a: Action)
    requires Inv(s, x, tx) && Enabled(s, a) && a.Produce?
    ensures Inv(Apply(s, a), NextAux(s, x, a), tx)
  {
    TP.HeadBelowTail(s.tickets, tx);
    TP.ActionInv(s.tickets, tx, TM.Enqueued);
    ProduceMemory(s, x, a);
    ConsumersGrow(s.headers, x, Apply(s, a).headers, NextAux(s, x, a), s.consumers);
    ProduceTickets(s, a);
  }

  /** Every action keeps the invariant. */
  lemma ActionInv(s: State, x: Aux, tx: TP.Aux, a: Action)
    requires Inv(s, x, tx) && Enabled(s, a)
    ensures Inv(Apply(s, a), NextAux(s, x, a), NextTickets(s, tx, a))
  {
    match a
    case Enqueue(e) => ProducerMove(s, x, PStart(e));
    case Produce(_, _, _) => ProduceInv(s, x, tx, a);
    case Dequeue(t, max) => DequeueInv(s, x, tx, t, max);
    case Consume(t) =>
      if s.consumers[t].CIdle? { TicketStepInv(s, x, tx, t); }
      else if s.consumers[t].CSetFlag? { SetFlagInv(s, x, tx, t); }
      else if s.consumers[t].CDone? { DoneStepInv(s, x, tx, t); }
      else { LoadStepInv(s, x, tx, t); }
  }

  function InitialAux(s: State): Aux {
    if s.headers == [] then Aux([], [], {}, [], []) else Aux([], [], {}, [0], [0])
  }

  lemma InitialInv(s: State)
    requires Initial(s)
    ensures Inv(s, InitialAux(s), TP.Aux([], []))
  {
    TP.InitialInv(s.tickets);
    DivModUnique(0, s.indexSize, 0, 0);
  }
}
