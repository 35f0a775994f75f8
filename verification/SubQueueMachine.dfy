/**
 The explicit-producer sub-queue of concurrentqueue.h: the ticket protocol together with the ring of
 blocks, the circular block index that consumers search, and its doubling. One producer, any number
 of consumers, one action per atomic access.

 Indices are unbounded numbers of which the program sees the low 64 bits. `& (size - 1)` is written
 as a remainder, sizes being powers of two; `& (BLOCK_SIZE - 1)` likewise.
 */
module SubQueueMachine {
  import opened Wrappers
  import TM = TicketMachine

  type Tid = nat
  type Block = nat
  type Element = int

  const BLOCK_SIZE: nat := 32

  datatype Entry = Entry(base: nat, block: Block)

  datatype Header = Header(size: nat, front: nat, entries: seq<Entry>)

  datatype Producer =
    | PIdle
    | PStart(e: Element)          // line 1782
    | PCheckNext(e: Element)      // line 1788
    | PLoadHead(e: Element)       // line 1803
    | PGrow(e: Element)           // line 1818
    | PAlloc(e: Element)          // line 1824
    | PStoreBase(e: Element)      // line 1864
    | PStoreBlock(e: Element)     // line 1865
    | PStoreFront(e: Element)     // lines 1866 and 1867
    | PWriteCell(e: Element)      // line 1876
    | PStoreTail(e: Element)      // line 1878
    | PCrash                      // a null block or an entry out of bounds; never reached

  /** `first` and `count` are the indices taken from `headIndex`; `got` the elements moved out so far. */
  datatype Consumer =
    | CIdle
    | CLoadHeader(first: nat, count: nat)                                // lines 1935, 2192
    | CLoadFront(first: nat, count: nat, hdr: nat)                       // lines 1936, 2193
    | CLoadBase(first: nat, count: nat, hdr: nat, front: nat)            // lines 1941, 2195
    | CLoadBlock(first: nat, count: nat, hdr: nat, slot: nat, index: nat, got: seq<Element>)  // lines 1944, 2206
    | CReadCell(first: nat, count: nat, hdr: nat, slot: nat, start: nat, block: Block, index: nat, got: seq<Element>)
                                                                         // lines 1947, 2209
    | CSetFlag(first: nat, count: nat, hdr: nat, slot: nat, start: nat, block: Block, end: nat, k: nat, got: seq<Element>)
                                                                         // lines 1515, 1537: from the last index down
    | CDone(first: nat, count: nat, got: seq<Element>)
    | CCrash                                                             // a fault; never reached

  /** `headers` are all block indexes ever published; `blockIndex` points to the last one. */
  datatype State = State(
    tickets: TM.State,
    cells: map<(Block, nat), Element>,
    emptyFlags: map<(Block, nat), bool>,
    next: map<Block, Block>,
    blocks: set<Block>,
    headers: seq<Header>,
    tailBlock: Option<Block>,
    slotsUsed: nat,
    indexSize: nat,
    indexFront: nat,
    producer: Producer,
    consumers: seq<Consumer>)

  /**
   `seenEmpty`: the scan of the flags on line 1487 saw all of them set. It reads flags one by one
   while consumers set them, so it may report false for a block that is empty by then.
   `memory`: the allocation succeeds. `spare`: the block `requisition_block` hands out, with its flags
   and `next` in any state.
   */
  datatype Action =
    | Enqueue(e: Element)
    | Produce(seenEmpty: bool, memory: bool, spare: Block)
    | Dequeue(t: Tid, max: nat)
    | Consume(t: Tid)

  function Flag(flags: map<(Block, nat), bool>, b: Block, pos: nat): bool {
    (b, FlagSlot(pos)) in flags && flags[(b, FlagSlot(pos))]
  }

  /** `BLOCK_SIZE - 1 - (i & (BLOCK_SIZE - 1))`: the flags are kept in reverse order. */
  function FlagSlot(index: nat): nat {
    BLOCK_SIZE - 1 - index % BLOCK_SIZE
  }

  /** `is_empty<explicit_context>`. */
  predicate IsEmpty(flags: map<(Block, nat), bool>, b: Block) {
    forall pos | 0 <= pos < BLOCK_SIZE :: Flag(flags, b, pos)
  }

  /** `reset_empty<explicit_context>`. */
  function ResetEmpty(flags: map<(Block, nat), bool>, b: Block): map<(Block, nat), bool> {
    map f | f in flags :: if f.0 == b then false else flags[f]
  }

  function NextOf(next: map<Block, Block>, b: Block): Block {
    if b in next then next[b] else b
  }

  predicate AtBoundary(s: State) {
    s.tickets.tail % BLOCK_SIZE == 0
  }

  /** The leeway test on line 1805; `MAX_SUBQUEUE_SIZE` is the largest `size_t`. */
  predicate HasLeeway(s: State) {
    TM.CircularLess(TM.Word(s.tickets.head), TM.Word(s.tickets.tail + BLOCK_SIZE))
  }

  predicate IndexIsFull(s: State) {
    s.headers == [] || s.slotsUsed == s.indexSize
  }

  /** The largest index that fits the address space: an entry takes 16 bytes. */
  const LARGEST_INDEX: nat := 0x800_0000_0000_0000

  predicate Enabled(s: State, a: Action) {
    |s.consumers| == |s.tickets.pcs| &&
    match a
    case Enqueue(_) => s.producer.PIdle?
    case Produce(seenEmpty, memory, spare) =>
      && !s.producer.PIdle?
      && (s.producer.PCheckNext? && seenEmpty ==>
            s.tailBlock.Some? && IsEmpty(s.emptyFlags, NextOf(s.next, s.tailBlock.value)))
      && (s.producer.PGrow? && memory ==> s.indexSize * 2 <= LARGEST_INDEX)
      && (s.producer.PAlloc? && memory ==> spare !in s.blocks)
    case Dequeue(t, max) => TM.Enabled(s.tickets, TM.Call(t, max))
    case Consume(t) =>
      t < |s.consumers| && if s.consumers[t].CIdle? then TM.Enabled(s.tickets, TM.Run(t)) else s.tickets.pcs[t].Holding?
  }

  function Apply(s: State, a: Action): State
    requires Enabled(s, a)
  {
    match a
    case Enqueue(e) => s.(producer := PStart(e))
    case Produce(seenEmpty, memory, spare) => ProducerStep(s, seenEmpty, memory, spare)
    case Dequeue(t, max) => s.(tickets := TM.Apply(s.tickets, TM.Call(t, max)))
    case Consume(t) =>
      if s.consumers[t].CIdle? then
        var tickets := TM.Apply(s.tickets, TM.Run(t));
        if tickets.pcs[t].Holding? then
          s.(tickets := tickets, consumers := s.consumers[t := Claimed(tickets.pcs[t].first, tickets.pcs[t].count)])
        else
          s.(tickets := tickets)
      else ConsumerStep(s, t)
  }

  /** A bulk dequeue that was given no index (`max` was 0) touches no block. */
  function Claimed(first: nat, count: nat): Consumer {
    if count == 0 then CDone(first, 0, []) else CLoadHeader(first, count)
  }

  function ProducerStep(s: State, seenEmpty: bool, memory: bool, spare: Block): State
    requires !s.producer.PIdle?
  {
    match s.producer
    case PStart(e) => s.(producer := if AtBoundary(s) then PCheckNext(e) else PWriteCell(e))
    case PCheckNext(e) =>
      if seenEmpty && s.tailBlock.Some? then ReuseNext(s, e) else s.(producer := PLoadHead(e))
    case PLoadHead(e) =>
      s.(producer := if !HasLeeway(s) then PIdle else if IndexIsFull(s) then PGrow(e) else PAlloc(e))
    case PGrow(e) => if memory then GrowIndex(s).(producer := PAlloc(e)) else s.(producer := PIdle)
    case PAlloc(e) => if memory then LinkBlock(s, spare, e) else s.(producer := PIdle)
    case PStoreBase(e) =>
      if !IndexOk(s) then s.(producer := PCrash)
      else SetEntry(s, FrontEntry(s).(base := s.tickets.tail)).(producer := PStoreBlock(e))
    case PStoreBlock(e) =>
      if !IndexOk(s) || s.tailBlock.None? then s.(producer := PCrash)
      else SetEntry(s, FrontEntry(s).(block := s.tailBlock.value)).(producer := PStoreFront(e))
    case PStoreFront(e) =>
      if !IndexOk(s) then s.(producer := PCrash) else PublishFront(s).(producer := PWriteCell(e))
    case PWriteCell(e) =>
      if s.tailBlock.None? then s.(producer := PCrash)
      else s.(cells := s.cells[(s.tailBlock.value, s.tickets.tail % BLOCK_SIZE) := e], producer := PStoreTail(e))
    case PStoreTail(e) => s.(tickets := TM.Apply(s.tickets, TM.Enqueued), producer := PIdle)
    case PCrash => s
  }

  /** There is an index and the front slot lies in it. */
  predicate IndexOk(s: State) {
    s.headers != [] && s.indexFront < |Current(s).entries| && s.indexSize > 0
  }

  function ReuseNext(s: State, e: Element): State
    requires s.tailBlock.Some?
  {
    var b := NextOf(s.next, s.tailBlock.value);
    s.(tailBlock := Some(b), emptyFlags := ResetEmpty(s.emptyFlags, b), producer := PStoreBase(e))
  }

  function LinkBlock(s: State, b: Block, e: Element): State {
    var next := match s.tailBlock
      case None => s.next[b := b]
      case Some(tail) => s.next[b := NextOf(s.next, tail)][tail := b];
    s.(next := next, blocks := s.blocks + {b}, emptyFlags := ResetEmpty(s.emptyFlags, b),
       tailBlock := Some(b), slotsUsed := s.slotsUsed + 1, producer := PStoreBase(e))
  }

  function Current(s: State): Header
    requires s.headers != []
  {
    s.headers[|s.headers| - 1]
  }

  function FrontEntry(s: State): Entry
    requires IndexOk(s)
  {
    Current(s).entries[s.indexFront]
  }

  function SetEntry(s: State, entry: Entry): State
    requires IndexOk(s)
  {
    var h := Current(s);
    s.(headers := s.headers[|s.headers| - 1 := h.(entries := h.entries[s.indexFront := entry])])
  }

  function PublishFront(s: State): State
    requires IndexOk(s)
  {
    s.(headers := s.headers[|s.headers| - 1 := Current(s).(front := s.indexFront)],
       indexFront := (s.indexFront + 1) % s.indexSize)
  }

  /** `new_block_index`: a table of twice the size, the filled slots copied to its start, oldest first. */
  function GrowIndex(s: State): State {
    var size := s.indexSize * 2;
    var copied := FilledSlots(s);
    var unused := seq(if |copied| <= size then size - |copied| else 0, _ => Entry(0, 0));
    s.(headers := s.headers + [Header(size, TM.Word(s.slotsUsed - 1), copied + unused)],
       indexSize := size, indexFront := |copied|)
  }

  function FilledSlots(s: State): seq<Entry> {
    if s.slotsUsed == 0 || s.headers == [] then []
    else CopyEntries(Current(s).entries, s.indexFront, s.slotsUsed, s.indexSize)
  }

  /** The `used` entries that end before slot `front` of a circular table. */
  function CopyEntries(entries: seq<Entry>, front: nat, used: nat, size: nat): seq<Entry> {
    if size == 0 || |entries| != size then []
    else seq(used, j requires 0 <= j < used => entries[(front - used + j) % size])
  }

  /** The first slot a consumer looks at: the arithmetic of lines 1942 to 1944, in 64-bit words. */
  function SlotFor(index: nat, base: nat, front: nat, size: nat): nat
    requires size > 0
  {
    var blockBase := TM.Word(index - index % BLOCK_SIZE);
    // The signed difference is converted to unsigned before it is divided by BLOCK_SIZE.
    var offset := TM.WordSub(blockBase, TM.Word(base)) / BLOCK_SIZE;
    TM.Word(front + offset) % size
  }

  /** Where the part of the claim that lies in the block of `index` ends, lines 2204 and 2205. */
  function EndInBlock(first: nat, count: nat, index: nat): nat {
    var blockEnd := index - index % BLOCK_SIZE + BLOCK_SIZE;
    if TM.CircularLess(TM.Word(first + count), TM.Word(blockEnd)) then first + count else blockEnd
  }

  function ConsumerStep(s: State, t: Tid): State
    requires t < |s.consumers| == |s.tickets.pcs| && s.tickets.pcs[t].Holding?
  {
    var c := NextConsumer(s, s.consumers[t]);
    match s.consumers[t]
    case CSetFlag(_, _, _, _, _, block, _, k, _) =>
      s.(emptyFlags := s.emptyFlags[(block, FlagSlot(k)) := true], consumers := s.consumers[t := c])
    case CDone(_, _, _) =>
      s.(consumers := s.consumers[t := c], tickets := TM.Apply(s.tickets, TM.Release(t)))
    case _ => s.(consumers := s.consumers[t := c])
  }

  function NextConsumer(s: State, c: Consumer): Consumer {
    match c
    case CIdle => CIdle
    case CLoadHeader(first, count) =>
      if s.headers == [] then CCrash else CLoadFront(first, count, |s.headers| - 1)
    case CLoadFront(first, count, hdr) =>
      if hdr >= |s.headers| then CCrash else CLoadBase(first, count, hdr, s.headers[hdr].front)
    case CLoadBase(first, count, hdr, front) =>
      if hdr >= |s.headers| || front >= |s.headers[hdr].entries| || s.headers[hdr].size == 0 then CCrash
      else
        var slot := SlotFor(first, s.headers[hdr].entries[front].base, front, s.headers[hdr].size);
        CLoadBlock(first, count, hdr, slot, first, [])
    case CLoadBlock(first, count, hdr, slot, index, got) =>
      if hdr >= |s.headers| || slot >= |s.headers[hdr].entries| then CCrash
      else CReadCell(first, count, hdr, slot, index, s.headers[hdr].entries[slot].block, index, got)
    case CReadCell(first, count, hdr, slot, start, block, index, got) =>
      if (block, index % BLOCK_SIZE) !in s.cells then CCrash
      else
        var got' := got + [s.cells[(block, index % BLOCK_SIZE)]];
        var end := EndInBlock(first, count, start);
        if index + 1 == end then CSetFlag(first, count, hdr, slot, start, block, end, index, got')
        else CReadCell(first, count, hdr, slot, start, block, index + 1, got')
    case CSetFlag(first, count, hdr, slot, start, block, end, k, got) =>
      if k > start then CSetFlag(first, count, hdr, slot, start, block, end, k - 1, got)
      else if end == first + count then CDone(first, count, got)
      else if hdr >= |s.headers| || s.headers[hdr].size == 0 then CCrash
      else CLoadBlock(first, count, hdr, (slot + 1) % s.headers[hdr].size, end, got)
    case CDone(_, _, _) => CIdle
    case CCrash => CCrash
  }

  /** A new sub-queue; if the allocation in the constructor failed there is no index yet. */
  predicate Initial(s: State) {
    && TM.Initial(s.tickets)
    && s.blocks == {} && s.tailBlock == None && s.slotsUsed == 0 && s.indexFront == 0
    && s.producer.PIdle?
    && |s.consumers| == |s.tickets.pcs| && (forall t | 0 <= t < |s.consumers| :: s.consumers[t].CIdle?)
    && IsPowerOfTwo(s.indexSize) && s.indexSize <= LARGEST_INDEX
    && (s.headers == [] || (|s.headers| == 1 && s.indexSize == s.headers[0].size == |s.headers[0].entries|))
  }

  predicate IsPowerOfTwo(x: nat) {
    x == 1 || (x > 1 && x % 2 == 0 && IsPowerOfTwo(x / 2))
  }

  predicate Legal(s: State, run: seq<Action>)
    decreases |run|
  {
    run == [] || (Enabled(s, run[0]) && Legal(Apply(s, run[0]), run[1..]))
  }

  function Exec(s: State, run: seq<Action>): State
    requires Legal(s, run)
    decreases |run|
  {
    if run == [] then s else Exec(Apply(s, run[0]), run[1..])
  }
}
