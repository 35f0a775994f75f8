/**
 The ring buffer of eddid_cricular_buffer.h: a list of data nodes and a list of free nodes, against a
 bounded window on what has been pushed. The lock is not modelled: operations run one at a time.
 */
module CircularBuffer {
  class Node<T> {
    var next: Node?<T>
    var data: T

    constructor (data: T)
      ensures this.data == data && next == null
    {
      this.data, next := data, null;
    }
  }

  ghost predicate Distinct<T>(list: seq<Node<T>>) {
    forall i, j | 0 <= i < j < |list| :: list[i] != list[j]
  }

  ghost predicate Apart<T>(a: seq<Node<T>>, b: seq<Node<T>>) {
    forall i, j | 0 <= i < |a| && 0 <= j < |b| :: a[i] != b[j]
  }

  /** The nodes from head on are those of the list, and the list ends: it is acyclic. */
  ghost predicate Chain<T>(list: seq<Node<T>>, head: Node?<T>)
    reads list
  {
    && head == (if list == [] then null else list[0])
    && (forall i, j | 0 <= i < |list| && j == i + 1 && j < |list| :: list[i].next == list[j])
    && (list != [] ==> list[|list| - 1].next == null)
  }

  ghost function Values<T>(list: seq<Node<T>>): (values: seq<T>)
    reads list
    ensures |values| == |list|
    ensures forall i | 0 <= i < |list| :: values[i] == list[i].data
  {
    if list == [] then [] else [list[0].data] + Values(list[1..])
  }

  ghost function NodesOf<T>(a: seq<Node<T>>, b: seq<Node<T>>): set<Node<T>> {
    (set n | n in a) + (set n | n in b)
  }

  /** A push moves a node from the free list to the data, and perhaps the oldest one back. */
  lemma PushedNodes<T>(a: seq<Node<T>>, b: seq<Node<T>>)
    requires b != []
    ensures var longer := a + [b[0]];
      && NodesOf(longer, b[1..]) <= NodesOf(a, b)
      && NodesOf(longer[1..], [longer[0]] + b[1..]) <= NodesOf(a, b)
  {
  }

  /** The newest n. */
  function Window<T>(s: seq<T>, n: nat): seq<T> {
    if |s| <= n then s else s[|s| - n..]
  }

  class Buffer<T> {
    const blank: T                 // T()
    var bufferSize: nat
    var dataSize: nat
    var freeNodeNum: nat
    var dataList: Node?<T>
    var freeList: Node?<T>
    var currentInsertNode: Node?<T>
    var currentBackData: Node?<T>
    ghost var data: seq<Node<T>>
    ghost var free: seq<Node<T>>

    ghost predicate Valid()
      reads this, data, free
    {
      && bufferSize >= 1 && dataSize == |data| <= bufferSize && freeNodeNum == |free|
      && dataSize + freeNodeNum == bufferSize + 1
      && Lists()
    }

    ghost function Contents(): seq<T>
      reads `data, data
    {
      Values(data)
    }

    ghost function Nodes(): set<Node<T>>
      reads `data, `free
    {
      NodesOf(data, free)
    }

    constructor (blank: T, bufferSize: nat)
      requires bufferSize >= 1
      ensures Valid() && Contents() == [] && this.bufferSize == bufferSize && fresh(data) && fresh(free)
    {
      this.blank, this.bufferSize, dataSize, freeNodeNum := blank, bufferSize, 0, bufferSize + 1;
      dataList, currentInsertNode, currentBackData := null, null, null;
      var first := new Node(blank);
      freeList := first;
      data := [];
      new;
      var last := first;
      free := [first];
      for i := 0 to bufferSize
        invariant |free| == i + 1 && Chain(free, first) && Distinct(free) && free[i] == last
        invariant freeList == first && data == [] && this.bufferSize == bufferSize && dataSize == 0
        invariant freeNodeNum == bufferSize + 1 && dataList == null && fresh(free)
      {
        var ptr := new Node(blank);
        last.next := ptr;
        last := ptr;
        free := free + [ptr];
      }
    }

    /** The two lists, disjoint and acyclic. */
    ghost predicate Lists()
      reads `dataList, `freeList, `currentInsertNode, `currentBackData, `data, `free, data, free
    {
      && Chain(data, dataList) && Chain(free, freeList) && Distinct(data) && Distinct(free)
      && Apart(data, free)
      && (data != [] ==> currentInsertNode == currentBackData == data[|data| - 1])
    }

    /** The first free node leaves its list. */
    method TakeFree(t: T) returns (node: Node<T>)
      requires Lists() && free != []
      modifies `freeList, `free, free[0]
      ensures Lists() && node == old(free[0]) && free == old(free[1..]) && Apart([node], data) && Apart([node], free)
      ensures node.data == t && node.next == null && Contents() == old(Contents())
    {
      node := freeList;
      assert node == free[0];
      assert |free| > 1 ==> freeList.next == free[1];
      freeList := freeList.next;
      node.data := t;
      node.next := null;
      free := free[1..];
    }

    /** The node becomes the newest. */
    method Append(node: Node<T>)
      requires Lists() && Apart([node], data) && Apart([node], free) && node.next == null
      modifies `dataList, `currentInsertNode, `currentBackData, `data, data
      ensures Lists() && data == old(data) + [node]
      ensures Contents() == old(Contents()) + [node.data]
    {
      assert [node][0] == node;
      if dataList == null {
        dataList := node;
        currentInsertNode := dataList;
        currentBackData := dataList;
        data := [node];
      } else {
        currentInsertNode.next := node;
        currentInsertNode := node;
        currentBackData := node;
        data := data + [node];
      }
    }

    /** The oldest data node goes to the front of the free list, wiped if it is evicted. */
    method Release(wipe: bool)
      requires Lists() && data != []
      modifies `dataList, `freeList, `data, `free, data[0]
      ensures Lists() && data == old(data[1..]) && free == [old(data[0])] + old(free)
      ensures Contents() == old(Contents())[1..]
    {
      var node := dataList;
      assert node == data[0];
      assert |data| > 1 ==> dataList.next == data[1];
      dataList := dataList.next;
      if wipe {
        node.data := blank;
      }
      node.next := freeList;
      freeList := node;
      data, free := data[1..], [node] + free;
    }

    /** The first free node is filled and becomes the newest. */
    method Insert(t: T) returns (wasEmpty: bool)
      requires Lists() && free != []
      modifies `freeList, `dataList, `currentInsertNode, `currentBackData, `data, `free, data, free[0]
      ensures Lists() && data == old(data) + [old(free[0])] && free == old(free[1..])
      ensures Contents() == old(Contents()) + [t] && wasEmpty == (old(data) == [])
    {
      hide Values, Lists;
      var node := TakeFree(t);
      EmptyList();
      wasEmpty := dataList == null;
      Append(node);
    }

    /** The free list always has a node: one more than the capacity exists. */
    method Push(t: T)
      requires Valid()
      modifies this, data, free
      ensures Valid() && bufferSize == old(bufferSize) && data != []
      ensures Contents() == Window(old(Contents()) + [t], bufferSize)
      ensures Nodes() <= old(Nodes())
    {
      hide Lists, Values, NodesOf;
      PushedNodes(data, free);
      var wasEmpty := Insert(t);
      freeNodeNum := freeNodeNum - 1;
      if !wasEmpty && dataSize >= bufferSize {
        Release(true);
        freeNodeNum := freeNodeNum + 1;
      } else {
        dataSize := dataSize + 1;
      }
    }

    lemma EmptyList()
      requires Lists()
      ensures dataList == null <==> data == []
    {
    }

    /** Drops the oldest, if any. */
    method Pop()
      requires Valid()
      modifies this, data, free
      ensures Valid() && bufferSize == old(bufferSize)
      ensures Contents() == if old(data) == [] then [] else old(Contents())[1..]
      ensures Nodes() <= old(Nodes())
    {
      hide Lists, Values;
      if dataSize == 0 {
        return;
      }
      dataSize := dataSize - 1;
      Release(false);
      freeNodeNum := freeNodeNum + 1;
    }

    /** The newest. */
    method Back() returns (t: T)
      requires Valid() && dataSize > 0
      ensures t == Contents()[|Contents()| - 1]
    {
      t := currentBackData.data;
    }

    /** A free node is given up. */
    method DropFree()
      requires Lists() && free != []
      modifies `freeList, `free, free[0]
      ensures Lists() && free == old(free[1..]) && Contents() == old(Contents())
    {
      var currentNode := freeList;
      assert currentNode == free[0];
      assert |free| > 1 ==> freeList.next == free[1];
      freeList := currentNode.next;
      currentNode.next := null;
      free := free[1..];
    }

    method AddFree()
      requires Lists()
      modifies `freeList, `free
      ensures Lists() && |free| == old(|free|) + 1 && free[1..] == old(free) && fresh(free[0]) && Contents() == old(Contents())
    {
      var currentNode := new Node(blank);
      currentNode.next := freeList;
      freeList := currentNode;
      free := [currentNode] + free;
    }

    /** Growing, or shrinking to no less than what is stored, keeps the contents. */
    method Resize(size: nat)
      requires Valid() && size >= 1 && dataSize <= size
      modifies this, data, free
      ensures Valid() && bufferSize == size && Contents() == old(Contents())
      ensures fresh(Nodes() - old(Nodes()))
    {
      hide Lists, Values;
      if size <= bufferSize {
        var sum := freeNodeNum + dataSize - size - 1;
        freeNodeNum := size - dataSize + 1;
        for freeNode := 0 to sum
          invariant Lists() && data == old(data) && |free| == old(|free|) - freeNode && Contents() == old(Contents())
          invariant free == old(free)[freeNode..]
          invariant dataSize == old(dataSize) && freeNodeNum == size - dataSize + 1
        {
          DropFree();
        }
        bufferSize := size;
        return;
      }
      var sum := size - dataSize - freeNodeNum + 1;
      bufferSize := size;
      for freeNode := 0 to sum
        invariant Lists() && data == old(data) && |free| == old(|free|) + freeNode == freeNodeNum
        invariant Contents() == old(Contents()) && bufferSize == size && dataSize == old(dataSize)
        invariant forall n <- free :: n in old(free) || fresh(n)
      {
        AddFree();
        freeNodeNum := freeNodeNum + 1;
      }
    }
  }

  // ---------------------------------------------------------------------------------------------
  // Runs
  // ---------------------------------------------------------------------------------------------

  datatype Op<T> = Push(t: T) | Pop | Resize(size: nat)

  datatype State<T> = State(contents: seq<T>, capacity: nat)

  function Step<T>(s: State<T>, op: Op<T>): State<T> {
    match op
    case Push(t) => s.(contents := Window(s.contents + [t], s.capacity))
    case Pop => s.(contents := if s.contents == [] then [] else s.contents[1..])
    case Resize(size) => s.(capacity := size)
  }

  predicate Legal<T>(s: State<T>, run: seq<Op<T>>)
    decreases |run|
  {
    run == [] ||
    ((run[0].Resize? ==> run[0].size >= 1 && |s.contents| <= run[0].size) && Legal(Step(s, run[0]), run[1..]))
  }

  function Exec<T>(s: State<T>, run: seq<Op<T>>): State<T>
    decreases |run|
  {
    if run == [] then s else Exec(Step(s, run[0]), run[1..])
  }

  function Pushed<T>(run: seq<Op<T>>): seq<T> {
    if run == [] then [] else (if run[0].Push? then [run[0].t] else []) + Pushed(run[1..])
  }

  /** How many survive a run, having been n: one more for a push up to the capacity, one less for a pop. */
  function Survivors<T>(n: nat, capacity: nat, run: seq<Op<T>>): nat
    decreases |run|
  {
    if run == [] then n
    else
      match run[0]
      case Push(_) => Survivors(if n < capacity then n + 1 else capacity, capacity, run[1..])
      case Pop => Survivors(if n == 0 then 0 else n - 1, capacity, run[1..])
      case Resize(size) => Survivors(n, size, run[1..])
  }

  function Capacity<T>(capacity: nat, run: seq<Op<T>>): nat
    decreases |run|
  {
    if run == [] then capacity else Capacity(if run[0].Resize? then run[0].size else capacity, run[1..])
  }

  /**
   After any run the contents are the newest of everything pushed, in order, and exactly as many as are neither
   popped nor had to go because the buffer was full: what goes is always the oldest.
   */
  lemma {:induction false} ContentsAreNewest<T>(s: State<T>, run: seq<Op<T>>, all: seq<T>)
    requires |s.contents| <= |all| && |s.contents| <= s.capacity && s.capacity >= 1 && Legal(s, run)
    requires s.contents == Window(all, |s.contents|)
    ensures var s', n := Exec(s, run), Survivors(|s.contents|, s.capacity, run);
      && n <= |all + Pushed(run)| && n <= s'.capacity == Capacity(s.capacity, run) && s'.capacity >= 1
      && s'.contents == Window(all + Pushed(run), n) && |s'.contents| == n
    decreases |run|
  {
    if run == [] {
      assert all + [] == all;
    } else {
      var op, s1 := run[0], Step(s, run[0]);
      var more := if op.Push? then [op.t] else [];
      hide Window, Step;
      StepSurvivors(s, op, all);
      ContentsAreNewest(s1, run[1..], all + more);
      Regroup(all, more, Pushed(run[1..]));
    }
  }

  lemma Regroup<T>(a: seq<T>, b: seq<T>, c: seq<T>)
    ensures a + b + c == a + (b + c)
  {
  }

  lemma StepSurvivors<T>(s: State<T>, op: Op<T>, all: seq<T>)
    requires |s.contents| <= |all| && |s.contents| <= s.capacity && s.capacity >= 1
    requires s.contents == Window(all, |s.contents|)
    ensures var s1, n := Step(s, op), |s.contents|;
      && s1.contents == Window(all + if op.Push? then [op.t] else [], |s1.contents|)
      && s1.capacity == (if op.Resize? then op.size else s.capacity)
      && |s1.contents| == match op
           case Push(_) => if n < s.capacity then n + 1 else s.capacity
           case Pop => if n == 0 then 0 else n - 1
           case Resize(_) => n
  {
    assert all + [] == all;
    if op.Push? {
      var longer := s.contents + [op.t];
      assert (all + [op.t])[|all| - |s.contents|..] == longer;
      if |longer| > s.capacity {
        assert (all + [op.t])[|all| + 1 - s.capacity..] == longer[|longer| - s.capacity..];
      }
    } else if op.Pop? && s.contents != [] {
      assert all[|all| - |s.contents| + 1..] == s.contents[1..];
    }
  }

  /** Pushes alone: a window on everything pushed, as wide as the capacity. */
  lemma PushesFillWindow<T>(s: State<T>, run: seq<Op<T>>)
    requires |s.contents| <= s.capacity && s.capacity >= 1 && forall op <- run :: op.Push?
    ensures Exec(s, run).contents == Window(s.contents + Pushed(run), s.capacity)
  {
    OnlyPushes(s, run);
    ContentsAreNewest(s, run, s.contents);
  }

  lemma {:induction false} OnlyPushes<T>(s: State<T>, run: seq<Op<T>>)
    requires |s.contents| <= s.capacity && forall op <- run :: op.Push?
    ensures Legal(s, run) && |Pushed(run)| == |run|
    ensures var n := |s.contents| + |run|;
      Survivors(|s.contents|, s.capacity, run) == if n <= s.capacity then n else s.capacity
    decreases |run|
  {
    if run != [] {
      OnlyPushes(Step(s, run[0]), run[1..]);
    }
  }

  /** One call on a buffer. */
  method Perform<T>(buffer: Buffer<T>, op: Op<T>)
    requires buffer.Valid() && (op.Resize? ==> op.size >= 1 && |buffer.Contents()| <= op.size)
    modifies buffer, buffer.Nodes()
    ensures buffer.Valid() && fresh(buffer.Nodes() - old(buffer.Nodes()))
    ensures State(buffer.Contents(), buffer.bufferSize) == Step(old(State(buffer.Contents(), buffer.bufferSize)), op)
  {
    hide Values, Buffer.Lists;
    match op
    case Push(t) => buffer.Push(t);
    case Pop => buffer.Pop();
    case Resize(size) => buffer.Resize(size);
  }

  /** A run of calls on a buffer does what the run does to the window. */
  method Execute<T>(buffer: Buffer<T>, run: seq<Op<T>>)
    requires buffer.Valid() && Legal(State(buffer.Contents(), buffer.bufferSize), run)
    modifies buffer, buffer.Nodes()
    ensures buffer.Valid() && fresh(buffer.Nodes() - old(buffer.Nodes()))
    ensures State(buffer.Contents(), buffer.bufferSize) == old(Exec(State(buffer.Contents(), buffer.bufferSize), run))
    decreases |run|
  {
    hide Step, Window, Buffer.Valid, Buffer.Contents;
    if run != [] {
      Perform(buffer, run[0]);
      Execute(buffer, run[1..]);
    }
  }
}
