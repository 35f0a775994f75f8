/**
 The timers of the event loop (Epoll.h and Epoll.cpp): a sorted vector that callbacks change while it is
 being worked off.
 */
module Timers {
  import opened Wrappers

  /** Clock ticks in a millisecond. */
  const TICKS: nat := 1_000_000

  datatype Timepoint = Timepoint(cb: nat, timer: Timer, timepoint: int, nextDelay: nat)

  /** What a callback may do to the timers; `elapsed` is how far the clock has moved since it was last read. */
  datatype Op =
    | Start(timer: Timer, cb: nat, timeout: nat, repeat: nat, elapsed: nat)
    | Stop(timer: Timer)

  /** One callback: what it does, and the clock's advance until its timer is started again. */
  datatype Round = Round(ops: seq<Op>, elapsed: nat)

  predicate Sorted(timers: seq<Timepoint>) {
    forall i, j | 0 <= i < j < |timers| :: timers[i].timepoint <= timers[j].timepoint
  }

  /** `std::upper_bound` on a sorted vector. */
  function UpperBound(timers: seq<Timepoint>, at: int): (k: nat)
    ensures k <= |timers|
    ensures k < |timers| ==> at < timers[k].timepoint
    ensures forall i | 0 <= i < k :: timers[i].timepoint <= at
  {
    if timers == [] || at < timers[0].timepoint then 0 else 1 + UpperBound(timers[1..], at)
  }

  /** The first entry of a timer, or the length. */
  function FirstOf(timers: seq<Timepoint>, timer: Timer): (k: nat)
    ensures k <= |timers| && (k < |timers| ==> timers[k].timer == timer)
    ensures forall i | 0 <= i < k :: timers[i].timer != timer
  {
    if timers == [] || timers[0].timer == timer then 0 else 1 + FirstOf(timers[1..], timer)
  }

  function InsertAt<T>(s: seq<T>, k: nat, x: T): (r: seq<T>)
    requires k <= |s|
    ensures |r| == |s| + 1
  {
    s[..k] + [x] + s[k..]
  }

  function EraseAt<T>(s: seq<T>, k: nat): (r: seq<T>)
    requires k < |s|
    ensures |r| == |s| - 1
  {
    s[..k] + s[k + 1..]
  }

  lemma EraseFirst<T>(s: seq<T>)
    requires s != []
    ensures EraseAt(s, 0) == s[1..]
  {
  }

  lemma FrontStays<T>(s: seq<T>, k: nat, x: T)
    requires 0 < k <= |s|
    ensures InsertAt(s, k, x)[0] == s[0] && (k < |s| ==> EraseAt(s, k) != [] && EraseAt(s, k)[0] == s[0])
  {
  }

  lemma InsertIsSorted(timers: seq<Timepoint>, t: Timepoint)
    requires Sorted(timers)
    ensures Sorted(InsertAt(timers, UpperBound(timers, t.timepoint), t))
  {
  }

  lemma EraseIsSorted(timers: seq<Timepoint>, k: nat)
    requires Sorted(timers) && k < |timers|
    ensures Sorted(EraseAt(timers, k))
  {
  }

  predicate NoDuplicates(s: seq<nat>) {
    forall i, j | 0 <= i < j < |s| :: s[i] != s[j]
  }

  /** How long the loop may sleep: until the first timer, rounded down, or for ever. */
  function DelayFor(timers: seq<Timepoint>, now: int): (delay: int)
    ensures delay == -1 <==> timers == []
    ensures timers != [] ==> 0 <= delay && (delay > 0 ==> now + delay * TICKS <= timers[0].timepoint)
    ensures timers != [] ==> timers[0].timepoint < now + (delay + 1) * TICKS
  {
    if timers == [] then -1
    else if timers[0].timepoint <= now then 0
    else (timers[0].timepoint - now) / TICKS
  }

  /**
   Each armed entry has a number and is pending, fired or cancelled, only one of them; `current` is the
   one whose callback is running.
   */
  ghost predicate Accounts(armed: nat, ids: seq<nat>, fired: seq<nat>, cancelled: set<nat>, current: Option<nat>) {
    && NoDuplicates(ids) && NoDuplicates(fired)
    && (forall id | 0 <= id < armed :: id in ids || id in fired || id in cancelled)
    && (forall id <- ids :: id < armed && id !in cancelled && (id in fired ==> current == Some(id)))
    && (forall id <- fired :: id < armed && id !in cancelled)
    && (forall id <- cancelled :: id < armed)
  }

  lemma InsertMembers<T>(s: seq<T>, k: nat, x: T)
    requires k <= |s|
    ensures forall y :: y in InsertAt(s, k, x) <==> y in s || y == x
  {
    assert s == s[..k] + s[k..];
  }

  lemma EraseMembers(s: seq<nat>, k: nat)
    requires k < |s| && NoDuplicates(s)
    ensures NoDuplicates(EraseAt(s, k))
    ensures forall y :: y in EraseAt(s, k) <==> y in s && y != s[k]
  {
    assert s == s[..k] + [s[k]] + s[k + 1..];
  }

  lemma ArmedAccounts(armed: nat, ids: seq<nat>, fired: seq<nat>, cancelled: set<nat>, current: Option<nat>, k: nat)
    requires Accounts(armed, ids, fired, cancelled, current) && k <= |ids|
    ensures Accounts(armed + 1, InsertAt(ids, k, armed), fired, cancelled, current)
  {
    InsertMembers(ids, k, armed);
    var now := InsertAt(ids, k, armed);
    forall i, j | 0 <= i < j < |now|
      ensures now[i] != now[j]
    {
      if i == k {
        assert now[j] == ids[j - 1] && ids[j - 1] in ids;
      } else if j == k {
        assert now[i] == ids[i] && ids[i] in ids;
      } else {
        assert now[i] == ids[if i < k then i else i - 1] && now[j] == ids[if j < k then j else j - 1];
      }
    }
  }

  /** An entry is taken out of the vector: it is cancelled, unless it has fired. */
  lemma ErasedAccounts(armed: nat, ids: seq<nat>, fired: seq<nat>, cancelled: set<nat>, current: Option<nat>, k: nat)
    requires Accounts(armed, ids, fired, cancelled, current) && k < |ids|
    ensures var gone := if ids[k] in fired then {} else {ids[k]};
      Accounts(armed, EraseAt(ids, k), fired, cancelled + gone, current)
  {
    EraseMembers(ids, k);
  }

  lemma FiredAccounts(armed: nat, ids: seq<nat>, fired: seq<nat>, cancelled: set<nat>)
    requires Accounts(armed, ids, fired, cancelled, None) && ids != []
    ensures ids[0] !in fired && Accounts(armed, ids, fired + [ids[0]], cancelled, Some(ids[0]))
  {
    assert ids[0] in ids;
  }

  lemma DoneAccounts(armed: nat, ids: seq<nat>, fired: seq<nat>, cancelled: set<nat>, id: nat)
    requires Accounts(armed, ids, fired, cancelled, Some(id)) && id !in ids
    ensures Accounts(armed, ids, fired, cancelled, None)
  {
  }

  // ---------------------------------------------------------------------------------------------
  // What starts and stops leave of the vector
  // ---------------------------------------------------------------------------------------------

  /** The vector with the numbers of its entries, how many have been armed, and the clock as last read. */
  datatype Wheel = Wheel(timers: seq<Timepoint>, ids: seq<nat>, armed: nat, now: int, stopped: bool)
  {
    predicate Valid() {
      |ids| == |timers|
    }
  }

  /** One new entry, behind all that are due no later. */
  function Started(w: Wheel, timer: Timer, cb: nat, timeout: nat, repeat: nat, elapsed: nat): (w': Wheel)
    requires w.Valid()
    ensures w'.Valid() && w'.armed == w.armed + 1 && |w'.timers| == |w.timers| + 1
  {
    var now := w.now + elapsed;
    var t := Timepoint(cb, timer, now + timeout * TICKS, repeat);
    var k := UpperBound(w.timers, t.timepoint);
    Wheel(InsertAt(w.timers, k, t), InsertAt(w.ids, k, w.armed), w.armed + 1, now, w.stopped)
  }

  /** Without the first entry of the timer; `running` is the timer whose callback does this. */
  function Stopped(w: Wheel, timer: Timer, running: Timer): (w': Wheel)
    requires w.Valid()
    ensures w'.Valid() && w'.armed == w.armed && w'.now == w.now
  {
    var k := FirstOf(w.timers, timer);
    var left := if k == |w.timers| then w else w.(timers := EraseAt(w.timers, k), ids := EraseAt(w.ids, k));
    left.(stopped := w.stopped || timer == running)
  }

  function AfterOp(w: Wheel, op: Op, running: Timer): (w': Wheel)
    requires w.Valid()
    ensures w'.Valid()
  {
    match op
    case Start(timer, cb, timeout, repeat, elapsed) => Started(w, timer, cb, timeout, repeat, elapsed)
    case Stop(timer) => Stopped(w, timer, running)
  }

  function AfterOps(w: Wheel, ops: seq<Op>, running: Timer): (w': Wheel)
    requires w.Valid()
    ensures w'.Valid()
  {
    if ops == [] then w else AfterOp(AfterOps(w, ops[..|ops| - 1], running), ops[|ops| - 1], running)
  }

  /**
   The front entry has fired: what its callback's starts and stops leave, and unless they stopped its timer the
   front entry is gone and, only if it repeats, armed once more.
   */
  function AfterRound(w: Wheel, round: Round): (w': Wheel)
    requires w.Valid() && w.timers != []
    ensures w'.Valid()
  {
    var head := w.timers[0];
    var left := AfterOps(w.(stopped := false), round.ops, head.timer);
    if left.stopped || left.timers == [] then left
    else
      var gone := left.(timers := left.timers[1..], ids := left.ids[1..]);
      if head.nextDelay == 0 then gone
      else Started(gone, head.timer, head.cb, head.nextDelay, head.nextDelay, round.elapsed)
  }

  predicate IsDue(w: Wheel) {
    w.timers != [] && w.timers[0].timepoint < w.now
  }

  /** As long as the front entry is due, and a round is given for it. */
  function AfterRounds(w: Wheel, rounds: seq<Round>): (w': Wheel)
    requires w.Valid()
    ensures w'.Valid()
    decreases |rounds|
  {
    if rounds == [] || !IsDue(w) then w else AfterRounds(AfterRound(w, rounds[0]), rounds[1..])
  }

  /** The numbers of the entries that fire, in order. */
  function FiredIn(w: Wheel, rounds: seq<Round>): seq<nat>
    requires w.Valid()
    decreases |rounds|
  {
    if rounds == [] || !IsDue(w) then [] else [w.ids[0]] + FiredIn(AfterRound(w, rounds[0]), rounds[1..])
  }

  lemma RoundsUnfold(w: Wheel, rounds: seq<Round>, i: nat)
    requires w.Valid() && i < |rounds| && IsDue(w)
    ensures AfterRounds(w, rounds[i..]) == AfterRounds(AfterRound(w, rounds[i]), rounds[i + 1..])
    ensures FiredIn(w, rounds[i..]) == [w.ids[0]] + FiredIn(AfterRound(w, rounds[i]), rounds[i + 1..])
  {
    hide AfterRound;
    assert rounds[i..][0] == rounds[i] && rounds[i..][1..] == rounds[i + 1..];
  }

  lemma RoundsEnd(w: Wheel, rounds: seq<Round>)
    requires w.Valid() && (rounds == [] || !IsDue(w))
    ensures AfterRounds(w, rounds) == w && FiredIn(w, rounds) == []
  {
  }

  lemma FirstFires(w: Wheel, rounds: seq<Round>)
    requires w.Valid() && IsDue(w)
    ensures rounds != [] ==> FiredIn(w, rounds) != [] && FiredIn(w, rounds)[0] == w.ids[0]
  {
  }

  lemma Regroup(a: seq<nat>, b: seq<nat>, c: seq<nat>)
    ensures a + (b + c) == a + b + c
  {
  }

  function Starts(ops: seq<Op>): nat {
    if ops == [] then 0 else Starts(ops[..|ops| - 1]) + if ops[|ops| - 1].Start? then 1 else 0
  }

  predicate StopsTimer(ops: seq<Op>, timer: Timer) {
    exists i | 0 <= i < |ops| :: ops[i] == Stop(timer)
  }

  lemma {:induction false} OpsArm(w: Wheel, ops: seq<Op>, running: Timer)
    requires w.Valid()
    ensures var w' := AfterOps(w, ops, running);
      w'.armed == w.armed + Starts(ops) && (w'.stopped <==> w.stopped || StopsTimer(ops, running))
  {
    if ops != [] {
      var first, last := ops[..|ops| - 1], ops[|ops| - 1];
      OpsArm(w, first, running);
      assert ops == first + [last];
      if StopsTimer(ops, running) {
        var i :| 0 <= i < |ops| && ops[i] == Stop(running);
        assert i < |first| ==> first[i] == Stop(running);
      }
      if StopsTimer(first, running) {
        var i :| 0 <= i < |first| && first[i] == Stop(running);
        assert ops[i] == Stop(running);
      }
      if last == Stop(running) {
        assert ops[|ops| - 1] == Stop(running);
      }
    }
  }

  /** A callback that stops neither its own timer nor starts any leaves one entry less, if its own is a one-shot. */
  lemma {:induction false} OpsShrink(w: Wheel, ops: seq<Op>, running: Timer)
    requires w.Valid()
    ensures |AfterOps(w, ops, running).timers| <= |w.timers| + Starts(ops)
  {
    if ops != [] {
      OpsShrink(w, ops[..|ops| - 1], running);
    }
  }

  predicate HasEntry(timers: seq<Timepoint>, timer: Timer) {
    exists i | 0 <= i < |timers| :: timers[i].timer == timer
  }

  lemma InsertKeeps<T>(s: seq<T>, k: nat, x: T, i: nat)
    requires k <= |s| && i < |s|
    ensures InsertAt(s, k, x)[if i < k then i else i + 1] == s[i]
  {
  }

  lemma EraseKeeps<T>(s: seq<T>, k: nat, i: nat)
    requires k < |s| && i < |s| && i != k
    ensures EraseAt(s, k)[if i < k then i else i - 1] == s[i]
  {
  }

  lemma OpKeeps(w: Wheel, op: Op, running: Timer)
    requires w.Valid() && HasEntry(w.timers, running) && op != Stop(running)
    ensures HasEntry(AfterOp(w, op, running).timers, running)
  {
    hide InsertAt, EraseAt, UpperBound, FirstOf;
    var i :| 0 <= i < |w.timers| && w.timers[i].timer == running;
    if op.Start? {
      var t := Timepoint(op.cb, op.timer, w.now + op.elapsed + op.timeout * TICKS, op.repeat);
      InsertKeeps(w.timers, UpperBound(w.timers, t.timepoint), t, i);
    } else if FirstOf(w.timers, op.timer) < |w.timers| {
      EraseKeeps(w.timers, FirstOf(w.timers, op.timer), i);
    }
  }

  /** Unless its callback stops it, the running timer keeps an entry. */
  lemma {:induction false} OpsKeep(w: Wheel, ops: seq<Op>, running: Timer)
    requires w.Valid() && HasEntry(w.timers, running) && !StopsTimer(ops, running)
    ensures HasEntry(AfterOps(w, ops, running).timers, running)
  {
    hide AfterOp, HasEntry;
    if ops != [] {
      var first, last := ops[..|ops| - 1], ops[|ops| - 1];
      assert last == ops[|ops| - 1] && forall i | 0 <= i < |first| :: first[i] == ops[i];
      OpsKeep(w, first, running);
      OpKeeps(AfterOps(w, first, running), last, running);
    }
  }

  /**
   One round arms what its callback starts, and the fired timer once more if and only if it repeats and
   the callback did not stop it: a one-shot timer stays away.
   */
  lemma RoundArms(w: Wheel, round: Round)
    requires w.Valid() && w.timers != []
    ensures var head := w.timers[0];
      var again := if head.nextDelay > 0 && !StopsTimer(round.ops, head.timer) then 1 else 0;
      && AfterRound(w, round).armed == w.armed + Starts(round.ops) + again
      && (!StopsTimer(round.ops, head.timer) ==>
            |AfterRound(w, round).timers| <= |w.timers| - 1 + Starts(round.ops) + again)
  {
    hide AfterOps;
    OpsArm(w.(stopped := false), round.ops, w.timers[0].timer);
    OpsShrink(w.(stopped := false), round.ops, w.timers[0].timer);
    if !StopsTimer(round.ops, w.timers[0].timer) {
      OpsKeep(w.(stopped := false), round.ops, w.timers[0].timer);
    }
  }

  class Timer {
    const data: nat

    constructor (data: nat) {
      this.data := data;
    }
  }

  class Loop {
    var timers: seq<Timepoint>
    var timepoint: int
    var clock: int
    var delay: int
    var processingTimer: Timer?
    var cancelledLastTimer: bool

    // Every armed entry has a number: `ids` runs beside `timers`, `fired` is in the order of the calls.
    ghost var armed: nat
    ghost var ids: seq<nat>
    ghost var fired: seq<nat>
    ghost var cancelled: set<nat>

    ghost predicate Ready(current: Option<nat>)
      reads this
    {
      |ids| == |timers| && Sorted(timers) && timepoint == clock
      && Accounts(armed, ids, fired, cancelled, current)
    }

    ghost predicate Valid()
      reads this
    {
      Ready(None)
    }

    constructor (now: int)
      ensures Valid() && timers == [] && armed == 0
    {
      timers, timepoint, clock, delay := [], now, now, -1;
      processingTimer, cancelledLastTimer := null, false;
      armed, ids, fired, cancelled := 0, [], [], {};
    }

    ghost function Now(): (w: Wheel)
      requires |ids| == |timers|
      reads this
      ensures w.Valid()
    {
      Wheel(timers, ids, armed, clock, cancelledLastTimer)
    }

    /** `Timer::start`. */
    method StartTimer(timer: Timer, cb: nat, timeout: nat, repeat: nat, elapsed: nat, ghost current: Option<nat>)
      requires Ready(current)
      modifies `timers, `timepoint, `clock, `delay, `armed, `ids
      ensures Ready(current) && timepoint == clock == old(clock) + elapsed
      ensures var t := Timepoint(cb, timer, timepoint + timeout * TICKS, repeat);
        var k := UpperBound(old(timers), t.timepoint);
        && timers == InsertAt(old(timers), k, t) && ids == InsertAt(old(ids), k, old(armed))
      ensures armed == old(armed) + 1 && delay == DelayFor(timers, timepoint)
    {
      hide Accounts, Sorted, InsertAt;
      clock := clock + elapsed;
      timepoint := clock;
      var at := timepoint + timeout * TICKS;
      var t := Timepoint(cb, timer, at, repeat);
      var k := UpperBound(timers, at);
      InsertIsSorted(timers, t);
      ArmedAccounts(armed, ids, fired, cancelled, current, k);
      timers := InsertAt(timers, k, t);
      ids := InsertAt(ids, k, armed);
      armed := armed + 1;
      delay := DelayFor(timers, timepoint);
    }

    /** `Timer::stop`: takes out the first entry of the timer, which may be the one whose callback is running. */
    method StopTimer(timer: Timer, ghost current: Option<nat>)
      requires Ready(current)
      modifies `timers, `delay, `cancelledLastTimer, `ids, `cancelled
      ensures Ready(current) && delay == DelayFor(timers, timepoint)
      ensures cancelledLastTimer == (old(cancelledLastTimer) || processingTimer == timer)
      ensures var k := FirstOf(old(timers), timer);
        if k == |old(timers)| then timers == old(timers) && ids == old(ids) && cancelled == old(cancelled)
        else timers == EraseAt(old(timers), k) && ids == EraseAt(old(ids), k)
             && cancelled == old(cancelled) + if old(ids)[k] in fired then {} else {old(ids)[k]}
    {
      var pos := 0;
      while pos < |timers|
        invariant 0 <= pos <= |timers| && Ready(current)
        invariant timers == old(timers) && ids == old(ids) && cancelled == old(cancelled)
        invariant cancelledLastTimer == old(cancelledLastTimer)
        invariant forall i | 0 <= i < pos :: timers[i].timer != timer
        modifies {}
      {
        if timers[pos].timer == timer {
          break;
        }
        pos := pos + 1;
      }
      if pos < |timers| {
        assert timers[pos] in timers;
        EraseIsSorted(timers, pos);
        ErasedAccounts(armed, ids, fired, cancelled, current, pos);
        cancelled := cancelled + if ids[pos] in fired then {} else {ids[pos]};
        timers, ids := EraseAt(timers, pos), EraseAt(ids, pos);
      }
      if processingTimer == timer {
        cancelledLastTimer := true;
      }
      delay := DelayFor(timers, timepoint);
    }

    /** While the callback of `head`, entry number id, is running. */
    ghost predicate InCallback(head: Timepoint, id: nat)
      reads this
    {
      && Ready(Some(id)) && processingTimer == head.timer && head.timepoint < timepoint && id < armed
      && if cancelledLastTimer then id !in ids else timers != [] && timers[0] == head && ids[0] == id
    }

    /** One operation of a callback: unless it stops the running timer, that timer's entry stays in front. */
    method Perform(op: Op, ghost head: Timepoint, ghost id: nat)
      requires InCallback(head, id)
      modifies `timers, `timepoint, `clock, `delay, `cancelledLastTimer, `armed, `ids, `cancelled
      ensures InCallback(head, id) && timepoint >= old(timepoint)
      ensures Now() == AfterOp(old(Now()), op, head.timer)
    {
      hide Accounts, Sorted, NoDuplicates, InsertAt, EraseAt;
      AccountsFacts(armed, ids, fired, cancelled, Some(id));
      match op
      case Start(timer, cb, timeout, repeat, elapsed) =>
        StartTimer(timer, cb, timeout, repeat, elapsed, Some(id));
        ghost var k, t := UpperBound(old(timers), timepoint + timeout * TICKS), Timepoint(cb, timer, timepoint + timeout * TICKS, repeat);
        InsertMembers(old(ids), k, old(armed));
        if k > 0 {
          FrontStays(old(timers), k, t);
          FrontStays(old(ids), k, old(armed));
        }
      case Stop(timer) =>
        ghost var k := FirstOf(timers, timer);
        if k < |timers| {
          EraseMembers(ids, k);
          if k > 0 {
            FrontStays(timers, k, timers[0]);
            FrontStays(ids, k, 0);
          }
        }
        StopTimer(timer, Some(id));
    }

    /**
     The front entry is due: its callback runs, and unless it was stopped the entry that is erased
     afterwards is the same one, and is armed again if it repeats.
     */
    method FireFront(round: Round)
      requires Valid() && timers != [] && timers[0].timepoint < timepoint
      modifies this
      ensures Valid() && timepoint >= old(timepoint)
      ensures fired == old(fired) + [old(ids)[0]] && old(ids)[0] !in old(fired) && old(ids)[0] !in ids
      ensures Now() == AfterRound(old(Now()), round)
      ensures AfterOps(old(Now()).(stopped := false), round.ops, old(timers)[0].timer).timers != [] || cancelledLastTimer
    {
      hide Accounts, Sorted, NoDuplicates;
      ghost var w := Now().(stopped := false);
      var timer := timers[0].timer;
      processingTimer := timer;
      cancelledLastTimer := false;
      ghost var head, id := timers[0], ids[0];
      FiredAccounts(armed, ids, fired, cancelled);
      fired := fired + [id];
      IdsAreArmed(armed, ids, fired, cancelled, Some(id));
      ghost var firedNow := fired;
      for i := 0 to |round.ops|
        invariant InCallback(head, id) && timepoint >= old(timepoint) && fired == firedNow
        invariant Now() == AfterOps(w, round.ops[..i], head.timer)
      {
        assert round.ops[..i + 1][..i] == round.ops[..i];
        Perform(round.ops[i], head, id);
      }
      assert round.ops[..|round.ops|] == round.ops;
      if cancelledLastTimer {
        DoneAccounts(armed, ids, fired, cancelled, id);
      } else {
        EraseFront(round.elapsed, head, id);
      }
    }

    predicate Due()
      reads this
    {
      timers != [] && timers[0].timepoint < timepoint
    }

    /** Callbacks run until nothing is due, or for as many rounds as are given. */
    method FireLoop(rounds: seq<Round>)
      requires Valid()
      modifies this
      ensures Valid() && timepoint >= old(timepoint)
      ensures fired == old(fired) + FiredIn(old(Now()), rounds) && |fired| - |old(fired)| <= |rounds|
      ensures Now().(stopped := false) == AfterRounds(old(Now()), rounds).(stopped := false)
      ensures |fired| - |old(fired)| < |rounds| ==> !Due()
      ensures fired == old(fired) && rounds != [] ==> delay == old(delay)
    {
      hide Ready, AfterRounds, FiredIn, AfterRound;
      ReadyFacts();
      ghost var w := Now();
      assert rounds[0..] == rounds && fired + FiredIn(w, rounds) == old(fired) + FiredIn(w, rounds);
      var i := 0;
      while i < |rounds| && Due()
        invariant Valid() && |fired| == |old(fired)| + i && i <= |rounds| && timepoint >= old(timepoint)
        invariant |ids| == |timers| && timepoint == clock
        invariant AfterRounds(Now(), rounds[i..]) == AfterRounds(w, rounds)
        invariant fired + FiredIn(Now(), rounds[i..]) == old(fired) + FiredIn(w, rounds)
        invariant i == 0 ==> delay == old(delay)
      {
        RoundsUnfold(Now(), rounds, i);
        Regroup(fired, [ids[0]], FiredIn(AfterRound(Now(), rounds[i]), rounds[i + 1..]));
        FireFront(rounds[i]);
        ReadyFacts();
        i := i + 1;
      }
      RoundsEnd(Now(), rounds[i..]);
      assert fired + [] == fired;
    }

    lemma ReadyFacts()
      requires Valid()
      ensures |ids| == |timers| && timepoint == clock && Sorted(timers)
    {
    }

    /**
     The timer part of `doEpoll`, after the clock has been read: what is due then fires, in order. Each
     round says what one callback does; the loop is followed for at most that many rounds.
     */
    method FireDue(elapsed: nat, rounds: seq<Round>)
      requires Valid()
      modifies this
      ensures Valid() && old(fired) <= fired && timepoint >= old(timepoint)
      ensures |fired| - old(|fired|) <= |rounds|
      ensures |fired| - old(|fired|) < |rounds| ==> forall t <- timers :: t.timepoint >= timepoint
      ensures fired == old(fired) && rounds != [] ==> delay == if timers == [] then old(delay) else DelayFor(timers, timepoint)
      ensures var w := old(Now()).(now := old(clock) + elapsed);
        && fired == old(fired) + FiredIn(w, rounds) && timepoint == clock
        && Now().(stopped := false) == AfterRounds(w, rounds).(stopped := false)
      ensures (forall t <- old(timers) :: t.timepoint >= old(clock) + elapsed) ==>
                fired == old(fired) && timers == old(timers) && timepoint == old(clock) + elapsed
      ensures rounds != [] && (exists t <- old(timers) :: t.timepoint < old(clock) + elapsed) ==>
                |fired| > |old(fired)| && fired[|old(fired)|] == old(ids)[0]
    {
      hide Accounts, AfterRounds, FiredIn, AfterRound, NoDuplicates;
      clock := clock + elapsed;
      timepoint := clock;
      ghost var w := Now();
      assert Valid();
      if timers != [] && timers[0].timepoint < timepoint {
        FirstFires(w, rounds);
        FireLoop(rounds);
        ReadyFacts();
      } else {
        RoundsEnd(w, rounds);
        assert fired + [] == fired;
        if timers != [] {
          delay := DelayFor(timers, timepoint);
        }
      }
    }

    /** After the callback: the front entry goes, and comes back later if it repeats. */
    method EraseFront(elapsed: nat, ghost head: Timepoint, ghost id: nat)
      requires InCallback(head, id) && !cancelledLastTimer && id in fired
      modifies `timers, `timepoint, `clock, `delay, `armed, `ids
      ensures Valid() && timepoint >= old(timepoint) && id !in ids
      ensures var gone := old(Now()).(timers := old(timers)[1..], ids := old(ids)[1..]);
        Now() == if head.nextDelay == 0 then gone
                 else Started(gone, head.timer, head.cb, head.nextDelay, head.nextDelay, elapsed)
    {
      hide Accounts, Sorted, NoDuplicates, InsertAt, EraseAt;
      AccountsFacts(armed, ids, fired, cancelled, Some(id));
      var timer, repeat, cb := timers[0].timer, timers[0].nextDelay, timers[0].cb;
      EraseIsSorted(timers, 0);
      EraseMembers(ids, 0);
      ErasedAccounts(armed, ids, fired, cancelled, Some(id), 0);
      assert cancelled + {} == cancelled;
      EraseFirst(timers);
      EraseFirst(ids);
      timers, ids := EraseAt(timers, 0), EraseAt(ids, 0);
      DoneAccounts(armed, ids, fired, cancelled, id);
      if repeat != 0 {
        ghost var left, leftIds, number := timers, ids, armed;
        StartTimer(timer, cb, repeat, repeat, elapsed, None);
        ghost var at := timepoint + repeat * TICKS;
        InsertMembers(leftIds, UpperBound(left, at), number);
      }
    }
  }

  lemma IdsAreArmed(armed: nat, ids: seq<nat>, fired: seq<nat>, cancelled: set<nat>, current: Option<nat>)
    requires Accounts(armed, ids, fired, cancelled, current) && ids != []
    ensures ids[0] < armed
  {
    assert ids[0] in ids;
  }

  lemma AccountsFacts(armed: nat, ids: seq<nat>, fired: seq<nat>, cancelled: set<nat>, current: Option<nat>)
    requires Accounts(armed, ids, fired, cancelled, current)
    ensures NoDuplicates(ids)
  {
  }

  /** Between callbacks each armed entry is exactly one of pending, fired (once) and cancelled. */
  lemma ExactlyOneFate(armed: nat, ids: seq<nat>, fired: seq<nat>, cancelled: set<nat>, id: nat)
    requires Accounts(armed, ids, fired, cancelled, None) && id < armed
    ensures multiset(ids)[id] + multiset(fired)[id] + (if id in cancelled then 1 else 0) == 1
  {
    OnceAtMost(ids, id);
    OnceAtMost(fired, id);
  }

  lemma {:induction false} OnceAtMost(s: seq<nat>, x: nat)
    requires NoDuplicates(s)
    ensures multiset(s)[x] == if x in s then 1 else 0
  {
    if s != [] {
      var rest := s[..|s| - 1];
      OnceAtMost(rest, x);
      assert s == rest + [s[|s| - 1]];
    }
  }
}
