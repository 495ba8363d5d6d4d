/** The bytes on their way from the shell to the editor: a ring under a lock, and a
semaphore the reader sleeps on. One callback delivers, one thread reads. */
module KiloRing {

  type Byte = b: int | 0 <= b < 256

  const RING_SIZE: nat := 512
  const TOKEN_LIMIT: nat := 0xffff_ffff

  // ----- the protocol ----------------------------------------------------

  /** `Waiting` is the reader between finding the ring empty and taking a token; `Closed` is
      the reader gone. */
  datatype Phase = Running | Waiting | Closed

  /** `discarded` is what was still in the ring when the session ended. */
  datatype Channel = Channel(
    contents: seq<Byte>, tokens: nat, phase: Phase,
    accepted: seq<Byte>, returned: seq<Byte>, discarded: seq<Byte>)

  datatype Step = Deliver(data: seq<Byte>) | Read | Wake | Close

  function Min(a: nat, b: nat): nat { if a < b then a else b }

  /** As much of a batch as the ring has room for. */
  function Fitting(contents: seq<Byte>, data: seq<Byte>): (kept: seq<Byte>)
    requires |contents| <= RING_SIZE
    ensures kept <= data && |contents + kept| <= RING_SIZE
    ensures kept != data ==> |contents + kept| == RING_SIZE
  {
    data[..Min(|data|, RING_SIZE - |contents|)]
  }

  predicate Enabled(c: Channel, step: Step) {
    match step
    case Deliver(data) => |c.contents| <= RING_SIZE
    case Read => c.phase == Running
    case Wake => c.phase == Waiting && c.tokens > 0
    case Close => c.phase == Running
  }

  function Apply(c: Channel, step: Step): Channel
    requires Enabled(c, step)
  {
    match step
    case Deliver(data) =>
      var kept := Fitting(c.contents, data);
      c.(contents := c.contents + kept, accepted := c.accepted + kept,
         tokens := Min(c.tokens + |kept|, if c.tokens > TOKEN_LIMIT then c.tokens else TOKEN_LIMIT))
    case Read =>
      if c.contents == [] then c.(phase := Waiting)
      else c.(contents := c.contents[1..], returned := c.returned + [c.contents[0]])
    case Wake => c.(phase := Running, tokens := c.tokens - 1)
    case Close => c.(phase := Closed, contents := [], discarded := c.contents)
  }

  const OPENED := Channel([], 0, Running, [], [], [])

  /** A reader that goes to sleep finds a token for every byte that is there; a reader that
      is up may have used the token of one of them. */
  predicate Inv(c: Channel) {
    && |c.contents| <= RING_SIZE
    && c.accepted == c.returned + c.discarded + c.contents
    && (c.phase != Closed ==> c.discarded == [])
    && |c.contents| <= c.tokens + (if c.phase == Running then 1 else 0)
    && c.tokens <= TOKEN_LIMIT
  }

  lemma StepKeepsInv(c: Channel, step: Step)
    requires Inv(c) && Enabled(c, step)
    ensures Inv(Apply(c, step))
  {
    match step {
      case Deliver(data) =>
        var kept := Fitting(c.contents, data);
        assert c.returned + c.discarded + c.contents + kept == c.returned + c.discarded + (c.contents + kept);
      case Read =>
        if c.contents != [] {
          assert c.contents == [c.contents[0]] + c.contents[1..];
          assert c.returned + [c.contents[0]] + [] + c.contents[1..] == c.returned + [] + c.contents;
        }
      case Wake =>
      case Close =>
        assert c.returned + [] + c.contents == c.returned + c.contents + [];
    }
  }

  predicate CanRun(c: Channel, steps: seq<Step>)
    decreases |steps|
  {
    steps == [] || (Enabled(c, steps[0]) && CanRun(Apply(c, steps[0]), steps[1..]))
  }

  function Run(c: Channel, steps: seq<Step>): Channel
    requires CanRun(c, steps)
    decreases |steps|
  {
    if steps == [] then c else Run(Apply(c, steps[0]), steps[1..])
  }

  lemma {:induction false} RunKeepsInv(c: Channel, steps: seq<Step>)
    requires Inv(c) && CanRun(c, steps)
    ensures Inv(Run(c, steps))
    decreases |steps|
  {
    if steps != [] {
      StepKeepsInv(c, steps[0]);
      RunKeepsInv(Apply(c, steps[0]), steps[1..]);
    }
  }

  /** Over every run the bytes read are, in order, a prefix of the bytes accepted, the rest
      being in the ring as long as the session lasts; and no wake-up is lost: a reader that
      sleeps while bytes are there finds a token, and its next read returns the oldest. */
  lemma FifoWithoutLostWakeUp(steps: seq<Step>)
    requires CanRun(OPENED, steps)
    ensures var c := Run(OPENED, steps);
            && c.returned <= c.accepted
            && (c.phase != Closed ==> c.accepted == c.returned + c.contents)
            && (c.phase == Waiting && c.contents != [] ==>
                  && Enabled(c, Wake)
                  && Apply(Apply(c, Wake), Read).returned == c.returned + [c.contents[0]])
  {
    RunKeepsInv(OPENED, steps);
    var c := Run(OPENED, steps);
    assert c.accepted == c.returned + (c.discarded + c.contents);
  }

  function Wakes(steps: seq<Step>): nat {
    if steps == [] then 0 else (if steps[0].Wake? then 1 else 0) + Wakes(steps[1..])
  }

  /** Each accepted byte gives one token and each wake-up takes one, as long as the
      semaphore is below its limit. */
  lemma {:induction false} TokensAreBytes(c: Channel, steps: seq<Step>)
    requires Inv(c) && CanRun(c, steps)
    requires c.tokens + |Run(c, steps).accepted| - |c.accepted| <= TOKEN_LIMIT
    ensures Run(c, steps).tokens + Wakes(steps) == c.tokens + |Run(c, steps).accepted| - |c.accepted|
    decreases |steps|
  {
    if steps != [] {
      var d := Apply(c, steps[0]);
      StepKeepsInv(c, steps[0]);
      AcceptedIsKept(d, steps[1..]);
      TokensAreBytes(d, steps[1..]);
    }
  }

  lemma {:induction false} AcceptedIsKept(c: Channel, steps: seq<Step>)
    requires CanRun(c, steps)
    ensures |c.accepted| <= |Run(c, steps).accepted|
    decreases |steps|
  {
    if steps != [] { AcceptedIsKept(Apply(c, steps[0]), steps[1..]); }
  }

  /** All the bytes of all the batches of a run, in order. */
  function Delivered(steps: seq<Step>): seq<Byte> {
    if steps == [] then []
    else (if steps[0].Deliver? then steps[0].data else []) + Delivered(steps[1..])
  }

  /** Whether some batch of the run meets a ring it does not fit into. */
  predicate Drops(c: Channel, steps: seq<Step>)
    requires CanRun(c, steps)
    decreases |steps|
  {
    steps != [] && (
      || (steps[0].Deliver? && |c.contents| + |steps[0].data| > RING_SIZE)
      || Drops(Apply(c, steps[0]), steps[1..]))
  }

  lemma {:induction false} AcceptedGrows(c: Channel, steps: seq<Step>)
    requires CanRun(c, steps)
    ensures |Run(c, steps).accepted| <= |c.accepted| + |Delivered(steps)|
    decreases |steps|
  {
    if steps != [] { AcceptedGrows(Apply(c, steps[0]), steps[1..]); }
  }

  lemma DeliveredAllOf(c: Channel, data: seq<Byte>, later: seq<Byte>)
    requires |c.contents| <= RING_SIZE
    ensures |c.contents| + |data| <= RING_SIZE ==>
      Apply(c, Deliver(data)).accepted + later == c.accepted + (data + later)
    ensures |c.contents| + |data| > RING_SIZE ==>
      |Apply(c, Deliver(data)).accepted| < |c.accepted| + |data|
  {
    if |c.contents| + |data| <= RING_SIZE {
      assert Fitting(c.contents, data) == data;
    }
  }

  /** Everything delivered arrives exactly when no batch overflows the ring. */
  lemma {:induction false} NothingLost(c: Channel, steps: seq<Step>)
    requires CanRun(c, steps) && |c.contents| <= RING_SIZE
    ensures Run(c, steps).accepted == c.accepted + Delivered(steps) <==> !Drops(c, steps)
    decreases |steps|
  {
    if steps == [] {
      assert c.accepted + [] == c.accepted;
    } else {
      var d, later := Apply(c, steps[0]), Delivered(steps[1..]);
      NothingLost(d, steps[1..]);
      if steps[0].Deliver? {
        DeliveredAllOf(c, steps[0].data, later);
        AcceptedGrows(d, steps[1..]);
      } else {
        assert [] + later == later;
      }
    }
  }

  // ----- the ring --------------------------------------------------------

  datatype ReadResult = Got(byte: Byte) | Inactive | MustWait

  function Slot(tail: nat, i: nat): nat { (tail + i) % RING_SIZE }

  class ShellKiloSession {
    const buffer: array<Byte>
    var head: nat
    var tail: nat
    var count: nat
    var active: bool
    var dataReady: nat
    ghost var phase: Phase
    ghost var accepted: seq<Byte>
    ghost var returned: seq<Byte>
    ghost var discarded: seq<Byte>

    ghost predicate Valid()
      reads this
    {
      && buffer.Length == RING_SIZE
      && count <= RING_SIZE && tail < RING_SIZE
      && head == Slot(tail, count)
      && dataReady <= TOKEN_LIMIT
    }

    /** The bytes in the ring, oldest first. */
    ghost function Contents(): (s: seq<Byte>)
      requires Valid()
      reads this, buffer
      ensures |s| == count
    {
      seq(count, i requires 0 <= i < count reads this, buffer requires Valid() => buffer[Slot(tail, i)])
    }

    /** The session as the protocol sees it. */
    ghost function State(): Channel
      requires Valid()
      reads this, buffer
    {
      Channel(Contents(), dataReady, phase, accepted, returned, discarded)
    }

    constructor ()
      ensures Valid() && fresh(buffer) && active && State() == OPENED
    {
      buffer := new Byte[RING_SIZE](_ => 0);
      head, tail, count, active, dataReady := 0, 0, 0, true, 0;
      phase, accepted, returned, discarded := Running, [], [], [];
    }

    /** KiloBypassCallback under its lock: what does not fit is dropped. */
    method Deliver(data: seq<Byte>)
      requires Valid()
      modifies this, buffer
      ensures Valid() && active == old(active)
      ensures State() == Apply(old(State()), Step.Deliver(data))
    {
      ghost var before := Contents();
      var i := 0;
      while i < |data|
        invariant i <= |data| && Valid() && active == old(active) && tail == old(tail)
        invariant count == old(count) + i
        invariant Contents() == before + data[..i]
        invariant dataReady == Min(old(dataReady) + i, TOKEN_LIMIT)
        invariant phase == old(phase) && accepted == old(accepted)
        invariant returned == old(returned) && discarded == old(discarded)
      {
        if count >= RING_SIZE {
          break;
        }
        PutByte(data[i]);
        i := i + 1;
        assert data[..i] == data[..i - 1] + [data[i - 1]];
      }
      assert data[..i] == Fitting(before, data);
      accepted := accepted + data[..i];
    }

    /** One round of the delivery loop. */
    method PutByte(b: Byte)
      requires Valid() && count < RING_SIZE
      modifies `head, `count, `dataReady, buffer
      ensures Valid() && count == old(count) + 1
      ensures Contents() == old(Contents()) + [b]
      ensures dataReady == Min(old(dataReady) + 1, TOKEN_LIMIT)
    {
      buffer[head] := b;
      SlotsDiffer(tail, count);
      head := (head + 1) % RING_SIZE;
      count := count + 1;
      dataReady := if dataReady < TOKEN_LIMIT then dataReady + 1 else dataReady;
      NextSlot(tail, count);
    }

    lemma SlotsDiffer(t: nat, n: nat)
      requires t < RING_SIZE && n < RING_SIZE
      ensures forall i: nat :: i < n ==> Slot(t, i) != Slot(t, n)
    {}

    lemma NextSlot(t: nat, n: nat)
      requires t < RING_SIZE && 0 < n <= RING_SIZE
      ensures (Slot(t, n - 1) + 1) % RING_SIZE == Slot(t, n)
    {}

    /** One round of KiloReadChar under its lock. */
    method TryRead() returns (r: ReadResult)
      requires Valid() && phase == Running
      modifies `tail, `count, `phase, `returned
      ensures Valid()
      ensures r == if old(Contents()) != [] then Got(old(Contents())[0]) else if active then MustWait else Inactive
      ensures State() == if r == Inactive then old(State()) else Apply(old(State()), Read)
    {
      if count > 0 {
        var ch := buffer[tail];
        FirstSlot(tail, count);
        tail := (tail + 1) % RING_SIZE;
        count := count - 1;
        returned := returned + [ch];
        return Got(ch);
      }
      if active {
        phase := Waiting;
        return MustWait;
      }
      r := Inactive;
    }

    lemma FirstSlot(t: nat, n: nat)
      requires t < RING_SIZE && n <= RING_SIZE
      ensures Slot(t, 0) == t
      ensures forall i: nat :: i > 0 ==> Slot((t + 1) % RING_SIZE, i - 1) == Slot(t, i)
    {}

    /** The semaphore lets the reader go on. */
    method TakeToken()
      requires Valid() && phase == Waiting && dataReady > 0
      modifies `dataReady, `phase
      ensures Valid() && State() == Apply(old(State()), Wake)
    {
      dataReady := dataReady - 1;
      phase := Running;
    }

    /** The callbacks of several batches. */
    method DeliverAll(batches: seq<seq<Byte>>)
      requires Valid() && Inv(State())
      modifies this, buffer
      ensures Valid() && Inv(State()) && active == old(active) && phase == old(phase)
      ensures returned == old(returned) && old(Contents()) <= Contents() && dataReady >= old(dataReady)
    {
      for i := 0 to |batches|
        invariant Valid() && Inv(State()) && active == old(active) && phase == old(phase)
        invariant returned == old(returned) && old(Contents()) <= Contents() && dataReady >= old(dataReady)
      {
        StepKeepsInv(State(), Step.Deliver(batches[i]));
        Deliver(batches[i]);
      }
    }

    /** KiloReadChar. `arrivals[k]` is what the shell delivers in front of the reader's step
        number k, be it awake or asleep; when it sleeps on, nothing more is to come. It
        returns the oldest byte there is, or sleeps for good on an empty ring only. */
    method KiloReadChar(arrivals: seq<seq<seq<Byte>>>) returns (r: ReadResult, used: nat)
      requires Valid() && phase == Running && Inv(State())
      modifies this, buffer
      ensures Valid() && Inv(State()) && used <= |arrivals| && active == old(active)
      ensures r.Got? ==> phase == Running && returned == old(returned) + [r.byte]
      ensures r.Got? && old(Contents()) != [] ==> r.byte == old(Contents())[0]
      ensures r == MustWait ==> phase == Waiting && Contents() == [] && used == |arrivals| && returned == old(returned)
      ensures r == Inactive ==> !active && Contents() == [] && returned == old(returned)
      ensures old(Contents()) != [] ==> r.Got? && used <= 1
    {
      used := 0;
      while true
        invariant Valid() && phase == Running && Inv(State()) && used <= |arrivals|
        invariant returned == old(returned) && active == old(active)
        invariant old(Contents()) == [] || (used == 0 && Contents() == old(Contents()))
        decreases |arrivals| - used, dataReady
      {
        used := Arrive(arrivals, used);
        StepKeepsInv(State(), Read);
        r := TryRead();
        if r != MustWait {
          return;
        }
        var woken;
        woken, used := Sleep(arrivals, used);
        if !woken {
          return;
        }
      }
    }

    /** k_sem_take: false when no token is there and nothing more arrives. */
    method Sleep(arrivals: seq<seq<seq<Byte>>>, used: nat) returns (woken: bool, next: nat)
      requires Valid() && phase == Waiting && Inv(State()) && used <= |arrivals|
      modifies this, buffer
      ensures Valid() && Inv(State()) && used <= next <= |arrivals|
      ensures active == old(active) && returned == old(returned)
      ensures woken ==> phase == Running && (next == used ==> dataReady == old(dataReady) - 1)
      ensures !woken ==> phase == Waiting && Contents() == [] && next == |arrivals|
    {
      next := Arrive(arrivals, used);
      while dataReady == 0
        invariant Valid() && phase == Waiting && Inv(State()) && used <= next <= |arrivals|
        invariant returned == old(returned) && active == old(active)
        invariant next == used ==> used == |arrivals| && dataReady == old(dataReady)
        decreases |arrivals| - next
      {
        if next == |arrivals| {
          return false, next;
        }
        next := Arrive(arrivals, next);
      }
      StepKeepsInv(State(), Wake);
      TakeToken();
      woken := true;
    }

    /** The deliveries in front of the next step, if any are left. */
    method Arrive(arrivals: seq<seq<seq<Byte>>>, used: nat) returns (next: nat)
      requires Valid() && Inv(State()) && used <= |arrivals|
      modifies this, buffer
      ensures Valid() && Inv(State()) && active == old(active) && phase == old(phase)
      ensures returned == old(returned) && old(Contents()) <= Contents()
      ensures next == if used < |arrivals| then used + 1 else used
      ensures next == used ==> dataReady == old(dataReady) && Contents() == old(Contents())
    {
      next := used;
      if used < |arrivals| {
        DeliverAll(arrivals[used]);
        next := used + 1;
      }
    }

    /** The end of KiloThreadEntry: what is still in the ring is dropped. */
    method EndSession()
      requires Valid() && phase == Running
      modifies `active, `head, `tail, `count, `phase, `discarded
      ensures Valid() && !active && State() == Apply(old(State()), Close)
    {
      discarded, phase := Contents(), Closed;
      active, count, head, tail := false, 0, 0, 0;
    }

    /** The byte a peek shows is the byte the next read returns. */
    method Peek() returns (some: bool, b: Byte)
      requires Valid()
      ensures some <==> Contents() != []
      ensures some ==> b == Contents()[0]
    {
      if count == 0 {
        return false, 0;
      }
      FirstSlot(tail, count);
      some, b := true, buffer[tail];
    }
  }
}
