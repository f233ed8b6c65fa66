// The receive ring of drivers/e1000.c as a machine of small steps: the device
// fills descriptors between any two statements of the interrupt handler.
module RxRing {
  import opened Machine
  import opened Ring

  const NUM_RX_DESC := 32
  const RX_BUF_SIZE := 2048

  // What the device reports in a descriptor, whose length field has 16 bits.
  type Frame = f: seq<Byte> | |f| < TWO_16 witness []

  // The handler passes on only frames that are not empty and fit the buffer.
  predicate Handled(f: Frame) { 0 < |f| <= RX_BUF_SIZE }

  function Accepted(fs: seq<Frame>): seq<Frame> {
    if fs == [] then [] else Accepted(fs[..|fs| - 1]) + if Handled(fs[|fs| - 1]) then [fs[|fs| - 1]] else []
  }

  lemma {:induction false} AcceptedOfBoth(a: seq<Frame>, b: seq<Frame>)
    ensures Accepted(a + b) == Accepted(a) + Accepted(b)
  {
    if b == [] {
      assert a + b == a;
    } else {
      var n := |b| - 1;
      assert (a + b)[..|a| + n] == a + b[..n];
      AcceptedOfBoth(a, b[..n]);
    }
  }

  // The positions kept go up, they are those of all frames of 1 to 2048 bytes, and
  // the frames there are what came out.
  ghost predicate Selects(kept: seq<nat>, fs: seq<Frame>, out: seq<Frame>) {
    && |kept| == |out|
    && (forall i, j :: 0 <= i < j < |kept| ==> kept[i] < kept[j])
    && (forall i :: 0 <= i < |kept| ==> kept[i] < |fs| && out[i] == fs[kept[i]])
    && (forall k: nat :: k < |fs| ==> (k in kept <==> 1 <= |fs[k]| <= 2048))
  }

  lemma {:induction false} AcceptedExactly(fs: seq<Frame>)
    ensures exists kept: seq<nat> :: Selects(kept, fs, Accepted(fs))
  {
    hide Selects;
    if fs == [] {
      SelectsNothing();
      assert Accepted(fs) == [] && Selects([], fs, Accepted(fs));
    } else {
      var n := |fs| - 1;
      AcceptedExactly(fs[..n]);
      var kept: seq<nat> :| Selects(kept, fs[..n], Accepted(fs[..n]));
      assert fs == fs[..n] + [fs[n]];
      if Handled(fs[n]) {
        SelectsOneMore(kept, fs[..n], Accepted(fs[..n]), fs[n]);
        assert Accepted(fs) == Accepted(fs[..n]) + [fs[n]];
      } else {
        SelectsNoMore(kept, fs[..n], Accepted(fs[..n]), fs[n]);
        assert Accepted(fs) == Accepted(fs[..n]);
      }
    }
  }

  lemma SelectsNothing()
    ensures Selects([], [], [])
  {
  }

  lemma SelectsOneMore(kept: seq<nat>, fs: seq<Frame>, out: seq<Frame>, f: Frame)
    requires Selects(kept, fs, out) && Handled(f)
    ensures Selects(kept + [|fs|], fs + [f], out + [f])
  {
    var more, gs := kept + [|fs|], fs + [f];
    forall k: nat | k < |gs| ensures k in more <==> 1 <= |gs[k]| <= 2048 {
      if k < |fs| { assert gs[k] == fs[k]; }
    }
  }

  lemma SelectsNoMore(kept: seq<nat>, fs: seq<Frame>, out: seq<Frame>, f: Frame)
    requires Selects(kept, fs, out) && !Handled(f)
    ensures Selects(kept, fs + [f], out)
  {
    var gs := fs + [f];
    forall k: nat | k < |gs| ensures k in kept <==> 1 <= |gs[k]| <= 2048 {
      if k < |fs| { assert gs[k] == fs[k]; }
    }
  }

  // The statement of the handler's loop that runs next.
  datatype Pc = Poll | Deliver | Clear | Advance | WriteTail(oldCur: nat)

  datatype Rx = Rx(
    done: seq<bool>,        // DD bit of each descriptor
    buffer: seq<Frame>,     // buffer and length of each descriptor
    rdh: nat, rdt: nat,     // the device's head and tail registers
    cur: nat,               // rx_cur
    pc: Pc,
    delivered: seq<Frame>,  // dealt with by the handler so far
    received: seq<Frame>)   // accepted by the device so far

  // One frame reaches the device, or the driver runs one statement.
  datatype Event = Arrive(frame: Frame) | Driver

  ghost predicate Shape(s: Rx) {
    |s.done| == |s.buffer| == NUM_RX_DESC && s.rdh < NUM_RX_DESC && s.cur < NUM_RX_DESC
  }

  // e1000_rx_init
  ghost predicate Initial(s: Rx) {
    && Shape(s) && (forall i :: 0 <= i < NUM_RX_DESC ==> !s.done[i])
    && s.rdh == 0 && s.rdt == NUM_RX_DESC - 1 && s.cur == 0 && s.pc == Poll
    && s.delivered == [] && s.received == []
  }

  // The device owns the descriptors from head up to tail, tail excluded; a frame
  // that finds none is lost before the ring.
  function DeviceStep(s: Rx, f: Frame): Rx
    requires Shape(s)
  {
    if s.rdh == s.rdt then s
    else s.(done := s.done[s.rdh := true], buffer := s.buffer[s.rdh := f],
            rdh := (s.rdh + 1) % NUM_RX_DESC, received := s.received + [f])
  }

  function DriverStep(s: Rx): Rx
    requires Shape(s)
  {
    match s.pc
    case Poll => if s.done[s.cur] then s.(pc := Deliver) else s
    case Deliver => s.(delivered := s.delivered + [s.buffer[s.cur]], pc := Clear)
    case Clear => s.(done := s.done[s.cur := false], pc := Advance)
    case Advance => s.(cur := (s.cur + 1) % NUM_RX_DESC, pc := WriteTail(s.cur))
    case WriteTail(oldCur) => s.(rdt := oldCur, pc := Poll)
  }

  function Step(s: Rx, e: Event): Rx
    requires Shape(s)
  {
    match e
    case Arrive(f) => DeviceStep(s, f)
    case Driver => DriverStep(s)
  }

  // -- the invariant -----------------------------------------------------------

  // Frames whose descriptor the driver has moved past, counted from reset.
  ghost function Passed(s: Rx): int {
    |s.delivered| - if s.pc.Clear? || s.pc.Advance? then 1 else 0
  }

  // The oldest frame whose descriptor is still marked.
  ghost function Oldest(s: Rx): int {
    if s.pc.Advance? then Passed(s) + 1 else Passed(s)
  }

  // Slot j holds the next frame, counted from the oldest, that goes through it.
  ghost predicate Slot(s: Rx, j: nat)
    requires Shape(s) && j < NUM_RX_DESC
  {
    var k := Oldest(s) + Ahead(NUM_RX_DESC, Oldest(s), j);
    (s.done[j] <==> k < |s.received|) && (0 <= k < |s.received| ==> s.buffer[j] == s.received[k])
  }

  ghost predicate Registers(s: Rx) {
    var b := Passed(s);
    && s.rdh == SlotOf(NUM_RX_DESC, |s.received|) && s.cur == SlotOf(NUM_RX_DESC, b)
    && s.rdt == SlotOf(NUM_RX_DESC, if s.pc.WriteTail? then b - 2 else b - 1)
    && (s.pc.WriteTail? ==> b > 0 && s.pc.oldCur == SlotOf(NUM_RX_DESC, b - 1))
  }

  ghost predicate Inv(s: Rx) {
    var n, b := |s.received|, Passed(s);
    && Shape(s) && Registers(s) && 0 <= b && s.delivered <= s.received
    && n <= b + (if s.pc.WriteTail? then NUM_RX_DESC - 2 else NUM_RX_DESC - 1)
    && (!s.pc.Poll? && !s.pc.WriteTail? ==> b < n)
    && (forall j: nat :: j < NUM_RX_DESC ==> Slot(s, j))
  }

  lemma InitialInv(s: Rx)
    requires Initial(s)
    ensures Inv(s)
  {
  }

  lemma DeviceStepInv(s: Rx, f: Frame)
    requires Inv(s)
    ensures Inv(DeviceStep(s, f))
  {
    hide SlotOf, Ahead;
    var t, n, k := DeviceStep(s, f), |s.received|, Oldest(s);
    if t != s {
      SlotEqual(NUM_RX_DESC, if s.pc.WriteTail? then k - 2 else Passed(s) - 1, n);
      SlotNext(NUM_RX_DESC, n);
      assert n < k + NUM_RX_DESC;
      forall j: nat | j < NUM_RX_DESC ensures Slot(t, j) {
        assert Slot(s, j);
        SlotOfAhead(NUM_RX_DESC, k, j);
        AheadOfSlot(NUM_RX_DESC, k, n - k);
      }
    }
  }

  lemma DriverStepInv(s: Rx)
    requires Inv(s)
    ensures Inv(DriverStep(s))
  {
    hide SlotOf, Ahead;
    var t, b := DriverStep(s), Passed(s);
    AheadOfSlot(NUM_RX_DESC, b, 0);
    SlotNext(NUM_RX_DESC, b);
    assert Slot(s, s.cur);
    forall j: nat | j < NUM_RX_DESC ensures Slot(t, j) {
      assert Slot(s, j);
      SlotOfAhead(NUM_RX_DESC, b, j);
      AheadNext(NUM_RX_DESC, b, j);
    }
  }

  lemma StepInv(s: Rx, e: Event)
    requires Inv(s)
    ensures Inv(Step(s, e))
  {
    match e {
      case Arrive(f) => DeviceStepInv(s, f);
      case Driver => DriverStepInv(s);
    }
  }

  // -- whole runs ------------------------------------------------------------

  ghost predicate Reaches(s: Rx, events: seq<Event>, t: Rx)
    decreases |events|
  {
    if events == [] then t == s
    else
      var last := |events| - 1;
      exists u: Rx :: Reaches(s, events[..last], u) && Shape(u) && t == Step(u, events[last])
  }

  // The buffers from rx_cur up to the head register, in ring order.
  ghost function Waiting(s: Rx): seq<Frame>
    requires Shape(s)
  {
    seq(Ahead(NUM_RX_DESC, s.cur, s.rdh), i requires i >= 0 => s.buffer[SlotOf(NUM_RX_DESC, s.cur + i)])
  }

  lemma {:induction false} RunInv(s: Rx, events: seq<Event>, t: Rx)
    requires Inv(s) && Reaches(s, events, t)
    ensures Inv(t)
    decreases |events|
  {
    if events != [] {
      var last := |events| - 1;
      var u: Rx :| Reaches(s, events[..last], u) && Shape(u) && t == Step(u, events[last]);
      RunInv(s, events[..last], u);
      StepInv(u, events[last]);
    }
  }

  // At the head of the handler's loop, whatever was interleaved before: the
  // frames delivered followed by the frames waiting in the ring are exactly the
  // frames the device received, in order, and so are those of them that the
  // network stack gets; the marked descriptors are those from
  // rx_cur up to the head; and the tail is one behind rx_cur.
  lemma NothingLost(s: Rx, events: seq<Event>, t: Rx)
    requires Initial(s) && Reaches(s, events, t) && t.pc == Poll
    ensures Shape(t) && t.delivered + Waiting(t) == t.received
    ensures Accepted(t.delivered) + Accepted(Waiting(t)) == Accepted(t.received)
    ensures forall j: nat :: j < 32 ==> (t.done[j] <==> Ahead(32, t.cur, j) < Ahead(32, t.cur, t.rdh))
    ensures (t.rdt + 1) % 32 == t.cur
  {
    hide Reaches, Slot, Accepted, SlotOf, Ahead;
    InitialInv(s);
    RunInv(s, events, t);
    WaitingIsReceived(t);
    AcceptedOfBoth(t.delivered, Waiting(t));
    SlotNext(NUM_RX_DESC, |t.delivered| - 1);
  }

  lemma WaitingIsReceived(t: Rx)
    requires Inv(t) && t.pc == Poll
    ensures t.delivered + Waiting(t) == t.received
    ensures forall j: nat :: j < NUM_RX_DESC ==>
      (t.done[j] <==> Ahead(NUM_RX_DESC, t.cur, j) < Ahead(NUM_RX_DESC, t.cur, t.rdh))
  {
    var b, n := |t.delivered|, |t.received|;
    hide SlotOf, Ahead;
    FromSlot(NUM_RX_DESC, b, t.rdh);
    AheadOfSlot(NUM_RX_DESC, b, n - b);
    forall j: nat | j < NUM_RX_DESC
      ensures t.done[j] <==> Ahead(NUM_RX_DESC, t.cur, j) < Ahead(NUM_RX_DESC, t.cur, t.rdh)
    {
      assert Slot(t, j);
      FromSlot(NUM_RX_DESC, b, j);
    }
    forall i: nat | i < n - b ensures Waiting(t)[i] == t.received[b + i] {
      assert Slot(t, SlotOf(NUM_RX_DESC, t.cur + i));
      AheadOfSlot(NUM_RX_DESC, b, i);
      FromSlot(NUM_RX_DESC, b, i);
    }
    assert t.received == t.received[..b] + t.received[b..];
    assert Waiting(t) == t.received[b..];
  }

  // The device never overwrites a frame that is not yet delivered, and what is
  // delivered never changes: delivery is always a prefix of reception.
  lemma DeliveredIsPrefix(s: Rx, events: seq<Event>, t: Rx)
    requires Initial(s) && Reaches(s, events, t)
    ensures t.delivered <= t.received
    ensures |t.received| - |t.delivered| < 32
  {
    InitialInv(s);
    RunInv(s, events, t);
  }

  ghost predicate Reachable(s: Rx, t: Rx) {
    exists events: seq<Event> :: Reaches(s, events, t)
  }

  lemma ReachesItself(s: Rx)
    ensures Reachable(s, s)
  {
    assert Reaches(s, [], s);
  }

  lemma Extend(s: Rx, t: Rx, e: Event)
    requires Reachable(s, t) && Inv(t)
    ensures Reachable(s, Step(t, e)) && Inv(Step(t, e))
  {
    var events: seq<Event> :| Reaches(s, events, t);
    var more := events + [e];
    assert more[..|events|] == events;
    assert Reaches(s, more, Step(t, e));
    StepInv(t, e);
  }
}
