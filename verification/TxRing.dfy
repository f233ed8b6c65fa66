// The transmit ring of drivers/e1000.c as a machine of small steps: the device
// sends descriptors between any two statements of e1000_send.
module TxRing {
  import opened Machine
  import opened Ring

  const NUM_TX_DESC := 8
  const BUF_SIZE := 2048
  const TIMEOUT := 10000

  type Buffer = b: seq<Byte> | |b| == BUF_SIZE witness seq(BUF_SIZE, _ => 0)
  type Frame = f: seq<Byte> | |f| <= BUF_SIZE witness []

  // The statement of e1000_send that runs next, with what it still needs.
  datatype Pc =
    | Idle
    | WaitSlot(data: Frame, timeout: nat)
    | Copy(data: Frame) | SetLength(data: Frame) | SetCommand(data: Frame)
    | ClearStatus(data: Frame) | Advance(data: Frame) | WriteTail(data: Frame, oldCur: nat)
    | WaitDone(oldCur: nat, timeout: nat)

  datatype Tx = Tx(
    done: seq<bool>,       // DD bit of each descriptor
    report: seq<bool>,     // RS bit of its command: write DD back when sent
    buffer: seq<Buffer>, length: seq<nat>,
    tdh: nat, tdt: nat,    // the device's head and tail registers
    cur: nat,              // tx_cur
    pc: Pc,
    accepted: seq<Frame>,  // handed to the device by a write of the tail
    wire: seq<Frame>)      // sent so far

  // A call of e1000_send begins, the driver runs one statement, or the device
  // sends one frame.
  datatype Event = Call(data: Frame) | Driver | Device

  ghost predicate Shape(s: Tx) {
    && |s.done| == |s.report| == |s.buffer| == |s.length| == NUM_TX_DESC
    && s.tdh < NUM_TX_DESC && s.cur < NUM_TX_DESC
    && (s.pc.WriteTail? || s.pc.WaitDone? ==> s.pc.oldCur < NUM_TX_DESC)
    && (forall i :: 0 <= i < NUM_TX_DESC ==> s.length[i] <= BUF_SIZE)
  }

  // e1000_tx_init
  ghost predicate Initial(s: Tx) {
    && Shape(s) && (forall i :: 0 <= i < NUM_TX_DESC ==> s.done[i])
    && s.tdh == 0 && s.tdt == 0 && s.cur == 0 && s.pc == Idle && s.accepted == [] && s.wire == []
  }

  // memcpy(tx_buffers[i], data, len)
  function Overwrite(b: Buffer, data: Frame): Buffer {
    data + b[|data|..]
  }

  // The device stops at the tail; head equal to tail means nothing to send.
  function DeviceStep(s: Tx): Tx
    requires Shape(s)
  {
    if s.tdh == s.tdt then s
    else s.(wire := s.wire + [s.buffer[s.tdh][..s.length[s.tdh]]],
            done := s.done[s.tdh := s.done[s.tdh] || s.report[s.tdh]],
            tdh := (s.tdh + 1) % NUM_TX_DESC)
  }

  function CallStep(s: Tx, data: Frame): Tx {
    if s.pc == Idle then s.(pc := WaitSlot(data, TIMEOUT)) else s
  }

  function DriverStep(s: Tx): Tx
    requires Shape(s)
  {
    match s.pc
    case Idle => s
    case WaitSlot(d, k) =>
      if s.done[s.cur] then s.(pc := Copy(d))
      else if k > 1 then s.(pc := WaitSlot(d, k - 1))
      else s.(pc := Idle)  // returns -2
    case Copy(d) => s.(buffer := s.buffer[s.cur := Overwrite(s.buffer[s.cur], d)], pc := SetLength(d))
    case SetLength(d) => s.(length := s.length[s.cur := |d|], pc := SetCommand(d))
    case SetCommand(d) => s.(report := s.report[s.cur := true], pc := ClearStatus(d))
    case ClearStatus(d) => s.(done := s.done[s.cur := false], pc := Advance(d))
    case Advance(d) => s.(cur := (s.cur + 1) % NUM_TX_DESC, pc := WriteTail(d, s.cur))
    case WriteTail(d, i) => s.(tdt := s.cur, accepted := s.accepted + [d], pc := WaitDone(i, TIMEOUT))
    case WaitDone(i, k) =>
      if s.done[i] || k <= 1 then s.(pc := Idle)  // returns 0
      else s.(pc := WaitDone(i, k - 1))
  }

  function Step(s: Tx, e: Event): Tx
    requires Shape(s)
  {
    match e
    case Call(d) => CallStep(s, d)
    case Driver => DriverStep(s)
    case Device => DeviceStep(s)
  }

  // -- the invariant -----------------------------------------------------------

  // The driver has checked that its descriptor is available and not yet handed it over.
  predicate Claimed(pc: Pc) {
    pc.Copy? || pc.SetLength? || pc.SetCommand? || pc.ClearStatus? || pc.Advance? || pc.WriteTail?
  }

  function PendingCount(s: Tx): int { |s.accepted| - |s.wire| }

  // Slot j, seen from the oldest frame not yet sent: pending slots hold their
  // frame and are not marked done, every other slot is available, except the one
  // the driver is filling.
  ghost predicate Slot(s: Tx, j: nat)
    requires Shape(s) && j < NUM_TX_DESC
  {
    var w, n := |s.wire|, |s.accepted|;
    var a := Ahead(NUM_TX_DESC, w, j);
    if w + a < n then
      !s.done[j] && s.report[j] && s.buffer[j][..s.length[j]] == s.accepted[w + a]
    else if w + a == n && (s.pc.Advance? || s.pc.WriteTail?) then !s.done[j]
    else s.done[j]
  }

  // What the statements before pc have put into the claimed slot j.
  ghost predicate Filled(s: Tx, j: nat)
    requires Shape(s) && j < NUM_TX_DESC
  {
    && (s.pc.SetLength? ==> s.buffer[j][..|s.pc.data|] == s.pc.data)
    && (s.pc.SetCommand? || s.pc.ClearStatus? || s.pc.Advance? || s.pc.WriteTail? ==>
      s.length[j] == |s.pc.data| && s.buffer[j][..s.length[j]] == s.pc.data)
    && (s.pc.ClearStatus? || s.pc.Advance? || s.pc.WriteTail? ==> s.report[j])
  }

  ghost predicate Inv(s: Tx) {
    var w, n := |s.wire|, |s.accepted|;
    && Shape(s) && w <= n && s.wire <= s.accepted
    && n <= w + (if Claimed(s.pc) then NUM_TX_DESC - 1 else NUM_TX_DESC)
    && s.tdh == SlotOf(NUM_TX_DESC, w) && s.tdt == SlotOf(NUM_TX_DESC, n)
    && s.cur == SlotOf(NUM_TX_DESC, if s.pc.WriteTail? then n + 1 else n)
    && (s.pc.WriteTail? ==> s.pc.oldCur == SlotOf(NUM_TX_DESC, n))
    && (s.pc.WaitDone? ==> n > 0 && s.pc.oldCur == SlotOf(NUM_TX_DESC, n - 1))
    && (forall j: nat :: j < NUM_TX_DESC ==> Slot(s, j))
    && Filled(s, SlotOf(NUM_TX_DESC, n))
  }

  lemma InitialInv(s: Tx)
    requires Initial(s)
    ensures Inv(s)
  {
  }

  lemma DeviceStepInv(s: Tx)
    requires Inv(s)
    ensures Inv(DeviceStep(s))
  {
    hide SlotOf, Ahead;
    var t, w, n := DeviceStep(s), |s.wire|, |s.accepted|;
    if t != s {
      SlotEqual(NUM_TX_DESC, w, n);
      SlotNext(NUM_TX_DESC, w);
      AheadOfSlot(NUM_TX_DESC, w, 0);
      AheadOfSlot(NUM_TX_DESC, w, n - w);
      assert Slot(s, s.tdh);
      forall j: nat | j < NUM_TX_DESC ensures Slot(t, j) {
        assert Slot(s, j);
        SlotOfAhead(NUM_TX_DESC, w, j);
        AheadNext(NUM_TX_DESC, w, j);
      }
    }
  }

  lemma DriverStepInv(s: Tx)
    requires Inv(s)
    ensures Inv(DriverStep(s))
  {
    hide SlotOf, Ahead;
    var n := |s.accepted|;
    SlotNext(NUM_TX_DESC, n);
    if s.pc.WaitSlot? { AvailableUnlessFull(s); }
    assert Filled(DriverStep(s), SlotOf(NUM_TX_DESC, |DriverStep(s).accepted|));
    hide Filled, Slot;
    forall j: nat | j < NUM_TX_DESC ensures Slot(DriverStep(s), j) {
      DriverStepSlot(s, j);
    }
  }

  lemma DriverStepSlot(s: Tx, j: nat)
    requires Inv(s) && j < NUM_TX_DESC
    ensures Slot(DriverStep(s), j)
  {
    hide SlotOf, Ahead;
    var w, n := |s.wire|, |s.accepted|;
    SlotNext(NUM_TX_DESC, n);
    AheadOfSlot(NUM_TX_DESC, w, if n < w + NUM_TX_DESC then n - w else 0);
    assert Slot(s, j);
    SlotOfAhead(NUM_TX_DESC, w, j);
  }

  // -- whole runs ------------------------------------------------------------

  ghost predicate Reaches(s: Tx, events: seq<Event>, t: Tx)
    decreases |events|
  {
    if events == [] then t == s
    else
      var last := |events| - 1;
      exists u: Tx :: Reaches(s, events[..last], u) && Shape(u) && t == Step(u, events[last])
  }

  lemma StepInv(s: Tx, e: Event)
    requires Inv(s)
    ensures Inv(Step(s, e))
  {
    match e {
      case Call(d) =>
        var t := CallStep(s, d);
        forall j: nat | j < NUM_TX_DESC ensures Slot(t, j) {
          assert Slot(s, j);
        }
      case Driver => DriverStepInv(s);
      case Device => DeviceStepInv(s);
    }
  }

  lemma {:induction false} RunInv(s: Tx, events: seq<Event>, t: Tx)
    requires Inv(s) && Reaches(s, events, t)
    ensures Inv(t)
    decreases |events|
  {
    if events != [] {
      var last := |events| - 1;
      var u: Tx :| Reaches(s, events[..last], u) && Shape(u) && t == Step(u, events[last]);
      RunInv(s, events[..last], u);
      StepInv(u, events[last]);
    }
  }

  // Over every interleaving, timeouts included: what is on the wire is an
  // unmodified prefix of the frames handed to the device, in their order, and at
  // most eight are outstanding.
  lemma WireIsPrefix(s: Tx, events: seq<Event>, t: Tx)
    requires Initial(s) && Reaches(s, events, t)
    ensures t.wire <= t.accepted && |t.accepted| - |t.wire| <= 8
  {
    InitialInv(s);
    RunInv(s, events, t);
  }

  // When e1000_send sees its descriptor done, its frame and all before are sent.
  lemma DoneMeansSent(s: Tx)
    requires Inv(s) && s.pc.WaitDone? && s.done[s.pc.oldCur]
    ensures s.wire == s.accepted
  {
    var w, n := |s.wire|, |s.accepted|;
    assert Slot(s, s.pc.oldCur);
    if w < n { AheadOfSlot(NUM_TX_DESC, w, n - 1 - w); }
  }

  // A buffer is left alone from the write of the tail until it is sent.
  lemma PendingUntouched(s: Tx, e: Event, j: nat)
    requires Inv(s) && j < NUM_TX_DESC
    requires Ahead(NUM_TX_DESC, |s.wire|, j) < PendingCount(s)
    ensures Step(s, e).buffer[j] == s.buffer[j] && Step(s, e).length[j] == s.length[j]
  {
    hide SlotOf, Ahead;
    assert Slot(s, j);
    if Claimed(s.pc) {
      AheadOfSlot(NUM_TX_DESC, |s.wire|, PendingCount(s));
    }
  }

  // With one to seven frames outstanding the device can send the next; with all
  // eight its head equals its tail, which looks like an empty ring.
  lemma DeviceCanAdvance(s: Tx)
    requires Inv(s)
    ensures |DeviceStep(s).wire| > |s.wire| <==> 1 <= |s.accepted| - |s.wire| <= 7
  {
    SlotEqual(NUM_TX_DESC, |s.wire|, |s.accepted|);
  }

  lemma FullStep(s: Tx, e: Event)
    requires Inv(s) && PendingCount(s) == NUM_TX_DESC
    ensures Step(s, e).wire == s.wire && Step(s, e).accepted == s.accepted
  {
    DeviceCanAdvance(s);
    hide SlotOf, Ahead, Slot, Filled;
  }

  // With all eight outstanding the ring is dead: no event sends or accepts a
  // frame ever again.
  lemma {:induction false} FullIsStuck(s: Tx, events: seq<Event>, t: Tx)
    requires Inv(s) && PendingCount(s) == NUM_TX_DESC && Reaches(s, events, t)
    ensures t.wire == s.wire && t.accepted == s.accepted
    decreases |events|
  {
    if events != [] {
      var last := |events| - 1;
      var u: Tx :| Reaches(s, events[..last], u) && Shape(u) && t == Step(u, events[last]);
      RunInv(s, events[..last], u);
      FullIsStuck(s, events[..last], u);
      FullStep(u, events[last]);
    }
  }

  ghost predicate Reachable(s: Tx, t: Tx) {
    exists events: seq<Event> :: Reaches(s, events, t)
  }

  lemma ReachesItself(s: Tx)
    ensures Reachable(s, s)
  {
    assert Reaches(s, [], s);
  }

  lemma FullStaysFull(s: Tx, t: Tx)
    requires Inv(s) && PendingCount(s) == NUM_TX_DESC && Reachable(s, t)
    ensures PendingCount(t) == NUM_TX_DESC
  {
    var events: seq<Event> :| Reaches(s, events, t);
    FullIsStuck(s, events, t);
  }

  // The next descriptor is available exactly as long as not all are pending.
  lemma AvailableUnlessFull(s: Tx)
    requires Inv(s) && (s.pc.Idle? || s.pc.WaitSlot?)
    ensures s.done[s.cur] <==> PendingCount(s) < NUM_TX_DESC
  {
    hide SlotOf, Ahead;
    var w, n := |s.wire|, |s.accepted|;
    assert Slot(s, s.cur);
    if n < w + NUM_TX_DESC {
      AheadOfSlot(NUM_TX_DESC, w, n - w);
    } else {
      SlotEqual(NUM_TX_DESC, w, n);
      AheadOfSlot(NUM_TX_DESC, w, 0);
    }
  }

  // The driver runs k statements.
  function DriverSteps(s: Tx, k: nat): (t: Tx)
    requires Inv(s)
    ensures Inv(t)
    decreases k
  {
    if k == 0 then s else DriverStepInv(s); DriverSteps(DriverStep(s), k - 1)
  }

  lemma {:induction false} PollsOnFullRing(s: Tx, k: nat)
    requires Inv(s) && PendingCount(s) == NUM_TX_DESC && s.pc.WaitSlot? && k < s.pc.timeout
    ensures DriverSteps(s, k) == s.(pc := WaitSlot(s.pc.data, s.pc.timeout - k))
    decreases k
  {
    hide Inv;
    if k > 0 {
      DriverStepInv(s);
      AvailableUnlessFull(s);
      assert DriverStep(s) == s.(pc := WaitSlot(s.pc.data, s.pc.timeout - 1)) by { InvShape(s); }
      PollsOnFullRing(DriverStep(s), k - 1);
    }
  }

  lemma InvShape(s: Tx)
    requires Inv(s)
    ensures Shape(s)
  {
  }

  // On a full ring e1000_send reads the status 10000 times: it has not returned
  // after 9999 of them, and returns at the next.
  lemma GivesUpAfter10000Polls(s: Tx, data: Frame)
    requires Inv(s) && PendingCount(s) == 8 && s.pc == Idle
    ensures Inv(Step(s, Call(data)))
    ensures DriverSteps(Step(s, Call(data)), 9999).pc.WaitSlot?
    ensures DriverSteps(Step(s, Call(data)), 10000) == s
  {
    StepInv(s, Call(data));
    var t := Step(s, Call(data));
    PollsOnFullRing(t, 9999);
    hide Inv, DriverSteps, DriverStep;
    LastStep(t, 9999);
    LastPoll(s, data);
  }

  lemma {:induction false} LastStep(s: Tx, k: nat)
    requires Inv(s)
    ensures Shape(DriverSteps(s, k)) && DriverSteps(s, k + 1) == DriverStep(DriverSteps(s, k))
    decreases k
  {
    hide Inv;
    InvShape(s);
    InvShape(DriverSteps(s, k));
    DriverStepInv(s);
    if k > 0 {
      LastStep(DriverStep(s), k - 1);
    }
  }

  lemma LastPoll(s: Tx, data: Frame)
    requires Inv(s) && PendingCount(s) == 8 && s.pc == Idle
    ensures DriverStep(s.(pc := WaitSlot(data, 1))) == s
  {
    AvailableUnlessFull(s);
  }

  // -- the dead state can be reached ----------------------------------------------

  lemma Extend(s: Tx, t: Tx, e: Event)
    requires Reachable(s, t) && Inv(t)
    ensures Reachable(s, Step(t, e)) && Inv(Step(t, e))
  {
    var events: seq<Event> :| Reaches(s, events, t);
    var more := events + [e];
    assert more[..|events|] == events;
    assert Reaches(s, more, Step(t, e));
    StepInv(t, e);
  }

  // Waiting for a descriptor the device does not get to ends by timeout.
  lemma {:induction false} WaitTimesOut(s: Tx, t: Tx)
    requires Reachable(s, t) && Inv(t) && t.pc.WaitDone? && !t.done[t.pc.oldCur]
    ensures Reachable(s, t.(pc := Idle)) && Inv(t.(pc := Idle))
    decreases t.pc.timeout
  {
    hide SlotOf, Ahead, Slot, Filled, Reaches, Reachable;
    Extend(s, t, Driver);
    if t.pc.timeout > 1 {
      WaitTimesOut(s, DriverStep(t));
    }
  }

  // One e1000_send while the device stands still: it is accepted and returns 0.
  lemma SendWithoutDevice(s: Tx, t: Tx, data: Frame) returns (u: Tx)
    requires Reachable(s, t) && Inv(t) && t.pc == Idle && PendingCount(t) < NUM_TX_DESC
    ensures Reachable(s, u) && Inv(u) && u.pc == Idle
    ensures u.accepted == t.accepted + [data] && u.wire == t.wire
  {
    hide SlotOf, Ahead, Slot, Filled, Reaches, Reachable;
    AvailableUnlessFull(t);
    u := t;
    Extend(s, u, Call(data));
    u := Step(u, Call(data));
    Extend(s, u, Driver);
    u := Step(u, Driver);
    assert u.pc == Copy(data);
    while !u.pc.WaitDone?
      invariant Reachable(s, u) && Inv(u) && u.wire == t.wire
      invariant (Claimed(u.pc) && u.pc.data == data && u.accepted == t.accepted)
        || (u.pc.WaitDone? && u.accepted == t.accepted + [data])
      decreases Remaining(u.pc)
    {
      Extend(s, u, Driver);
      u := Step(u, Driver);
    }
    if u.done[u.pc.oldCur] { DoneMeansSent(u); }
    WaitTimesOut(s, u);
    u := u.(pc := Idle);
  }

  function Remaining(pc: Pc): nat {
    match pc
    case Copy(_) => 6 case SetLength(_) => 5 case SetCommand(_) => 4
    case ClearStatus(_) => 3 case Advance(_) => 2 case WriteTail(_, _) => 1
    case _ => 0
  }

  // From reset, eight sends that all time out waiting for completion fill the
  // ring, which FullIsStuck shows is final.
  lemma FullIsReachable(s: Tx, data: Frame) returns (t: Tx)
    requires Initial(s)
    ensures Reachable(s, t) && Inv(t) && PendingCount(t) == NUM_TX_DESC
  {
    InitialInv(s);
    ReachesItself(s);
    hide Inv, Reaches, Reachable;
    t := s;
    while PendingCount(t) < NUM_TX_DESC
      invariant Reachable(s, t) && Inv(t) && t.pc == Idle
      decreases NUM_TX_DESC - PendingCount(t)
    {
      t := SendWithoutDevice(s, t, data);
    }
  }
}
