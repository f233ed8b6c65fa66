// drivers/e1000.c: the interrupt handler and e1000_send over their descriptor
// rings, with the device acting between any two statements.
module E1000 {
  import opened Machine
  import opened Ring
  import Rx = RxRing
  import Tx = TxRing

  class RxDriver {
    const done: array<bool>
    const buffer: array<Rx.Frame>
    var rdh: nat
    var rdt: nat
    var rxCur: nat
    var handled: seq<Rx.Frame>         // arguments of net_handle_packet
    var arrivals: seq<seq<Rx.Frame>>   // what reaches the device before each coming statement
    ghost var state: Rx.Rx

    ghost predicate Valid()
      reads this, done, buffer
    {
      && done as object != buffer && Rx.Inv(state)
      && done[..] == state.done && buffer[..] == state.buffer
      && rdh == state.rdh && rdt == state.rdt && rxCur == state.cur
      && handled == Rx.Accepted(state.delivered)
    }

    // e1000_rx_init
    constructor (arrivals: seq<seq<Rx.Frame>>)
      ensures Valid() && Rx.Initial(state) && fresh(done) && fresh(buffer)
    {
      done := new bool[Rx.NUM_RX_DESC](_ => false);
      var empty: Rx.Frame := [];
      buffer := new Rx.Frame[Rx.NUM_RX_DESC](_ => empty);
      rdh, rdt, rxCur, handled := 0, Rx.NUM_RX_DESC - 1, 0, [];
      this.arrivals := arrivals;
      new;
      state := Rx.Rx(done[..], buffer[..], 0, rdt, 0, Rx.Poll, [], []);
      Rx.InitialInv(state);
    }

    // The device takes what arrives before the next statement. The run observed
    // so far started at from.
    method Device(ghost from: Rx.Rx)
      requires Valid() && Rx.Reachable(from, state)
      modifies this`rdh, this`arrivals, this`state, done, buffer
      ensures Valid() && Rx.Reachable(from, state)
      ensures state.pc == old(state.pc) && state.delivered == old(state.delivered)
      ensures old(state.received) <= state.received
      ensures old(done[rxCur]) ==> done[rxCur]
      ensures Fuel() <= old(Fuel())
    {
      if arrivals == [] { return; }
      var frames := arrivals[0];
      arrivals := arrivals[1..];
      for i := 0 to |frames|
        invariant Valid() && Rx.Reachable(from, state)
        invariant state.pc == old(state.pc) && state.delivered == old(state.delivered)
        invariant old(state.received) <= state.received && |state.received| <= old(|state.received|) + i
        invariant old(done[rxCur]) ==> done[rxCur]
        invariant arrivals == old(arrivals)[1..]
      {
        Receive(from, frames[i]);
      }
    }

    method Receive(ghost from: Rx.Rx, frame: Rx.Frame)
      requires Valid() && Rx.Reachable(from, state)
      modifies this`rdh, this`state, done, buffer
      ensures Valid() && Rx.Reachable(from, state)
      ensures state == Rx.DeviceStep(old(state), frame)
    {
      hide Rx.Slot, Rx.Registers, Rx.Accepted, Rx.Reaches, Rx.Reachable, SlotOf, Ahead;
      Rx.Extend(from, state, Rx.Arrive(frame));
      state := Rx.DeviceStep(state, frame);
      if rdh != rdt {
        done[rdh], buffer[rdh] := true, frame;
        rdh := (rdh + 1) % Rx.NUM_RX_DESC;
      }
    }

    // Frames that may still be dealt with.
    ghost function Fuel(): int
      reads this
    {
      |state.received| - |state.delivered| + Total(arrivals)
    }

    // The driver has run one statement: so does the abstract machine.
    ghost method Ran(from: Rx.Rx)
      requires Rx.Inv(state) && Rx.Reachable(from, state)
      modifies this`state
      ensures state == Rx.DriverStep(old(state)) && Rx.Inv(state) && Rx.Reachable(from, state)
    {
      Rx.Extend(from, state, Rx.Driver);
      state := Rx.DriverStep(state);
    }

    // Every frame received before the call is dealt with when it returns. What
    // net_handle_packet has been given are those of 1 to 2048 bytes, in order.
    method IrqHandler(icr: Word)
      requires Valid() && state.pc == Rx.Poll
      modifies this, done, buffer
      ensures Valid() && state.pc == Rx.Poll && Rx.Reachable(old(state), state)
      ensures icr / 128 % 2 == 1 ==> old(state.received) <= state.delivered
      ensures exists kept: seq<nat> :: Rx.Selects(kept, state.delivered, handled)
      ensures icr / 128 % 2 == 0 ==> handled == old(handled)
    {
      ghost var from := state;
      Rx.ReachesItself(from);
      Rx.AcceptedExactly(state.delivered);
      hide Rx.Reaches, Rx.Reachable, Rx.Selects, Rx.Accepted;
      if icr / 128 % 2 == 0 { return; }
      while done[rxCur]
        invariant Valid() && state.pc == Rx.Poll && Rx.Reachable(from, state)
        invariant from.received <= state.received
        decreases Fuel()
      {
        Ran(from);
        Deliver(from);
        Recycle(from);
        Device(from);
      }
      Rx.AcceptedExactly(state.delivered);
      assert Rx.Slot(state, rxCur);
      AheadOfSlot(Rx.NUM_RX_DESC, |state.delivered|, 0);
    }

    lemma DeliverOne(fs: seq<Rx.Frame>, f: Rx.Frame)
      ensures Rx.Accepted(fs + [f]) == Rx.Accepted(fs) + if Rx.Handled(f) then [f] else []
    {
      assert (fs + [f])[..|fs|] == fs;
    }

    // The body of the handler's loop, up to the call of net_handle_packet.
    method Deliver(ghost from: Rx.Rx)
      requires Valid() && state.pc == Rx.Deliver && Rx.Reachable(from, state)
      modifies this, done, buffer
      ensures Valid() && state.pc == Rx.Clear && Rx.Reachable(from, state)
      ensures old(state.received) <= state.received
      ensures Fuel() < old(Fuel())
    {
      hide Rx.Slot, Rx.Registers, Rx.Accepted, Rx.Reaches, Rx.Reachable, SlotOf, Ahead;
      Device(from);
      var len := |buffer[rxCur]|;
      DeliverOne(state.delivered, buffer[rxCur]);
      if len > 0 && len <= Rx.RX_BUF_SIZE {
        handled := handled + [buffer[rxCur]];
      }
      Ran(from);
    }

    // The rest of the body: give the descriptor back to the device.
    method Recycle(ghost from: Rx.Rx)
      requires Valid() && state.pc == Rx.Clear && Rx.Reachable(from, state)
      modifies this, done, buffer
      ensures Valid() && state.pc == Rx.Poll && Rx.Reachable(from, state)
      ensures old(state.received) <= state.received
      ensures Fuel() <= old(Fuel())
    {
      hide Rx.Slot, Rx.Registers, Rx.Accepted, Rx.Reaches, Rx.Reachable, SlotOf, Ahead;
      Device(from);
      done[rxCur] := false;
      Ran(from);
      AdvanceTail(from);
    }

    method AdvanceTail(ghost from: Rx.Rx)
      requires Valid() && state.pc == Rx.Advance && Rx.Reachable(from, state)
      modifies this, done, buffer
      ensures Valid() && state.pc == Rx.Poll && Rx.Reachable(from, state)
      ensures old(state.received) <= state.received
      ensures Fuel() <= old(Fuel())
    {
      hide Rx.Slot, Rx.Registers, Rx.Accepted, Rx.Reaches, Rx.Reachable, SlotOf, Ahead;
      Device(from);
      var oldCur := rxCur;
      rxCur := (rxCur + 1) % Rx.NUM_RX_DESC;
      Ran(from);

      Device(from);
      rdt := oldCur;
      Ran(from);
    }
  }

  function Total(arrivals: seq<seq<Rx.Frame>>): nat {
    if arrivals == [] then 0 else |arrivals[0]| + Total(arrivals[1..])
  }

  class TxDriver {
    const done: array<bool>
    const report: array<bool>
    const buffer: array<Tx.Buffer>
    const length: array<nat>
    var nicFound: bool
    var tdh: nat
    var tdt: nat
    var txCur: nat
    var wire: seq<Tx.Frame>
    var completions: seq<nat>   // how many frames the device sends before each coming statement
    ghost var state: Tx.Tx

    ghost predicate Valid()
      reads this, done, report, buffer, length
    {
      && done != report && done as object != buffer && done as object != length
      && report as object != buffer && report as object != length && buffer as object != length
      && Tx.Inv(state)
      && done[..] == state.done && report[..] == state.report
      && buffer[..] == state.buffer && length[..] == state.length
      && tdh == state.tdh && tdt == state.tdt && txCur == state.cur && wire == state.wire
    }

    // e1000_tx_init
    constructor (completions: seq<nat>)
      ensures Valid() && Tx.Initial(state) && !nicFound
      ensures fresh(done) && fresh(report) && fresh(buffer) && fresh(length)
    {
      done := new bool[Tx.NUM_TX_DESC](_ => true);
      report := new bool[Tx.NUM_TX_DESC](_ => false);
      var zero: Tx.Buffer := seq(Tx.BUF_SIZE, _ => 0);
      buffer := new Tx.Buffer[Tx.NUM_TX_DESC](_ => zero);
      length := new nat[Tx.NUM_TX_DESC](_ => 0);
      nicFound, tdh, tdt, txCur, wire := false, 0, 0, 0, [];
      this.completions := completions;
      new;
      state := Tx.Tx(done[..], report[..], buffer[..], length[..], 0, 0, 0, Tx.Idle, [], []);
      Tx.InitialInv(state);
    }

    method Device(ghost from: Tx.Tx)
      requires Valid() && Tx.Reachable(from, state)
      modifies this`tdh, this`wire, this`completions, this`state, done
      ensures Valid() && Tx.Reachable(from, state)
      ensures state.pc == old(state.pc) && state.accepted == old(state.accepted)
      ensures |wire| >= old(|wire|)
    {
      if completions == [] { return; }
      var n := completions[0];
      completions := completions[1..];
      for i := 0 to n
        invariant Valid() && Tx.Reachable(from, state)
        invariant state.pc == old(state.pc) && state.accepted == old(state.accepted)
        invariant |wire| >= old(|wire|)
      {
        Transmit(from);
      }
    }

    method Transmit(ghost from: Tx.Tx)
      requires Valid() && Tx.Reachable(from, state)
      modifies this`tdh, this`wire, this`state, done
      ensures Valid() && Tx.Reachable(from, state)
      ensures state == Tx.DeviceStep(old(state))
    {
      hide Tx.Slot, Tx.Filled, Tx.Reaches, Tx.Reachable, SlotOf, Ahead;
      Tx.Extend(from, state, Tx.Device);
      state := Tx.DeviceStep(state);
      if tdh != tdt {
        wire := wire + [buffer[tdh][..length[tdh]]];
        done[tdh] := done[tdh] || report[tdh];
        tdh := (tdh + 1) % Tx.NUM_TX_DESC;
      }
    }

    ghost method Ran(from: Tx.Tx)
      requires Tx.Inv(state) && Tx.Reachable(from, state)
      modifies this`state
      ensures state == Tx.DriverStep(old(state)) && Tx.Inv(state) && Tx.Reachable(from, state)
    {
      Tx.Extend(from, state, Tx.Driver);
      state := Tx.DriverStep(state);
    }

    // e1000_send: 0 means the frame was handed to the device, anything else that
    // nothing was; -2 is returned exactly when all descriptors are pending.
    method Send(data: seq<Byte>) returns (r: int)
      requires Valid() && state.pc == Tx.Idle
      modifies this, done, report, buffer, length
      ensures Valid() && state.pc == Tx.Idle && Tx.Reachable(old(state), state)
      ensures nicFound == old(nicFound)
      ensures r == -1 <==> !nicFound || |data| > 2048
      ensures r == -2 <==> r != -1 && old(|state.accepted| - |state.wire|) == 8
      ensures r == 0 ==> state.accepted == old(state.accepted) + [data]
      ensures r != 0 ==> r in {-1, -2} && state.accepted == old(state.accepted)
    {
      ghost var from := state;
      Tx.ReachesItself(from);
      if !nicFound || |data| > Tx.BUF_SIZE { return -1; }
      Tx.Extend(from, state, Tx.Call(data));
      state := Tx.CallStep(state, data);

      hide Tx.Slot, Tx.Filled, Tx.Reaches, Tx.Reachable, SlotOf, Ahead;
      var available := WaitForSlot(from, data);
      if !available { return -2; }
      Fill(from, data);
      Publish(from, data);
      var oldCur := HandOver(from, data);
      WaitForCompletion(from, oldCur);
      return 0;
    }

    // The loop before the copy: it fails exactly when the ring was full at from.
    method WaitForSlot(ghost from: Tx.Tx, data: Tx.Frame) returns (available: bool)
      requires Valid() && Tx.Inv(from) && Tx.Reachable(from, state)
      requires state.pc == Tx.WaitSlot(data, Tx.TIMEOUT)
      requires state.accepted == from.accepted && state.wire == from.wire
      modifies this, done
      ensures Valid() && Tx.Reachable(from, state) && nicFound == old(nicFound)
      ensures available <==> Tx.PendingCount(from) != Tx.NUM_TX_DESC
      ensures state.pc == (if available then Tx.Copy(data) else Tx.Idle) && state.accepted == from.accepted
    {
      hide Tx.Slot, Tx.Filled, Tx.Reaches, Tx.Reachable, SlotOf, Ahead;
      var timeout := Tx.TIMEOUT;
      Device(from);
      while !done[txCur] && timeout > 1
        invariant 0 < timeout <= Tx.TIMEOUT && nicFound == old(nicFound)
        invariant Valid() && Tx.Reachable(from, state)
        invariant state.pc == Tx.WaitSlot(data, timeout) && state.accepted == from.accepted
        invariant |wire| >= |from.wire|
      {
        Ran(from);
        timeout := timeout - 1;
        Device(from);
      }
      available := done[txCur];
      WaitResult(from, state);
      Ran(from);
    }

    lemma WaitResult(from: Tx.Tx, s: Tx.Tx)
      requires Tx.Inv(from) && Tx.Inv(s) && Tx.Reachable(from, s) && s.pc.WaitSlot?
      requires s.accepted == from.accepted && |s.wire| >= |from.wire|
      ensures s.done[s.cur] <==> Tx.PendingCount(from) != Tx.NUM_TX_DESC
    {
      Tx.AvailableUnlessFull(s);
      if Tx.PendingCount(from) == Tx.NUM_TX_DESC {
        Tx.FullStaysFull(from, s);
      }
    }

    method Fill(ghost from: Tx.Tx, data: Tx.Frame)
      requires Valid() && Tx.Reachable(from, state) && state.pc == Tx.Copy(data)
      modifies this, done, report, buffer, length
      ensures Valid() && Tx.Reachable(from, state) && state.pc == Tx.SetCommand(data)
      ensures state.accepted == old(state.accepted) && nicFound == old(nicFound)
    {
      hide Tx.Slot, Tx.Filled, Tx.Reaches, Tx.Reachable, SlotOf, Ahead;
      Device(from);
      buffer[txCur] := Tx.Overwrite(buffer[txCur], data);
      Ran(from);
      Device(from);
      length[txCur] := |data|;
      Ran(from);
    }

    method Publish(ghost from: Tx.Tx, data: Tx.Frame)
      requires Valid() && Tx.Reachable(from, state) && state.pc == Tx.SetCommand(data)
      modifies this, done, report, buffer, length
      ensures Valid() && Tx.Reachable(from, state) && state.pc == Tx.Advance(data)
      ensures state.accepted == old(state.accepted) && nicFound == old(nicFound)
    {
      hide Tx.Slot, Tx.Filled, Tx.Reaches, Tx.Reachable, SlotOf, Ahead;
      Device(from);
      report[txCur] := true;
      Ran(from);
      Device(from);
      done[txCur] := false;
      Ran(from);
    }

    method HandOver(ghost from: Tx.Tx, data: Tx.Frame) returns (oldCur: nat)
      requires Valid() && Tx.Reachable(from, state) && state.pc == Tx.Advance(data)
      modifies this, done, report, buffer, length
      ensures Valid() && Tx.Reachable(from, state) && nicFound == old(nicFound)
      ensures state.pc == Tx.WaitDone(oldCur, Tx.TIMEOUT)
      ensures state.accepted == old(state.accepted) + [data]
    {
      hide Tx.Slot, Tx.Filled, Tx.Reaches, Tx.Reachable, SlotOf, Ahead;
      Device(from);
      oldCur := txCur;
      txCur := (txCur + 1) % Tx.NUM_TX_DESC;
      Ran(from);
      Device(from);
      tdt := txCur;
      Ran(from);
    }

    method WaitForCompletion(ghost from: Tx.Tx, oldCur: nat)
      requires Valid() && Tx.Reachable(from, state)
      requires state.pc == Tx.WaitDone(oldCur, Tx.TIMEOUT)
      modifies this, done, report, buffer, length
      ensures Valid() && Tx.Reachable(from, state) && state.pc == Tx.Idle
      ensures state.accepted == old(state.accepted) && nicFound == old(nicFound)
    {
      hide Tx.Slot, Tx.Filled, Tx.Reaches, Tx.Reachable, SlotOf, Ahead;
      var timeout := Tx.TIMEOUT;
      Device(from);
      while !done[oldCur] && timeout > 1
        invariant 0 < timeout <= Tx.TIMEOUT && nicFound == old(nicFound)
        invariant Valid() && Tx.Reachable(from, state)
        invariant state.pc == Tx.WaitDone(oldCur, timeout) && state.accepted == old(state.accepted)
      {
        Ran(from);
        timeout := timeout - 1;
        Device(from);
      }
      Ran(from);
    }
  }
}
