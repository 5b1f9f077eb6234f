/**
 * The interrupt-driven MIDI-OUT driver of src/midi/wersja.A1/midi_out.c: a
 * 64-byte ring buffer filled by `midi_send_byte`, and a Timer 1 interrupt
 * that shifts each byte out on Port B bit 0 as an 8N1 frame (start bit,
 * eight data bits LSB first, stop bit).
 *
 * The VIA registers are not modelled; the levels written to the MIDI pin
 * are kept, oldest first, and the Timer 1 interrupt flag is a parameter of
 * the handler.
 */
module MidiA1 {
  import opened Common
  import opened MidiRing

  const SIZE: int := 64

  const IDLE: int := 0
  const START: int := 1
  const DATA: int := 2
  const STOP: int := 3

  /** The ring and the transmitter registers `tx_state`, `tx_byte`, `tx_bit_count`, `tx_active`. */
  datatype Tx = Tx(ring: Ring, state: int, txByte: byte, bitCount: int, active: bool)

  /**
   * What the driver keeps true between calls: the transmitter is active
   * exactly when it is not idle, and an idle transmitter has an empty
   * buffer, because it is started whenever a byte is queued.
   */
  predicate Inv(t: Tx)
  {
    RingOk(t.ring) && |t.ring.buf| == SIZE && IDLE <= t.state <= STOP &&
    (t.active <==> t.state != IDLE) && (!t.active ==> t.ring.head == t.ring.tail) &&
    0 <= t.bitCount <= 8 && (t.state == DATA ==> t.bitCount < 8)
  }

  /** The bytes still to go out whole: the one loaded but not started, then the buffer. */
  function Backlog(t: Tx): seq<byte>
    requires RingOk(t.ring)
  {
    (if t.state == START then [t.txByte] else []) + Contents(t.ring)
  }

  /** `start_transmission`: when idle and the buffer holds a byte, load it and arm the transmitter. */
  function Begin(t: Tx): Tx
    requires RingOk(t.ring)
  {
    if t.active || t.ring.head == t.ring.tail then t
    else
      var (b, r) := Pop(t.ring);
      Tx(r, START, b, 0, true)
  }

  /** `midi_send_byte`: refuse when full, else queue the byte and start an idle transmitter. */
  function Put(t: Tx, b: byte): (bool, Tx)
    requires RingOk(t.ring)
  {
    var (ok, r) := Offer(t.ring, b);
    if !ok then (false, t)
    else
      var t1 := t.(ring := r);
      (true, if !t1.active then Begin(t1) else t1)
  }

  /**
   * `midi_irq_handler`: nothing unless the Timer 1 flag is set; then one
   * step of the transmitter and the levels it writes to the pin.
   */
  function Irq(t: Tx, timerFlag: bool): (Tx, seq<bool>)
    requires RingOk(t.ring)
  {
    if !timerFlag then (t, [])
    else if t.state == START then (t.(state := DATA, bitCount := 0), [false])
    else if t.state == DATA then
      var t1 := t.(txByte := t.txByte / 2, bitCount := t.bitCount + 1);
      (if t1.bitCount >= 8 then t1.(state := STOP) else t1, [t.txByte % 2 == 1])
    else if t.state == STOP then
      if t.ring.head != t.ring.tail then
        var (b, r) := Pop(t.ring);
        (Tx(r, START, b, 0, t.active), [true])
      else (t.(state := IDLE, active := false), [true])
    else (t.(active := false), [])
  }

  /** A queued byte joins the end of the backlog; it is refused exactly when there is no room. */
  lemma PutBacklog(t: Tx, b: byte)
    requires Inv(t)
    ensures var (ok, t') := Put(t, b);
      Inv(t') && (ok <==> Free(t.ring) > 0) &&
      Backlog(t') == Backlog(t) + (if ok then [b] else []) &&
      Free(t'.ring) >= Free(t.ring) - 1 && (!ok ==> t' == t)
  {
    OfferContents(t.ring, b);
    CountRange(t.ring);
    var (ok, r) := Offer(t.ring, b);
    if ok && !t.active {
      CountRange(r);
      PopContents(r);
      var (b', r') := Pop(r);
      CountRange(r');
    }
  }

  /** The interrupt keeps the invariant. */
  lemma IrqInv(t: Tx, timerFlag: bool)
    requires Inv(t)
    ensures Inv(Irq(t, timerFlag).0)
  {
    if timerFlag && t.state == STOP && t.ring.head != t.ring.tail {
      CountRange(Pop(t.ring).1);
    }
  }

  /** `n` timer interrupts in a row, and all the levels they write. */
  function Ticks(t: Tx, n: nat): (Tx, seq<bool>)
    requires Inv(t)
    decreases n
  {
    if n == 0 then (t, [])
    else
      IrqInv(t, true);
      var (t1, p1) := Irq(t, true);
      var (t2, p2) := Ticks(t1, n - 1);
      (t2, p1 + p2)
  }

  lemma {:induction false} TicksSnoc(t: Tx, n: nat)
    requires Inv(t)
    ensures Inv(Ticks(t, n).0)
    ensures var (tn, p) := Ticks(t, n);
      Ticks(t, n + 1) == (Irq(tn, true).0, p + Irq(tn, true).1)
    decreases n
  {
    IrqInv(t, true);
    var (t1, p1) := Irq(t, true);
    if n > 0 {
      TicksSnoc(t1, n - 1);
      var (tm, q) := Ticks(t1, n - 1);
      var last := Irq(tm, true).1;
      assert p1 + (q + last) == (p1 + q) + last;
    } else {
      assert p1 + [] == [] + p1;
    }
  }

  /** The last `k` data bits go out LSB first, then the transmitter reaches the stop state. */
  lemma {:induction false} DataTicks(t: Tx, k: nat)
    requires Inv(t) && t.state == DATA && 1 <= k <= 8 && t.bitCount == 8 - k
    ensures var (t', p) := Ticks(t, k);
      p == DataBits(t.txByte, k) && t'.state == STOP && t'.bitCount == 8 && t'.ring == t.ring && t'.active
    decreases k
  {
    IrqInv(t, true);
    var t1 := Irq(t, true).0;
    if k > 1 {
      DataTicks(t1, k - 1);
    }
  }

  /** The stop bit: the pin goes high and the next byte is loaded, or the transmitter goes idle. */
  lemma StopTick(t: Tx)
    requires Inv(t) && t.state == STOP
    ensures var (t', p) := Irq(t, true);
      p == [true] && Inv(t') && Backlog(t') == Contents(t.ring) &&
      (t'.state == START || (t'.state == IDLE && Backlog(t') == []))
  {
    IrqInv(t, true);
    if t.ring.head != t.ring.tail {
      PopContents(t.ring);
    } else {
      CountRange(t.ring);
    }
  }

  /**
   * Ten interrupts from the start state put the loaded byte on the pin as
   * an 8N1 frame, and take that byte off the backlog: the next one is
   * loaded, or the transmitter goes idle.
   */
  lemma SendsFrame(t: Tx)
    requires Inv(t) && t.state == START
    ensures var (t', p) := Ticks(t, 10);
      p == Frame(t.txByte) && Inv(t') && Backlog(t') == Backlog(t)[1..] &&
      (t'.state == START || (t'.state == IDLE && Backlog(t') == []))
  {
    var t1 := Irq(t, true).0;
    assert Inv(t1) && t1.state == DATA && t1.bitCount == 0 && t1.txByte == t.txByte && t1.ring == t.ring by {
      IrqInv(t, true);
    }
    assert Ticks(t, 10) == (Ticks(t1, 9).0, [false] + Ticks(t1, 9).1);
    var (t9, bits) := Ticks(t1, 8);
    assert bits == DataBits(t.txByte, 8) && t9.state == STOP && t9.ring == t.ring && Inv(t9) by {
      DataTicks(t1, 8);
      TicksSnoc(t1, 8);
    }
    assert Ticks(t1, 9) == (Irq(t9, true).0, bits + Irq(t9, true).1) by {
      TicksSnoc(t1, 8);
    }
    StopTick(t9);
    FrameSplit(t.txByte, bits);
    assert Backlog(t)[1..] == Contents(t.ring);
  }

  /** A message helper: one `midi_send_byte` per byte, its result ignored. */
  function SendAll(t: Tx, m: seq<byte>): (t': Tx)
    requires Inv(t)
    ensures Inv(t')
    decreases |m|
  {
    if m == [] then t
    else
      PutBacklog(t, m[0]);
      SendAll(Put(t, m[0]).1, m[1..])
  }

  /**
   * A helper queues a prefix of its message: once a byte is refused the
   * buffer stays full and the rest are refused too.
   */
  lemma {:induction false} SendAllBacklog(t: Tx, m: seq<byte>)
    requires Inv(t)
    ensures var q := Backlog(SendAll(t, m));
      |Backlog(t)| <= |q| <= |Backlog(t)| + |m| && q == Backlog(t) + m[..|q| - |Backlog(t)|]
    decreases |m|
  {
    if m != [] {
      PutBacklog(t, m[0]);
      var (ok, t1) := Put(t, m[0]);
      if ok {
        SendAllBacklog(t1, m[1..]);
        var q := Backlog(SendAll(t1, m[1..]));
        assert SendAll(t, m) == SendAll(t1, m[1..]);
        QueuedOneMore(Backlog(t), Backlog(t1), q, m, |q| - |Backlog(t1)|);
      } else {
        SendAllRefused(t, m[1..]);
        assert Backlog(t) + m[..0] == Backlog(t);
      }
    } else {
      assert Backlog(t) + m[..0] == Backlog(t);
    }
  }

  /**
   * With room for the whole message, all of it is queued (the demo checks
   * for room for six bytes before a note-on and a note-off).
   */
  lemma {:induction false} SendAllRoom(t: Tx, m: seq<byte>)
    requires Inv(t) && |m| <= Free(t.ring)
    ensures Backlog(SendAll(t, m)) == Backlog(t) + m
    decreases |m|
  {
    if m != [] {
      var t1 := Put(t, m[0]).1;
      assert Inv(t1) && Backlog(t1) == Backlog(t) + [m[0]] && |m[1..]| <= Free(t1.ring) by {
        PutBacklog(t, m[0]);
      }
      SendAllRoom(t1, m[1..]);
      assert SendAll(t, m) == SendAll(t1, m[1..]);
      QueuedOneMore(Backlog(t), Backlog(t1), Backlog(SendAll(t, m)), m, |m| - 1);
      assert m[..|m|] == m;
    } else {
      assert Backlog(t) + m == Backlog(t);
    }
  }

  lemma {:induction false} SendAllRefused(t: Tx, m: seq<byte>)
    requires Inv(t) && Free(t.ring) == 0
    ensures SendAll(t, m) == t
    decreases |m|
  {
    if m != [] {
      PutBacklog(t, m[0]);
      SendAllRefused(t, m[1..]);
    }
  }

  /** The driver's globals and the MIDI pin. */
  class MidiOut {
    var buffer: array<byte>
    var head: int
    var tail: int
    var state: int
    var txByte: byte
    var bitCount: int
    var active: bool
    /** The levels written to Port B bit 0, oldest first. */
    var pin: seq<bool>

    function Snapshot(): Tx
      reads this, buffer
    {
      Tx(Ring(buffer[..], head, tail), state, txByte, bitCount, active)
    }

    predicate Valid()
      reads this, buffer
    {
      buffer.Length == SIZE && Inv(Snapshot())
    }

    /** `midi_init`: an empty buffer, an idle transmitter and the line at its idle (high) level. */
    constructor ()
      ensures Valid() && fresh(buffer) && Backlog(Snapshot()) == [] && !active && pin == [true]
    {
      buffer := new byte[SIZE](_ => 0);
      head, tail := 0, 0;
      state, txByte, bitCount, active := IDLE, 0, 0, false;
      pin := [true];
      new;
      CountRange(Snapshot().ring);
    }

    /** `start_transmission`. */
    method StartTransmission()
      requires buffer.Length == SIZE && RingOk(Snapshot().ring)
      modifies this
      ensures buffer == old(buffer) && pin == old(pin)
      ensures Snapshot() == Begin(old(Snapshot()))
    {
      if active || head == tail {
        return;
      }
      txByte := buffer[tail];
      tail := (tail + 1) % SIZE;
      state := START;
      bitCount := 0;
      active := true;
    }

    /** `midi_send_byte`: 1 when the byte was queued, 0 when the buffer was full. */
    method SendByte(b: byte) returns (ok: bool)
      requires Valid()
      modifies this, buffer
      ensures Valid() && buffer == old(buffer) && pin == old(pin)
      ensures (ok, Snapshot()) == Put(old(Snapshot()), b)
    {
      PutBacklog(Snapshot(), b);
      var nextHead := (head + 1) % SIZE;
      if nextHead == tail {
        return false;
      }
      buffer[head] := b;
      head := nextHead;
      if !active {
        StartTransmission();
      }
      return true;
    }

    /** `midi_irq_handler`, with the Timer 1 bit of the interrupt flag register as a parameter. */
    method IrqHandler(timerFlag: bool)
      requires Valid()
      modifies this
      ensures Valid() && buffer == old(buffer)
      ensures Snapshot() == Irq(old(Snapshot()), timerFlag).0
      ensures pin == old(pin) + Irq(old(Snapshot()), timerFlag).1
    {
      IrqInv(Snapshot(), timerFlag);
      if !timerFlag {
        return;
      }
      if state == START {
        pin := pin + [false];
        state := DATA;
        bitCount := 0;
      } else if state == DATA {
        pin := pin + [txByte % 2 == 1];
        txByte := txByte / 2;
        bitCount := bitCount + 1;
        if bitCount >= 8 {
          state := STOP;
        }
      } else if state == STOP {
        pin := pin + [true];
        if head != tail {
          txByte := buffer[tail];
          tail := (tail + 1) % SIZE;
          state := START;
          bitCount := 0;
        } else {
          state := IDLE;
          active := false;
        }
      } else {
        active := false;
      }
    }

    /** Send the bytes of one message, one `midi_send_byte` each. */
    method SendMessage(m: seq<byte>)
      requires Valid()
      modifies this, buffer
      ensures Valid() && buffer == old(buffer) && pin == old(pin)
      ensures Snapshot() == SendAll(old(Snapshot()), m)
    {
      var i := 0;
      while i < |m|
        invariant 0 <= i <= |m| && Valid() && buffer == old(buffer) && pin == old(pin)
        invariant SendAll(old(Snapshot()), m) == SendAll(Snapshot(), m[i..])
      {
        var _ := SendByte(m[i]);
        assert m[i..][1..] == m[i + 1..];
        i := i + 1;
      }
    }

    method NoteOn(channel: byte, note: byte, velocity: byte)
      requires Valid()
      modifies this, buffer
      ensures Valid() && buffer == old(buffer) && pin == old(pin)
      ensures Snapshot() == SendAll(old(Snapshot()), MidiRing.NoteOn(channel, note, velocity))
    {
      SendMessage(MidiRing.NoteOn(channel, note, velocity));
    }

    method NoteOff(channel: byte, note: byte, velocity: byte)
      requires Valid()
      modifies this, buffer
      ensures Valid() && buffer == old(buffer) && pin == old(pin)
      ensures Snapshot() == SendAll(old(Snapshot()), MidiRing.NoteOff(channel, note, velocity))
    {
      SendMessage(MidiRing.NoteOff(channel, note, velocity));
    }

    method ControlChange(channel: byte, controller: byte, value: byte)
      requires Valid()
      modifies this, buffer
      ensures Valid() && buffer == old(buffer) && pin == old(pin)
      ensures Snapshot() == SendAll(old(Snapshot()), MidiRing.ControlChange(channel, controller, value))
    {
      SendMessage(MidiRing.ControlChange(channel, controller, value));
    }

    method ProgramChange(channel: byte, program: byte)
      requires Valid()
      modifies this, buffer
      ensures Valid() && buffer == old(buffer) && pin == old(pin)
      ensures Snapshot() == SendAll(old(Snapshot()), MidiRing.ProgramChange(channel, program))
    {
      SendMessage(MidiRing.ProgramChange(channel, program));
    }

    method PitchBend(channel: byte, bend: int)
      requires Valid() && 0 <= bend < 0x10000
      modifies this, buffer
      ensures Valid() && buffer == old(buffer) && pin == old(pin)
      ensures Snapshot() == SendAll(old(Snapshot()), MidiRing.PitchBend(channel, bend))
    {
      SendMessage(MidiRing.PitchBend(channel, bend));
    }

    method AllNotesOff(channel: byte)
      requires Valid()
      modifies this, buffer
      ensures Valid() && buffer == old(buffer) && pin == old(pin)
      ensures Snapshot() == SendAll(old(Snapshot()), MidiRing.AllNotesOff(channel))
    {
      ControlChange(channel, 123, 0);
    }

    /** `midi_is_busy`: whether a frame is under way. */
    method IsBusy() returns (busy: bool)
      requires Valid()
      ensures busy <==> Snapshot().state != IDLE
    {
      busy := active;
    }

    /** `midi_buffer_free`: the room left in the ring. */
    method BufferFree() returns (n: int)
      requires Valid()
      ensures n == SIZE - 1 - |Contents(Snapshot().ring)| && 0 <= n < SIZE
    {
      CountRange(Snapshot().ring);
      n := SIZE - (head - tail) % SIZE - 1;
    }
  }
}
