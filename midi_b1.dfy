/**
 * The MIDI-OUT driver of src/midi/wersja.B1/midi_out.c: the same 64-byte
 * ring as wersja.A1, but with no `tx_active` flag (the state alone says
 * whether a frame is under way), status codes `MIDI_OK`/`MIDI_BUFFER_FULL`,
 * a public start and stop, and a Timer 2 service routine that shifts the
 * 8N1 frame out on Port B bit 0.
 *
 * The VIA registers are not modelled; the levels written to the MIDI pin
 * are kept, oldest first.
 */
module MidiB1 {
  import opened Common
  import opened MidiRing

  const SIZE: int := 64

  const IDLE: byte := 0
  const START: byte := 1
  const DATA: byte := 2
  const STOP: byte := 3

  const OK: int := 0
  const BUFFER_FULL: int := 1

  /** The ring and `midi_tx_state`, `midi_current_byte`, `midi_bit_count`. */
  datatype Tx = Tx(ring: Ring, state: byte, current: byte, bitCount: int)

  predicate Inv(t: Tx)
  {
    RingOk(t.ring) && |t.ring.buf| == SIZE && 0 <= t.bitCount <= 8 && (t.state == DATA ==> t.bitCount < 8)
  }

  /** The bytes still to go out whole: the one loaded but not started, then the buffer. */
  function Backlog(t: Tx): seq<byte>
    requires RingOk(t.ring)
  {
    (if t.state == START then [t.current] else []) + Contents(t.ring)
  }

  /** `midi_start_transmission`: load the oldest byte, or go idle when there is none. */
  function Begin(t: Tx): Tx
    requires RingOk(t.ring)
  {
    if t.ring.head == t.ring.tail then t.(state := IDLE)
    else
      var (b, r) := Pop(t.ring);
      Tx(r, START, b, 0)
  }

  /** `midi_send_byte`: refuse when full, else queue the byte and start an idle transmitter. */
  function Send(t: Tx, b: byte): (int, Tx)
    requires RingOk(t.ring)
  {
    var (ok, r) := Offer(t.ring, b);
    if !ok then (BUFFER_FULL, t)
    else
      var t1 := t.(ring := r);
      (OK, if t1.state == IDLE then Begin(t1) else t1)
  }

  /** `midi_stop_transmission`: the line goes high and the state idle; the buffer keeps its bytes. */
  function Halt(t: Tx): (Tx, seq<bool>)
  {
    (t.(state := IDLE), [true])
  }

  /** `midi_timer_isr`: one step of the transmitter and the levels it writes to the pin. */
  function Isr(t: Tx): (Tx, seq<bool>)
    requires RingOk(t.ring)
  {
    if t.state == START then (t.(state := DATA, bitCount := 0), [false])
    else if t.state == DATA then
      var t1 := t.(current := t.current / 2, bitCount := t.bitCount + 1);
      (if t1.bitCount >= 8 then t1.(state := STOP) else t1, [t.current % 2 == 1])
    else if t.state == STOP then
      if t.ring.head != t.ring.tail then
        var (b, r) := Pop(t.ring);
        (Tx(r, START, b, t.bitCount), [true])
      else (t.(state := IDLE), [true])
    else Halt(t)
  }

  /**
   * `MIDI_BUFFER_FULL` exactly when there is no room, and then nothing
   * changes; otherwise the byte joins the end of the backlog and an idle
   * transmitter starts.
   */
  lemma SendQueued(t: Tx, b: byte)
    requires Inv(t)
    ensures var (status, t') := Send(t, b);
      Inv(t') && (status == OK || status == BUFFER_FULL) &&
      (status == BUFFER_FULL <==> Free(t.ring) == 0) && (status == BUFFER_FULL ==> t' == t) &&
      (status == OK ==> Backlog(t') == Backlog(t) + [b] && (t.state == IDLE ==> t'.state == START)) &&
      Free(t'.ring) >= Free(t.ring) - 1
  {
    OfferContents(t.ring, b);
    CountRange(t.ring);
    var (ok, r) := Offer(t.ring, b);
    if ok && t.state == IDLE {
      CountRange(r);
      PopContents(r);
      CountRange(Pop(r).1);
    }
  }

  lemma IsrInv(t: Tx)
    requires Inv(t)
    ensures Inv(Isr(t).0)
  {
  }

  /** `n` timer interrupts in a row, and all the levels they write. */
  function Ticks(t: Tx, n: nat): (Tx, seq<bool>)
    requires Inv(t)
    decreases n
  {
    if n == 0 then (t, [])
    else
      IsrInv(t);
      var (t1, p1) := Isr(t);
      var (t2, p2) := Ticks(t1, n - 1);
      (t2, p1 + p2)
  }

  lemma {:induction false} TicksSnoc(t: Tx, n: nat)
    requires Inv(t)
    ensures Inv(Ticks(t, n).0)
    ensures var (tn, p) := Ticks(t, n);
      Ticks(t, n + 1) == (Isr(tn).0, p + Isr(tn).1)
    decreases n
  {
    IsrInv(t);
    var (t1, p1) := Isr(t);
    if n > 0 {
      TicksSnoc(t1, n - 1);
      var (tm, q) := Ticks(t1, n - 1);
      var last := Isr(tm).1;
      assert p1 + (q + last) == (p1 + q) + last;
    } else {
      assert p1 + [] == [] + p1;
    }
  }

  /** The last `k` data bits go out LSB first, then the transmitter reaches the stop state. */
  lemma {:induction false} DataTicks(t: Tx, k: nat)
    requires Inv(t) && t.state == DATA && 1 <= k <= 8 && t.bitCount == 8 - k
    ensures var (t', p) := Ticks(t, k);
      p == DataBits(t.current, k) && t'.state == STOP && t'.ring == t.ring
    decreases k
  {
    IsrInv(t);
    var t1 := Isr(t).0;
    if k > 1 {
      DataTicks(t1, k - 1);
    }
  }

  /** The stop bit: the pin goes high and the next byte is loaded, or the transmitter goes idle. */
  lemma StopTick(t: Tx)
    requires Inv(t) && t.state == STOP
    ensures var (t', p) := Isr(t);
      p == [true] && Inv(t') && Backlog(t') == Contents(t.ring) &&
      (t'.state == START || (t'.state == IDLE && Backlog(t') == []))
  {
    if t.ring.head != t.ring.tail {
      PopContents(t.ring);
    } else {
      CountRange(t.ring);
    }
  }

  /**
   * Ten interrupts from the start state put the loaded byte on the pin as
   * an 8N1 frame and take it off the backlog: the next one is loaded, or
   * the transmitter goes idle with nothing left.
   */
  lemma SendsFrame(t: Tx)
    requires Inv(t) && t.state == START
    ensures var (t', p) := Ticks(t, 10);
      p == Frame(t.current) && Inv(t') && Backlog(t') == Backlog(t)[1..] &&
      (t'.state == START || (t'.state == IDLE && Backlog(t') == []))
  {
    IsrInv(t);
    var t1 := Isr(t).0;
    assert Ticks(t, 10) == (Ticks(t1, 9).0, [false] + Ticks(t1, 9).1);
    DataTicks(t1, 8);
    TicksSnoc(t1, 8);
    var (t9, bits) := Ticks(t1, 8);
    StopTick(t9);
    assert Ticks(t1, 9) == (Isr(t9).0, bits + [true]);
    assert Backlog(t)[1..] == Contents(t.ring);
  }

  /** In any other state (idle included) the routine stops: line high, state idle, buffer kept. */
  lemma OtherStateStops(t: Tx)
    requires Inv(t) && t.state != START && t.state != DATA && t.state != STOP
    ensures var (t', p) := Isr(t);
      p == [true] && t'.state == IDLE && Backlog(t') == Contents(t.ring) && t'.ring == t.ring
  {
  }

  /** `midi_send_buffer`: one `midi_send_byte` per byte, stopping at the first failure. */
  function SendPrefix(t: Tx, data: seq<byte>): (p: (int, Tx))
    requires Inv(t)
    ensures Inv(p.1)
    decreases |data|
  {
    if data == [] then (0, t)
    else
      SendQueued(t, data[0]);
      var (status, t1) := Send(t, data[0]);
      if status != OK then (0, t)
      else
        var (n, t2) := SendPrefix(t1, data[1..]);
        (n + 1, t2)
  }

  /** The count returned is the number of leading bytes queued, in order. */
  lemma {:induction false} SendPrefixQueued(t: Tx, data: seq<byte>)
    requires Inv(t)
    ensures var (n, t') := SendPrefix(t, data);
      0 <= n <= |data| && Backlog(t') == Backlog(t) + data[..n]
    decreases |data|
  {
    if data != [] {
      SendQueued(t, data[0]);
      var (status, t1) := Send(t, data[0]);
      if status == OK {
        SendPrefixQueued(t1, data[1..]);
        var (n, t2) := SendPrefix(t1, data[1..]);
        QueuedOneMore(Backlog(t), Backlog(t1), Backlog(t2), data, n);
      } else {
        assert data[..0] == [];
      }
    } else {
      assert data[..0] == [];
    }
  }

  /**
   * Fewer than all bytes are queued only when the buffer has filled up, and
   * never fewer than the room there was at the start.
   */
  lemma {:induction false} SendPrefixStops(t: Tx, data: seq<byte>)
    requires Inv(t)
    ensures var (n, t') := SendPrefix(t, data);
      (n < |data| ==> Free(t'.ring) == 0) && Min(|data|, Free(t.ring)) <= n
    decreases |data|
  {
    if data != [] {
      SendQueued(t, data[0]);
      var (status, t1) := Send(t, data[0]);
      if status == OK {
        SendPrefixStops(t1, data[1..]);
      }
    }
  }

  /** A message helper: one `midi_send_byte` per byte, its status ignored. */
  function SendAll(t: Tx, m: seq<byte>): (t': Tx)
    requires Inv(t)
    ensures Inv(t')
    decreases |m|
  {
    if m == [] then t
    else
      SendQueued(t, m[0]);
      SendAll(Send(t, m[0]).1, m[1..])
  }

  /**
   * Ignoring the failures leaves the driver as stopping at the first one
   * would: once the buffer is full every later byte is refused too, so a
   * helper queues a prefix of its message.
   */
  lemma {:induction false} SendAllPrefix(t: Tx, m: seq<byte>)
    requires Inv(t)
    ensures SendAll(t, m) == SendPrefix(t, m).1
    decreases |m|
  {
    if m != [] {
      SendQueued(t, m[0]);
      var (status, t1) := Send(t, m[0]);
      if status == OK {
        SendAllPrefix(t1, m[1..]);
      } else {
        SendAllRefused(t, m[1..]);
      }
    }
  }

  lemma {:induction false} SendAllRefused(t: Tx, m: seq<byte>)
    requires Inv(t) && Free(t.ring) == 0
    ensures SendAll(t, m) == t
    decreases |m|
  {
    if m != [] {
      SendQueued(t, m[0]);
      SendAllRefused(t, m[1..]);
    }
  }

  /** The driver's globals and the MIDI pin. */
  class MidiOut {
    var buffer: array<byte>
    var head: int
    var tail: int
    var state: byte
    var current: byte
    var bitCount: int
    /** The levels written to Port B bit 0, oldest first. */
    var pin: seq<bool>

    function Snapshot(): Tx
      reads this, buffer
    {
      Tx(Ring(buffer[..], head, tail), state, current, bitCount)
    }

    predicate Valid()
      reads this, buffer
    {
      buffer.Length == SIZE && Inv(Snapshot())
    }

    /** `midi_init`: an empty buffer, an idle transmitter and the line high. */
    constructor ()
      ensures Valid() && fresh(buffer) && Backlog(Snapshot()) == [] && state == IDLE && pin == [true]
    {
      buffer := new byte[SIZE](_ => 0);
      head, tail := 0, 0;
      state, current, bitCount := IDLE, 0, 0;
      pin := [true];
      new;
      CountRange(Snapshot().ring);
    }

    /** `midi_start_transmission`. */
    method StartTransmission()
      requires Valid()
      modifies this
      ensures Valid() && buffer == old(buffer) && pin == old(pin)
      ensures Snapshot() == Begin(old(Snapshot()))
    {
      if head == tail {
        state := IDLE;
        return;
      }
      current := buffer[tail];
      tail := (tail + 1) % SIZE;
      state := START;
      bitCount := 0;
    }

    /** `midi_stop_transmission`. */
    method StopTransmission()
      requires Valid()
      modifies this
      ensures Valid() && buffer == old(buffer)
      ensures Snapshot() == Halt(old(Snapshot())).0 && pin == old(pin) + Halt(old(Snapshot())).1
    {
      pin := pin + [true];
      state := IDLE;
    }

    /** `midi_send_byte`: `MIDI_OK` or `MIDI_BUFFER_FULL`. */
    method SendByte(b: byte) returns (status: int)
      requires Valid()
      modifies this, buffer
      ensures Valid() && buffer == old(buffer) && pin == old(pin)
      ensures (status, Snapshot()) == Send(old(Snapshot()), b)
    {
      SendQueued(Snapshot(), b);
      var nextHead := (head + 1) % SIZE;
      if nextHead == tail {
        return BUFFER_FULL;
      }
      buffer[head] := b;
      head := nextHead;
      if state == IDLE {
        StartTransmission();
      }
      return OK;
    }

    /** `midi_send_buffer`; `len` is an `unsigned char`, so at most 255 bytes. */
    method SendBuffer(data: seq<byte>) returns (sent: int)
      requires Valid() && |data| < 256
      modifies this, buffer
      ensures Valid() && buffer == old(buffer) && pin == old(pin)
      ensures (sent, Snapshot()) == SendPrefix(old(Snapshot()), data)
    {
      sent := 0;
      var i := 0;
      while i < |data|
        invariant 0 <= i <= |data| && sent == i && Valid() && buffer == old(buffer) && pin == old(pin)
        invariant SendPrefix(old(Snapshot()), data) == (sent + SendPrefix(Snapshot(), data[i..]).0, SendPrefix(Snapshot(), data[i..]).1)
      {
        var status := SendByte(data[i]);
        if status != OK {
          return;
        }
        assert data[i..][1..] == data[i + 1..];
        sent := sent + 1;
        i := i + 1;
      }
    }

    /** `midi_timer_isr`. */
    method TimerIsr()
      requires Valid()
      modifies this
      ensures Valid() && buffer == old(buffer)
      ensures Snapshot() == Isr(old(Snapshot())).0 && pin == old(pin) + Isr(old(Snapshot())).1
    {
      if state == START {
        pin := pin + [false];
        state := DATA;
        bitCount := 0;
      } else if state == DATA {
        pin := pin + [current % 2 == 1];
        current := current / 2;
        bitCount := bitCount + 1;
        if bitCount >= 8 {
          state := STOP;
        }
      } else if state == STOP {
        pin := pin + [true];
        if head != tail {
          current := buffer[tail];
          tail := (tail + 1) % SIZE;
          state := START;
        } else {
          state := IDLE;
        }
      } else {
        StopTransmission();
      }
    }

    /** `midi_is_busy`: a frame under way or bytes waiting; not busy means nothing left to send. */
    method IsBusy() returns (busy: bool)
      requires Valid()
      ensures busy <==> Snapshot().state != IDLE || Contents(Snapshot().ring) != []
      ensures !busy ==> Backlog(Snapshot()) == []
    {
      CountRange(Snapshot().ring);
      busy := state != IDLE || head != tail;
    }

    /** `midi_buffer_free`, counting the used slots with a branch instead of a mask. */
    method BufferFree() returns (n: int)
      requires Valid()
      ensures n == SIZE - 1 - |Contents(Snapshot().ring)| && 0 <= n < SIZE
    {
      CountRange(Snapshot().ring);
      var used;
      if head >= tail {
        used := head - tail;
      } else {
        used := SIZE - tail + head;
      }
      n := SIZE - 1 - used;
    }

    /** Send the bytes of one message, one `midi_send_byte` each, statuses ignored. */
    method SendMessage(m: seq<byte>)
      requires Valid()
      modifies this, buffer
      ensures Valid() && buffer == old(buffer) && pin == old(pin)
      ensures Snapshot() == SendAll(old(Snapshot()), m)
    {
      var i := 0;
      while i < |m|
        invariant 0 <= i <= |m| && Valid() && buffer == old(buffer) && pin == old(pin)
        invariant SendAll(old(Snapshot()), m) == SendAll(Snapshot(), m[i..])
      {
        var _ := SendByte(m[i]);
        assert m[i..][1..] == m[i + 1..];
        i := i + 1;
      }
    }

    method NoteOn(channel: byte, note: byte, velocity: byte)
      requires Valid()
      modifies this, buffer
      ensures Valid() && buffer == old(buffer) && pin == old(pin)
      ensures Snapshot() == SendAll(old(Snapshot()), MidiRing.NoteOn(channel, note, velocity))
    {
      SendMessage(MidiRing.NoteOn(channel, note, velocity));
    }

    method NoteOff(channel: byte, note: byte, velocity: byte)
      requires Valid()
      modifies this, buffer
      ensures Valid() && buffer == old(buffer) && pin == old(pin)
      ensures Snapshot() == SendAll(old(Snapshot()), MidiRing.NoteOff(channel, note, velocity))
    {
      SendMessage(MidiRing.NoteOff(channel, note, velocity));
    }

    method ProgramChange(channel: byte, program: byte)
      requires Valid()
      modifies this, buffer
      ensures Valid() && buffer == old(buffer) && pin == old(pin)
      ensures Snapshot() == SendAll(old(Snapshot()), MidiRing.ProgramChange(channel, program))
    {
      SendMessage(MidiRing.ProgramChange(channel, program));
    }
  }
}
