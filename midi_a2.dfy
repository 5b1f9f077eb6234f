/**
 * The C half of the MIDI-OUT driver of src/midi/wersja.A2/midi_out.c. Its
 * enqueue path is the one of wersja.A1 (same 64-byte ring, same
 * `start_transmission`), so the pure model of `MidiA1` is reused; this
 * version adds `midi_send_bytes`, the controller shortcuts, the system
 * real-time messages and `midi_buffer_used`. Its interrupt handler lives in
 * an assembly file that is not part of this model.
 */
module MidiA2 {
  import opened Common
  import opened MidiRing
  import opened MidiA1

  /** `midi_send_bytes`: one `midi_send_byte` per byte, stopping at the first refusal. */
  function SendPrefix(t: Tx, data: seq<byte>): (p: (int, Tx))
    requires Inv(t)
    ensures Inv(p.1)
    decreases |data|
  {
    if data == [] then (0, t)
    else
      PutBacklog(t, data[0]);
      var (ok, t1) := Put(t, data[0]);
      if !ok then (0, t)
      else
        var (n, t2) := SendPrefix(t1, data[1..]);
        (n + 1, t2)
  }

  /** The count returned is the number of leading bytes queued, in order. */
  lemma {:induction false} SendPrefixQueued(t: Tx, data: seq<byte>)
    requires Inv(t)
    ensures var (n, t') := SendPrefix(t, data);
      0 <= n <= |data| && Backlog(t') == Backlog(t) + data[..n]
    decreases |data|
  {
    if data != [] {
      PutBacklog(t, data[0]);
      var (ok, t1) := Put(t, data[0]);
      if ok {
        SendPrefixQueued(t1, data[1..]);
        var (n, t2) := SendPrefix(t1, data[1..]);
        QueuedOneMore(Backlog(t), Backlog(t1), Backlog(t2), data, n);
      } else {
        assert data[..0] == [];
      }
    } else {
      assert data[..0] == [];
    }
  }

  /**
   * Fewer than all bytes are queued only when the buffer has filled up, and
   * never fewer than the room there was at the start.
   */
  lemma {:induction false} SendPrefixStops(t: Tx, data: seq<byte>)
    requires Inv(t)
    ensures var (n, t') := SendPrefix(t, data);
      (n < |data| ==> Free(t'.ring) == 0) && Min(|data|, Free(t.ring)) <= n
    decreases |data|
  {
    if data != [] {
      PutBacklog(t, data[0]);
      var (ok, t1) := Put(t, data[0]);
      if ok {
        SendPrefixStops(t1, data[1..]);
      }
    }
  }

  /**
   * Stopping at the first refusal leaves the driver as trying every byte
   * would: once the buffer is full every later byte is refused too.
   */
  lemma {:induction false} SendPrefixAll(t: Tx, data: seq<byte>)
    requires Inv(t)
    ensures SendPrefix(t, data).1 == SendAll(t, data)
    decreases |data|
  {
    if data != [] {
      PutBacklog(t, data[0]);
      var (ok, t1) := Put(t, data[0]);
      if ok {
        SendPrefixAll(t1, data[1..]);
      } else {
        SendAllRefused(t, data[1..]);
      }
    }
  }

  /** The controller shortcuts, each a control change. */
  function VolumeMessage(channel: byte, volume: byte): seq<byte>
  {
    ControlChange(channel, 7, volume % 128)
  }

  function PanMessage(channel: byte, pan: byte): seq<byte>
  {
    ControlChange(channel, 10, pan % 128)
  }

  function ModulationMessage(channel: byte, modulation: byte): seq<byte>
  {
    ControlChange(channel, 1, modulation % 128)
  }

  function SustainMessage(channel: byte, on: bool): seq<byte>
  {
    ControlChange(channel, 64, if on then 127 else 0)
  }

  /**
   * The bytes of the shortcuts: status 0xB0 on the channel, then the
   * controller number (7 volume, 10 pan, 1 modulation, 64 sustain, 120 all
   * sound off, 121 reset controllers, 123 all notes off), then the value.
   */
  lemma ControllerBytes(channel: byte, v: byte, on: bool)
    ensures var s: byte := 0xB0 + channel % 16;
      VolumeMessage(channel, v) == [s, 7, v % 128] && PanMessage(channel, v) == [s, 10, v % 128] &&
      ModulationMessage(channel, v) == [s, 1, v % 128] &&
      SustainMessage(channel, on) == [s, 64, if on then 127 else 0] &&
      AllSoundOff(channel) == [s, 120, 0] && ResetControllers(channel) == [s, 121, 0] &&
      MidiRing.AllNotesOff(channel) == [s, 123, 0]
  {
    var s: byte := 0xB0 + channel % 16;
    assert VolumeMessage(channel, v) == [s, 7, v % 128];
    assert PanMessage(channel, v) == [s, 10, v % 128];
    assert ModulationMessage(channel, v) == [s, 1, v % 128];
    assert SustainMessage(channel, on) == [s, 64, if on then 127 else 0];
    assert AllSoundOff(channel) == [s, 120, 0];
    assert ResetControllers(channel) == [s, 121, 0];
  }

  /** The driver's globals, shared with the interrupt handler. */
  class MidiOut {
    var buffer: array<byte>
    var head: int
    var tail: int
    var state: int
    var txByte: byte
    var bitCount: int
    var active: bool

    function Snapshot(): Tx
      reads this, buffer
    {
      Tx(Ring(buffer[..], head, tail), state, txByte, bitCount, active)
    }

    predicate Valid()
      reads this, buffer
    {
      buffer.Length == SIZE && Inv(Snapshot())
    }

    /** `midi_init`: an empty buffer and an idle transmitter. */
    constructor ()
      ensures Valid() && fresh(buffer) && Backlog(Snapshot()) == [] && !active && txByte == 0
    {
      buffer := new byte[SIZE](_ => 0);
      head, tail := 0, 0;
      state, txByte, bitCount, active := IDLE, 0, 0, false;
      new;
      CountRange(Snapshot().ring);
    }

    /** `start_transmission`. */
    method StartTransmission()
      requires buffer.Length == SIZE && RingOk(Snapshot().ring)
      modifies this
      ensures buffer == old(buffer)
      ensures Snapshot() == Begin(old(Snapshot()))
    {
      if active || head == tail {
        return;
      }
      txByte := buffer[tail];
      tail := (tail + 1) % SIZE;
      state := START;
      bitCount := 0;
      active := true;
    }

    /** `midi_send_byte`: 1 when the byte was queued, 0 when the buffer was full. */
    method SendByte(b: byte) returns (ok: bool)
      requires Valid()
      modifies this, buffer
      ensures Valid() && buffer == old(buffer)
      ensures (ok, Snapshot()) == Put(old(Snapshot()), b)
    {
      PutBacklog(Snapshot(), b);
      var nextHead := (head + 1) % SIZE;
      if nextHead == tail {
        return false;
      }
      buffer[head] := b;
      head := nextHead;
      if !active {
        StartTransmission();
      }
      return true;
    }

    /** `midi_send_bytes`; `len` is an `unsigned char`, so at most 255 bytes. */
    method SendBytes(data: seq<byte>) returns (sent: int)
      requires Valid() && |data| < 256
      modifies this, buffer
      ensures Valid() && buffer == old(buffer)
      ensures (sent, Snapshot()) == SendPrefix(old(Snapshot()), data)
    {
      sent := 0;
      var i := 0;
      while i < |data|
        invariant 0 <= i <= |data| && sent == i && Valid() && buffer == old(buffer)
        invariant SendPrefix(old(Snapshot()), data) == (sent + SendPrefix(Snapshot(), data[i..]).0, SendPrefix(Snapshot(), data[i..]).1)
      {
        var ok := SendByte(data[i]);
        if !ok {
          return;
        }
        assert data[i..][1..] == data[i + 1..];
        sent := sent + 1;
        i := i + 1;
      }
    }

    /** Send the bytes of one message, one `midi_send_byte` each, results ignored. */
    method SendMessage(m: seq<byte>)
      requires Valid()
      modifies this, buffer
      ensures Valid() && buffer == old(buffer)
      ensures Snapshot() == SendAll(old(Snapshot()), m)
    {
      var i := 0;
      while i < |m|
        invariant 0 <= i <= |m| && Valid() && buffer == old(buffer)
        invariant SendAll(old(Snapshot()), m) == SendAll(Snapshot(), m[i..])
      {
        var _ := SendByte(m[i]);
        assert m[i..][1..] == m[i + 1..];
        i := i + 1;
      }
    }

    method NoteOn(channel: byte, note: byte, velocity: byte)
      requires Valid()
      modifies this, buffer
      ensures Valid() && buffer == old(buffer)
      ensures Snapshot() == SendAll(old(Snapshot()), MidiRing.NoteOn(channel, note, velocity))
    {
      SendMessage(MidiRing.NoteOn(channel, note, velocity));
    }

    method NoteOff(channel: byte, note: byte, velocity: byte)
      requires Valid()
      modifies this, buffer
      ensures Valid() && buffer == old(buffer)
      ensures Snapshot() == SendAll(old(Snapshot()), MidiRing.NoteOff(channel, note, velocity))
    {
      SendMessage(MidiRing.NoteOff(channel, note, velocity));
    }

    method ControlChange(channel: byte, controller: byte, value: byte)
      requires Valid()
      modifies this, buffer
      ensures Valid() && buffer == old(buffer)
      ensures Snapshot() == SendAll(old(Snapshot()), MidiRing.ControlChange(channel, controller, value))
    {
      SendMessage(MidiRing.ControlChange(channel, controller, value));
    }

    method ProgramChange(channel: byte, program: byte)
      requires Valid()
      modifies this, buffer
      ensures Valid() && buffer == old(buffer)
      ensures Snapshot() == SendAll(old(Snapshot()), MidiRing.ProgramChange(channel, program))
    {
      SendMessage(MidiRing.ProgramChange(channel, program));
    }

    /** `midi_pitch_bend`, whose `bend` is a 16-bit `unsigned int`. */
    method PitchBend(channel: byte, bend: int)
      requires Valid() && 0 <= bend < 0x10000
      modifies this, buffer
      ensures Valid() && buffer == old(buffer)
      ensures Snapshot() == SendAll(old(Snapshot()), MidiRing.PitchBend(channel, bend))
    {
      SendMessage(MidiRing.PitchBend(channel, bend));
    }

    /** `midi_aftertouch`: channel pressure. */
    method Aftertouch(channel: byte, pressure: byte)
      requires Valid()
      modifies this, buffer
      ensures Valid() && buffer == old(buffer)
      ensures Snapshot() == SendAll(old(Snapshot()), ChannelPressure(channel, pressure))
    {
      SendMessage(ChannelPressure(channel, pressure));
    }

    method PolyPressure(channel: byte, note: byte, pressure: byte)
      requires Valid()
      modifies this, buffer
      ensures Valid() && buffer == old(buffer)
      ensures Snapshot() == SendAll(old(Snapshot()), MidiRing.PolyPressure(channel, note, pressure))
    {
      SendMessage(MidiRing.PolyPressure(channel, note, pressure));
    }

    method AllNotesOff(channel: byte)
      requires Valid()
      modifies this, buffer
      ensures Valid() && buffer == old(buffer)
      ensures Snapshot() == SendAll(old(Snapshot()), MidiRing.AllNotesOff(channel))
    {
      ControlChange(channel, 123, 0);
    }

    method AllSoundOff(channel: byte)
      requires Valid()
      modifies this, buffer
      ensures Valid() && buffer == old(buffer)
      ensures Snapshot() == SendAll(old(Snapshot()), MidiRing.AllSoundOff(channel))
    {
      ControlChange(channel, 120, 0);
    }

    method ResetControllers(channel: byte)
      requires Valid()
      modifies this, buffer
      ensures Valid() && buffer == old(buffer)
      ensures Snapshot() == SendAll(old(Snapshot()), MidiRing.ResetControllers(channel))
    {
      ControlChange(channel, 121, 0);
    }

    method Volume(channel: byte, volume: byte)
      requires Valid()
      modifies this, buffer
      ensures Valid() && buffer == old(buffer)
      ensures Snapshot() == SendAll(old(Snapshot()), VolumeMessage(channel, volume))
    {
      ControlChange(channel, 7, volume % 128);
    }

    method Pan(channel: byte, pan: byte)
      requires Valid()
      modifies this, buffer
      ensures Valid() && buffer == old(buffer)
      ensures Snapshot() == SendAll(old(Snapshot()), PanMessage(channel, pan))
    {
      ControlChange(channel, 10, pan % 128);
    }

    method Modulation(channel: byte, modulation: byte)
      requires Valid()
      modifies this, buffer
      ensures Valid() && buffer == old(buffer)
      ensures Snapshot() == SendAll(old(Snapshot()), ModulationMessage(channel, modulation))
    {
      ControlChange(channel, 1, modulation % 128);
    }

    /** `midi_sustain`: any non-zero `on` means pedal down. */
    method Sustain(channel: byte, on: bool)
      requires Valid()
      modifies this, buffer
      ensures Valid() && buffer == old(buffer)
      ensures Snapshot() == SendAll(old(Snapshot()), SustainMessage(channel, on))
    {
      ControlChange(channel, 64, if on then 127 else 0);
    }

    /** `midi_clock`, `midi_start`, `midi_continue`, `midi_stop`, `midi_active_sensing`, `midi_system_reset`. */
    method SendRealTime(m: RealTime)
      requires Valid()
      modifies this, buffer
      ensures Valid() && buffer == old(buffer)
      ensures Snapshot() == Put(old(Snapshot()), RealTimeByte(m)).1
    {
      var _ := SendByte(RealTimeByte(m));
    }

    /** `midi_is_busy`: whether a frame is under way. */
    method IsBusy() returns (busy: bool)
      requires Valid()
      ensures busy <==> Snapshot().state != IDLE
    {
      busy := active;
    }

    /** `midi_buffer_free`: the room left in the ring. */
    method BufferFree() returns (n: int)
      requires Valid()
      ensures n == SIZE - 1 - |Contents(Snapshot().ring)| && 0 <= n < SIZE
    {
      CountRange(Snapshot().ring);
      n := SIZE - 1 - (head - tail) % SIZE;
    }

    /** `midi_buffer_used`: the bytes waiting in the ring; with the room left it makes 63. */
    method BufferUsed() returns (n: int)
      requires Valid()
      ensures n == |Contents(Snapshot().ring)| && n + Free(Snapshot().ring) == SIZE - 1
    {
      n := (head - tail) % SIZE;
    }
  }
}
