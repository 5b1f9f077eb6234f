/**
 * The C half of the MIDI-OUT driver of src/midi/wersja.B3/midi_out.c, for
 * the RP6502 with the shared variables in zero page. Its enqueue, buffer and
 * free-space code is that of wersja.B2, so the pure model of `MidiB2` is
 * reused; this version brackets the store with `sei`/`cli` instead of
 * saving the flags, and has no all-sound-off or reset-controllers helper.
 * Its assembly half is not part of this model.
 */
module MidiB3 {
  import opened Common
  import opened MidiRing
  import opened MidiB2

  /** The shared variables the C code reads and writes, and the calls it makes to the start routine. */
  class MidiOut {
    var buffer: array<byte>
    var head: int
    var tail: int
    var txState: byte
    var starts: nat

    function Snapshot(): Drv
      reads this, buffer
    {
      Drv(Ring(buffer[..], head, tail), txState, starts)
    }

    predicate Valid()
      reads this, buffer
    {
      buffer.Length == SIZE && Inv(Snapshot())
    }

    /** `midi_send_byte`: `MIDI_OK` or `MIDI_BUFFER_FULL`. */
    method SendByte(b: byte) returns (status: int)
      requires Valid()
      modifies this, buffer
      ensures Valid() && buffer == old(buffer)
      ensures (status, Snapshot()) == Send(old(Snapshot()), b)
    {
      SendStored(Snapshot(), b);
      var nextHead := (head + 1) % SIZE;
      if nextHead == tail {
        return BUFFER_FULL;
      }
      buffer[head] := b;
      head := nextHead;
      var currentState := txState;
      if currentState == IDLE {
        starts := starts + 1;
      }
      return OK;
    }

    /** `midi_send_buffer`; `len` is an `unsigned char`, so at most 255 bytes. */
    method SendBuffer(data: seq<byte>) returns (sent: int)
      requires Valid() && |data| < 256
      modifies this, buffer
      ensures Valid() && buffer == old(buffer)
      ensures (sent, Snapshot()) == SendPrefix(old(Snapshot()), data)
    {
      sent := 0;
      var i := 0;
      while i < |data|
        invariant 0 <= i <= |data| && sent == i && Valid() && buffer == old(buffer)
        invariant SendPrefix(old(Snapshot()), data) == (sent + SendPrefix(Snapshot(), data[i..]).0, SendPrefix(Snapshot(), data[i..]).1)
      {
        var status := SendByte(data[i]);
        if status != OK {
          return;
        }
        assert data[i..][1..] == data[i + 1..];
        sent := sent + 1;
        i := i + 1;
      }
    }

    /** `midi_buffer_free`: `MIDI_BUFFER_SIZE - 1 - used`. */
    method BufferFree() returns (n: int)
      requires Valid()
      ensures n == Free(Snapshot().ring) && n == SIZE - 1 - |Contents(Snapshot().ring)|
    {
      UsedSlotsCount(Snapshot().ring);
      var used;
      if head >= tail {
        used := head - tail;
      } else {
        used := SIZE - tail + head;
      }
      n := SIZE - 1 - used;
    }

    /** Send the bytes of one message, one `midi_send_byte` each, statuses ignored. */
    method SendMessage(m: seq<byte>)
      requires Valid()
      modifies this, buffer
      ensures Valid() && buffer == old(buffer)
      ensures Snapshot() == SendAll(old(Snapshot()), m)
    {
      var i := 0;
      while i < |m|
        invariant 0 <= i <= |m| && Valid() && buffer == old(buffer)
        invariant SendAll(old(Snapshot()), m) == SendAll(Snapshot(), m[i..])
      {
        var _ := SendByte(m[i]);
        assert m[i..][1..] == m[i + 1..];
        i := i + 1;
      }
    }

    method NoteOn(channel: byte, note: byte, velocity: byte)
      requires Valid()
      modifies this, buffer
      ensures Valid() && buffer == old(buffer)
      ensures Snapshot() == SendAll(old(Snapshot()), MidiRing.NoteOn(channel, note, velocity))
    {
      SendMessage(MidiRing.NoteOn(channel, note, velocity));
    }

    method NoteOff(channel: byte, note: byte, velocity: byte)
      requires Valid()
      modifies this, buffer
      ensures Valid() && buffer == old(buffer)
      ensures Snapshot() == SendAll(old(Snapshot()), MidiRing.NoteOff(channel, note, velocity))
    {
      SendMessage(MidiRing.NoteOff(channel, note, velocity));
    }

    method ProgramChange(channel: byte, program: byte)
      requires Valid()
      modifies this, buffer
      ensures Valid() && buffer == old(buffer)
      ensures Snapshot() == SendAll(old(Snapshot()), MidiRing.ProgramChange(channel, program))
    {
      SendMessage(MidiRing.ProgramChange(channel, program));
    }

    method ControlChange(channel: byte, controller: byte, value: byte)
      requires Valid()
      modifies this, buffer
      ensures Valid() && buffer == old(buffer)
      ensures Snapshot() == SendAll(old(Snapshot()), MidiRing.ControlChange(channel, controller, value))
    {
      SendMessage(MidiRing.ControlChange(channel, controller, value));
    }

    /** `midi_pitch_bend`, whose `value` is a 16-bit `unsigned int`. */
    method PitchBend(channel: byte, value: int)
      requires Valid() && 0 <= value < 0x10000
      modifies this, buffer
      ensures Valid() && buffer == old(buffer)
      ensures Snapshot() == SendAll(old(Snapshot()), MidiRing.PitchBend(channel, value))
    {
      SendMessage(MidiRing.PitchBend(channel, value));
    }

    method AllNotesOff(channel: byte)
      requires Valid()
      modifies this, buffer
      ensures Valid() && buffer == old(buffer)
      ensures Snapshot() == SendAll(old(Snapshot()), MidiRing.AllNotesOff(channel))
    {
      ControlChange(channel, 123, 0);
    }
  }
}
