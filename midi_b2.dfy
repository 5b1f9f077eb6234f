/**
 * The C half of the MIDI-OUT driver of src/midi/wersja.B2/midi_out.c. The
 * buffer, its indices and `midi_tx_state` live in an assembly file together
 * with `midi_start_transmission` and the interrupt handler, none of which
 * is part of this model: the C code only fills the ring and calls the start
 * routine when it finds the transmitter idle. The model counts those calls
 * in `starts` and, between calls of the C code, keeps the shared variables
 * as the C code left them.
 */
module MidiB2 {
  import opened Common
  import opened MidiRing

  const SIZE: int := 64

  const IDLE: byte := 0

  const OK: int := 0
  const BUFFER_FULL: int := 1

  /** The ring, `midi_tx_state` and the number of calls made to the start routine. */
  datatype Drv = Drv(ring: Ring, txState: byte, starts: nat)

  predicate Inv(d: Drv)
  {
    RingOk(d.ring) && |d.ring.buf| == SIZE
  }

  /** `midi_send_byte`: refuse when full, else store the byte and start an idle transmitter. */
  function Send(d: Drv, b: byte): (int, Drv)
    requires Inv(d)
  {
    var (ok, r) := Offer(d.ring, b);
    if !ok then (BUFFER_FULL, d)
    else (OK, Drv(r, d.txState, d.starts + if d.txState == IDLE then 1 else 0))
  }

  /**
   * `MIDI_BUFFER_FULL` exactly when `(head + 1) & MASK == tail`, and then
   * nothing changes; otherwise the byte is stored at the old head, head
   * advances modulo 64, the byte joins the end of the queue, and the start
   * routine is called once if the transmitter was idle.
   */
  lemma SendStored(d: Drv, b: byte)
    requires Inv(d)
    ensures var (status, d') := Send(d, b);
      Inv(d') && (status == OK || status == BUFFER_FULL) &&
      (status == BUFFER_FULL <==> (d.ring.head + 1) % SIZE == d.ring.tail) &&
      (status == BUFFER_FULL <==> Free(d.ring) == 0) &&
      (status == BUFFER_FULL ==> d' == d) &&
      (status == OK ==>
        d'.ring.buf[d.ring.head] == b && d'.ring.head == (d.ring.head + 1) % SIZE &&
        d'.ring.tail == d.ring.tail && Contents(d'.ring) == Contents(d.ring) + [b] &&
        d'.txState == d.txState && d'.starts == d.starts + if d.txState == IDLE then 1 else 0)
  {
    OfferContents(d.ring, b);
    FullIffNoRoom(d.ring);
  }

  /** `midi_send_buffer`: one `midi_send_byte` per byte, stopping at the first failure. */
  function SendPrefix(d: Drv, data: seq<byte>): (p: (int, Drv))
    requires Inv(d)
    ensures Inv(p.1)
    decreases |data|
  {
    if data == [] then (0, d)
    else
      SendStored(d, data[0]);
      var (status, d1) := Send(d, data[0]);
      if status != OK then (0, d)
      else
        var (n, d2) := SendPrefix(d1, data[1..]);
        (n + 1, d2)
  }

  /** The C loop stores what the ring-level offer loop stores, calling the start routine per byte while idle. */
  lemma {:induction false} SendPrefixOffer(d: Drv, data: seq<byte>)
    requires Inv(d)
    ensures var (n, d') := SendPrefix(d, data);
      n == OfferPrefix(d.ring, data).0 && d'.ring == OfferPrefix(d.ring, data).1 &&
      d'.txState == d.txState && d'.starts == d.starts + if d.txState == IDLE then n else 0
    decreases |data|
  {
    if data != [] {
      SendStored(d, data[0]);
      var (status, d1) := Send(d, data[0]);
      if status == OK {
        SendPrefixOffer(d1, data[1..]);
      }
    }
  }

  /**
   * The count returned is the number of leading bytes stored, in order, and
   * with nothing draining the ring it is as many as there was room for.
   */
  lemma SendPrefixSent(d: Drv, data: seq<byte>)
    requires Inv(d)
    ensures var (n, d') := SendPrefix(d, data);
      n == Min(|data|, Free(d.ring)) && Contents(d'.ring) == Contents(d.ring) + data[..n]
  {
    SendPrefixOffer(d, data);
    OfferPrefixContents(d.ring, data);
  }

  /** A message helper: one `midi_send_byte` per byte, its status ignored. */
  function SendAll(d: Drv, m: seq<byte>): (d': Drv)
    requires Inv(d)
    ensures Inv(d')
    decreases |m|
  {
    if m == [] then d
    else
      SendStored(d, m[0]);
      SendAll(Send(d, m[0]).1, m[1..])
  }

  /**
   * Ignoring the failures leaves the driver as stopping at the first one
   * would, so a helper stores a prefix of its message.
   */
  lemma {:induction false} SendAllPrefix(d: Drv, m: seq<byte>)
    requires Inv(d)
    ensures SendAll(d, m) == SendPrefix(d, m).1
    decreases |m|
  {
    if m != [] {
      SendStored(d, m[0]);
      var (status, d1) := Send(d, m[0]);
      if status == OK {
        SendAllPrefix(d1, m[1..]);
      } else {
        SendAllRefused(d, m[1..]);
      }
    }
  }

  lemma {:induction false} SendAllRefused(d: Drv, m: seq<byte>)
    requires Inv(d) && Free(d.ring) == 0
    ensures SendAll(d, m) == d
    decreases |m|
  {
    if m != [] {
      SendStored(d, m[0]);
      SendAllRefused(d, m[1..]);
    }
  }

  /** The used-slot count of `midi_buffer_free`, with a branch instead of a mask. */
  function UsedSlots(head: int, tail: int): (used: int)
    requires 0 <= head < SIZE && 0 <= tail < SIZE
  {
    if head >= tail then head - tail else SIZE - tail + head
  }

  /** The branch computes the masked difference: `SIZE - 1 - used` is the room left. */
  lemma UsedSlotsCount(r: Ring)
    requires RingOk(r) && |r.buf| == SIZE
    ensures UsedSlots(r.head, r.tail) == |Contents(r)| && SIZE - 1 - UsedSlots(r.head, r.tail) == Free(r)
    ensures 0 <= Free(r) < SIZE
  {
    CountRange(r);
  }

  /** The shared variables the C code reads and writes, and the calls it makes to the start routine. */
  class MidiOut {
    var buffer: array<byte>
    var head: int
    var tail: int
    var txState: byte
    var starts: nat

    function Snapshot(): Drv
      reads this, buffer
    {
      Drv(Ring(buffer[..], head, tail), txState, starts)
    }

    predicate Valid()
      reads this, buffer
    {
      buffer.Length == SIZE && Inv(Snapshot())
    }

    /** `midi_send_byte`: `MIDI_OK` or `MIDI_BUFFER_FULL`. */
    method SendByte(b: byte) returns (status: int)
      requires Valid()
      modifies this, buffer
      ensures Valid() && buffer == old(buffer)
      ensures (status, Snapshot()) == Send(old(Snapshot()), b)
    {
      SendStored(Snapshot(), b);
      var nextHead := (head + 1) % SIZE;
      if nextHead == tail {
        return BUFFER_FULL;
      }
      buffer[head] := b;
      head := nextHead;
      var currentState := txState;
      if currentState == IDLE {
        starts := starts + 1;
      }
      return OK;
    }

    /** `midi_send_buffer`; `len` is an `unsigned char`, so at most 255 bytes. */
    method SendBuffer(data: seq<byte>) returns (sent: int)
      requires Valid() && |data| < 256
      modifies this, buffer
      ensures Valid() && buffer == old(buffer)
      ensures (sent, Snapshot()) == SendPrefix(old(Snapshot()), data)
    {
      sent := 0;
      var i := 0;
      while i < |data|
        invariant 0 <= i <= |data| && sent == i && Valid() && buffer == old(buffer)
        invariant SendPrefix(old(Snapshot()), data) == (sent + SendPrefix(Snapshot(), data[i..]).0, SendPrefix(Snapshot(), data[i..]).1)
      {
        var status := SendByte(data[i]);
        if status != OK {
          return;
        }
        assert data[i..][1..] == data[i + 1..];
        sent := sent + 1;
        i := i + 1;
      }
    }

    /** `midi_buffer_free`: `MIDI_BUFFER_SIZE - 1 - used`. */
    method BufferFree() returns (n: int)
      requires Valid()
      ensures n == Free(Snapshot().ring) && n == SIZE - 1 - |Contents(Snapshot().ring)|
    {
      UsedSlotsCount(Snapshot().ring);
      var used;
      if head >= tail {
        used := head - tail;
      } else {
        used := SIZE - tail + head;
      }
      n := SIZE - 1 - used;
    }

    /** Send the bytes of one message, one `midi_send_byte` each, statuses ignored. */
    method SendMessage(m: seq<byte>)
      requires Valid()
      modifies this, buffer
      ensures Valid() && buffer == old(buffer)
      ensures Snapshot() == SendAll(old(Snapshot()), m)
    {
      var i := 0;
      while i < |m|
        invariant 0 <= i <= |m| && Valid() && buffer == old(buffer)
        invariant SendAll(old(Snapshot()), m) == SendAll(Snapshot(), m[i..])
      {
        var _ := SendByte(m[i]);
        assert m[i..][1..] == m[i + 1..];
        i := i + 1;
      }
    }

    method NoteOn(channel: byte, note: byte, velocity: byte)
      requires Valid()
      modifies this, buffer
      ensures Valid() && buffer == old(buffer)
      ensures Snapshot() == SendAll(old(Snapshot()), MidiRing.NoteOn(channel, note, velocity))
    {
      SendMessage(MidiRing.NoteOn(channel, note, velocity));
    }

    method NoteOff(channel: byte, note: byte, velocity: byte)
      requires Valid()
      modifies this, buffer
      ensures Valid() && buffer == old(buffer)
      ensures Snapshot() == SendAll(old(Snapshot()), MidiRing.NoteOff(channel, note, velocity))
    {
      SendMessage(MidiRing.NoteOff(channel, note, velocity));
    }

    method ProgramChange(channel: byte, program: byte)
      requires Valid()
      modifies this, buffer
      ensures Valid() && buffer == old(buffer)
      ensures Snapshot() == SendAll(old(Snapshot()), MidiRing.ProgramChange(channel, program))
    {
      SendMessage(MidiRing.ProgramChange(channel, program));
    }

    method ControlChange(channel: byte, controller: byte, value: byte)
      requires Valid()
      modifies this, buffer
      ensures Valid() && buffer == old(buffer)
      ensures Snapshot() == SendAll(old(Snapshot()), MidiRing.ControlChange(channel, controller, value))
    {
      SendMessage(MidiRing.ControlChange(channel, controller, value));
    }

    /** `midi_pitch_bend`, whose `value` is a 16-bit `unsigned int`. */
    method PitchBend(channel: byte, value: int)
      requires Valid() && 0 <= value < 0x10000
      modifies this, buffer
      ensures Valid() && buffer == old(buffer)
      ensures Snapshot() == SendAll(old(Snapshot()), MidiRing.PitchBend(channel, value))
    {
      SendMessage(MidiRing.PitchBend(channel, value));
    }

    method AllNotesOff(channel: byte)
      requires Valid()
      modifies this, buffer
      ensures Valid() && buffer == old(buffer)
      ensures Snapshot() == SendAll(old(Snapshot()), MidiRing.AllNotesOff(channel))
    {
      ControlChange(channel, 123, 0);
    }

    method AllSoundOff(channel: byte)
      requires Valid()
      modifies this, buffer
      ensures Valid() && buffer == old(buffer)
      ensures Snapshot() == SendAll(old(Snapshot()), MidiRing.AllSoundOff(channel))
    {
      ControlChange(channel, 120, 0);
    }

    method ResetControllers(channel: byte)
      requires Valid()
      modifies this, buffer
      ensures Valid() && buffer == old(buffer)
      ensures Snapshot() == SendAll(old(Snapshot()), MidiRing.ResetControllers(channel))
    {
      ControlChange(channel, 121, 0);
    }
  }
}
