/**
 * What the MIDI-OUT drivers (src/midi.c and the five src/midi/wersja.*
 * variants) have in common: a ring buffer of bytes indexed by `head`
 * (next write) and `tail` (next read), the 8N1 frame a byte is sent in,
 * and the MIDI 1.0 channel voice messages the helpers build.
 */
module MidiRing {
  import opened Common

  // ----- the ring buffer -----

  /**
   * The buffer and its two indices. One slot is always left free, so a
   * ring of `n` slots holds at most `n - 1` bytes.
   */
  datatype Ring = Ring(buf: seq<byte>, head: int, tail: int)

  predicate RingOk(r: Ring)
  {
    |r.buf| > 1 && 0 <= r.head < |r.buf| && 0 <= r.tail < |r.buf|
  }

  /**
   * The number of queued bytes, `(head - tail) & MASK` for a power-of-two
   * size (the C operands are promoted to `int`, so a negative difference
   * is taken modulo the size).
   */
  function Count(r: Ring): int
    requires RingOk(r)
  {
    (r.head - r.tail) % |r.buf|
  }

  /** The room left, `SIZE - count - 1`. */
  function Free(r: Ring): int
    requires RingOk(r)
  {
    |r.buf| - 1 - Count(r)
  }

  /** `((head + 1) & MASK) == tail`: one more byte would make head catch up with tail. */
  predicate Full(r: Ring)
    requires RingOk(r)
  {
    (r.head + 1) % |r.buf| == r.tail
  }

  /** The queued bytes, oldest first. */
  function Contents(r: Ring): (q: seq<byte>)
    requires RingOk(r)
    ensures |q| == Count(r)
  {
    seq(Count(r), i requires 0 <= i < Count(r) => r.buf[(r.tail + i) % |r.buf|])
  }

  /** The store at `head` and the advance of `head`, done when the ring is not full. */
  function Push(r: Ring, b: byte): (r': Ring)
    requires RingOk(r)
    ensures RingOk(r') && |r'.buf| == |r.buf| && r'.tail == r.tail
  {
    Ring(r.buf[r.head := b], (r.head + 1) % |r.buf|, r.tail)
  }

  /** The read at `tail` and the advance of `tail`, done when the ring is not empty. */
  function Pop(r: Ring): (p: (byte, Ring))
    requires RingOk(r)
    ensures RingOk(p.1) && p.1.buf == r.buf && p.1.head == r.head
  {
    (r.buf[r.tail], Ring(r.buf, r.head, (r.tail + 1) % |r.buf|))
  }

  /** `send`: store the byte unless the ring is full; whether it was stored. */
  function Offer(r: Ring, b: byte): (p: (bool, Ring))
    requires RingOk(r)
    ensures RingOk(p.1) && |p.1.buf| == |r.buf|
  {
    if Full(r) then (false, r) else (true, Push(r, b))
  }

  lemma ModSmall(a: int, n: int)
    requires 0 <= a < n
    ensures a % n == a
  {
  }

  lemma ModWrap(a: int, n: int)
    requires 0 < n <= a < 2 * n
    ensures a % n == a - n
  {
  }

  lemma ModNeg(a: int, n: int)
    requires 0 < n && -n <= a < 0
    ensures a % n == a + n
  {
  }

  /** Slot `i` after slot `t`, for indices below the size. */
  lemma Slot(t: int, i: int, n: int)
    requires 0 <= t < n && 0 <= i < n
    ensures (t + i) % n == if t + i < n then t + i else t + i - n
  {
    if t + i < n {
      ModSmall(t + i, n);
    } else {
      ModWrap(t + i, n);
    }
  }

  /** The count never reaches the size; it is zero exactly when head meets tail. */
  lemma CountRange(r: Ring)
    requires RingOk(r)
    ensures 0 <= Count(r) < |r.buf|
    ensures Count(r) == 0 <==> r.head == r.tail
    ensures Count(r) == if r.head >= r.tail then r.head - r.tail else |r.buf| - r.tail + r.head
  {
    if r.head >= r.tail {
      ModSmall(r.head - r.tail, |r.buf|);
    } else {
      ModNeg(r.head - r.tail, |r.buf|);
    }
  }

  /** The full test says that the count has reached `SIZE - 1`: no room is left. */
  lemma FullIffNoRoom(r: Ring)
    requires RingOk(r)
    ensures Full(r) <==> Free(r) == 0
  {
    CountRange(r);
    Slot(r.head, 1, |r.buf|);
  }

  /** A byte stored in a ring that is not full joins the end of the queue. */
  lemma PushContents(r: Ring, b: byte)
    requires RingOk(r) && !Full(r)
    ensures Contents(Push(r, b)) == Contents(r) + [b]
    ensures Count(Push(r, b)) == Count(r) + 1
  {
    FullIffNoRoom(r);
    CountRange(r);
    var r' := Push(r, b);
    Slot(r.head, 1, |r.buf|);
    CountRange(r');
    forall i | 0 <= i < Count(r')
      ensures Contents(r')[i] == (Contents(r) + [b])[i]
    {
      if i < Count(r) {
        SlotsDiffer(r, i);
      } else {
        SlotOfHead(r);
      }
    }
  }

  /** A queued slot is never the slot `head` writes next. */
  lemma SlotsDiffer(r: Ring, i: int)
    requires RingOk(r) && 0 <= i < Count(r)
    ensures (r.tail + i) % |r.buf| != r.head
  {
    CountRange(r);
    Slot(r.tail, i, |r.buf|);
  }

  /** The slot after the last queued byte is `head`. */
  lemma SlotOfHead(r: Ring)
    requires RingOk(r)
    ensures (r.tail + Count(r)) % |r.buf| == r.head
  {
    CountRange(r);
    Slot(r.tail, Count(r), |r.buf|);
  }

  /** Reading from a non-empty ring takes the oldest byte off the queue. */
  lemma PopContents(r: Ring)
    requires RingOk(r) && r.head != r.tail
    ensures Contents(r) != [] && Pop(r).0 == Contents(r)[0]
    ensures Contents(Pop(r).1) == Contents(r)[1..]
  {
    CountRange(r);
    var n, r' := |r.buf|, Pop(r).1;
    Slot(r.tail, 1, n);
    CountRange(r');
    ModSmall(r.tail, n);
    forall i | 0 <= i < Count(r')
      ensures Contents(r')[i] == Contents(r)[i + 1]
    {
      Slot(r.tail, i + 1, n);
      Slot(r'.tail, i, n);
    }
  }

  /** Offering a byte stores it exactly when there is room, and then queues it last. */
  lemma OfferContents(r: Ring, b: byte)
    requires RingOk(r)
    ensures Offer(r, b).0 <==> Free(r) > 0
    ensures Contents(Offer(r, b).1) == Contents(r) + (if Offer(r, b).0 then [b] else [])
    ensures Free(Offer(r, b).1) == Free(r) - (if Offer(r, b).0 then 1 else 0)
  {
    FullIffNoRoom(r);
    CountRange(r);
    if !Full(r) {
      PushContents(r, b);
    }
  }

  /**
   * `midi_send_buffer`: offer the bytes in order and stop at the first one
   * refused; how many were stored, and the ring after.
   */
  function OfferPrefix(r: Ring, data: seq<byte>): (p: (int, Ring))
    requires RingOk(r)
    ensures RingOk(p.1) && |p.1.buf| == |r.buf| && 0 <= p.0 <= |data|
    decreases |data|
  {
    if data == [] then (0, r)
    else
      var (ok, r1) := Offer(r, data[0]);
      if !ok then (0, r)
      else
        var (n, r2) := OfferPrefix(r1, data[1..]);
        (n + 1, r2)
  }

  /**
   * With nothing draining the ring, the bytes stored are the longest prefix
   * that fits: as many as there is room for.
   */
  lemma {:induction false} OfferPrefixContents(r: Ring, data: seq<byte>)
    requires RingOk(r)
    ensures var (n, r') := OfferPrefix(r, data);
      n == Min(|data|, Free(r)) && Contents(r') == Contents(r) + data[..n]
    decreases |data|
  {
    CountRange(r);
    if data != [] {
      OfferContents(r, data[0]);
      var (ok, r1) := Offer(r, data[0]);
      if ok {
        OfferPrefixContents(r1, data[1..]);
        var n := OfferPrefix(r1, data[1..]).0;
        assert data[..n + 1] == [data[0]] + data[1..][..n];
      }
    }
  }

  /** A queue grown by the first byte and then by `n` more of the rest has grown by `n + 1` leading bytes. */
  lemma QueuedOneMore(q0: seq<byte>, q1: seq<byte>, q: seq<byte>, data: seq<byte>, n: nat)
    requires data != [] && n < |data| && q1 == q0 + [data[0]] && q == q1 + data[1..][..n]
    ensures q == q0 + data[..n + 1]
  {
    assert data[..n + 1] == [data[0]] + data[1..][..n];
  }

  /**
   * The channel-message helpers: one `send` per byte, each made whether or
   * not the previous one was refused.
   */
  function OfferAll(r: Ring, data: seq<byte>): (r': Ring)
    requires RingOk(r)
    ensures RingOk(r') && |r'.buf| == |r.buf|
    decreases |data|
  {
    if data == [] then r else OfferAll(Offer(r, data[0]).1, data[1..])
  }

  /** A byte refused leaves the ring full, so every later one is refused too: the helpers queue a prefix. */
  lemma {:induction false} OfferAllPrefix(r: Ring, data: seq<byte>)
    requires RingOk(r)
    ensures OfferAll(r, data) == OfferPrefix(r, data).1
    decreases |data|
  {
    if data != [] {
      OfferContents(r, data[0]);
      if Offer(r, data[0]).0 {
        OfferAllPrefix(Offer(r, data[0]).1, data[1..]);
      } else {
        OfferAllRefused(r, data[1..]);
      }
    }
  }

  lemma {:induction false} OfferAllRefused(r: Ring, data: seq<byte>)
    requires RingOk(r) && Full(r)
    ensures OfferAll(r, data) == r
    decreases |data|
  {
    if data != [] {
      OfferAllRefused(r, data[1..]);
    }
  }

  // ----- the 8N1 frame -----

  /** The low `n` bits of `b`, least significant first: `b & 1`, then `b >>= 1`. */
  function DataBits(b: int, n: nat): (bits: seq<bool>)
    requires b >= 0
    ensures |bits| == n
  {
    if n == 0 then [] else [b % 2 == 1] + DataBits(b / 2, n - 1)
  }

  /** A start bit (low), the eight data bits LSB first, a stop bit (high). */
  function Frame(b: byte): (f: seq<bool>)
    ensures |f| == 10 && !f[0] && f[9]
  {
    [false] + DataBits(b, 8) + [true]
  }

  /** The start bit, then the data bits followed by the stop bit, make the frame. */
  lemma FrameSplit(b: byte, bits: seq<bool>)
    requires bits == DataBits(b, 8)
    ensures [false] + (bits + [true]) == Frame(b)
  {
    assert [false] + (bits + [true]) == [false] + bits + [true];
  }

  /** The value of bits given least significant first. */
  function BitsValue(bits: seq<bool>): nat
  {
    if bits == [] then 0 else (if bits[0] then 1 else 0) + 2 * BitsValue(bits[1..])
  }

  function Pow2(n: nat): (p: nat)
    ensures p >= 1
  {
    if n == 0 then 1 else 2 * Pow2(n - 1)
  }

  /** The data bits give back a value that fits in them: a receiver recovers the byte. */
  lemma {:induction false} DataBitsValue(b: int, n: nat)
    requires 0 <= b < Pow2(n)
    ensures BitsValue(DataBits(b, n)) == b
  {
    if n > 0 {
      DataBitsValue(b / 2, n - 1);
      assert DataBits(b, n)[1..] == DataBits(b / 2, n - 1);
    }
  }

  lemma FrameValue(b: byte)
    ensures BitsValue(Frame(b)[1..9]) == b
  {
    assert Frame(b)[1..9] == DataBits(b, 8);
    assert Pow2(8) == 256;
    DataBitsValue(b, 8);
  }

  // ----- channel voice and system real-time messages -----

  const NOTE_OFF: byte := 0x80
  const NOTE_ON: byte := 0x90
  const POLY_PRESSURE: byte := 0xA0
  const CONTROL_CHANGE: byte := 0xB0
  const PROGRAM_CHANGE: byte := 0xC0
  const CHANNEL_PRESSURE: byte := 0xD0
  const PITCH_BEND: byte := 0xE0

  /** A command nibble of a channel voice message: 0x80, 0x90, ..., 0xE0. */
  predicate IsCommand(cmd: byte)
  {
    0x80 <= cmd < 0xF0 && cmd % 16 == 0
  }

  /** `cmd | (channel & 0x0F)`: the command's low nibble is zero, so the OR is a sum. */
  function StatusByte(cmd: byte, channel: byte): (s: byte)
    requires IsCommand(cmd)
    ensures s >= 0x80 && s / 16 == cmd / 16 && s % 16 == channel % 16
  {
    cmd + channel % 16
  }

  /** `x & 0x7F` of a non-negative value. */
  function Data7(x: int): byte
    requires x >= 0
  {
    x % 128
  }

  /** The status byte, then each data value masked to seven bits. */
  function ChannelMessage(cmd: byte, channel: byte, data: seq<int>): seq<byte>
    requires IsCommand(cmd) && forall i :: 0 <= i < |data| ==> data[i] >= 0
  {
    [StatusByte(cmd, channel)] + seq(|data|, i requires 0 <= i < |data| => Data7(data[i]))
  }

  /**
   * A channel message is well formed for MIDI 1.0: a status byte (top bit
   * set) that carries the command and the channel, then data bytes with
   * the top bit clear that keep the low seven bits of each value.
   */
  lemma ChannelMessageFormat(cmd: byte, channel: byte, data: seq<int>)
    requires IsCommand(cmd) && forall i :: 0 <= i < |data| ==> data[i] >= 0
    ensures var m := ChannelMessage(cmd, channel, data);
      |m| == |data| + 1 && m[0] >= 0x80 && m[0] / 16 == cmd / 16 && m[0] % 16 == channel % 16 &&
      forall i :: 0 < i < |m| ==> m[i] < 0x80 && m[i] == data[i - 1] % 128
  {
  }

  function NoteOn(channel: byte, note: byte, velocity: byte): (m: seq<byte>)
    ensures m == [StatusByte(NOTE_ON, channel), note % 128, velocity % 128]
    ensures forall i :: 1 <= i < |m| ==> m[i] < 0x80
  {
    ChannelMessage(NOTE_ON, channel, [note, velocity])
  }

  function NoteOff(channel: byte, note: byte, velocity: byte): (m: seq<byte>)
    ensures m == [StatusByte(NOTE_OFF, channel), note % 128, velocity % 128]
    ensures forall i :: 1 <= i < |m| ==> m[i] < 0x80
  {
    ChannelMessage(NOTE_OFF, channel, [note, velocity])
  }

  function ControlChange(channel: byte, controller: byte, value: byte): (m: seq<byte>)
    ensures m == [StatusByte(CONTROL_CHANGE, channel), controller % 128, value % 128]
    ensures forall i :: 1 <= i < |m| ==> m[i] < 0x80
  {
    ChannelMessage(CONTROL_CHANGE, channel, [controller, value])
  }

  function ProgramChange(channel: byte, program: byte): (m: seq<byte>)
    ensures m == [StatusByte(PROGRAM_CHANGE, channel), program % 128] && m[1] < 0x80
  {
    ChannelMessage(PROGRAM_CHANGE, channel, [program])
  }

  function ChannelPressure(channel: byte, pressure: byte): (m: seq<byte>)
    ensures m == [StatusByte(CHANNEL_PRESSURE, channel), pressure % 128] && m[1] < 0x80
  {
    ChannelMessage(CHANNEL_PRESSURE, channel, [pressure])
  }

  function PolyPressure(channel: byte, note: byte, pressure: byte): (m: seq<byte>)
    ensures m == [StatusByte(POLY_PRESSURE, channel), note % 128, pressure % 128]
    ensures forall i :: 1 <= i < |m| ==> m[i] < 0x80
  {
    ChannelMessage(POLY_PRESSURE, channel, [note, pressure])
  }

  /** `bend & 0x7F`, then `(bend >> 7) & 0x7F` of a 16-bit `unsigned int`. */
  function PitchBend(channel: byte, bend: int): (m: seq<byte>)
    requires 0 <= bend < 0x10000
    ensures |m| == 3 && m[0] == StatusByte(PITCH_BEND, channel) && m[1] < 0x80 && m[2] < 0x80
  {
    ChannelMessage(PITCH_BEND, channel, [bend, bend / 128])
  }

  /** The two data bytes of a pitch bend carry the low 14 bits of the value, low seven first. */
  lemma PitchBendSplit(channel: byte, bend: int)
    requires 0 <= bend < 0x10000
    ensures var m := PitchBend(channel, bend);
      |m| == 3 && m[0] as int == 0xE0 + channel % 16 && m[1] < 0x80 && m[2] < 0x80 &&
      m[1] as int + 128 * m[2] as int == bend % 0x4000
  {
    var m := PitchBend(channel, bend);
    assert m[1] == bend % 128 && m[2] == (bend / 128) % 128;
    var q := bend / 128;
    assert bend == 128 * q + m[1];
    assert q == 128 * (q / 128) + m[2];
    var lo: int := m[1] as int + 128 * m[2] as int;
    assert bend == 0x4000 * (q / 128) + lo;
    Mod14(bend, q / 128, lo);
  }

  /** The remainder modulo 2^14 is the only one of its kind. */
  lemma Mod14(a: int, q: int, r: int)
    requires a == 0x4000 * q + r && 0 <= r < 0x4000
    ensures a % 0x4000 == r
  {
  }

  /** `midi_all_notes_off`: controller 123 with value 0. */
  function AllNotesOff(channel: byte): (m: seq<byte>)
    ensures m == [0xB0 + channel % 16, 123, 0]
  {
    ControlChange(channel, 123, 0)
  }

  function AllSoundOff(channel: byte): (m: seq<byte>)
    ensures m == [0xB0 + channel % 16, 120, 0]
  {
    ControlChange(channel, 120, 0)
  }

  function ResetControllers(channel: byte): (m: seq<byte>)
    ensures m == [0xB0 + channel % 16, 121, 0]
  {
    ControlChange(channel, 121, 0)
  }

  /** The system real-time messages: one status byte each. */
  datatype RealTime = Clock | Start | Continue | Stop | ActiveSensing | SystemReset

  function RealTimeByte(m: RealTime): byte
  {
    match m
    case Clock => 0xF8
    case Start => 0xFA
    case Continue => 0xFB
    case Stop => 0xFC
    case ActiveSensing => 0xFE
    case SystemReset => 0xFF
  }

  /** Real-time bytes are distinct status bytes of the 0xF8-0xFF range. */
  lemma RealTimeDistinct(a: RealTime, b: RealTime)
    ensures 0xF8 <= RealTimeByte(a) && (RealTimeByte(a) == RealTimeByte(b) <==> a == b)
  {
  }
}
