/**
 * The stand-alone MIDI demo of src/midi.c: a 32-byte ring filled by
 * `send_midi` (which drops a byte silently when the ring is full), a
 * Timer 1 interrupt that shifts bytes out on Port A bit 0 with a numeric
 * state (0 start bit, 1-8 data bits, 9 stop bit, 10 idle), and `midi()`,
 * called from the main loop, which alternates Note On and Note Off over the
 * C major scale once a 16-bit call counter passes 15625.
 *
 * The VIA and RIA registers are not modelled; the levels written to the
 * MIDI pin are kept, oldest first.
 */
module MidiDemo {
  import opened Common
  import opened MidiRing

  const BUF_SIZE: int := 32

  /** `tx_state` when nothing is being sent. */
  const IDLE: byte := 10

  /** `delay_counter` threshold: "about 500 ms" at 31250 calls a second. */
  const PERIOD: int := 15625

  /** The C major scale of `notes[]`. */
  const Notes: seq<byte> := [60, 62, 64, 65, 67, 69, 71, 72]

  // ----- the transmitter -----

  /** The ring, `tx_byte` and `tx_state`. */
  datatype Tx = Tx(ring: Ring, txByte: byte, state: byte)

  predicate Inv(t: Tx)
  {
    RingOk(t.ring) && |t.ring.buf| == BUF_SIZE && t.state <= IDLE
  }

  /** `midi_irq_fn`: one step of the transmitter and the levels it writes to the pin. */
  function Irq(t: Tx): (Tx, seq<bool>)
    requires RingOk(t.ring)
  {
    if t.state < IDLE then
      if t.state == 0 then (t.(state := 1), [false])
      else if t.state <= 8 then (t.(txByte := t.txByte / 2, state := t.state + 1), [t.txByte % 2 == 1])
      else (t.(state := IDLE), [true])
    else if t.ring.head != t.ring.tail then
      var (b, r) := Pop(t.ring);
      (Tx(r, b, 0), [])
    else (t, [true])
  }

  /** `n` timer interrupts in a row, and all the levels they write. */
  function Ticks(t: Tx, n: nat): (Tx, seq<bool>)
    requires Inv(t)
    decreases n
  {
    if n == 0 then (t, [])
    else
      var (t1, p1) := Irq(t);
      var (t2, p2) := Ticks(t1, n - 1);
      (t2, p1 + p2)
  }

  /** From data state `9 - k`, the last `k` data bits go out LSB first. */
  lemma {:induction false} DataTicks(t: Tx, k: nat)
    requires Inv(t) && 1 <= k <= 8 && t.state as int == 9 - k
    ensures var (t', p) := Ticks(t, k);
      p == DataBits(t.txByte, k) && t'.state == 9 && t'.ring == t.ring
    decreases k
  {
    if k > 1 {
      DataTicks(Irq(t).0, k - 1);
    }
  }

  lemma {:induction false} TicksSnoc(t: Tx, n: nat)
    requires Inv(t)
    ensures Inv(Ticks(t, n).0)
    ensures var (tn, p) := Ticks(t, n);
      Ticks(t, n + 1) == (Irq(tn).0, p + Irq(tn).1)
    decreases n
  {
    var (t1, p1) := Irq(t);
    if n > 0 {
      TicksSnoc(t1, n - 1);
      var (tm, q) := Ticks(t1, n - 1);
      var last := Irq(tm).1;
      assert p1 + (q + last) == (p1 + q) + last;
    } else {
      assert p1 + [] == [] + p1;
    }
  }

  /** From state 0, ten interrupts put the loaded byte on the pin as an 8N1 frame and end idle. */
  lemma FrameTicks(t: Tx)
    requires Inv(t) && t.state == 0
    ensures var (t', p) := Ticks(t, 10);
      p == Frame(t.txByte) && t'.state == IDLE && t'.ring == t.ring
  {
    var t1 := Irq(t).0;
    assert Ticks(t, 10) == (Ticks(t1, 9).0, [false] + Ticks(t1, 9).1);
    DataTicks(t1, 8);
    TicksSnoc(t1, 8);
    var (t9, bits) := Ticks(t1, 8);
    assert Ticks(t1, 9) == (Irq(t9).0, bits + [true]);
  }

  /**
   * Eleven interrupts from idle with a byte waiting: the first loads the
   * oldest byte and writes nothing, the next ten put it on the pin as an 8N1
   * frame, and the transmitter is idle again with the byte off the queue.
   */
  lemma SendsFrame(t: Tx)
    requires Inv(t) && t.state == IDLE && Contents(t.ring) != []
    ensures var (t', p) := Ticks(t, 11);
      p == Frame(Contents(t.ring)[0]) && Inv(t') && t'.state == IDLE &&
      Contents(t'.ring) == Contents(t.ring)[1..]
  {
    CountRange(t.ring);
    PopContents(t.ring);
    var t1 := Irq(t).0;
    assert Irq(t).1 == [];
    FrameTicks(t1);
    var (t11, p) := Ticks(t1, 10);
    assert Ticks(t, 11) == (t11, [] + p);
  }

  /** Idle with nothing to send, each interrupt holds the line high and changes nothing. */
  lemma IdleHigh(t: Tx)
    requires Inv(t) && t.state == IDLE && Contents(t.ring) == []
    ensures Irq(t) == (t, [true])
  {
    CountRange(t.ring);
  }

  // ----- the note player -----

  /** `delay_counter`, `note_index` and `step` (0 Note On next, otherwise Note Off next). */
  datatype Player = Player(counter: int, noteIndex: int, step: int)

  predicate PlayerOk(p: Player)
  {
    0 <= p.counter < 0x10000 && 0 <= p.noteIndex < |Notes| && 0 <= p.step < 256
  }

  /** The body of the `if`: the message for this turn and the player after it. */
  function Play(p: Player): (Player, seq<byte>)
    requires PlayerOk(p)
  {
    if p.step == 0 then (p.(step := 1), [0x90, Notes[p.noteIndex], 0x7F])
    else
      var next := p.noteIndex + 1;
      (p.(noteIndex := if next >= |Notes| then 0 else next, step := 0), [0x80, Notes[p.noteIndex], 0x00])
  }

  /**
   * Turns alternate: a Note On of the current scale note on channel 0 at
   * full velocity, then the Note Off of the same note, then the next note,
   * wrapping after the eighth.
   */
  lemma PlayAlternates(p: Player)
    requires PlayerOk(p) && p.step == 0
    ensures var (p1, on) := Play(p);
      var (p2, off) := Play(p1);
      on == NoteOn(0, Notes[p.noteIndex], 0x7F) && off == NoteOff(0, Notes[p.noteIndex], 0) &&
      p2 == p.(noteIndex := (p.noteIndex + 1) % |Notes|)
  {
    var (p1, on) := Play(p);
    assert on == NoteOn(0, Notes[p.noteIndex], 0x7F);
    assert Play(p1).1 == NoteOff(0, Notes[p.noteIndex], 0);
  }

  /** `midi()` as written: the 16-bit counter goes up by one and is never set back. */
  function Tick(p: Player): (Player, seq<byte>)
    requires PlayerOk(p)
  {
    var q := p.(counter := (p.counter + 1) % 0x10000);
    if q.counter >= PERIOD then Play(q) else (q, [])
  }

  /**
   * As written, once the counter has reached the threshold every later call
   * plays a turn (until the counter wraps at 65536): after the first pause
   * of 15625 calls the messages come on consecutive calls.
   */
  lemma TickNeverPauses(p: Player)
    requires PlayerOk(p) && PERIOD - 1 <= p.counter < 0xFFFE
    ensures var (p1, m1) := Tick(p);
      PlayerOk(p1) && m1 != [] && Tick(p1).1 != [] && p1.counter == p.counter + 1
  {
    var p1 := Tick(p).0;
    assert p1.counter == p.counter + 1;
    assert (p1.counter + 1) % 0x10000 == p1.counter + 1;
  }

  /** `midi()` with the counter set back to zero when a turn is played. */
  function TickFixed(p: Player): (Player, seq<byte>)
    requires PlayerOk(p) && p.counter < PERIOD
  {
    var q := p.(counter := p.counter + 1);
    if q.counter >= PERIOD then
      var (r, m) := Play(q);
      (r.(counter := 0), m)
    else (q, [])
  }

  /** `n` calls of the corrected `midi()`, and the bytes they send. */
  function RunFixed(p: Player, n: nat): (r: (Player, seq<byte>))
    requires PlayerOk(p) && p.counter < PERIOD
    ensures PlayerOk(r.0) && r.0.counter < PERIOD
    decreases n
  {
    if n == 0 then (p, [])
    else
      var (q, out) := RunFixed(p, n - 1);
      var (q', m) := TickFixed(q);
      (q', out + m)
  }

  /** Below the threshold the corrected calls only count. */
  lemma {:induction false} RunFixedQuiet(p: Player, k: nat)
    requires PlayerOk(p) && p.counter + k < PERIOD
    ensures RunFixed(p, k) == (p.(counter := p.counter + k), [])
    decreases k
  {
    if k > 0 {
      RunFixedQuiet(p, k - 1);
      var q := p.(counter := p.counter + k - 1);
      assert TickFixed(q) == (p.(counter := p.counter + k), []);
      assert RunFixed(p, k) == (TickFixed(q).0, [] + TickFixed(q).1);
      assert [] + TickFixed(q).1 == [];
    }
  }

  /** The call that reaches the threshold plays the turn and sets the counter back. */
  lemma TickFixedTurn(p: Player)
    requires PlayerOk(p) && p.counter == PERIOD - 1
    ensures TickFixed(p) == (Play(p).0.(counter := 0), Play(p).1)
  {
  }

  /** Corrected, a turn is played exactly once every 15625 calls: 15624 quiet calls, then the turn. */
  lemma RunFixedPeriod(p: Player)
    requires PlayerOk(p) && p.counter == 0
    ensures var (p', out) := RunFixed(p, PERIOD as nat);
      out == Play(p).1 && p' == Play(p).0.(counter := 0)
  {
    RunFixedQuiet(p, PERIOD as nat - 1);
    var q := p.(counter := PERIOD - 1);
    TickFixedTurn(q);
    assert Play(q).1 == Play(p).1 && Play(q).0.(counter := 0) == Play(p).0.(counter := 0);
    assert RunFixed(p, PERIOD as nat) == (TickFixed(q).0, [] + TickFixed(q).1);
  }

  // ----- the program's globals -----

  class Demo {
    var buf: array<byte>
    var head: int
    var tail: int
    var txByte: byte
    var txState: byte
    var delayCounter: int
    var noteIndex: int
    var step: int
    /** The levels written to Port A bit 0, oldest first. */
    var pin: seq<bool>

    function TxState(): Tx
      reads this, buf
    {
      Tx(Ring(buf[..], head, tail), txByte, txState)
    }

    function PlayerState(): Player
      reads this
    {
      Player(delayCounter, noteIndex, step)
    }

    predicate Valid()
      reads this, buf
    {
      buf.Length == BUF_SIZE && Inv(TxState()) && PlayerOk(PlayerState())
    }

    /** The static initialisers, then `midi_init`: idle, nothing queued, counter zero, line high. */
    constructor ()
      ensures Valid() && fresh(buf) && Contents(TxState().ring) == [] && txState == IDLE
      ensures PlayerState() == Player(0, 0, 0) && pin == [true]
    {
      buf := new byte[BUF_SIZE](_ => 0);
      head, tail := 0, 0;
      txByte, txState := 0, IDLE;
      delayCounter, noteIndex, step := 0, 0, 0;
      pin := [true];
      new;
      CountRange(TxState().ring);
    }

    /** `send_midi`: store the byte unless the ring is full. */
    method SendMidi(b: byte)
      requires Valid()
      modifies this, buf
      ensures Valid() && buf == old(buf) && pin == old(pin) && PlayerState() == old(PlayerState())
      ensures TxState() == old(TxState()).(ring := Offer(old(TxState()).ring, b).1)
    {
      var next := (head + 1) % BUF_SIZE;
      if next != tail {
        buf[head] := b;
        head := next;
      }
    }

    /** `midi_irq_fn`. */
    method MidiIrq()
      requires Valid()
      modifies this
      ensures Valid() && buf == old(buf) && PlayerState() == old(PlayerState())
      ensures TxState() == Irq(old(TxState())).0 && pin == old(pin) + Irq(old(TxState())).1
    {
      if txState < 10 {
        if txState == 0 {
          pin := pin + [false];
        } else if txState >= 1 && txState <= 8 {
          pin := pin + [txByte % 2 == 1];
          txByte := txByte / 2;
        } else if txState == 9 {
          pin := pin + [true];
        }
        txState := txState + 1;
      } else if head != tail {
        txByte := buf[tail];
        tail := (tail + 1) % BUF_SIZE;
        txState := 0;
      } else {
        pin := pin + [true];
      }
    }

    /** Send a message's bytes with `send_midi`, each dropped if the ring is full. */
    method SendAll(m: seq<byte>)
      requires Valid()
      modifies this, buf
      ensures Valid() && buf == old(buf) && pin == old(pin) && PlayerState() == old(PlayerState())
      ensures TxState() == old(TxState()).(ring := OfferAll(old(TxState()).ring, m))
    {
      var i := 0;
      while i < |m|
        invariant 0 <= i <= |m| && Valid() && buf == old(buf) && pin == old(pin)
        invariant PlayerState() == old(PlayerState()) && txByte == old(txByte) && txState == old(txState)
        invariant OfferAll(old(TxState()).ring, m) == OfferAll(TxState().ring, m[i..])
      {
        SendMidi(m[i]);
        assert m[i..][1..] == m[i + 1..];
        i := i + 1;
      }
    }

    /** `midi()`, as written. */
    method Midi()
      requires Valid()
      modifies this, buf
      ensures Valid() && buf == old(buf) && pin == old(pin)
      ensures PlayerState() == Tick(old(PlayerState())).0
      ensures TxState() == old(TxState()).(ring := OfferAll(old(TxState()).ring, Tick(old(PlayerState())).1))
    {
      delayCounter := (delayCounter + 1) % 0x10000;
      if delayCounter >= PERIOD {
        if step == 0 {
          SendAll([0x90, Notes[noteIndex], 0x7F]);
          step := 1;
        } else {
          SendAll([0x80, Notes[noteIndex], 0x00]);
          noteIndex := noteIndex + 1;
          if noteIndex >= |Notes| {
            noteIndex := 0;
          }
          step := 0;
        }
      } else {
        assert OfferAll(TxState().ring, []) == TxState().ring;
      }
    }
  }
}
