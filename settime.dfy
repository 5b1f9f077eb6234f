/**
 * `src/ext-settime.c`: the interactive setter for a real-time clock that
 * still reads 1970. A line editor reads a date and time from the console,
 * `sscanf` splits it by "%4d-%2d-%2d %2d:%2d:%2d", the fields are range
 * checked, and `mktime` and `clock_settime` set the clock.
 *
 * The console is the sequence of bytes received; what is sent back is the
 * echo. `mktime` is a parameter, and so is whether `clock_settime` succeeds.
 */
module SetTime {
  import opened Common

  const BELL: byte := 0x07
  const BS: byte := 0x08
  const LF: byte := 0x0A
  const CR: byte := 0x0D
  const ESC: byte := 0x1B
  const DEL: byte := 0x7F
  const NEWLINE: seq<byte> := [CR, LF]

  /** The size of `line` in `main`, the `maxlen` it passes to the editor. */
  const LINE_SIZE := 32

  /** Bytes the editor stores: 32 and above except 127. */
  predicate Printable(c: byte)
  {
    c >= 32 && c != 127
  }

  /** Bytes that end `read_line_editor`. */
  predicate Stops(c: byte)
  {
    c == CR || c == LF || c == ESC
  }

  /** The editor's outcome: a line, a cancel by ESC, or still waiting for input. */
  datatype Edited = Line(text: seq<byte>) | Cancelled | Waiting(text: seq<byte>)

  /** One key that does not end the line: the new text and its echo. */
  function Key(text: seq<byte>, c: byte, maxlen: int): (seq<byte>, seq<byte>)
  {
    if c == BS || c == DEL then
      (if |text| > 0 then (text[..|text| - 1], [BS, 32, BS]) else (text, [BELL]))
    else if Printable(c) then
      (if |text| < maxlen - 1 then (text + [c], [c]) else (text, [BELL]))
    else (text, [])
  }

  /** The editor from `text` over the received bytes: the outcome and the bytes echoed. */
  function Edit(text: seq<byte>, input: seq<byte>, maxlen: int): (Edited, seq<byte>)
    decreases |input|
  {
    if input == [] then (Waiting(text), [])
    else if input[0] == CR || input[0] == LF then (Line(text), NEWLINE)
    else if input[0] == ESC then (Cancelled, [])
    else
      var k := Key(text, input[0], maxlen);
      var rest := Edit(k.0, input[1..], maxlen);
      (rest.0, k.1 + rest.1)
  }

  /**
   * `read_line_editor(buf, maxlen)`, with `maxlen` the size of `buf`: reads
   * until CR, LF or ESC (or until the input runs out, where the device
   * would wait); a line is left NUL-terminated in `buf`, a cancel leaves
   * `buf` empty.
   */
  method ReadLineEditor(buf: array<byte>, input: seq<byte>) returns (r: Edited, echo: seq<byte>)
    requires buf.Length >= 1
    modifies buf
    ensures (r, echo) == Edit([], input, buf.Length)
    ensures r.Line? ==> |r.text| < buf.Length && buf[..|r.text|] == r.text && buf[|r.text|] == 0
    ensures r.Cancelled? ==> buf[0] == 0
  {
    var len := 0;
    var i := 0;
    echo := [];
    assert input[0..] == input && buf[..0] == [];
    AfterNothing(Edit([], input, buf.Length));
    while i < |input|
      invariant 0 <= i <= |input| && 0 <= len <= buf.Length - 1
      invariant Edit([], input, buf.Length) == After(echo, Edit(buf[..len], input[i..], buf.Length))
    {
      var c := input[i];
      ghost var text, echo0 := buf[..len], echo;
      assert input[i..] == [c] + input[i + 1..];
      if c == CR || c == LF {
        echo := echo + NEWLINE;
        buf[len] := 0;
        assert buf[..len] == text;
        r := Line(buf[..len]);
        return;
      }
      if c == ESC {
        buf[0] := 0;
        r := Cancelled;
        assert echo + [] == echo;
        return;
      }
      if c == BS || c == DEL {
        if len > 0 {
          len := len - 1;
          echo := echo + [BS, 32, BS];
        } else {
          echo := echo + [BELL];
        }
      } else if Printable(c) {
        if len < buf.Length - 1 {
          buf[len] := c;
          len := len + 1;
          echo := echo + [c];
        } else {
          echo := echo + [BELL];
        }
      }
      assert buf[..len] == Key(text, c, buf.Length).0 && echo == echo0 + Key(text, c, buf.Length).1;
      EditKey(text, c, input[i + 1..], buf.Length);
      AfterAfter(echo0, Key(text, c, buf.Length).1, Edit(buf[..len], input[i + 1..], buf.Length));
      i := i + 1;
    }
    assert input[i..] == [] && echo + [] == echo;
    r := Waiting(buf[..len]);
  }

  /** An outcome with `echo` sent before its own echo. */
  function After(echo: seq<byte>, e: (Edited, seq<byte>)): (Edited, seq<byte>)
  {
    (e.0, echo + e.1)
  }

  lemma AfterNothing(e: (Edited, seq<byte>))
    ensures After([], e) == e
  {
    assert [] + e.1 == e.1;
  }

  lemma AfterAfter(a: seq<byte>, b: seq<byte>, e: (Edited, seq<byte>))
    ensures After(a, After(b, e)) == After(a + b, e)
  {
    assert a + (b + e.1) == a + b + e.1;
  }

  /** A key that does not end the line edits the text and is followed by the rest. */
  lemma EditKey(text: seq<byte>, c: byte, rest: seq<byte>, maxlen: int)
    requires !Stops(c)
    ensures Edit(text, [c] + rest, maxlen) == After(Key(text, c, maxlen).1, Edit(Key(text, c, maxlen).0, rest, maxlen))
  {
    assert ([c] + rest)[1..] == rest;
  }

  /** The index of the first byte that ends the line, or `|input|` when there is none. */
  function FirstStop(input: seq<byte>): (k: nat)
    ensures k <= |input|
  {
    if input == [] || Stops(input[0]) then 0 else 1 + FirstStop(input[1..])
  }

  /**
   * The outcome is decided by the first CR, LF or ESC: ESC cancels, CR or
   * LF yields the text edited from the bytes before it, and without one the
   * editor is still waiting with that text.
   */
  lemma {:induction false} EditStopsAtFirst(text: seq<byte>, input: seq<byte>, maxlen: int)
    ensures var k := FirstStop(input);
      var before := Edit(text, input[..k], maxlen);
      before.0.Waiting? &&
      (k == |input| ==> Edit(text, input, maxlen) == before) &&
      (k < |input| && input[k] == ESC ==> Edit(text, input, maxlen) == (Cancelled, before.1)) &&
      (k < |input| && input[k] != ESC ==> Edit(text, input, maxlen) == (Line(before.0.text), before.1 + NEWLINE))
    decreases |input|
  {
    var k := FirstStop(input);
    if input == [] || Stops(input[0]) {
      assert input[..k] == [];
      assert [] + NEWLINE == NEWLINE;
    } else {
      var kk := Key(text, input[0], maxlen);
      EditStopsAtFirst(kk.0, input[1..], maxlen);
      assert input[..k][0] == input[0] && input[..k][1..] == input[1..][..k - 1];
      var inner := Edit(kk.0, input[1..][..k - 1], maxlen);
      assert Edit(text, input[..k], maxlen) == (inner.0, kk.1 + inner.1);
      if k < |input| {
        assert input[1..][k - 1] == input[k];
        assert kk.1 + (inner.1 + NEWLINE) == (kk.1 + inner.1) + NEWLINE;
      } else {
        assert input[1..][..k - 1] == input[1..];
        assert input[..k] == input;
      }
    }
  }

  /** Every stored byte is printable and the text never outgrows `maxlen - 1`. */
  lemma {:induction false} EditKeepsLine(text: seq<byte>, input: seq<byte>, maxlen: int)
    requires maxlen >= 1 && |text| <= maxlen - 1 && forall i :: 0 <= i < |text| ==> Printable(text[i])
    ensures var r := Edit(text, input, maxlen).0;
      !r.Cancelled? ==> |r.text| <= maxlen - 1 && forall i :: 0 <= i < |r.text| ==> Printable(r.text[i])
    decreases |input|
  {
    if input != [] && !Stops(input[0]) {
      var k := Key(text, input[0], maxlen);
      assert forall i :: 0 <= i < |k.0| ==> Printable(k.0[i]);
      EditKeepsLine(k.0, input[1..], maxlen);
    }
  }

  /** Printable bytes that fit are stored as they come and echoed as they are. */
  lemma {:induction false} EditTyped(text: seq<byte>, input: seq<byte>, maxlen: int)
    requires |text| + |input| <= maxlen - 1 && forall i :: 0 <= i < |input| ==> Printable(input[i])
    ensures Edit(text, input, maxlen) == (Waiting(text + input), input)
    decreases |input|
  {
    if input != [] {
      assert Printable(input[0]) && input[0] != BS && input[0] != DEL && !Stops(input[0]);
      assert Key(text, input[0], maxlen) == (text + [input[0]], [input[0]]);
      assert forall i :: 0 <= i < |input[1..]| ==> Printable(input[1..][i]);
      EditTyped(text + [input[0]], input[1..], maxlen);
      assert text + [input[0]] + input[1..] == text + input;
      assert [input[0]] + input[1..] == input;
    } else {
      assert text + input == text;
    }
  }

  /**
   * A terminal line as the echo draws it: the cells written so far and the
   * cursor. A backspace moves the cursor left, the bell changes nothing,
   * anything else is written at the cursor.
   */
  datatype Screen = Screen(cells: seq<byte>, col: nat)

  function Draw(s: Screen, echo: seq<byte>): Screen
    decreases |echo|
  {
    if echo == [] then s
    else
      var c := echo[0];
      var s' := if c == BS then Screen(s.cells, if s.col > 0 then s.col - 1 else 0)
                else if c == BELL then s
                else if s.col < |s.cells| then Screen(s.cells[s.col := c], s.col + 1)
                else Screen(s.cells + [c], s.col + 1);
      Draw(s', echo[1..])
  }

  /** The screen shows `text` up to the cursor and only blanks after it. */
  predicate Shows(s: Screen, text: seq<byte>)
  {
    s.col <= |s.cells| && s.cells[..s.col] == text && forall i :: s.col <= i < |s.cells| ==> s.cells[i] == 32
  }

  lemma {:induction false} DrawAppend(s: Screen, a: seq<byte>, b: seq<byte>)
    ensures Draw(s, a + b) == Draw(Draw(s, a), b)
    decreases |a|
  {
    if a != [] {
      assert (a + b)[0] == a[0] && (a + b)[1..] == a[1..] + b;
      var c := a[0];
      var s' := if c == BS then Screen(s.cells, if s.col > 0 then s.col - 1 else 0)
                else if c == BELL then s
                else if s.col < |s.cells| then Screen(s.cells[s.col := c], s.col + 1)
                else Screen(s.cells + [c], s.col + 1);
      DrawAppend(s', a[1..], b);
    } else {
      assert a + b == b;
    }
  }

  /** One key's echo keeps the screen in step with the text. */
  lemma KeyShown(s: Screen, text: seq<byte>, c: byte, maxlen: int)
    requires Shows(s, text) && !Stops(c)
    ensures Shows(Draw(s, Key(text, c, maxlen).1), Key(text, c, maxlen).0)
  {
    var k := Key(text, c, maxlen);
    if (c == BS || c == DEL) && |text| > 0 {
      var s1 := Screen(s.cells, s.col - 1);
      var s2 := Screen(s.cells[s.col - 1 := 32], s.col);
      assert Draw(s, [BS, 32, BS]) == Draw(s1, [32, BS]);
      assert Draw(s1, [32, BS]) == Draw(s2, [BS]);
      assert Draw(s2, [BS]) == Screen(s2.cells, s.col - 1);
      assert s2.cells[..s.col - 1] == text[..|text| - 1];
    } else if !(c == BS || c == DEL) && Printable(c) && |text| < maxlen - 1 {
      assert Draw(s, [c]) == Draw(if s.col < |s.cells| then Screen(s.cells[s.col := c], s.col + 1) else Screen(s.cells + [c], s.col + 1), []);
    }
  }

  /**
   * While the line is being edited, the echo leaves on the screen exactly
   * the text in the buffer, followed by blanks where characters were erased.
   */
  lemma {:induction false} EchoShowsText(s: Screen, text: seq<byte>, input: seq<byte>, maxlen: int)
    requires Shows(s, text)
    ensures var e := Edit(text, input, maxlen);
      e.0.Waiting? ==> Shows(Draw(s, e.1), e.0.text)
    decreases |input|
  {
    if input != [] && !Stops(input[0]) {
      var k := Key(text, input[0], maxlen);
      KeyShown(s, text, input[0], maxlen);
      EchoShowsText(Draw(s, k.1), k.0, input[1..], maxlen);
      DrawAppend(s, k.1, Edit(k.0, input[1..], maxlen).1);
    }
  }

  /** The six fields `main` reads. */
  datatype DateTime = DateTime(year: int, mon: int, day: int, hour: int, min: int, sec: int)

  /** A directive of a `scanf` format: `%Nd`, a literal character, or a blank. */
  datatype Directive = Conv(width: nat) | Lit(c: byte) | Blank

  /** "%4d-%2d-%2d %2d:%2d:%2d" */
  const FORMAT: seq<Directive> := [Conv(4), Lit(45), Conv(2), Lit(45), Conv(2), Blank,
    Conv(2), Lit(58), Conv(2), Lit(58), Conv(2)]

  predicate IsSpace(c: byte)
  {
    c == 32 || 9 <= c <= 13
  }

  predicate IsDigit(c: byte)
  {
    48 <= c <= 57
  }

  function SkipSpace(s: seq<byte>): (r: seq<byte>)
    ensures |r| <= |s|
  {
    if |s| > 0 && IsSpace(s[0]) then SkipSpace(s[1..]) else s
  }

  /** How many leading digits of `s`, at most `width`. */
  function DigitRun(s: seq<byte>, width: nat): (n: nat)
    ensures n <= width && n <= |s|
  {
    if width > 0 && |s| > 0 && IsDigit(s[0]) then 1 + DigitRun(s[1..], width - 1) else 0
  }

  /** The decimal value of a run of digits. */
  function Decimal(ds: seq<byte>): int
  {
    if ds == [] then 0 else Decimal(ds[..|ds| - 1]) * 10 + (ds[|ds| - 1] as int - 48)
  }

  /**
   * A `%Nd` conversion: blanks skipped, then at most `width` characters of
   * an optional sign and at least one digit. The value and the rest.
   */
  function ScanInt(s: seq<byte>, width: nat): Option<(int, seq<byte>)>
  {
    var t := SkipSpace(s);
    var signed := |t| > 0 && (t[0] == 45 || t[0] == 43);
    var u := if signed then t[1..] else t;
    var w := if signed then width - 1 else width;
    if w <= 0 then None
    else
      var n := DigitRun(u, w);
      if n == 0 then None
      else Some((if signed && t[0] == 45 then -Decimal(u[..n]) else Decimal(u[..n]), u[n..]))
  }

  /**
   * `sscanf`: the values converted before the first directive that fails.
   * A literal must be the next character; a blank matches any number of
   * blanks, none included.
   */
  function Scanf(fmt: seq<Directive>, s: seq<byte>): seq<int>
  {
    if fmt == [] then []
    else match fmt[0]
      case Conv(w) =>
        var r := ScanInt(s, w);
        if r.None? then [] else [r.value.0] + Scanf(fmt[1..], r.value.1)
      case Lit(c) => if |s| > 0 && s[0] == c then Scanf(fmt[1..], s[1..]) else []
      case Blank => Scanf(fmt[1..], SkipSpace(s))
  }

  /** `sscanf(line, "%4d-%2d-%2d %2d:%2d:%2d", ...) == 6`: the fields when all six conversions succeed. */
  function Scan(line: seq<byte>): Option<DateTime>
  {
    var v := Scanf(FORMAT, line);
    if |v| == 6 then Some(DateTime(v[0], v[1], v[2], v[3], v[4], v[5])) else None
  }

  /** The range check `main` applies after `sscanf`. */
  predicate InRange(t: DateTime)
  {
    t.year >= 1970 && 1 <= t.mon <= 12 && 1 <= t.day <= 31 &&
    0 <= t.hour <= 23 && 0 <= t.min <= 59 && 0 <= t.sec <= 59
  }

  function Pow10(w: nat): nat
  {
    if w == 0 then 1 else 10 * Pow10(w - 1)
  }

  /** `n` in `w` decimal digits with leading zeros (`%0Nd`). */
  function Pad(n: nat, w: nat): (r: seq<byte>)
    ensures |r| == w && forall i :: 0 <= i < w ==> IsDigit(r[i])
  {
    if w == 0 then [] else Pad(n / 10, w - 1) + [(48 + n % 10) as byte]
  }

  lemma {:induction false} DecimalPad(n: nat, w: nat)
    requires n < Pow10(w)
    ensures Decimal(Pad(n, w)) == n
  {
    if w > 0 {
      DecimalPad(n / 10, w - 1);
      assert Pad(n, w)[..w - 1] == Pad(n / 10, w - 1);
    }
  }

  lemma {:induction false} DigitRunAll(s: seq<byte>, w: nat)
    requires w <= |s| && forall i :: 0 <= i < w ==> IsDigit(s[i])
    ensures DigitRun(s, w) == w
  {
    if w > 0 {
      DigitRunAll(s[1..], w - 1);
    }
  }

  lemma ScanPad(n: nat, w: nat, rest: seq<byte>)
    requires 1 <= w && n < Pow10(w)
    ensures ScanInt(Pad(n, w) + rest, w) == Some((n, rest))
  {
    var s := Pad(n, w) + rest;
    assert IsDigit(s[0]);
    DigitRunAll(s, w);
    assert s[..w] == Pad(n, w) && s[w..] == rest;
    DecimalPad(n, w);
  }

  /** A format directive together with what it prints: a field's value and width, a character, a blank. */
  datatype Piece = Field(value: int, width: nat) | Char(c: byte) | Space

  function DirectiveOf(p: Piece): Directive
  {
    match p
    case Field(_, w) => Conv(w)
    case Char(c) => Lit(c)
    case Space => Blank
  }

  /** The format the pieces follow. */
  function Shape(ps: seq<Piece>): (fmt: seq<Directive>)
    ensures |fmt| == |ps| && forall i :: 0 <= i < |ps| ==> fmt[i] == DirectiveOf(ps[i])
  {
    if ps == [] then [] else [DirectiveOf(ps[0])] + Shape(ps[1..])
  }

  /** The values of the fields, in order. */
  function Values(ps: seq<Piece>): seq<int>
  {
    if ps == [] then [] else (if ps[0].Field? then [ps[0].value] else []) + Values(ps[1..])
  }

  /** Each field zero-padded to its width, a character as itself, a blank as one space. */
  function Render(ps: seq<Piece>): seq<byte>
    requires forall i :: 0 <= i < |ps| ==> ps[i].Field? ==> ps[i].value >= 0
  {
    if ps == [] then []
    else match ps[0]
      case Field(v, w) => Pad(v, w) + Render(ps[1..])
      case Char(c) => [c] + Render(ps[1..])
      case Space => [32] + Render(ps[1..])
  }

  /**
   * Pieces `sscanf` can read back: every value fits its width of at least
   * one digit, no character is a blank, and no two blanks are adjacent.
   */
  predicate Readable(ps: seq<Piece>)
  {
    forall i :: 0 <= i < |ps| ==>
      (ps[i].Field? ==> ps[i].width >= 1 && 0 <= ps[i].value < Pow10(ps[i].width)) &&
      (ps[i].Char? ==> !IsSpace(ps[i].c)) &&
      (ps[i].Space? && i + 1 < |ps| ==> !ps[i + 1].Space?)
  }

  /** What readable pieces render to starts with a blank only where a blank piece does. */
  lemma RenderHead(ps: seq<Piece>)
    requires Readable(ps) && ps != [] && !ps[0].Space?
    ensures Render(ps) != [] && !IsSpace(Render(ps)[0])
  {
  }

  /** A blank piece's space and nothing more is skipped. */
  lemma BlankSkipped(ps: seq<Piece>)
    requires Readable(ps) && (ps == [] || !ps[0].Space?)
    ensures SkipSpace([32] + Render(ps)) == Render(ps)
  {
    assert ([32] + Render(ps))[1..] == Render(ps);
    if ps != [] {
      RenderHead(ps);
    }
  }

  /** `sscanf` reads back the values of any readable pieces from the text they render to. */
  lemma {:induction false} ScanfRender(ps: seq<Piece>)
    requires Readable(ps)
    ensures Scanf(Shape(ps), Render(ps)) == Values(ps)
    decreases |ps|
  {
    if ps != [] {
      var rest := ps[1..];
      assert Readable(rest);
      assert Shape(ps)[0] == DirectiveOf(ps[0]) && Shape(ps)[1..] == Shape(rest);
      match ps[0]
      case Field(v, w) =>
        ScanPad(v, w, Render(rest));
        ScanfRender(rest);
      case Char(c) =>
        assert ([c] + Render(rest))[1..] == Render(rest);
        ScanfRender(rest);
      case Space =>
        BlankSkipped(rest);
        ScanfRender(rest);
    }
  }

  /** The fields of a date and time laid out as the prompt asks, "YYYY-MM-DD HH:MM:SS". */
  function Pieces(t: DateTime): seq<Piece>
  {
    [Field(t.year, 4), Char(45), Field(t.mon, 2), Char(45), Field(t.day, 2), Space,
     Field(t.hour, 2), Char(58), Field(t.min, 2), Char(58), Field(t.sec, 2)]
  }

  lemma PiecesReadable(t: DateTime)
    requires Small(t)
    ensures Readable(Pieces(t))
  {
    assert Pow10(2) == 100 && Pow10(4) == 10000;
  }

  /** The prompt's form follows the format `main` scans with. */
  lemma PiecesShape(t: DateTime)
    ensures Shape(Pieces(t)) == FORMAT
  {
  }

  /** The prompt's form holds the six fields in order. */
  lemma PiecesValues(t: DateTime)
    ensures Values(Pieces(t)) == [t.year, t.mon, t.day, t.hour, t.min, t.sec]
  {
    var ps := Pieces(t);
    assert Values(ps[10..]) == [t.sec];
    assert Values(ps[8..]) == [t.min, t.sec];
    assert Values(ps[6..]) == [t.hour, t.min, t.sec];
    assert Values(ps[4..]) == [t.day, t.hour, t.min, t.sec];
    assert Values(ps[2..]) == [t.mon, t.day, t.hour, t.min, t.sec];
  }

  /** Fields small enough for the prompt's form. */
  predicate Small(t: DateTime)
  {
    0 <= t.year <= 9999 && 0 <= t.mon <= 99 && 0 <= t.day <= 99 &&
    0 <= t.hour <= 99 && 0 <= t.min <= 99 && 0 <= t.sec <= 99
  }

  function Format(t: DateTime): seq<byte>
    requires Small(t)
  {
    Render(Pieces(t))
  }

  /** `sscanf` reads the prompt's form back field for field. */
  lemma ScanFormat(t: DateTime)
    requires Small(t)
    ensures Scan(Format(t)) == Some(t)
  {
    var ps := Pieces(t);
    PiecesReadable(t);
    ScanfRender(ps);
    PiecesShape(t);
    PiecesValues(t);
    var v := Scanf(FORMAT, Format(t));
    assert v == [t.year, t.mon, t.day, t.hour, t.min, t.sec];
  }

  /** The prompt's form is 19 printable bytes, so it fits the 32-byte line. */
  lemma FormatFits(t: DateTime)
    requires Small(t)
    ensures |Format(t)| == 19 && forall i :: 0 <= i < 19 ==> Printable(Format(t)[i])
  {
    var ps := Pieces(t);
    assert forall i :: 0 <= i < |ps| ==> (ps[i].Field? ==> ps[i].value >= 0) && (ps[i].Char? ==> Printable(ps[i].c)) by {
      PiecesPrintable(t);
    }
    RenderShape(ps);
    PiecesShape(t);
    FormatWidth();
  }

  lemma PiecesPrintable(t: DateTime)
    requires Small(t)
    ensures var ps := Pieces(t);
      forall i :: 0 <= i < |ps| ==> (ps[i].Field? ==> ps[i].value >= 0) && (ps[i].Char? ==> Printable(ps[i].c))
  {
  }

  /** "YYYY-MM-DD HH:MM:SS" is 19 characters wide. */
  lemma FormatWidth()
    ensures Width(FORMAT) == 19
  {
  }

  /** Rendered pieces with printable characters: their length, and only printable bytes. */
  lemma RenderShape(ps: seq<Piece>)
    requires forall i :: 0 <= i < |ps| ==> (ps[i].Field? ==> ps[i].value >= 0) && (ps[i].Char? ==> Printable(ps[i].c))
    ensures |Render(ps)| == Width(Shape(ps))
    ensures forall i :: 0 <= i < |Render(ps)| ==> Printable(Render(ps)[i])
    decreases |ps|
  {
    if ps != [] {
      RenderShape(ps[1..]);
      assert Shape(ps)[1..] == Shape(ps[1..]);
    }
  }

  /** The length of the text a format matches when every field is full width and every blank one space. */
  function Width(fmt: seq<Directive>): nat
  {
    if fmt == [] then 0 else (match fmt[0] case Conv(w) => w case _ => 1) + Width(fmt[1..])
  }

  /** Where `main` ends; only `ClockSet` returns 0. */
  datatype Outcome = Cancel | WrongFormat | WrongValues | ConversionFailed | ClockFailed | ClockSet(epoch: int)

  /**
   * `main` after the editor returned: an empty line cancels like ESC does;
   * `mktime` gives the epoch of the fields or fails, and `clockOk` is
   * whether `clock_settime` accepted it.
   */
  function Settle(r: Edited, mktime: DateTime -> Option<int>, clockOk: bool): Outcome
    requires !r.Waiting?
  {
    if r.Cancelled? || |r.text| == 0 then Cancel
    else
      var t := Scan(r.text);
      if t.None? then WrongFormat
      else if !InRange(t.value) then WrongValues
      else if mktime(t.value).None? then ConversionFailed
      else if !clockOk then ClockFailed
      else ClockSet(mktime(t.value).value)
  }

  function ExitCode(o: Outcome): int
  {
    if o.ClockSet? then 0 else -1
  }

  /** The clock is set exactly for a non-empty line that scans into fields in range that `mktime` and `clock_settime` both accept. */
  lemma SettleSetsClock(r: Edited, mktime: DateTime -> Option<int>, clockOk: bool)
    requires !r.Waiting?
    ensures ExitCode(Settle(r, mktime, clockOk)) == 0 <==>
      r.Line? && Scan(r.text).Some? && InRange(Scan(r.text).value) && mktime(Scan(r.text).value).Some? && clockOk
    ensures Settle(r, mktime, clockOk).ClockSet? ==> Settle(r, mktime, clockOk).epoch == mktime(Scan(r.text).value).value
  {
  }

  /** Typing a valid date in the prompt's form and Enter sets the clock to what `mktime` makes of it. */
  lemma TypedDateSetsClock(t: DateTime, mktime: DateTime -> Option<int>)
    requires InRange(t) && t.year <= 9999 && mktime(t).Some?
    ensures var e := Edit([], Format(t) + [CR], LINE_SIZE);
      e.0 == Line(Format(t)) && e.1 == Format(t) + NEWLINE &&
      Settle(e.0, mktime, true) == ClockSet(mktime(t).value)
  {
    ScanFormat(t);
    FormatFits(t);
    EditTyped([], Format(t), LINE_SIZE);
    EditStopsAtFirst([], Format(t) + [CR], LINE_SIZE);
    FirstStopOfLine(Format(t));
    assert (Format(t) + [CR])[..19] == Format(t);
  }

  lemma FirstStopOfLine(s: seq<byte>)
    requires forall i :: 0 <= i < |s| ==> Printable(s[i])
    ensures FirstStop(s + [CR]) == |s|
    decreases |s|
  {
    if s != [] {
      assert (s + [CR])[1..] == s[1..] + [CR];
      FirstStopOfLine(s[1..]);
    }
  }
}
