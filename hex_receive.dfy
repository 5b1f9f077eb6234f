/**
 * The host-side Intel-HEX decoder (tools/receivefile.py): `parse_hex_line`
 * turns one text line into a record type and its data, or rejects it, and
 * `receive_intel_hex` writes the data records it reads to the output file
 * until the End-of-File record.
 */
module HexReceive {
  import opened Common
  import HexSend

  // ----- Python's whitespace, `str.strip` and `int(s, 16)` -----

  /** The characters `str.isspace` accepts (and `strip`/`int` discard). */
  predicate IsPySpace(c: char)
  {
    c == ' ' || ('\t' <= c <= '\r') || ('\U{1c}' <= c <= '\U{1f}') ||
    c == '\U{85}' || c == '\U{a0}' || c == '\U{1680}' || ('\U{2000}' <= c <= '\U{200a}') ||
    c == '\U{2028}' || c == '\U{2029}' || c == '\U{202f}' || c == '\U{205f}' || c == '\U{3000}'
  }

  function StripLeft(s: string): string
  {
    if s != [] && IsPySpace(s[0]) then StripLeft(s[1..]) else s
  }

  function StripRight(s: string): string
  {
    if s != [] && IsPySpace(s[|s| - 1]) then StripRight(s[..|s| - 1]) else s
  }

  /** `s.strip()`: the text without leading and trailing whitespace. */
  function Strip(s: string): string
  {
    StripRight(StripLeft(s))
  }

  /** A line with no whitespace at either end is left alone by `strip`. */
  lemma StripKeeps(s: string)
    requires s == [] || (!IsPySpace(s[0]) && !IsPySpace(s[|s| - 1]))
    ensures Strip(s) == s
  {
  }

  /** The CR LF that ends a line read from the port is stripped off. */
  lemma StripLineEnd(s: string)
    requires |s| >= 1 && !IsPySpace(s[0]) && !IsPySpace(s[|s| - 1])
    ensures Strip(s + "\r\n") == s
  {
    var u := s + "\r\n";
    assert StripLeft(u) == u;
    assert u[..|u| - 1] == s + "\r" && (s + "\r")[..|s|] == s;
    assert StripRight(u) == StripRight(s + "\r") == StripRight(s) == s;
  }

  /**
   * `int(s, 16)` of a two-character slice. Surrounding whitespace is
   * ignored, so the slice is two digits, or one digit beside whitespace, or
   * a sign and a digit; anything else (`None`) raises `ValueError`.
   */
  function PyHexInt(s: string): (r: Option<int>)
    requires |s| == 2
    ensures r.Some? ==> -15 <= r.value <= 255
  {
    if IsHexDigit(s[0]) && IsHexDigit(s[1]) then Some(16 * DigitValue(s[0]) + DigitValue(s[1]))
    else if IsPySpace(s[0]) && IsHexDigit(s[1]) then Some(DigitValue(s[1]))
    else if IsHexDigit(s[0]) && IsPySpace(s[1]) then Some(DigitValue(s[0]))
    else if s[0] == '+' && IsHexDigit(s[1]) then Some(DigitValue(s[1]))
    else if s[0] == '-' && IsHexDigit(s[1]) then Some(-DigitValue(s[1]))
    else None
  }

  /** Two upper-case digits read back give the byte they spell. */
  lemma PyHexIntHex2(b: byte)
    ensures PyHexInt(Hex2(b)) == Some(b)
  {
    Hex2Digits(b);
  }

  /** `int(h[2k:2k+2], 16)`: pair `k` of the payload read as a number. */
  function Pair(h: string, k: nat): Option<int>
    requires 2 * k + 2 <= |h|
  {
    PyHexInt(h[2 * k..2 * k + 2])
  }

  /** A pair `bytes(...)` accepts: a number that is not negative. */
  predicate PairOk(h: string, k: nat)
    requires 2 * k + 2 <= |h|
  {
    Pair(h, k).Some? && Pair(h, k).value >= 0
  }

  function PairByte(h: string, k: nat): byte
    requires 2 * k + 2 <= |h|
  {
    if PairOk(h, k) then Pair(h, k).value else 0
  }

  /**
   * The payload `bytes(int(h[i:i+2], 16) for i in ...)`: `None` when a pair
   * is not a number or is negative (either raises `ValueError`).
   */
  function DataField(h: string): (r: Option<seq<byte>>)
    requires |h| % 2 == 0
    ensures r.Some? ==> 2 * |r.value| == |h|
  {
    if forall k: nat :: k < |h| / 2 ==> PairOk(h, k) then
      Some(seq(|h| / 2, k requires 0 <= k < |h| / 2 => PairByte(h, k)))
    else None
  }

  lemma DataFieldHexBytes(data: seq<byte>)
    ensures DataField(HexSend.HexBytes(data)) == Some(data)
  {
    var h := HexSend.HexBytes(data);
    forall k: nat | k < |data|
      ensures Pair(h, k) == Some(data[k])
    {
      HexSend.HexBytesAt(data, k);
      PyHexIntHex2(data[k]);
    }
    assert |h| / 2 == |data|;
    assert forall k: nat :: k < |h| / 2 ==> PairOk(h, k);
    assert DataField(h).value == data;
  }

  // ----- parse_hex_line -----

  /** What `parse_hex_line` does with a line. */
  datatype ParseOutcome =
    | Parsed(recType: int, data: seq<byte>)  // returns (rec_type, data)
    | Rejected                               // returns None
    | Raises                                 // the payload's ValueError escapes

  /**
   * `parse_hex_line`: after `strip`, the line needs `:` and 11 characters,
   * or it is rejected.
   */
  function ParseHexLine(line: string): (r: ParseOutcome)
    ensures var l := Strip(line); (|l| < 11 || l[0] != ':') ==> r == Rejected
    ensures r.Parsed? ==> |Strip(line)| == 11 + 2 * |r.data|
  {
    var l := Strip(line);
    assert |l| >= 11 ==> |l[9..|l| - 2]| == |l| - 11;
    if !(|l| >= 1 && l[0] == ':') || |l| < 11 then Rejected
    else CheckRecord(PyHexInt(l[1..3]), PyHexInt(l[3..5]), PyHexInt(l[5..7]), PyHexInt(l[7..9]), l[9..|l| - 2], l[|l| - 2..])
  }

  /**
   * The rest of `parse_hex_line`, given the four header fields as read: any
   * that is not a number, a payload that is not twice `count` characters or
   * a checksum that is not a number rejects the line; a payload pair that
   * is not a byte raises; the line is accepted only if all fields and the
   * checksum add up to 0 modulo 256.
   */
  function CheckRecord(bc: Option<int>, hi: Option<int>, lo: Option<int>, t: Option<int>, dataHex: string, ckText: string): (r: ParseOutcome)
    requires |ckText| == 2
    ensures r.Parsed? ==>
      hi.Some? && lo.Some? && bc == Some(|r.data|) && t == Some(r.recType) && |dataHex| == 2 * |r.data| &&
      PyHexInt(ckText).Some? &&
      (|r.data| + hi.value + lo.value + r.recType + Sum(r.data) + PyHexInt(ckText).value) % 256 == 0
  {
    if bc.None? || hi.None? || lo.None? || t.None? then Rejected
    else if |dataHex| != bc.value * 2 then Rejected
    else
      var ck := PyHexInt(ckText);
      if ck.None? then Rejected
      else
        match DataField(dataHex)
        case None => Raises
        case Some(data) =>
          if (bc.value + hi.value + lo.value + t.value + Sum(data) + ck.value) % 256 != 0 then Rejected
          else Parsed(t.value, data)
  }

  /**
   * An accepted line: after `strip` it starts with `:`, is 11 + 2 * count
   * characters long, its count field is the data length, and all its fields
   * with the checksum add up to 0 modulo 256.
   */
  lemma ParseAccepted(line: string)
    requires ParseHexLine(line).Parsed?
    ensures var l, r := Strip(line), ParseHexLine(line);
      |l| == 11 + 2 * |r.data| && l[0] == ':' &&
      PyHexInt(l[1..3]) == Some(|r.data|) && PyHexInt(l[7..9]) == Some(r.recType) &&
      (|r.data| + PyHexInt(l[3..5]).value + PyHexInt(l[5..7]).value + r.recType + Sum(r.data)
        + PyHexInt(l[|l| - 2..]).value) % 256 == 0
  {
    var l := Strip(line);
    assert |l[9..|l| - 2]| == |l| - 11;
  }

  /** The fields of a record line, each a byte. */
  datatype Fields = Fields(count: byte, addrHi: byte, addrLo: byte, recType: byte, data: seq<byte>, checksum: byte)

  /** The bytes the checksum covers, in line order, checksum last. */
  function FieldBytes(f: Fields): seq<byte>
  {
    [f.count, f.addrHi, f.addrLo, f.recType] + f.data + [f.checksum]
  }

  /** `:` and the count, address and type fields in upper-case hexadecimal. */
  function Header(f: Fields): string
  {
    ":" + Hex2(f.count) + Hex2(f.addrHi) + Hex2(f.addrLo) + Hex2(f.recType)
  }

  /** A line spelling the fields in upper-case hexadecimal. */
  function FieldLine(f: Fields): string
  {
    Header(f) + HexSend.HexBytes(f.data) + Hex2(f.checksum)
  }

  lemma SumFieldBytes(f: Fields)
    ensures Sum(FieldBytes(f)) == f.count + f.addrHi + f.addrLo + f.recType + Sum(f.data) + f.checksum
  {
    var head: seq<int> := [f.count, f.addrHi, f.addrLo, f.recType];
    SumAppend(head + f.data, [f.checksum]);
    SumAppend(head, f.data);
    assert Sum([f.count]) == f.count by { assert [f.count][..0] == []; }
    assert Sum([f.count, f.addrHi]) == f.count + f.addrHi by { assert [f.count, f.addrHi][..1] == [f.count]; }
    assert Sum([f.count, f.addrHi, f.addrLo]) == f.count + f.addrHi + f.addrLo by {
      assert [f.count, f.addrHi, f.addrLo][..2] == [f.count, f.addrHi];
    }
    assert head[..3] == [f.count, f.addrHi, f.addrLo];
    assert Sum([f.checksum]) == f.checksum by { assert [f.checksum][..0] == []; }
  }

  /** A line of a nine-character header, a payload and a two-character checksum is parsed field by field. */
  lemma ParseParts(header: string, payload: string, ck: string)
    requires |header| == 9 && header[0] == ':' && |ck| == 2 && !IsPySpace(ck[1])
    ensures ParseHexLine(header + payload + ck) ==
      CheckRecord(PyHexInt(header[1..3]), PyHexInt(header[3..5]), PyHexInt(header[5..7]), PyHexInt(header[7..9]), payload, ck)
  {
    var line := header + payload + ck;
    StripKeeps(line);
    assert line[1..3] == header[1..3] && line[3..5] == header[3..5];
    assert line[5..7] == header[5..7] && line[7..9] == header[7..9];
    assert line[9..|line| - 2] == payload && line[|line| - 2..] == ck;
  }

  lemma HeaderFields(f: Fields)
    ensures var h := Header(f);
      |h| == 9 && h[0] == ':' &&
      PyHexInt(h[1..3]) == Some(f.count) && PyHexInt(h[3..5]) == Some(f.addrHi) &&
      PyHexInt(h[5..7]) == Some(f.addrLo) && PyHexInt(h[7..9]) == Some(f.recType)
  {
    var h := Header(f);
    assert h[1..3] == Hex2(f.count) && h[3..5] == Hex2(f.addrHi);
    assert h[5..7] == Hex2(f.addrLo) && h[7..9] == Hex2(f.recType);
    PyHexIntHex2(f.count);
    PyHexIntHex2(f.addrHi);
    PyHexIntHex2(f.addrLo);
    PyHexIntHex2(f.recType);
  }

  /**
   * A line spelling byte fields is accepted exactly when its count field is
   * the data length and its bytes add up to 0 modulo 256, and then it gives
   * back the record type and the data; otherwise it is rejected.
   */
  lemma ParseFieldLine(f: Fields)
    ensures ParseHexLine(FieldLine(f)) ==
      if f.count == |f.data| && Sum(FieldBytes(f)) % 256 == 0 then Parsed(f.recType, f.data) else Rejected
  {
    var payload := HexSend.HexBytes(f.data);
    var ck := Hex2(f.checksum);
    var line := FieldLine(f);
    assert ParseHexLine(line) ==
           CheckRecord(Some(f.count), Some(f.addrHi), Some(f.addrLo), Some(f.recType), payload, ck) by {
      HeaderFields(f);
      ParseParts(Header(f), payload, ck);
    }
    assert PyHexInt(ck) == Some(f.checksum) by {
      PyHexIntHex2(f.checksum);
    }
    assert DataField(payload) == Some(f.data) by {
      DataFieldHexBytes(f.data);
    }
    SumFieldBytes(f);
    FieldsChecked(f, payload, ck);
  }

  /** The check of `f`'s fields, spelled as the payload and checksum text. */
  lemma FieldsChecked(f: Fields, payload: string, ck: string)
    requires |ck| == 2 && PyHexInt(ck) == Some(f.checksum) && |payload| == 2 * |f.data| && DataField(payload) == Some(f.data)
    requires Sum(FieldBytes(f)) == f.count + f.addrHi + f.addrLo + f.recType + Sum(f.data) + f.checksum
    ensures CheckRecord(Some(f.count), Some(f.addrHi), Some(f.addrLo), Some(f.recType), payload, ck) ==
      if f.count == |f.data| && Sum(FieldBytes(f)) % 256 == 0 then Parsed(f.recType, f.data) else Rejected
  {
    CheckSome(f.count, f.addrHi, f.addrLo, f.recType, payload, ck, f.data, f.checksum);
  }

  /** `CheckRecord` once every header field has parsed, the checksum is `k` and the data field reads as `data`. */
  lemma CheckSome(c: int, h: int, l: int, t: int, payload: string, ck: string, data: seq<byte>, k: int)
    requires |ck| == 2 && PyHexInt(ck) == Some(k) && |payload| % 2 == 0 && DataField(payload) == Some(data)
    ensures CheckRecord(Some(c), Some(h), Some(l), Some(t), payload, ck) ==
      if |payload| != c * 2 then Rejected
      else if (c + h + l + t + Sum(data) + k) % 256 != 0 then Rejected
      else Parsed(t, data)
  {
  }

  lemma {:induction false} SumUpdate(s: seq<int>, j: nat, v: int)
    requires j < |s|
    ensures Sum(s[j := v]) == Sum(s) - s[j] + v
  {
    assert s == s[..j] + [s[j]] + s[j + 1..];
    assert s[j := v] == s[..j] + [v] + s[j + 1..];
    SumAppend(s[..j] + [s[j]], s[j + 1..]);
    SumAppend(s[..j] + [v], s[j + 1..]);
    SumAppend(s[..j], [s[j]]);
    SumAppend(s[..j], [v]);
    assert [s[j]][..0] == [] && [v][..0] == [];
  }

  /**
   * Changing any one byte of an accepted line's fields (a single flipped
   * bit, say) gets the line rejected: the checksum no longer balances, or
   * the count no longer matches the data.
   */
  lemma SingleByteChangeRejected(f: Fields, g: Fields, j: nat)
    requires ParseHexLine(FieldLine(f)).Parsed?
    requires |g.data| == |f.data| && j < |FieldBytes(f)|
    requires FieldBytes(g) == FieldBytes(f)[j := FieldBytes(g)[j]] && FieldBytes(g)[j] != FieldBytes(f)[j]
    ensures ParseHexLine(FieldLine(g)) == Rejected
  {
    ParseFieldLine(f);
    ChangedFieldsUnbalanced(f, g, j);
    ParseFieldLine(g);
  }

  /** Fields that balance stop balancing, or stop matching their count, when one byte changes. */
  lemma ChangedFieldsUnbalanced(f: Fields, g: Fields, j: nat)
    requires f.count == |f.data| && Sum(FieldBytes(f)) % 256 == 0
    requires |g.data| == |f.data| && j < |FieldBytes(f)|
    requires FieldBytes(g) == FieldBytes(f)[j := FieldBytes(g)[j]] && FieldBytes(g)[j] != FieldBytes(f)[j]
    ensures !(g.count == |g.data| && Sum(FieldBytes(g)) % 256 == 0)
  {
    var x, y := FieldBytes(f)[j], FieldBytes(g)[j];
    SumUpdate(FieldBytes(f), j, y);
    var s := Sum(FieldBytes(f));
    assert Sum(FieldBytes(g)) == s + (y - x);
    assert (s + (y - x)) % 256 == (y - x) % 256;
  }

  /** A data record of the encoder, for a count below 256 and a 16-bit address, spells its fields. */
  lemma DataRecordFields(c: HexSend.Chunk)
    requires |c.bytes| <= 255 && c.addr < 0x10000
    ensures HexSend.DataRecord(c) ==
      FieldLine(Fields(|c.bytes|, c.addr / 256, c.addr % 256, 0, c.bytes, HexSend.Checksum(c.addr, c.bytes)))
  {
    HexSend.DataRecordLayout(c);
  }

  /** Round trip: every data record the encoder writes parses back to type 0 and its slice. */
  lemma DataRecordRoundTrip(c: HexSend.Chunk)
    requires |c.bytes| <= 255 && c.addr < 0x10000
    ensures ParseHexLine(HexSend.DataRecord(c)) == Parsed(0, c.bytes)
  {
    var f := Fields(|c.bytes|, c.addr / 256, c.addr % 256, 0, c.bytes, HexSend.Checksum(c.addr, c.bytes));
    assert Sum(FieldBytes(f)) % 256 == 0 by {
      SumFieldBytes(f);
      assert (c.addr / 256) % 256 == c.addr / 256;
    }
    DataRecordFields(c);
    ParseFieldLine(f);
  }

  /** Round trip: the End-of-File record parses to type 1 with no data. */
  lemma EofRoundTrip()
    ensures ParseHexLine(HexSend.EofRecord) == Parsed(1, [])
  {
    var f := Fields(0, 0, 0, 1, [], 255);
    assert FieldLine(f) == HexSend.EofRecord by {
      assert Header(f) == ":00000001";
      assert HexSend.HexBytes(f.data) == [];
    }
    assert Sum(FieldBytes(f)) % 256 == 0 by {
      SumFieldBytes(f);
    }
    ParseFieldLine(f);
  }

  /** A well-formed line whose payload holds a pair that is not hexadecimal raises. */
  lemma PayloadGarbageRaises()
    ensures ParseHexLine(":01000000ZZFF") == Raises
  {
    var line := ":01000000ZZFF";
    StripKeeps(line);
    assert line[1..3] == "01" && line[3..5] == "00" && line[5..7] == "00" && line[7..9] == "00";
    assert line[9..11] == "ZZ" && line[11..] == "FF";
    GarbageFields();
  }

  /** The fields of `:01000000ZZFF` as `CheckRecord` sees them: the header adds up, the payload raises. */
  lemma GarbageFields()
    ensures CheckRecord(PyHexInt("01"), PyHexInt("00"), PyHexInt("00"), PyHexInt("00"), "ZZ", "FF") == Raises
  {
    var zz := "ZZ";
    assert zz[..0] == [];
    StripKeeps(zz);
    StripKeeps("FF");
    StripKeeps("01");
    StripKeeps("00");
  }

  // ----- receive_intel_hex -----

  /** What the receive loop does with one `readline()` result. */
  datatype LineAction = Skip | Write(bytes: seq<byte>) | Stop | Crash

  /** Bytes as text, one character per byte (`decode("ascii")` of ASCII bytes). */
  function Chars(b: seq<byte>): string
  {
    seq(|b|, i requires 0 <= i < |b| => b[i] as char)
  }

  /** The record type decides: 0 writes non-empty data, 1 ends, others are ignored. */
  function Act(p: ParseOutcome): LineAction
  {
    match p
    case Rejected => Skip
    case Raises => Crash
    case Parsed(t, d) =>
      if t == 0 then (if d != [] then Write(d) else Skip)
      else if t == 1 then Stop
      else Skip
  }

  /**
   * One read: an empty read (timeout) and bytes that are not ASCII are
   * skipped; otherwise the stripped text is parsed.
   */
  function Classify(read: seq<byte>): LineAction
  {
    if read == [] then Skip
    else if exists i :: 0 <= i < |read| && read[i] >= 128 then Skip
    else Act(ParseHexLine(Strip(Chars(read))))
  }

  /** How the loop ends. */
  datatype End =
    | EofReceived  // an End-of-File record was read
    | Raised       // a payload's ValueError escaped
    | Listening    // the reads ran out; the source would keep reading

  /** The payloads written, one `f.write` each, and how the loop ends. */
  datatype Received = Received(writes: seq<seq<byte>>, end: End)

  /** What the loop writes and how it ends, for the actions of successive reads. */
  function Run(acts: seq<LineAction>): Received
  {
    if acts == [] then Received([], Listening)
    else
      match acts[0]
      case Skip => Run(acts[1..])
      case Write(d) => var rest := Run(acts[1..]); Received([d] + rest.writes, rest.end)
      case Stop => Received([], EofReceived)
      case Crash => Received([], Raised)
  }

  /** The action of each read, in order. */
  function Actions(rx: seq<seq<byte>>): (acts: seq<LineAction>)
    ensures |acts| == |rx|
  {
    if rx == [] then [] else [Classify(rx[0])] + Actions(rx[1..])
  }

  lemma {:induction false} ActionsAt(rx: seq<seq<byte>>, i: nat)
    requires i < |rx|
    ensures Actions(rx)[i] == Classify(rx[i])
    decreases i
  {
    if i > 0 {
      ActionsAt(rx[1..], i - 1);
    }
  }

  /** One step of the run, from action `i` on. */
  lemma RunFrom(acts: seq<LineAction>, i: nat)
    requires i < |acts|
    ensures var now, rest := Run(acts[i..]), Run(acts[i + 1..]);
      match acts[i]
      case Skip => now == rest
      case Write(d) => now == Received([d] + rest.writes, rest.end)
      case Stop => now == Received([], EofReceived)
      case Crash => now == Received([], Raised)
  {
    assert acts[i..][0] == acts[i] && acts[i..][1..] == acts[i + 1..];
  }

  /** The bytes written and how the loop ends, for a sequence of reads. */
  function Receive(rx: seq<seq<byte>>): Received
  {
    Run(Actions(rx))
  }

  /** The output file: the payloads written to it, in order. */
  class OutFile {
    var writes: seq<seq<byte>>

    constructor ()
      ensures writes == []
    {
      writes := [];
    }

    /** The file's bytes. */
    function Contents(): seq<byte>
      reads this
    {
      Flatten(writes)
    }

    method Write(b: seq<byte>)
      modifies this
      ensures writes == old(writes) + [b]
      ensures Contents() == old(Contents()) + b
    {
      writes := writes + [b];
      assert writes[..|writes| - 1] == old(writes);
    }
  }

  /**
   * `receive_intel_hex` over the lines the port delivers: type-0 payloads
   * are written in arrival order, the first End-of-File record ends the loop.
   */
  method ReceiveIntelHex(rx: seq<seq<byte>>, f: OutFile) returns (end: End)
    modifies f
    ensures f.writes == old(f.writes) + Receive(rx).writes
    ensures f.Contents() == old(f.Contents()) + Flatten(Receive(rx).writes)
    ensures end == Receive(rx).end
  {
    ghost var acts := Actions(rx);
    ghost var acc: seq<seq<byte>> := [];
    end := Listening;
    var i := 0;
    while i < |rx|
      invariant i <= |rx| == |acts|
      invariant f.writes == old(f.writes) + acc
      invariant Run(acts) == Received(acc + Run(acts[i..]).writes, Run(acts[i..]).end)
      invariant end == Listening
    {
      RunFrom(acts, i);
      var action := Classify(rx[i]);
      ActionsAt(rx, i);
      match action {
        case Skip =>
        case Write(d) =>
          f.Write(d);
          assert acc + ([d] + Run(acts[i + 1..]).writes) == (acc + [d]) + Run(acts[i + 1..]).writes;
          acc := acc + [d];
        case Stop =>
          end := EofReceived;
          break;
        case Crash =>
          end := Raised;
          break;
      }
      i := i + 1;
    }
    if end == Listening {
      assert acts[i..] == [];
    }
    FlattenAppend(old(f.writes), Receive(rx).writes);
  }

  /** A record line as the port delivers it: its bytes and CR LF. */
  function LineRead(line: string): seq<byte>
  {
    HexSend.Encode(line) + HexSend.CRLF
  }

  function LineReads(lines: seq<string>): seq<seq<byte>>
  {
    seq(|lines|, k requires 0 <= k < |lines| => LineRead(lines[k]))
  }

  lemma ReadText(line: string)
    requires HexSend.IsAscii(line)
    ensures (forall i :: 0 <= i < |LineRead(line)| ==> LineRead(line)[i] < 128)
    ensures Chars(LineRead(line)) == line + "\r\n"
  {
    var b := LineRead(line);
    assert forall i :: 0 <= i < |line| ==> b[i] == line[i] as int;
  }

  /** A record line read from the port is handled as its text parses. */
  lemma ClassifyRecord(line: string)
    requires HexSend.IsAscii(line) && |line| >= 1 && line[0] == ':' && IsHexDigit(line[|line| - 1])
    ensures Classify(LineRead(line)) == Act(ParseHexLine(line))
  {
    ReadText(line);
    StripLineEnd(line);
  }

  /**
   * Reads that each write their payload, then a read that stops, write the
   * payloads in order and end there, whatever follows.
   */
  lemma {:induction false} RunWrites(acts: seq<LineAction>, payloads: seq<seq<byte>>)
    requires |payloads| < |acts| && acts[|payloads|] == Stop
    requires forall k :: 0 <= k < |payloads| ==> acts[k] == Write(payloads[k])
    ensures Run(acts) == Received(payloads, EofReceived)
    decreases |payloads|
  {
    if payloads != [] {
      RunWrites(acts[1..], payloads[1..]);
      assert payloads == [payloads[0]] + payloads[1..];
    }
  }

  /** A non-empty data record the encoder writes, read back from the port, writes its bytes. */
  lemma RecordReadBack(c: HexSend.Chunk)
    requires 1 <= |c.bytes| <= 255 && c.addr < 0x10000
    ensures Classify(LineRead(HexSend.DataRecord(c))) == Write(c.bytes)
  {
    var line := HexSend.DataRecord(c);
    assert HexSend.IsAscii(line) && |line| >= 1 && line[0] == ':' && IsHexDigit(line[|line| - 1]) by {
      HexSend.DataLinesAscii([c]);
      assert [c][0] == c;
      RecordShape(c);
    }
    DataRecordRoundTrip(c);
    ClassifyRecord(line);
  }

  /** A data record begins with the start code and ends with a hexadecimal digit. */
  lemma RecordShape(c: HexSend.Chunk)
    requires |c.bytes| <= 255 && c.addr < 0x10000
    ensures var line := HexSend.DataRecord(c); |line| >= 1 && line[0] == ':' && IsHexDigit(line[|line| - 1])
  {
    var f := Fields(|c.bytes|, c.addr / 256, c.addr % 256, 0, c.bytes, HexSend.Checksum(c.addr, c.bytes));
    DataRecordFields(c);
    var ck := Hex2(f.checksum);
    assert FieldLine(f) == (Header(f) + HexSend.HexBytes(f.data)) + ck;
    assert FieldLine(f)[|FieldLine(f)| - 1] == ck[1];
  }

  /** The End-of-File record, read back from the port, stops the loop. */
  lemma EofReadBack()
    ensures Classify(LineRead(HexSend.EofRecord)) == Stop
  {
    var line := HexSend.EofRecord;
    assert HexSend.IsAscii(line) by {
      assert forall i :: 0 <= i < |line| ==> line[i] in ":0123456789F";
    }
    EofRoundTrip();
    ClassifyRecord(line);
  }

  /** Each data record of a file of at most 64 KiB, read back, writes its slice. */
  lemma ChunkReadBack(data: seq<byte>, size: nat, k: nat)
    requires 1 <= size <= 255 && |data| <= 0x10000 && k < |HexSend.Chunks(data, size)|
    ensures var c := HexSend.Chunks(data, size)[k]; Classify(LineRead(HexSend.DataRecord(c))) == Write(c.bytes)
  {
    HexSend.ChunkLayout(data, size, k);
    RecordReadBack(HexSend.Chunks(data, size)[k]);
  }

  /**
   * Round trip through the host tools: the records the encoder yields for a
   * file of at most 64 KiB, read back line by line with chunks of 1 to 255
   * bytes, rebuild exactly the file and end at the End-of-File record, even
   * when more lines follow.
   */
  lemma RoundTrip(data: seq<byte>, size: nat, more: seq<seq<byte>>)
    requires 1 <= size <= 255 && |data| <= 0x10000
    ensures Receive(LineReads(HexSend.Records(data, size)) + more) == Received(HexSend.Payloads(HexSend.Chunks(data, size)), EofReceived)
    ensures Flatten(Receive(LineReads(HexSend.Records(data, size)) + more).writes) == data
  {
    var cs := HexSend.Chunks(data, size);
    var payloads := HexSend.Payloads(cs);
    var rx := LineReads(HexSend.Records(data, size)) + more;
    var acts := Actions(rx);
    forall k | 0 <= k < |payloads|
      ensures acts[k] == Write(payloads[k])
    {
      assert rx[k] == LineRead(HexSend.DataRecord(cs[k]));
      ActionsAt(rx, k);
      ChunkReadBack(data, size, k);
    }
    assert rx[|payloads|] == LineRead(HexSend.EofRecord);
    ActionsAt(rx, |payloads|);
    EofReadBack();
    RunWrites(acts, payloads);
    HexSend.PayloadsConcatenate(data, size);
  }
}
