/**
 * The on-device Intel HEX receiver (`courier` in ext-courier-receiver.c).
 * Bytes from the serial port are gathered into a line buffer; a line ends
 * at LF or when the buffer is full, CR is dropped. Each line's record is
 * checked (start code, count, type, data digits, checksum); the data of a
 * type 0 record is appended to the output file and a type 1 record (End of
 * File) ends the program, as does an idle line.
 */
module CourierReceiver {
  import opened Common
  import HexSend
  import HexReceive

  /** Size of the line buffer `hex_line`, its terminating NUL included. */
  const HEX_LINE_MAX: int := 520
  /** Size of the record data buffer `hex_bytes`. */
  const HEX_BYTES_SIZE: int := 256

  const CR: byte := 13
  const LF: byte := 10
  const COLON: byte := 58

  // ----- hex_nibble, hex_byte -----

  /** `hex_nibble`: the value of a hexadecimal digit of either case, -1 for any other byte. */
  function HexNibble(c: byte): (v: int)
    ensures -1 <= v < 16
  {
    if '0' as int <= c <= '9' as int then c - '0' as int
    else if 'A' as int <= c <= 'F' as int then c - 'A' as int + 10
    else if 'a' as int <= c <= 'f' as int then c - 'a' as int + 10
    else -1
  }

  /** A nibble is found exactly for the digits, and it is the digit's value. */
  lemma HexNibbleSpec(c: byte)
    ensures HexNibble(c) >= 0 <==> IsHexDigit(c as char)
    ensures HexNibble(c) >= 0 ==> HexNibble(c) == DigitValue(c as char)
  {
  }

  /** `hex_byte`: -1 unless both bytes are digits, else the byte they spell, high nibble first. */
  function HexByte(hi: byte, lo: byte): (v: int)
    ensures -1 <= v < 256
  {
    var h, l := HexNibble(hi), HexNibble(lo);
    // `(hi << 4) | lo` with `lo` below 16
    if h < 0 || l < 0 then -1 else h * 16 + l
  }

  /** A byte is found exactly when both characters are digits; its nibbles are theirs. */
  lemma HexByteSpec(hi: byte, lo: byte)
    ensures HexByte(hi, lo) >= 0 <==> IsHexDigit(hi as char) && IsHexDigit(lo as char)
    ensures HexByte(hi, lo) >= 0 ==> HexByte(hi, lo) / 16 == DigitValue(hi as char) && HexByte(hi, lo) % 16 == DigitValue(lo as char)
  {
    HexNibbleSpec(hi);
    HexNibbleSpec(lo);
  }

  /** An upper-case digit of the encoders reads back as its nibble. */
  lemma HexNibbleChar(n: int)
    requires 0 <= n < 16
    ensures HexNibble(HexChar(n) as int) == n
  {
  }

  /** The two digits of `%02X` read back as the byte. */
  lemma HexByteDigits(b: byte)
    ensures HexByte(HexChar(b / 16) as int, HexChar(b % 16) as int) == b
  {
    HexNibbleChar(b / 16);
    HexNibbleChar(b % 16);
  }

  /** Round trip with the encoders' `%02X`: the two digits of a byte read back as that byte. */
  lemma HexByteHex2(b: byte)
    ensures var t := HexSend.Encode(Hex2(b)); HexByte(t[0], t[1]) == b
  {
    var t := HexSend.Encode(Hex2(b));
    Hex2Digits(b);
    assert Hex2(b) == [HexChar(b / 16), HexChar(b % 16)];
    assert t[0] == HexChar(b / 16) as int;
    assert t[1] == HexChar(b % 16) as int;
    HexByteDigits(b);
  }

  /** `hex_byte(&buf[k])`. */
  function Pair(s: seq<byte>, k: nat): int
    requires k + 1 < |s|
  {
    HexByte(s[k], s[k + 1])
  }

  // ----- process_hex_line -----

  /** A record the device accepts: its type and its data. */
  datatype Record = Record(recType: byte, data: seq<byte>)

  /** The first `n` data pairs are all hexadecimal. */
  predicate DataDigits(s: seq<byte>, n: nat)
    requires 9 + 2 * n <= |s|
  {
    forall i :: 0 <= i < n ==> Pair(s, 9 + 2 * i) >= 0
  }

  /** Data pair `j` of a line: `hex_byte(&buf[9 + j * 2])`. */
  function DataPair(s: seq<byte>, j: nat): int
    requires 11 + 2 * j <= |s|
  {
    Pair(s, 9 + 2 * j)
  }

  function DataByte(s: seq<byte>, k: nat): byte
    requires k + 1 < |s| && Pair(s, k) >= 0
  {
    Pair(s, k)
  }

  /** The first `n` data bytes of a line. */
  function DataBytes(s: seq<byte>, n: nat): (d: seq<byte>)
    requires 9 + 2 * n <= |s| && DataDigits(s, n)
    ensures |d| == n
  {
    seq(n, i requires 0 <= i < n => DataByte(s, 9 + 2 * i))
  }

  /**
   * The checks `process_hex_line` makes before the checksum: at least 11
   * characters, the start code `:`, a hexadecimal count the line is long
   * enough for, and hexadecimal type, data and checksum pairs. The address
   * pairs are not checked, and characters after the checksum are ignored.
   */
  predicate Framed(s: seq<byte>)
  {
    |s| >= 11 && s[0] == COLON && Pair(s, 1) >= 0 && |s| >= 11 + 2 * Pair(s, 1) &&
    Pair(s, 7) >= 0 && DataDigits(s, Pair(s, 1)) && Pair(s, 9 + 2 * Pair(s, 1)) >= 0
  }

  /** The data bytes of a framed line. */
  function LineData(s: seq<byte>): (d: seq<byte>)
    requires Framed(s)
    ensures |d| == Pair(s, 1)
  {
    DataBytes(s, Pair(s, 1))
  }

  /**
   * The sum `process_hex_line` checks: count, both address pairs (each
   * cast to `uint8_t`, so one that is not hexadecimal counts as 0xFF),
   * type, data and checksum.
   */
  function LineSum(s: seq<byte>): int
    requires Framed(s)
  {
    HeadSum(s) + Sum(LineData(s)) + Pair(s, 9 + 2 * Pair(s, 1))
  }

  /** The part of the sum before the data: count, both address pairs and type. */
  function HeadSum(s: seq<byte>): int
    requires |s| >= 11
  {
    Pair(s, 1) + Pair(s, 3) % 256 + Pair(s, 5) % 256 + Pair(s, 7)
  }

  /** The record `process_hex_line` accepts in a line: a framed line whose bytes add up to 0 modulo 256. */
  function LineRecord(s: seq<byte>): (r: Option<Record>)
    ensures r.Some? ==> |s| >= 11 + 2 * |r.value.data| && s[0] == COLON && Pair(s, 1) == |r.value.data|
    ensures r.Some? ==> Pair(s, 7) == r.value.recType && Pair(s, 9 + 2 * |r.value.data|) >= 0
  {
    if Framed(s) && LineSum(s) % 256 == 0 then Some(Record(Pair(s, 7), LineData(s))) else None
  }

  /** What handling a line does: the bytes it appends to the file, and whether it was End of File. */
  datatype LineEffect = LineEffect(written: seq<byte>, eof: bool)

  /** A type 0 record writes its data, a type 1 record ends, anything else does nothing. */
  function Effect(line: seq<byte>): (e: LineEffect)
    ensures e.eof ==> e.written == []
    ensures e.eof <==> LineRecord(line).Some? && LineRecord(line).value.recType == 1
    ensures e.written != [] ==> LineRecord(line) == Some(Record(0, e.written))
  {
    match LineRecord(line)
    case None => LineEffect([], false)
    case Some(r) =>
      if r.recType == 0 then LineEffect(r.data, false)
      else LineEffect([], r.recType == 1)
  }

  // ----- the line-gathering loop of main -----

  /**
   * How the loop gathers lines: a line holds at most `limit` characters
   * (HEX_LINE_MAX - 1 as written), and `skipFraming` says whether the
   * sender's STX and EOT markers are dropped like CR.
   */
  datatype Config = Config(limit: nat, skipFraming: bool)

  /** The receiver as written. */
  const AsWritten: Config := Config(HEX_LINE_MAX - 1, false)

  /** The receiver with room for a 255-byte record (521 characters) and the framing bytes dropped. */
  const Intended: Config := Config(521, true)

  /** A byte the loop drops before it reaches the line. */
  predicate Ignored(cfg: Config, ch: byte)
  {
    ch == CR || (cfg.skipFraming && (ch == HexSend.STX || ch == HexSend.EOT))
  }

  /** The line gathered so far and the line one byte completes, if any. */
  datatype Gathered = Gathered(pending: seq<byte>, line: Option<seq<byte>>)

  /**
   * One received byte: an ignored byte changes nothing; any byte but LF is
   * appended while there is room; LF or a full buffer completes the line,
   * which is handed on only when it is not empty.
   */
  function Step(cfg: Config, pending: seq<byte>, ch: byte): (g: Gathered)
    ensures |pending| < cfg.limit ==> |g.pending| < cfg.limit
    ensures g.line.Some? ==> g.pending == [] && 1 <= |g.line.value|
    ensures g.line.Some? && |pending| < cfg.limit ==> |g.line.value| <= cfg.limit
  {
    if Ignored(cfg, ch) then Gathered(pending, None)
    else
      var p := if ch != LF && |pending| < cfg.limit then pending + [ch] else pending;
      if ch == LF || |p| >= cfg.limit then Gathered([], if |p| > 0 then Some(p) else None)
      else Gathered(p, None)
  }

  /** How the receiver ends: at an End-of-File record, or when the line goes idle. */
  datatype DeviceEnd = EndOfFile | Idle

  /** What a run leaves behind: the bytes appended to the file, and how it ended. */
  datatype Outcome = Outcome(file: seq<byte>, end: DeviceEnd)

  /**
   * The receiver run over the bytes it reads, starting from a pending line,
   * until the line goes idle after the last of them; a line still pending
   * then is handled too.
   */
  function Device(cfg: Config, pending: seq<byte>, stream: seq<byte>): Outcome
    decreases |stream|
  {
    if stream == [] then Outcome(if pending == [] then [] else Effect(pending).written, Idle)
    else
      var g := Step(cfg, pending, stream[0]);
      if g.line.None? then Device(cfg, g.pending, stream[1..])
      else
        var e := Effect(g.line.value);
        if e.eof then Outcome(e.written, EndOfFile)
        else
          var rest := Device(cfg, [], stream[1..]);
          Outcome(e.written + rest.file, rest.end)
  }

  /** Handle a completed line, then go on with an empty buffer. */
  function Continue(cfg: Config, line: seq<byte>, more: seq<byte>): Outcome
  {
    var e := Effect(line);
    if e.eof then Outcome(e.written, EndOfFile)
    else
      var rest := Device(cfg, [], more);
      Outcome(e.written + rest.file, rest.end)
  }

  /** A line the checks turn down changes nothing. */
  lemma Unframed(s: seq<byte>)
    requires !Framed(s)
    ensures Effect(s) == LineEffect([], false)
  {
  }

  /** A data pair that is not hexadecimal, before the count runs out, turns the line down. */
  lemma BadDataPair(s: seq<byte>, i: nat)
    requires |s| >= 11 && 0 <= i < Pair(s, 1) && 9 + 2 * i + 1 < |s| && Pair(s, 9 + 2 * i) < 0
    ensures Effect(s) == LineEffect([], false)
  {
    if |s| >= 11 + 2 * Pair(s, 1) {
      assert !DataDigits(s, Pair(s, 1));
    }
  }

  /**
   * What a line that passes the framing checks does: the running sum of
   * the header, the data and the checksum decides whether it is accepted,
   * and then its type decides.
   */
  lemma CheckedLine(s: seq<byte>, n: int, recType: int, cks: int, sum0: int, sum1: int, sum: int) returns (e: LineEffect)
    requires 0 <= n && |s| >= 11 + 2 * n && s[0] == COLON && n == Pair(s, 1) && 0 <= recType == Pair(s, 7)
    requires DataDigits(s, n) && 0 <= cks == Pair(s, 9 + 2 * n)
    requires sum0 == HeadSum(s) % 256 && sum1 == (sum0 + Sum(DataBytes(s, n))) % 256 && sum == (sum1 + cks) % 256
    ensures e == Effect(s)
    ensures e ==
      if sum != 0 then LineEffect([], false)
      else if recType == 0 then LineEffect(DataBytes(s, n), false)
      else LineEffect([], recType == 1)
  {
    assert Framed(s);
    var d := DataBytes(s, n);
    assert LineData(s) == d;
    AddMod(sum0, HeadSum(s), Sum(d));
    AddMod(sum1, HeadSum(s) + Sum(d), cks);
    assert LineSum(s) == HeadSum(s) + Sum(d) + cks;
    e := Effect(s);
  }

  /** The receiver's state: the static buffers of ext-courier-receiver.c and the output file. */
  class Courier {
    var hexLine: array<byte>
    var hexLineLen: int
    var hexBytes: array<byte>
    /** The output file's contents. */
    var file: seq<byte>

    /** The two static buffers, of their declared sizes. */
    predicate Buffers()
      reads this
    {
      hexLine.Length == HEX_LINE_MAX && hexBytes.Length == HEX_BYTES_SIZE && hexLine != hexBytes
    }

    /** Between bytes, the line gathered so far leaves room for one more character and the NUL. */
    predicate Valid()
      reads this
    {
      Buffers() && 0 <= hexLineLen < HEX_LINE_MAX - 1
    }

    constructor ()
      ensures Valid() && hexLineLen == 0 && file == []
    {
      hexLine := new byte[HEX_LINE_MAX](_ => 0);
      hexBytes := new byte[HEX_BYTES_SIZE](_ => 0);
      hexLineLen := 0;
      file := [];
    }

    /**
     * The checks `process_hex_line` makes before the data: the length, the
     * start code, the count and the type, with the running sum of count,
     * address and type. The address pairs are added as `uint8_t` without
     * being checked.
     */
    method ReadHeader(len: int) returns (ok: bool, byteCount: int, recType: int, sum: int)
      requires Buffers() && 0 <= len < HEX_LINE_MAX
      ensures !ok ==> !Framed(hexLine[..len])
      ensures ok ==> len >= 11 + 2 * byteCount && hexLine[0] == COLON
      ensures ok ==> 0 <= byteCount == Pair(hexLine[..len], 1) && 0 <= recType == Pair(hexLine[..len], 7)
      ensures ok ==> sum == HeadSum(hexLine[..len]) % 256
    {
      ghost var s := hexLine[..len];
      sum := 0;
      if len < 11 {
        return false, 0, 0, 0;
      }
      if hexLine[0] != COLON {
        return false, 0, 0, 0;
      }
      byteCount := HexByte(hexLine[1], hexLine[2]);
      assert byteCount == Pair(s, 1);
      if byteCount < 0 {
        return false, 0, 0, 0;
      }
      if len < 11 + byteCount * 2 {
        return false, 0, 0, 0;
      }
      var addrHi, addrLo := HexByte(hexLine[3], hexLine[4]), HexByte(hexLine[5], hexLine[6]);
      assert addrHi == Pair(s, 3) && addrLo == Pair(s, 5);
      ghost var total := byteCount;
      sum := (sum + byteCount) % 256;
      AddMod(sum, total, addrHi % 256);
      sum, total := (sum + addrHi % 256) % 256, total + addrHi % 256;
      AddMod(sum, total, addrLo % 256);
      sum, total := (sum + addrLo % 256) % 256, total + addrLo % 256;
      recType := HexByte(hexLine[7], hexLine[8]);
      assert recType == Pair(s, 7);
      if recType < 0 {
        return false, 0, 0, 0;
      }
      AddMod(sum, total, recType);
      sum, total := (sum + recType) % 256, total + recType;
      ok := true;
    }

    /**
     * The data loop of `process_hex_line`: the `n` pairs after the type are
     * read into `hex_bytes` and added to the running sum, until one of them
     * is not hexadecimal.
     */
    method ReadData(len: int, n: int, sum0: int) returns (ok: bool, sum: int)
      requires Buffers() && 0 <= n < HEX_BYTES_SIZE && 11 + 2 * n <= len < HEX_LINE_MAX
      modifies hexBytes
      ensures Buffers() && hexLine[..len] == old(hexLine[..len])
      ensures ok <==> DataDigits(hexLine[..len], n)
      ensures ok ==> hexBytes[..n] == DataBytes(hexLine[..len], n)
      ensures ok ==> sum == (sum0 + Sum(DataBytes(hexLine[..len], n))) % 256
    {
      ghost var s := hexLine[..len];
      ghost var pairs := seq(n, j requires 0 <= j < n => DataPair(s, j));
      ok, sum := ScanData(len, n, sum0, s, pairs);
      SumModIs(sum0, pairs);
      if ok {
        assert DataDigits(s, n) by {
          forall j | 0 <= j < n
            ensures Pair(s, 9 + 2 * j) >= 0
          {
            assert pairs[j] >= 0;
          }
        }
        assert DataBytes(s, n) == pairs;
      } else {
        ghost var j :| 0 <= j < n && pairs[j] < 0;
        assert DataPair(s, j) < 0;
      }
    }

    /** The loop of ReadData, over the values `pairs` of the line's data pairs. */
    method ScanData(len: int, n: int, sum0: int, ghost s: seq<byte>, ghost pairs: seq<int>) returns (ok: bool, sum: int)
      requires Buffers() && 0 <= n < HEX_BYTES_SIZE && 11 + 2 * n <= len < HEX_LINE_MAX && hexLine[..len] == s
      requires |pairs| == n && forall j {:trigger DataPair(s, j)} :: 0 <= j < n ==> pairs[j] == DataPair(s, j)
      modifies hexBytes
      ensures hexLine[..len] == s
      ensures ok <==> forall j :: 0 <= j < n ==> pairs[j] >= 0
      ensures ok ==> hexBytes[..n] == pairs && sum == SumMod(sum0, pairs)
    {
      sum := sum0 % 256;
      var i := 0;
      while i < n
        invariant 0 <= i <= n
        invariant forall j :: 0 <= j < i ==> pairs[j] >= 0
        invariant hexBytes[..i] == pairs[..i]
        invariant sum == SumMod(sum0, pairs[..i])
      {
        var b := StorePair(len, i, s);
        assert b == DataPair(s, i) == pairs[i];
        if b < 0 {
          return false, sum;
        }
        assert pairs[..i + 1][..i] == pairs[..i];
        sum := (sum + b) % 256;
        i := i + 1;
      }
      assert pairs[..n] == pairs;
      return true, sum;
    }

    /** Data pair `i`: its byte, stored at `hex_bytes[i]` when it is hexadecimal. */
    method StorePair(len: int, i: int, ghost s: seq<byte>) returns (b: int)
      requires Buffers() && 0 <= i < HEX_BYTES_SIZE && 11 + 2 * i <= len < HEX_LINE_MAX && hexLine[..len] == s
      modifies hexBytes
      ensures hexLine[..len] == s
      ensures b == Pair(s, 9 + 2 * i)
      ensures b >= 0 ==> hexBytes[..i + 1] == old(hexBytes[..i]) + [b]
    {
      b := HexByte(hexLine[9 + i * 2], hexLine[10 + i * 2]);
      assert hexLine[9 + i * 2] == s[9 + 2 * i] && hexLine[10 + i * 2] == s[10 + 2 * i];
      if b >= 0 {
        if i < HEX_BYTES_SIZE {
          hexBytes[i] := b;
        }
        assert hexBytes[..i + 1] == old(hexBytes[..i]) + [b];
      }
    }

    /**
     * `process_hex_line(hex_line, len, out_fd)`: the line's record decides
     * what is appended to the file; the result says End of File.
     */
    method ProcessHexLine(len: int) returns (eof: bool)
      requires Buffers() && 0 <= len < HEX_LINE_MAX
      modifies this`file, hexBytes
      ensures Buffers()
      ensures file == old(file) + Effect(old(hexLine[..len])).written
      ensures eof == Effect(old(hexLine[..len])).eof
    {
      ghost var s := hexLine[..len];
      var ok, byteCount, recType, sum := ReadHeader(len);
      if !ok {
        Unframed(s);
        return false;
      }
      var dataLen := if byteCount > HEX_BYTES_SIZE then HEX_BYTES_SIZE else byteCount;
      ghost var sum0 := sum;
      ok, sum := ReadData(len, byteCount, sum);
      if !ok {
        Unframed(s);
        return false;
      }
      var cks := HexByte(hexLine[9 + byteCount * 2], hexLine[10 + byteCount * 2]);
      assert cks == Pair(s, 9 + 2 * byteCount);
      if cks < 0 {
        Unframed(s);
        return false;
      }
      ghost var sum1 := sum;
      sum := (sum + cks) % 256;
      ghost var data := DataBytes(s, byteCount);
      ghost var e := CheckedLine(s, byteCount, recType, cks, sum0, sum1, sum);
      assert old(hexLine[..len]) == s;
      if sum != 0 {
        assert e == LineEffect([], false);
        return false;
      }
      if recType == 0 && dataLen > 0 {
        assert hexBytes[..dataLen] == data;
        file := file + hexBytes[..dataLen];
        assert e.written == data;
      } else if recType == 1 {
        assert e == LineEffect([], true);
        return true;
      } else {
        assert e == LineEffect([], false);
      }
      return false;
    }

    /**
     * One byte read by the loop of `main`: CR is dropped, any other byte but
     * LF is appended while the buffer has room, and LF or a full buffer
     * hands a non-empty line to ProcessHexLine and empties the buffer; the
     * result says End of File.
     */
    method Feed(rxChar: byte) returns (done: bool)
      requires Valid()
      modifies this`hexLineLen, this`file, hexLine, hexBytes
      ensures Valid()
      ensures var g := Step(AsWritten, old(hexLine[..hexLineLen]), rxChar);
        g.line.None? ==> hexLine[..hexLineLen] == g.pending && file == old(file) && !done
      ensures var g := Step(AsWritten, old(hexLine[..hexLineLen]), rxChar);
        g.line.Some? ==>
          hexLineLen == 0 && file == old(file) + Effect(g.line.value).written && done == Effect(g.line.value).eof
    {
      ghost var pending := hexLine[..hexLineLen];
      done := false;
      if rxChar == CR {
        return;
      }
      if rxChar != LF && hexLineLen < HEX_LINE_MAX - 1 {
        hexLine[hexLineLen] := rxChar;
        hexLineLen := hexLineLen + 1;
      }
      assert hexLine[..hexLineLen] == if rxChar != LF && |pending| < AsWritten.limit then pending + [rxChar] else pending;
      if rxChar == LF || hexLineLen >= HEX_LINE_MAX - 1 {
        if hexLineLen > 0 {
          hexLine[hexLineLen] := 0;
          done := ProcessHexLine(hexLineLen);
        }
        hexLineLen := 0;
      }
    }

    /**
     * The receive loop of `main` over the bytes read before the line goes
     * idle: each byte is fed to the line buffer, End of File stops the
     * loop, and when the line goes idle a pending line is handled before
     * the loop ends.
     */
    method Receive(stream: seq<byte>) returns (end: DeviceEnd)
      requires Valid() && hexLineLen == 0
      modifies this`hexLineLen, this`file, hexLine, hexBytes
      ensures Buffers()
      ensures file == old(file) + Device(AsWritten, [], stream).file
      ensures end == Device(AsWritten, [], stream).end
    {
      ghost var acc: seq<byte> := [];
      var done := false;
      var i := 0;
      while i < |stream|
        invariant Valid() && 0 <= i <= |stream| && !done
        invariant file == old(file) + acc
        invariant Device(AsWritten, [], stream) == Resume(acc, Device(AsWritten, hexLine[..hexLineLen], stream[i..]))
      {
        ghost var pending := hexLine[..hexLineLen];
        ghost var g := Step(AsWritten, pending, stream[i]);
        ghost var w := if g.line.Some? then Effect(g.line.value).written else [];
        FeedStep(acc, pending, stream[i..]);
        assert stream[i..][1..] == stream[i + 1..];
        var rxChar := stream[i];
        i := i + 1;
        done := Feed(rxChar);
        AppendAssoc(old(file), acc, w);
        acc := acc + w;
        if done {
          break;
        }
      }
      if done {
        end := EndOfFile;
      } else {
        ghost var pending := hexLine[..hexLineLen];
        ghost var w := if pending == [] then [] else Effect(pending).written;
        assert stream[i..] == [];
        assert Device(AsWritten, [], stream) == Outcome(acc + w, Idle);
        if hexLineLen > 0 {
          hexLine[hexLineLen] := 0;
          assert hexLine[..hexLineLen] == pending;
          done := ProcessHexLine(hexLineLen);
        }
        assert file == old(file) + acc + w;
        AppendAssoc(old(file), acc, w);
        end := Idle;
      }
    }
  }

  /** A run's outcome after `acc` was already written. */
  function Resume(acc: seq<byte>, o: Outcome): Outcome
  {
    Outcome(acc + o.file, o.end)
  }

  /**
   * One byte of the stream, as the receive loop sees it: the line it
   * completes, if any, is written, and either that line ends the run or the
   * run goes on from the new pending line.
   */
  lemma FeedStep(acc: seq<byte>, pending: seq<byte>, rest: seq<byte>)
    requires rest != []
    ensures var g := Step(AsWritten, pending, rest[0]);
      var w := if g.line.Some? then Effect(g.line.value).written else [];
      if g.line.Some? && Effect(g.line.value).eof then Resume(acc, Device(AsWritten, pending, rest)) == Outcome(acc + w, EndOfFile)
      else Resume(acc, Device(AsWritten, pending, rest)) == Resume(acc + w, Device(AsWritten, if g.line.Some? then [] else g.pending, rest[1..]))
  {
    var g := Step(AsWritten, pending, rest[0]);
    if g.line.Some? {
      var w := Effect(g.line.value).written;
      AppendAssoc(acc, w, Device(AsWritten, [], rest[1..]).file);
    }
  }

  lemma AppendAssoc(a: seq<byte>, b: seq<byte>, c: seq<byte>)
    ensures a + b + c == a + (b + c)
  {
    assert |a + b + c| == |a + (b + c)|;
    forall k | 0 <= k < |a + b + c|
      ensures (a + b + c)[k] == (a + (b + c))[k]
    {
    }
  }

  /** The receiver's run over a non-empty stream, one byte at a time. */
  lemma DeviceStep(cfg: Config, pending: seq<byte>, stream: seq<byte>)
    requires stream != []
    ensures var g := Step(cfg, pending, stream[0]);
      Device(cfg, pending, stream) ==
        if g.line.None? then Device(cfg, g.pending, stream[1..]) else Continue(cfg, g.line.value, stream[1..])
  {
  }

  // ----- the device against the host encoder -----

  /** A byte `:` or a hexadecimal digit, at position `k` of `t`, encodes as itself. */
  lemma Hex2At(t: string, k: nat, b: byte)
    requires k + 2 <= |t| && t[k..k + 2] == Hex2(b)
    ensures var s := HexSend.Encode(t); Pair(s, k) == b
  {
    var s := HexSend.Encode(t);
    Hex2Digits(b);
    assert t[k] == t[k..k + 2][0] == HexChar(b / 16);
    assert t[k + 1] == t[k..k + 2][1] == HexChar(b % 16);
    assert s[k] == HexChar(b / 16) as int;
    assert s[k + 1] == HexChar(b % 16) as int;
    HexByteDigits(b);
  }

  /** `s` spells the fields `f`: the start code, then each field's two digits in order. */
  predicate Spells(s: seq<byte>, f: HexReceive.Fields)
  {
    |s| == 11 + 2 * |f.data| && s[0] == COLON &&
    Pair(s, 1) == f.count && Pair(s, 3) == f.addrHi && Pair(s, 5) == f.addrLo && Pair(s, 7) == f.recType &&
    (forall i :: 0 <= i < |f.data| ==> Pair(s, 9 + 2 * i) == f.data[i]) &&
    Pair(s, 9 + 2 * |f.data|) == f.checksum
  }

  lemma HeaderLayout(f: HexReceive.Fields)
    ensures var s := HexSend.Encode(HexReceive.FieldLine(f));
      |s| == 11 + 2 * |f.data| && s[0] == COLON &&
      Pair(s, 1) == f.count && Pair(s, 3) == f.addrHi && Pair(s, 5) == f.addrLo && Pair(s, 7) == f.recType
  {
    var t := HexReceive.FieldLine(f);
    var h := HexReceive.Header(f);
    assert |t| == 11 + 2 * |f.data| && t[..9] == h by {
      assert t == h + (HexSend.HexBytes(f.data) + Hex2(f.checksum));
    }
    assert t[1..3] == Hex2(f.count) by {
      assert t[1..3] == h[1..3];
    }
    assert t[3..5] == Hex2(f.addrHi) by {
      assert t[3..5] == h[3..5];
    }
    assert t[5..7] == Hex2(f.addrLo) by {
      assert t[5..7] == h[5..7];
    }
    assert t[7..9] == Hex2(f.recType) by {
      assert t[7..9] == h[7..9];
    }
    Hex2At(t, 1, f.count);
    Hex2At(t, 3, f.addrHi);
    Hex2At(t, 5, f.addrLo);
    Hex2At(t, 7, f.recType);
  }

  lemma PayloadLayout(f: HexReceive.Fields)
    ensures var s := HexSend.Encode(HexReceive.FieldLine(f));
      |s| == 11 + 2 * |f.data| &&
      (forall i :: 0 <= i < |f.data| ==> Pair(s, 9 + 2 * i) == f.data[i]) &&
      Pair(s, 9 + 2 * |f.data|) == f.checksum
  {
    var t := HexReceive.FieldLine(f);
    var n := |f.data|;
    var d := HexSend.HexBytes(f.data);
    assert t == HexReceive.Header(f) + d + Hex2(f.checksum);
    assert t[9 + 2 * n..11 + 2 * n] == Hex2(f.checksum);
    Hex2At(t, 9 + 2 * n, f.checksum);
    forall i | 0 <= i < n
      ensures Pair(HexSend.Encode(t), 9 + 2 * i) == f.data[i]
    {
      HexSend.HexBytesAt(f.data, i);
      assert t[9 + 2 * i..11 + 2 * i] == d[2 * i..2 * i + 2];
      Hex2At(t, 9 + 2 * i, f.data[i]);
    }
  }

  /** A record line spells its fields once encoded. */
  lemma FieldLineLayout(f: HexReceive.Fields)
    ensures Spells(HexSend.Encode(HexReceive.FieldLine(f)), f)
  {
    HeaderLayout(f);
    PayloadLayout(f);
  }

  /** Every byte of a line spelling fields is `:` or a hexadecimal digit, so none is special. */
  lemma SpellsPlain(cfg: Config, s: seq<byte>, f: HexReceive.Fields)
    requires Spells(s, f)
    ensures Plain(cfg, s)
  {
    forall i | 0 <= i < |s|
      ensures s[i] != LF && !Ignored(cfg, s[i])
    {
      if i > 0 {
        var m := (i - 1) / 2;
        assert i == 1 + 2 * m || i == 2 + 2 * m;
        SpelledPair(s, f, m);
        PairPlain(cfg, s, 1 + 2 * m);
      }
    }
  }

  /** Every pair of a line spelling fields is hexadecimal: count, address, type, data and checksum. */
  lemma SpelledPair(s: seq<byte>, f: HexReceive.Fields, m: nat)
    requires Spells(s, f) && m <= 4 + |f.data|
    ensures Pair(s, 1 + 2 * m) >= 0
  {
    if m < 4 {
      assert m == 0 || m == 1 || m == 2 || m == 3;
    } else if m < 4 + |f.data| {
      var j := m - 4;
      assert 1 + 2 * m == 9 + 2 * j && Pair(s, 9 + 2 * j) == f.data[j];
    }
  }

  /** The two characters of a hexadecimal pair are neither LF nor dropped. */
  lemma PairPlain(cfg: Config, s: seq<byte>, k: nat)
    requires k + 1 < |s| && Pair(s, k) >= 0
    ensures s[k] != LF && !Ignored(cfg, s[k]) && s[k + 1] != LF && !Ignored(cfg, s[k + 1])
  {
    HexByteSpec(s[k], s[k + 1]);
  }


  /**
   * A line spelling fields whose count is the data length is accepted by
   * the device exactly when its bytes add up to 0 modulo 256, and then it
   * gives back the record type and the data.
   */
  lemma SpellsRecord(s: seq<byte>, f: HexReceive.Fields)
    requires Spells(s, f) && f.count == |f.data|
    ensures LineRecord(s) == if Sum(HexReceive.FieldBytes(f)) % 256 == 0 then Some(Record(f.recType, f.data)) else None
  {
    var n := |f.data|;
    forall i | 0 <= i < n
      ensures Pair(s, 9 + 2 * i) >= 0
    {
      assert Pair(s, 9 + 2 * i) == f.data[i];
    }
    assert DataDigits(s, n);
    assert Framed(s);
    assert LineData(s) == f.data;
    HexReceive.SumFieldBytes(f);
    ByteMod(Pair(s, 3));
    ByteMod(Pair(s, 5));
    assert LineSum(s) == Sum(HexReceive.FieldBytes(f));
  }

  /** Adding to a sum kept modulo 256 (a `uint8_t`) is adding to the whole sum. */
  /** The running sum `sum0 + b` of the bytes, kept modulo 256 at each step as a `uint8_t` is. */
  function SumMod(sum0: int, p: seq<int>): (r: int)
    ensures 0 <= r < 256
  {
    if p == [] then sum0 % 256 else (SumMod(sum0, p[..|p| - 1]) + p[|p| - 1]) % 256
  }

  /** Reducing at each step or once at the end gives the same sum. */
  lemma {:induction false} SumModIs(sum0: int, p: seq<int>)
    ensures SumMod(sum0, p) == (sum0 + Sum(p)) % 256
    decreases |p|
  {
    if p != [] {
      SumModIs(sum0, p[..|p| - 1]);
      AddMod(SumMod(sum0, p[..|p| - 1]), sum0 + Sum(p[..|p| - 1]), p[|p| - 1]);
    }
  }



  lemma AddMod(sum: int, x: int, y: int)
    requires sum == x % 256
    ensures (sum + y) % 256 == (x + y) % 256
  {
  }

  lemma ByteMod(x: int)
    requires 0 <= x < 256
    ensures x % 256 == x
  {
  }

  /**
   * The device reads back the fields a record line spells: the line is
   * accepted exactly when its bytes add up to 0 modulo 256.
   */
  lemma FieldLineRecord(f: HexReceive.Fields)
    requires f.count == |f.data|
    ensures LineRecord(HexSend.Encode(HexReceive.FieldLine(f))) ==
      if Sum(HexReceive.FieldBytes(f)) % 256 == 0 then Some(Record(f.recType, f.data)) else None
  {
    FieldLineLayout(f);
    SpellsRecord(HexSend.Encode(HexReceive.FieldLine(f)), f);
  }

  /** The fields of the encoder's data record for a chunk. */
  function DataFields(c: HexSend.Chunk): HexReceive.Fields
    requires |c.bytes| <= 255 && c.addr < 0x10000
  {
    HexReceive.Fields(|c.bytes|, c.addr / 256, c.addr % 256, 0, c.bytes, HexSend.Checksum(c.addr, c.bytes))
  }

  /** A data record spells its fields, which balance. */
  lemma DataRecordSpells(c: HexSend.Chunk)
    requires |c.bytes| <= 255 && c.addr < 0x10000
    ensures Spells(HexSend.Encode(HexSend.DataRecord(c)), DataFields(c))
    ensures Sum(HexReceive.FieldBytes(DataFields(c))) % 256 == 0
  {
    var f := DataFields(c);
    assert Sum(HexReceive.FieldBytes(f)) % 256 == 0 by {
      HexReceive.SumFieldBytes(f);
      assert (c.addr / 256) % 256 == c.addr / 256;
    }
    HexReceive.DataRecordFields(c);
    FieldLineLayout(f);
  }

  /** Round trip: the device accepts every data record of the encoder as type 0 and its slice. */
  lemma DataRecordAccepted(c: HexSend.Chunk)
    requires |c.bytes| <= 255 && c.addr < 0x10000
    ensures LineRecord(HexSend.Encode(HexSend.DataRecord(c))) == Some(Record(0, c.bytes))
  {
    DataRecordSpells(c);
    SpellsRecord(HexSend.Encode(HexSend.DataRecord(c)), DataFields(c));
  }

  /** The fields of the End-of-File record. */
  const EofFields: HexReceive.Fields := HexReceive.Fields(0, 0, 0, 1, [], 255)

  /** The End-of-File record spells its fields. */
  lemma EofSpells()
    ensures Spells(HexSend.Encode(HexSend.EofRecord), EofFields)
    ensures Sum(HexReceive.FieldBytes(EofFields)) % 256 == 0
  {
    assert HexReceive.FieldLine(EofFields) == HexSend.EofRecord by {
      Hex2Digits(0);
      Hex2Digits(1);
      Hex2Digits(255);
    }
    HexReceive.SumFieldBytes(EofFields);
    FieldLineLayout(EofFields);
  }

  /** Round trip: the device reads the End-of-File record as type 1 with no data. */
  lemma EofAccepted()
    ensures LineRecord(HexSend.Encode(HexSend.EofRecord)) == Some(Record(1, []))
  {
    EofSpells();
    SpellsRecord(HexSend.Encode(HexSend.EofRecord), EofFields);
  }

  /** An address pair that is not hexadecimal is not checked: it counts as 0xFF in the sum. */
  lemma AddressNotChecked()
    ensures LineRecord(HexSend.Encode(":00ZZ000100")) == Some(Record(1, []))
  {
    var s := HexSend.Encode(":00ZZ000100");
    assert s == [58, 48, 48, 90, 90, 48, 48, 48, 49, 48, 48];
    assert Pair(s, 1) == 0 && Pair(s, 3) == -1 && Pair(s, 5) == 0 && Pair(s, 7) == 1 && Pair(s, 9) == 0;
    assert Framed(s);
    assert LineData(s) == [] by {
      assert DataBytes(s, 0) == [];
    }
    assert HeadSum(s) == 256;
    assert LineSum(s) == 256;
  }

  // ----- gathering the lines of a transfer -----

  /** Bytes that neither end a line nor are dropped. */
  predicate Plain(cfg: Config, s: seq<byte>)
  {
    forall i :: 0 <= i < |s| ==> s[i] != LF && !Ignored(cfg, s[i])
  }

  /** Plain bytes that still leave room are appended to the pending line. */
  lemma {:induction false} Gather(cfg: Config, p: seq<byte>, s: seq<byte>, rest: seq<byte>)
    requires Plain(cfg, s) && |p + s| < cfg.limit
    ensures Device(cfg, p, s + rest) == Device(cfg, p + s, rest)
    decreases |s|
  {
    if s == [] {
      assert s + rest == rest && p + s == p;
    } else {
      assert (s + rest)[0] == s[0] && (s + rest)[1..] == s[1..] + rest;
      assert Step(cfg, p, s[0]) == Gathered(p + [s[0]], None);
      Gather(cfg, p + [s[0]], s[1..], rest);
      assert p + [s[0]] + s[1..] == p + s;
    }
  }

  /** The run over a stream that starts with the byte `x`. */
  lemma DeviceCons(cfg: Config, p: seq<byte>, x: byte, rest: seq<byte>)
    ensures var g := Step(cfg, p, x);
      Device(cfg, p, [x] + rest) ==
        if g.line.None? then Device(cfg, g.pending, rest) else Continue(cfg, g.line.value, rest)
  {
    assert ([x] + rest)[0] == x && ([x] + rest)[1..] == rest;
  }

  /** CR LF with nothing pending hands on no line. */
  lemma CrLfIdle(cfg: Config, more: seq<byte>)
    ensures Device(cfg, [], HexSend.CRLF + more) == Device(cfg, [], more)
  {
    DeviceCons(cfg, [], CR, [LF] + more);
    assert HexSend.CRLF + more == [CR] + ([LF] + more);
    DeviceCons(cfg, [], LF, more);
  }

  /** CR LF after a pending line hands the line on. */
  lemma CrLfEnds(cfg: Config, s: seq<byte>, more: seq<byte>)
    requires 1 <= |s|
    ensures Device(cfg, s, HexSend.CRLF + more) == Continue(cfg, s, more)
  {
    DeviceCons(cfg, s, CR, [LF] + more);
    assert HexSend.CRLF + more == [CR] + ([LF] + more);
    DeviceCons(cfg, s, LF, more);
  }

  /** A line of plain bytes that fits, followed by CR LF, is handled as one line. */
  lemma LineThrough(cfg: Config, s: seq<byte>, more: seq<byte>)
    requires Plain(cfg, s) && 1 <= |s| <= cfg.limit
    ensures Device(cfg, [], s + HexSend.CRLF + more) == Continue(cfg, s, more)
  {
    var init, x := s[..|s| - 1], s[|s| - 1];
    var after := HexSend.CRLF + more;
    assert s + HexSend.CRLF + more == init + ([x] + after);
    assert init + [x] == s && [] + init == init;
    Gather(cfg, [], init, [x] + after);
    DeviceCons(cfg, init, x, after);
    if |s| == cfg.limit {
      assert Step(cfg, init, x) == Gathered([], Some(s));
      CrLfIdle(cfg, more);
    } else {
      assert Step(cfg, init, x) == Gathered(s, None);
      CrLfEnds(cfg, s, more);
    }
  }

  /** `LineBytes` read from the front: the first line and CR LF, then the rest. */
  lemma {:induction false} LineBytesCons(lines: seq<string>)
    requires |lines| >= 1
    ensures HexSend.LineBytes(lines) == HexSend.Encode(lines[0]) + HexSend.CRLF + HexSend.LineBytes(lines[1..])
    decreases |lines|
  {
    var n := |lines|;
    if n == 1 {
      assert lines[..0] == [] && lines[1..] == [];
    } else {
      LineBytesCons(lines[..n - 1]);
      assert lines[..n - 1][1..] == lines[1..][..n - 2];
      assert lines[..n - 1][0] == lines[0];
      assert lines[1..][n - 2] == lines[n - 1];
    }
  }

  /** A data record fits a configuration's line buffer. */
  predicate RecordFits(cfg: Config, c: HexSend.Chunk)
  {
    1 <= |c.bytes| <= 255 && c.addr < 0x10000 && 11 + 2 * |c.bytes| <= cfg.limit
  }

  /** A data record, followed by CR LF, writes its slice and the run goes on. */
  lemma RecordThrough(cfg: Config, c: HexSend.Chunk, more: seq<byte>)
    requires RecordFits(cfg, c)
    ensures Device(cfg, [], HexSend.Encode(HexSend.DataRecord(c)) + HexSend.CRLF + more) ==
      Outcome(c.bytes + Device(cfg, [], more).file, Device(cfg, [], more).end)
  {
    var s := HexSend.Encode(HexSend.DataRecord(c));
    DataRecordSpells(c);
    SpellsPlain(cfg, s, DataFields(c));
    SpellsRecord(s, DataFields(c));
    LineThrough(cfg, s, more);
  }

  /** The End-of-File record, followed by CR LF, ends the run. */
  lemma EofThrough(cfg: Config, more: seq<byte>)
    requires cfg.limit >= 11
    ensures Device(cfg, [], HexSend.Encode(HexSend.EofRecord) + HexSend.CRLF + more) == Outcome([], EndOfFile)
  {
    var s := HexSend.Encode(HexSend.EofRecord);
    EofSpells();
    SpellsPlain(cfg, s, EofFields);
    SpellsRecord(s, EofFields);
    LineThrough(cfg, s, more);
  }

  /**
   * The lines of data records, then the End-of-File record, each with CR
   * LF, write the slices in order and end there, whatever follows.
   */
  lemma {:induction false} RunRecords(cfg: Config, cs: seq<HexSend.Chunk>, more: seq<byte>)
    requires forall k :: 0 <= k < |cs| ==> RecordFits(cfg, cs[k])
    requires cfg.limit >= 11
    ensures Device(cfg, [], HexSend.LineBytes(HexSend.DataLines(cs) + [HexSend.EofRecord]) + more) ==
      Outcome(Flatten(HexSend.Payloads(cs)), EndOfFile)
    decreases |cs|
  {
    if cs == [] {
      RecordLinesCons(cs, more);
      EofThrough(cfg, more);
    } else {
      var rest := HexSend.LineBytes(HexSend.DataLines(cs[1..]) + [HexSend.EofRecord]) + more;
      RecordLinesCons(cs, more);
      RecordThrough(cfg, cs[0], rest);
      RunRecords(cfg, cs[1..], more);
      PayloadsCons(cs);
    }
  }

  /** The lines of a transfer, read from the front: its first record, then the rest. */
  lemma RecordLinesCons(cs: seq<HexSend.Chunk>, more: seq<byte>)
    ensures cs == [] ==>
      HexSend.LineBytes(HexSend.DataLines(cs) + [HexSend.EofRecord]) + more ==
      HexSend.Encode(HexSend.EofRecord) + HexSend.CRLF + more
    ensures cs != [] ==>
      HexSend.LineBytes(HexSend.DataLines(cs) + [HexSend.EofRecord]) + more ==
      HexSend.Encode(HexSend.DataRecord(cs[0])) + HexSend.CRLF +
      (HexSend.LineBytes(HexSend.DataLines(cs[1..]) + [HexSend.EofRecord]) + more)
  {
    var lines := HexSend.DataLines(cs) + [HexSend.EofRecord];
    if cs == [] {
      assert lines == [HexSend.EofRecord];
      LinesCons(HexSend.EofRecord, [], more);
    } else {
      HexSend.DataLinesCons(cs);
      var tail := HexSend.DataLines(cs[1..]) + [HexSend.EofRecord];
      assert lines == [HexSend.DataRecord(cs[0])] + tail;
      LinesCons(HexSend.DataRecord(cs[0]), tail, more);
    }
  }

  /** A line, then more lines, on the wire. */
  lemma LinesCons(line: string, tail: seq<string>, more: seq<byte>)
    ensures HexSend.LineBytes([line] + tail) + more ==
      HexSend.Encode(line) + HexSend.CRLF + (HexSend.LineBytes(tail) + more)
  {
    var lines := [line] + tail;
    LineBytesCons(lines);
    assert lines[0] == line && lines[1..] == tail;
    AppendAssoc(HexSend.Encode(line) + HexSend.CRLF, HexSend.LineBytes(tail), more);
  }

  /** The payloads of a transfer, read from the front. */
  lemma PayloadsCons(cs: seq<HexSend.Chunk>)
    requires cs != []
    ensures Flatten(HexSend.Payloads(cs)) == cs[0].bytes + Flatten(HexSend.Payloads(cs[1..]))
  {
    assert HexSend.Payloads(cs) == [cs[0].bytes] + HexSend.Payloads(cs[1..]);
    HexSend.FlattenCons(cs[0].bytes, HexSend.Payloads(cs[1..]));
  }

  /** Every record the encoder writes for a file of at most 64 KiB fits a buffer of 11 + 2 * size characters. */
  lemma ChunksFit(cfg: Config, data: seq<byte>, size: nat)
    requires 1 <= size <= 255 && |data| <= 0x10000 && 11 + 2 * size <= cfg.limit
    ensures forall k :: 0 <= k < |HexSend.Chunks(data, size)| ==> RecordFits(cfg, HexSend.Chunks(data, size)[k])
  {
    forall k | 0 <= k < |HexSend.Chunks(data, size)|
      ensures RecordFits(cfg, HexSend.Chunks(data, size)[k])
    {
      HexSend.ChunkLayout(data, size, k);
    }
  }

  /**
   * The intended receiver, fed everything the sender writes for a file of
   * at most 64 KiB with chunks of 1 to 255 bytes, rebuilds exactly the file
   * and stops at the End-of-File record.
   */
  lemma IntendedRoundTrip(data: seq<byte>, size: nat)
    requires 1 <= size <= 255 && |data| <= 0x10000
    ensures Device(Intended, [], HexSend.Wire(HexSend.Records(data, size))) == Outcome(data, EndOfFile)
  {
    var x := HexSend.LineBytes(HexSend.Records(data, size)) + [HexSend.EOT];
    assert HexSend.Wire(HexSend.Records(data, size)) == [HexSend.STX] + x;
    assert ([HexSend.STX] + x)[1..] == x;
    ChunksFit(Intended, data, size);
    RunRecords(Intended, HexSend.Chunks(data, size), [HexSend.EOT]);
    HexSend.PayloadsConcatenate(data, size);
  }

  /** As written, a data record glued to the STX marker does not start with `:`, and is dropped. */
  lemma StxRecordDropped(c: HexSend.Chunk, more: seq<byte>)
    requires 1 <= |c.bytes| <= 253 && c.addr < 0x10000
    ensures Device(AsWritten, [], [HexSend.STX] + (HexSend.Encode(HexSend.DataRecord(c)) + HexSend.CRLF + more)) ==
      Device(AsWritten, [], more)
  {
    var s := HexSend.Encode(HexSend.DataRecord(c));
    var first := [HexSend.STX] + s;
    DataRecordSpells(c);
    SpellsPlain(AsWritten, s, DataFields(c));
    assert Plain(AsWritten, first) by {
      assert forall i :: 1 <= i < |first| ==> first[i] == s[i - 1];
    }
    assert [HexSend.STX] + (s + HexSend.CRLF + more) == first + HexSend.CRLF + more;
    LineThrough(AsWritten, first, more);
    assert Effect(first) == LineEffect([], false);
  }

  /** The first chunk is the file's first `size` bytes, or all of a shorter file. */
  lemma FirstChunk(data: seq<byte>, size: nat)
    requires size >= 1 && |data| >= 1
    ensures var cs := HexSend.Chunks(data, size);
      cs != [] && cs[0] == HexSend.Chunk(0, data[..Min(size, |data|)])
  {
  }

  /**
   * The receiver as written, fed everything the sender writes, loses the
   * first record: the STX marker starts the first line, which then does not
   * start with `:`. Only the file past the first chunk is written.
   */
  lemma StxSwallowsFirstRecord(data: seq<byte>, size: nat)
    requires 1 <= size <= 253 && 1 <= |data| <= 0x10000
    ensures Device(AsWritten, [], HexSend.Wire(HexSend.Records(data, size))) ==
      Outcome(data[Min(size, |data|)..], EndOfFile)
  {
    var cs := HexSend.Chunks(data, size);
    var m := Min(size, |data|);
    FirstChunk(data, size);
    var c := cs[0];
    var lines := HexSend.Records(data, size);
    var rest := HexSend.LineBytes(HexSend.DataLines(cs[1..]) + [HexSend.EofRecord]) + [HexSend.EOT];
    RecordLinesCons(cs, [HexSend.EOT]);
    AppendAssoc([HexSend.STX], HexSend.LineBytes(lines), [HexSend.EOT]);
    assert HexSend.Wire(lines) == [HexSend.STX] + (HexSend.Encode(HexSend.DataRecord(c)) + HexSend.CRLF + rest);
    StxRecordDropped(c, rest);
    ChunksFit(AsWritten, data, size);
    RunRecords(AsWritten, cs[1..], [HexSend.EOT]);
    HexSend.PayloadsConcatenate(data, size);
    PayloadsCons(cs);
    assert data == data[..m] + data[m..];
  }

  /**
   * The receiver as written drops a record of 255 data bytes: its line has
   * 521 characters, the buffer hands on the first 519 (too short for the
   * count) and then the last two (too short for a record).
   */
  lemma LongRecordDropped(c: HexSend.Chunk, more: seq<byte>)
    requires |c.bytes| == 255 && c.addr < 0x10000
    ensures Device(AsWritten, [], HexSend.Encode(HexSend.DataRecord(c)) + HexSend.CRLF + more) ==
      Device(AsWritten, [], more)
  {
    var s := HexSend.Encode(HexSend.DataRecord(c));
    assert |s| == 521 && Plain(AsWritten, s) && Pair(s, 1) == 255 by {
      DataRecordSpells(c);
      SpellsPlain(AsWritten, s, DataFields(c));
    }
    LongLineDropped(s, more);
  }

  /** A plain line of 521 characters whose count is 255 is handed on in two pieces, both turned down. */
  lemma LongLineDropped(s: seq<byte>, more: seq<byte>)
    requires |s| == 521 && Plain(AsWritten, s) && Pair(s, 1) == 255
    ensures Device(AsWritten, [], s + HexSend.CRLF + more) == Device(AsWritten, [], more)
  {
    var head, x, tail := s[..518], s[518], s[519..];
    var after := tail + HexSend.CRLF + more;
    assert Device(AsWritten, [], s + HexSend.CRLF + more) == Device(AsWritten, head, [x] + after) by {
      assert s + HexSend.CRLF + more == head + ([x] + after);
      PlainSlice(AsWritten, s, 0, 518);
      assert [] + head == head;
      Gather(AsWritten, [], head, [x] + after);
    }
    var first := s[..519];
    assert Device(AsWritten, head, [x] + after) == Continue(AsWritten, first, after) by {
      DeviceCons(AsWritten, head, x, after);
      assert head + [x] == first;
    }
    assert Effect(first) == LineEffect([], false) by {
      assert Pair(first, 1) == Pair(s, 1);
    }
    assert Device(AsWritten, [], after) == Device(AsWritten, [], more) by {
      PlainSlice(AsWritten, s, 519, 521);
      LineThrough(AsWritten, tail, more);
      assert Effect(tail) == LineEffect([], false);
    }
  }

  /** A slice of plain bytes is plain. */
  lemma PlainSlice(cfg: Config, s: seq<byte>, i: nat, j: nat)
    requires Plain(cfg, s) && i <= j <= |s|
    ensures Plain(cfg, s[i..j])
  {
    forall k | 0 <= k < j - i
      ensures s[i..j][k] != LF && !Ignored(cfg, s[i..j][k])
    {
      assert s[i..j][k] == s[i + k];
    }
  }

}
