/**
 * The memory dump of `src/shell.c`: `hexstr` and `hexdump`, which the `xr`
 * and `mr` commands use. The `reader` callback is the 64 KiB address space
 * it reads from (RAM, or XRAM through the auto-incrementing port); the
 * `streamer` callback receives one finished line per call, so the result
 * here is the sequence of lines streamed.
 */
module ShellDump {
  import opened Common

  const HEXDUMP_LINE_SIZE := 16

  /** The 16-bit address space. */
  const SPACE := 0x10000

  /** `hexstr`: `hexdigits[val >> 4]` then `hexdigits[val & 0xF]`. */
  function HexStr(val: byte): string
  {
    [HexChar(val / 16), HexChar(val % 16)]
  }

  /** Two upper-case digits that read back as the byte, the same text as `%02X`. */
  lemma HexStrReadsBack(val: byte)
    ensures var s := HexStr(val);
      |s| == 2 && DigitValue(s[0]) * 16 + DigitValue(s[1]) == val &&
      !('a' <= s[0] <= 'f') && !('a' <= s[1] <= 'f') && s == Hex2(val)
  {
    Hex2Digits(val);
  }

  /** The character the ASCII column shows for a byte: itself when 32..126, else '.'. */
  function Shown(b: byte): char
  {
    if 32 <= b <= 126 then b as char else '.'
  }

  /** What `reader(data, addr, n)` fills in: `n` bytes from `addr` on, the address wrapping at 64 KiB. */
  function ReadMem(mem: seq<byte>, addr: int, n: nat): (data: seq<byte>)
    requires |mem| == SPACE
    ensures |data| == n
  {
    seq(n, i requires 0 <= i < n => mem[(addr + i) % SPACE])
  }

  /** " HH" for each byte. */
  function HexColumn(data: seq<byte>): (s: string)
    ensures |s| == 3 * |data|
  {
    if data == [] then [] else HexColumn(data[..|data| - 1]) + [' '] + HexStr(data[|data| - 1])
  }

  function AsciiColumn(data: seq<byte>): (s: string)
    ensures |s| == |data|
  {
    seq(|data|, i requires 0 <= i < |data| => Shown(data[i]))
  }

  /** One line of the dump: the address, a colon, the bytes in hex, a blank, the bytes as text, CR LF. */
  function DumpLine(addr: int, data: seq<byte>): string
    requires 0 <= addr < SPACE
  {
    HexStr(addr / 256) + HexStr(addr % 256) + [':'] + HexColumn(data) + [' '] + AsciiColumn(data) + ['\r', '\n']
  }

  /**
   * The lines of a dump of `bytes` bytes from `addr`: one per started block
   * of sixteen, line `k` showing the `Min(16, bytes - 16k)` bytes at
   * `addr + 16k`, the address wrapping at 64 KiB.
   */
  function Dump(mem: seq<byte>, addr: int, bytes: nat): (lines: seq<string>)
    requires |mem| == SPACE
    ensures |lines| == (bytes + 15) / 16
  {
    seq((bytes + 15) / 16, k requires 0 <= k < (bytes + 15) / 16 =>
      var a := (addr + 16 * k) % SPACE;
      DumpLine(a, ReadMem(mem, a, Min(16, bytes - 16 * k))))
  }

  /**
   * `hexdump(addr, bytes, streamer, reader)`: while bytes remain, read up to
   * sixteen, format and stream a line, and advance `addr` (a `uint16_t`, so
   * it wraps) and `bytes` by the count read.
   */
  method Hexdump(mem: seq<byte>, addr0: int, bytes0: int) returns (lines: seq<string>)
    requires |mem| == SPACE && 0 <= addr0 < SPACE && 0 <= bytes0 < SPACE
    ensures lines == Dump(mem, addr0, bytes0)
  {
    var addr, bytes := addr0, bytes0;
    lines := [];
    while bytes != 0
      invariant 0 <= bytes <= bytes0 && |lines| <= (bytes0 + 15) / 16
      invariant bytes > 0 ==> bytes == bytes0 - 16 * |lines| && addr == (addr0 + 16 * |lines|) % SPACE
      invariant bytes == 0 ==> |lines| == (bytes0 + 15) / 16
      invariant lines == Dump(mem, addr0, bytes0)[..|lines|]
      decreases bytes
    {
      var rd := if bytes > HEXDUMP_LINE_SIZE then HEXDUMP_LINE_SIZE else bytes;
      var data := ReadMem(mem, addr, rd);
      var str := FormatLine(addr, data);
      ghost var k := |lines|;
      assert k < (bytes0 + 15) / 16 && str == Dump(mem, addr0, bytes0)[k] by {
        assert rd == Min(16, bytes0 - 16 * k);
      }
      assert lines + [str] == Dump(mem, addr0, bytes0)[..k + 1];
      ModAdvance(addr0, k);
      lines := lines + [str];
      bytes := bytes - rd;
      addr := (addr + rd) % SPACE;
    }
  }

  /** The body of `hexdump`'s loop: the address, then one loop for the hex column and one for the text column. */
  method FormatLine(addr: int, data: seq<byte>) returns (str: string)
    requires 0 <= addr < SPACE
    ensures str == DumpLine(addr, data)
  {
    str := HexStr(addr / 256) + HexStr(addr % 256) + [':'];
    ghost var head := str;
    for i := 0 to |data|
      invariant str == head + HexColumn(data[..i])
    {
      assert data[..i + 1][..i] == data[..i];
      str := str + [' '] + HexStr(data[i]);
    }
    assert data[..|data|] == data;
    str := str + [' '];
    ghost var mid := str;
    for i := 0 to |data|
      invariant str == mid + AsciiColumn(data[..i])
    {
      assert AsciiColumn(data[..i + 1]) == AsciiColumn(data[..i]) + [Shown(data[i])];
      str := str + [Shown(data[i])];
    }
    str := str + ['\r', '\n'];
  }

  /** `k` lines on, then sixteen bytes more, is `k + 1` lines on, modulo 64 KiB. */
  lemma ModAdvance(addr: int, k: nat)
    ensures ((addr + 16 * k) % SPACE + 16) % SPACE == (addr + 16 * (k + 1)) % SPACE
  {
    var x := addr + 16 * k;
    var q := x / SPACE;
    assert x == q * SPACE + x % SPACE;
    assert x + 16 == q * SPACE + (x % SPACE + 16);
    ModMultiple(x % SPACE + 16, q);
  }

  lemma ModMultiple(y: int, q: int)
    ensures (q * SPACE + y) % SPACE == y % SPACE
  {
  }

  /** Byte `i` of a hex column sits at `3i`: a blank and its two digits. */
  lemma {:induction false} HexColumnAt(data: seq<byte>, i: nat)
    requires i < |data|
    ensures HexColumn(data)[3 * i] == ' ' && HexColumn(data)[3 * i + 1..3 * i + 3] == HexStr(data[i])
    decreases |data|
  {
    if i < |data| - 1 {
      HexColumnAt(data[..|data| - 1], i);
      assert data[..|data| - 1][i] == data[i];
    }
  }

  /**
   * The frame of a dump line, 8 + 4n characters for n bytes: the
   * address's two `hexstr`s, a colon, the hex column, a blank, the text
   * column, CR LF.
   */
  lemma DumpLineFrame(addr: int, data: seq<byte>)
    requires 0 <= addr < SPACE
    ensures var line := DumpLine(addr, data);
      |line| == 8 + 4 * |data| &&
      line[..2] == HexStr(addr / 256) && line[2..4] == HexStr(addr % 256) &&
      line[4] == ':' && line[5 + 3 * |data|] == ' ' && line[|line| - 2..] == "\r\n"
  {
  }

  /**
   * Byte `i` of a dump line: a blank and its `hexstr` at `5 + 3i`, and its
   * shown character at `6 + 3n + i`. With `HexStrReadsBack`, every byte can
   * be read back from the line.
   */
  lemma DumpLineByte(addr: int, data: seq<byte>, i: nat)
    requires 0 <= addr < SPACE && i < |data|
    ensures var line := DumpLine(addr, data);
      |line| == 8 + 4 * |data| &&
      line[5 + 3 * i] == ' ' && line[6 + 3 * i..8 + 3 * i] == HexStr(data[i]) &&
      line[6 + 3 * |data| + i] == Shown(data[i])
  {
    var line := DumpLine(addr, data);
    var n := |data|;
    HexColumnAt(data, i);
    var hex := HexColumn(data);
    var head := HexStr(addr / 256) + HexStr(addr % 256) + [':'];
    var tail := [' '] + AsciiColumn(data) + ['\r', '\n'];
    assert line == head + hex + tail;
    assert line[5 + 3 * i] == hex[3 * i];
    assert line[6 + 3 * i..8 + 3 * i] == hex[3 * i + 1..3 * i + 3];
    assert line[6 + 3 * n + i] == tail[1 + i];
  }

  /** The text column shows printable ASCII as itself and everything else as '.'. */
  lemma ShownCases(b: byte)
    ensures Shown(b) == '.' <==> b < 32 || b > 126 || b == '.' as int
    ensures 32 <= b <= 126 ==> Shown(b) as int == b
  {
  }
}
