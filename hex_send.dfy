/**
 * The host-side Intel-HEX encoder (tools/sendfile.py): the file is cut into
 * data records of at most `chunk_size` bytes at increasing offsets, closed by
 * one End-of-File record, and sent as STX, each record plus CR LF, EOT.
 */
module HexSend {
  import opened Common

  /** The End-of-File record the generator yields last. */
  const EofRecord: string := ":00000001FF"
  /** Start-of-transfer marker written before the first record. */
  const STX: byte := 0x02
  /** End-of-transfer marker written after the End-of-File record. */
  const EOT: byte := 0x04

  /** One slice of the input: its offset in the file and its bytes. */
  datatype Chunk = Chunk(addr: nat, bytes: seq<byte>)

  /** The slices `data[addr:addr + size]` the generator visits from `addr` on. */
  function ChunksFrom(data: seq<byte>, addr: nat, size: nat): seq<Chunk>
    requires size >= 1
    decreases |data| - addr
  {
    if addr >= |data| then []
    else [Chunk(addr, data[addr..Min(addr + size, |data|)])] + ChunksFrom(data, Min(addr + size, |data|), size)
  }

  function Chunks(data: seq<byte>, size: nat): seq<Chunk>
    requires size >= 1
  {
    ChunksFrom(data, 0, size)
  }

  function Payloads(cs: seq<Chunk>): seq<seq<byte>>
  {
    seq(|cs|, k requires 0 <= k < |cs| => cs[k].bytes)
  }

  /**
   * The checksum byte: the two's complement of the sum of the count, the two
   * address bytes, the record type 0 and the data, so that all of them
   * together with the checksum add up to 0 modulo 256.
   */
  function Checksum(addr: nat, bytes: seq<byte>): (c: byte)
    ensures (|bytes| + (addr / 256) % 256 + addr % 256 + 0 + Sum(bytes) + c) % 256 == 0
  {
    (-(|bytes| + (addr / 256) % 256 + addr % 256 + 0 + Sum(bytes))) % 256
  }

  /** The data field: two upper-case digits per byte, in order. */
  function HexBytes(bytes: seq<byte>): (s: string)
    ensures |s| == 2 * |bytes|
  {
    if bytes == [] then ""
    else
      HexBytes(bytes[..|bytes| - 1]) + Hex2(bytes[|bytes| - 1])
  }

  /** Byte `i` of the data is spelled by characters 2i and 2i+1 of the field. */
  lemma {:induction false} HexBytesAt(bytes: seq<byte>, i: nat)
    requires i < |bytes|
    ensures HexBytes(bytes)[2 * i..2 * i + 2] == Hex2(bytes[i])
    decreases |bytes|
  {
    var n := |bytes| - 1;
    if i < n {
      HexBytesAt(bytes[..n], i);
      assert bytes[..n][i] == bytes[i];
      assert HexBytes(bytes)[..2 * n] == HexBytes(bytes[..n]);
    }
  }

  /** The text of one data record: `:`, count, address, type `00`, data, checksum. */
  function DataRecord(c: Chunk): string
  {
    ":" + HexField(|c.bytes|, 2) + HexField(c.addr, 4) + "00" + HexBytes(c.bytes) + Hex2(Checksum(c.addr, c.bytes))
  }

  function DataLines(cs: seq<Chunk>): seq<string>
  {
    seq(|cs|, k requires 0 <= k < |cs| => DataRecord(cs[k]))
  }

  lemma DataLinesSnoc(cs: seq<Chunk>, c: Chunk)
    ensures DataLines(cs + [c]) == DataLines(cs) + [DataRecord(c)]
  {
  }

  lemma DataLinesCons(cs: seq<Chunk>)
    requires cs != []
    ensures DataLines(cs) == [DataRecord(cs[0])] + DataLines(cs[1..])
  {
  }

  /** Everything `intel_hex_records(data, size)` yields, in order. */
  function Records(data: seq<byte>, size: nat): (r: seq<string>)
    requires size >= 1
    ensures r != [] && r[|r| - 1] == EofRecord
    ensures AllAscii(r)
  {
    DataLinesAscii(Chunks(data, size));
    DataLines(Chunks(data, size)) + [EofRecord]
  }

  /**
   * One turn of the generator's loop: the checksum summed byte by byte, then
   * the record text.
   */
  method FormatRecord(addr: nat, chunk: seq<byte>) returns (line: string)
    ensures line == DataRecord(Chunk(addr, chunk))
  {
    var count := |chunk|;
    var hi, lo := (addr / 256) % 256, addr % 256;
    var cks := count + hi + lo + 0x00;
    var hexdata := HexBytes(chunk);
    for i := 0 to |chunk|
      invariant cks == count + hi + lo + Sum(chunk[..i])
    {
      assert chunk[..i + 1][..i] == chunk[..i];
      cks := cks + chunk[i];
    }
    assert chunk[..|chunk|] == chunk;
    cks := (-cks) % 256;
    line := ":" + HexField(count, 2) + HexField(addr, 4) + "00" + hexdata + Hex2(cks);
  }

  /** The chunk the loop visits next, and the ones after it. */
  lemma NextChunk(all: seq<Chunk>, k: nat, data: seq<byte>, addr: nat, size: nat)
    requires size >= 1 && addr < |data| && k <= |all| && all[k..] == ChunksFrom(data, addr, size)
    ensures k < |all|
    ensures all[k] == Chunk(addr, data[addr..Min(addr + size, |data|)])
    ensures all[k + 1..] == ChunksFrom(data, Min(addr + size, |data|), size)
    ensures DataLines(all[..k + 1]) == DataLines(all[..k]) + [DataRecord(all[k])]
  {
    assert all[k..][0] == all[k] && all[k..][1..] == all[k + 1..];
    assert all[..k + 1] == all[..k] + [all[k]];
    DataLinesSnoc(all[..k], all[k]);
  }

  /**
   * The generator, run to completion: walks `addr` over the data, sums the
   * checksum byte by byte and formats each record.
   */
  method IntelHexRecords(data: seq<byte>, chunkSize: int) returns (lines: seq<string>)
    requires chunkSize >= 1
    ensures lines == Records(data, chunkSize)
  {
    ghost var all := Chunks(data, chunkSize);
    ghost var k := 0;
    var addr := 0;
    lines := [];
    while addr < |data|
      invariant addr <= |data| && k <= |all|
      invariant all[k..] == ChunksFrom(data, addr, chunkSize)
      invariant lines == DataLines(all[..k])
      decreases |data| - addr
    {
      var chunk := data[addr..Min(addr + chunkSize, |data|)];
      var count := |chunk|;
      var line := FormatRecord(addr, chunk);
      NextChunk(all, k, data, addr, chunkSize);
      lines := lines + [line];
      k := k + 1;
      addr := addr + count;
    }
    assert all[k..] == [];
    assert all[..k] == all;
    lines := lines + [EofRecord];
  }

  predicate IsAscii(s: string)
  {
    forall i :: 0 <= i < |s| ==> s[i] as int < 128
  }

  /**
   * `str.encode("ascii")` of a string that is ASCII: each character's code.
   * Every record is ASCII (see `Records`), so the encoding never raises.
   */
  function Encode(s: string): seq<byte>
  {
    seq(|s|, i requires 0 <= i < |s| => s[i] as int % 256)
  }

  predicate AllAscii(lines: seq<string>)
  {
    forall k :: 0 <= k < |lines| ==> IsAscii(lines[k])
  }

  /** `"\r\n"` once encoded. */
  const CRLF: seq<byte> := [13, 10]

  /** Each line encoded and followed by CR LF, in order. */
  function LineBytes(lines: seq<string>): seq<byte>
  {
    if lines == [] then []
    else LineBytes(lines[..|lines| - 1]) + Encode(lines[|lines| - 1]) + CRLF
  }

  /** The bytes `send_intel_hex` writes: STX, each line with CR LF, EOT. */
  function Wire(lines: seq<string>): seq<byte>
  {
    [STX] + LineBytes(lines) + [EOT]
  }

  /** The serial port as a byte sink: what has been written so far. */
  class SerialPort {
    var written: seq<byte>

    constructor ()
      ensures written == []
    {
      written := [];
    }

    method Write(b: seq<byte>)
      modifies this
      ensures written == old(written) + b
    {
      written := written + b;
    }
  }

  /** The line loop of `send_intel_hex`: each line, encoded, then CR LF. */
  method WriteLines(port: SerialPort, lines: seq<string>)
    modifies port
    ensures port.written == old(port.written) + LineBytes(lines)
  {
    ghost var start := port.written;
    for i := 0 to |lines|
      invariant port.written == start + LineBytes(lines[..i])
    {
      assert lines[..i + 1][..i] == lines[..i];
      port.Write(Encode(lines[i]) + CRLF);
    }
    assert lines[..|lines|] == lines;
  }

  /**
   * `send_intel_hex` once the file is read and the port is open: STX, the
   * records each followed by CR LF, then EOT.
   */
  method SendIntelHex(port: SerialPort, data: seq<byte>, chunkSize: int)
    requires chunkSize >= 1
    modifies port
    ensures port.written == old(port.written) + Wire(Records(data, chunkSize))
  {
    var lines := IntelHexRecords(data, chunkSize);
    port.Write([STX]);
    WriteLines(port, lines);
    port.Write([EOT]);
  }

  // ----- What the generator promises -----

  lemma FlattenCons<T>(x: seq<T>, rest: seq<seq<T>>)
    ensures Flatten([x] + rest) == x + Flatten(rest)
  {
    FlattenAppend([x], rest);
    FlattenSingle(x);
  }

  /** The payloads of the chunks from `addr` on concatenate to the rest of the data. */
  lemma {:induction false} ChunksFromConcat(data: seq<byte>, addr: nat, size: nat)
    requires size >= 1 && addr <= |data|
    ensures Flatten(Payloads(ChunksFrom(data, addr, size))) == data[addr..]
    decreases |data| - addr
  {
    var cs := ChunksFrom(data, addr, size);
    if addr == |data| {
      assert Payloads(cs) == [];
    } else {
      var next := Min(addr + size, |data|);
      var rest := ChunksFrom(data, next, size);
      ChunksFromConcat(data, next, size);
      assert Payloads(cs) == [data[addr..next]] + Payloads(rest);
      FlattenCons(data[addr..next], Payloads(rest));
      assert data[addr..] == data[addr..next] + data[next..];
    }
  }

  /**
   * Chunk `k` starts at the running offset, holds between 1 and `size`
   * bytes, and only the last one may be shorter.
   */
  predicate WellPlaced(cs: seq<Chunk>, k: nat, addr: nat, size: nat)
    requires k < |cs|
  {
    cs[k].addr == addr + |Flatten(Payloads(cs[..k]))| &&
    1 <= |cs[k].bytes| <= size &&
    (k < |cs| - 1 ==> |cs[k].bytes| == size)
  }

  lemma {:induction false} ChunksFromPlaced(data: seq<byte>, addr: nat, size: nat, k: nat)
    requires size >= 1 && k < |ChunksFrom(data, addr, size)|
    ensures WellPlaced(ChunksFrom(data, addr, size), k, addr, size)
    decreases k
  {
    var cs := ChunksFrom(data, addr, size);
    var next := Min(addr + size, |data|);
    var head := Chunk(addr, data[addr..next]);
    var rest := ChunksFrom(data, next, size);
    assert cs == [head] + rest;
    if k == 0 {
      assert Payloads(cs[..0]) == [];
      if 0 < |cs| - 1 {
        assert next < |data|;
      }
    } else {
      ChunksFromPlaced(data, next, size, k - 1);
      assert cs[k] == rest[k - 1];
      assert cs[..k] == [head] + rest[..k - 1];
      assert Payloads(cs[..k]) == [head.bytes] + Payloads(rest[..k - 1]);
      FlattenCons(head.bytes, Payloads(rest[..k - 1]));
    }
  }

  /** The payloads of all data records, in order, are the input file. */
  lemma PayloadsConcatenate(data: seq<byte>, size: nat)
    requires size >= 1
    ensures Flatten(Payloads(Chunks(data, size))) == data
  {
    ChunksFromConcat(data, 0, size);
  }

  /**
   * Each record's address is the running offset of its first byte; its count
   * is its slice length, at most the chunk size, and only the last may be
   * shorter; the slice is the data at that offset.
   */
  lemma PayloadsAppend(a: seq<Chunk>, b: seq<Chunk>)
    ensures Payloads(a + b) == Payloads(a) + Payloads(b)
  {
  }

  lemma ChunkLayout(data: seq<byte>, size: nat, k: nat)
    requires size >= 1 && k < |Chunks(data, size)|
    ensures var cs := Chunks(data, size);
      cs[k].addr + |cs[k].bytes| <= |data| &&
      cs[k].bytes == data[cs[k].addr..cs[k].addr + |cs[k].bytes|] &&
      cs[k].addr == |Flatten(Payloads(cs[..k]))| &&
      1 <= |cs[k].bytes| <= size &&
      (k < |cs| - 1 ==> |cs[k].bytes| == size)
  {
    var cs := Chunks(data, size);
    var c := cs[k];
    var pre, post := Payloads(cs[..k]), Payloads(cs[k + 1..]);
    ChunksFromConcat(data, 0, size);
    ChunksFromPlaced(data, 0, size, k);
    assert cs == cs[..k] + [c] + cs[k + 1..];
    PayloadsAppend(cs[..k] + [c], cs[k + 1..]);
    PayloadsAppend(cs[..k], [c]);
    assert Payloads([c]) == [c.bytes];
    FlattenAppend(pre + [c.bytes], post);
    FlattenAppend(pre, [c.bytes]);
    FlattenSingle(c.bytes);
    var p, q := Flatten(pre), Flatten(post);
    assert data == p + c.bytes + q;
    assert data[|p|..|p| + |c.bytes|] == c.bytes;
  }

  /** A data record is longer than the End-of-File record whenever it carries data. */
  lemma DataRecordLength(c: Chunk)
    requires |c.bytes| >= 1
    ensures |DataRecord(c)| >= 13
  {
    HexFieldDigits(|c.bytes|, 2);
    HexFieldDigits(c.addr, 4);
    HexFieldDigits(Checksum(c.addr, c.bytes), 2);
  }

  /** Exactly one End-of-File record is yielded, and it is the last. */
  lemma SingleEofLast(data: seq<byte>, size: nat)
    requires size >= 1
    ensures var r := Records(data, size);
      r[|r| - 1] == EofRecord &&
      forall k :: 0 <= k < |r| - 1 ==> r[k] != EofRecord
  {
    var cs := Chunks(data, size);
    forall k | 0 <= k < |cs|
      ensures DataLines(cs)[k] != EofRecord
    {
      ChunksFromPlaced(data, 0, size, k);
      DataRecordLength(cs[k]);
    }
  }

  /**
   * For a count below 256 and an address below 0x10000 the record is
   * `:` + two count digits + four address digits + `00` + data digits +
   * checksum digits: 11 + 2 * count characters, all upper-case hex after `:`.
   */
  lemma DataRecordLayout(c: Chunk)
    requires |c.bytes| <= 255 && c.addr < 0x10000
    ensures DataRecord(c) ==
      ":" + Hex2(|c.bytes|) + Hex2(c.addr / 256) + Hex2(c.addr % 256) + "00"
      + HexBytes(c.bytes) + Hex2(Checksum(c.addr, c.bytes))
    ensures |DataRecord(c)| == 11 + 2 * |c.bytes|
  {
    var n, a, k := |c.bytes|, c.addr, Checksum(c.addr, c.bytes);
    Hex4Digits(a);
    assert HexField(n, 2) == Hex2(n);
  }

  /** A file of more than 64 KiB gets a record whose address takes five digits. */
  lemma WideAddressRecord(data: seq<byte>, size: nat, k: nat)
    requires size >= 1 && k < |Chunks(data, size)| && Chunks(data, size)[k].addr >= 0x10000
    ensures |DataRecord(Chunks(data, size)[k])| >= 12 + 2 * |Chunks(data, size)[k].bytes|
  {
    var c := Chunks(data, size)[k];
    HexFieldWide(c.addr, 4, 4);
    HexFieldDigits(|c.bytes|, 2);
    HexFieldDigits(Checksum(c.addr, c.bytes), 2);
  }

  lemma HexBytesAscii(bytes: seq<byte>)
    ensures forall i :: 0 <= i < |HexBytes(bytes)| ==> IsHexDigit(HexBytes(bytes)[i]) && HexBytes(bytes)[i] < 'a'
  {
    var s := HexBytes(bytes);
    forall i | 0 <= i < |s|
      ensures IsHexDigit(s[i]) && s[i] < 'a'
    {
      var j := i / 2;
      HexBytesAt(bytes, j);
      Hex2Digits(bytes[j]);
      assert s[i] == Hex2(bytes[j])[i - 2 * j];
    }
  }

  /** Every record is plain ASCII text, so `encode("ascii")` never raises. */
  lemma DataLinesAscii(cs: seq<Chunk>)
    ensures forall k :: 0 <= k < |cs| ==> IsAscii(DataRecord(cs[k]))
  {
    forall k | 0 <= k < |cs|
      ensures IsAscii(DataRecord(cs[k]))
    {
      var c := cs[k];
      HexFieldDigits(|c.bytes|, 2);
      HexFieldDigits(c.addr, 4);
      HexFieldDigits(Checksum(c.addr, c.bytes), 2);
      HexBytesAscii(c.bytes);
    }
  }
}
