/**
 * The on-device Base64 receiver (`courier` in ext-courier.c). Bytes from
 * the serial port are gathered into a line of at most 77 characters; CR is
 * dropped, LF or a full buffer hands the line to the decoder, and the first
 * `=` is kept in the line, which is then decoded and ends the transfer. The
 * decoder turns each complete group of four alphabet characters (the
 * alphabet of section 4 of RFC 4648) into up to three bytes and stops at the
 * first group that holds a character outside the alphabet other than `=`.
 */
module CourierB64 {
  import opened Common

  /** Size of the line buffer `line`. */
  const B64_LINE_MAX: int := 78
  /** Size of the decoder's output buffer `out`. */
  const OUT_SIZE: int := 76

  const CR: byte := 13
  const LF: byte := 10
  const PAD: byte := 61

  // ----- b64_val -----

  /** `b64_val`: the value of an alphabet character, -1 for any other byte. */
  function B64Val(c: byte): (v: int)
    ensures -1 <= v < 64
  {
    if 'A' as int <= c <= 'Z' as int then c - 'A' as int
    else if 'a' as int <= c <= 'z' as int then c - 'a' as int + 26
    else if '0' as int <= c <= '9' as int then c - '0' as int + 52
    else if c == '+' as int then 62
    else if c == '/' as int then 63
    else -1
  }

  /**
   * The alphabet character of a value (section 4 of RFC 4648): it reads
   * back as that value, and it is never the pad character.
   */
  function Char(v: int): (c: byte)
    requires 0 <= v < 64
    ensures B64Val(c) == v && c != PAD
  {
    if v < 26 then 'A' as int + v
    else if v < 52 then 'a' as int + (v - 26)
    else if v < 62 then '0' as int + (v - 52)
    else if v == 62 then '+' as int
    else '/' as int
  }

  /** A byte has a value exactly when it is the alphabet character of that value. */
  lemma B64ValChar(c: byte)
    ensures B64Val(c) >= 0 <==> exists v :: 0 <= v < 64 && Char(v) == c
    ensures B64Val(c) >= 0 ==> Char(B64Val(c)) == c
  {
    if B64Val(c) >= 0 {
      assert Char(B64Val(c)) == c;
    }
  }

  // ----- b64_decode_and_write -----

  /** The value of the third or fourth character of a group: -2 for `=`. */
  function PadVal(c: byte): (v: int)
    ensures -2 <= v < 64
  {
    if c == PAD then -2 else B64Val(c)
  }

  /** A group the decoder accepts: two alphabet characters, then alphabet characters or `=`. */
  predicate GroupOk(g0: byte, g1: byte, g2: byte, g3: byte)
  {
    B64Val(g0) >= 0 && B64Val(g1) >= 0 && PadVal(g2) != -1 && PadVal(g3) != -1
  }

  /**
   * The bytes of an accepted group: the first always, the second unless the
   * third character is `=`, the third unless the fourth is `=`. Each is the
   * `uint8_t` of the source's shifts and ors; a `=` third character counts
   * as -2 there, whose low two bits are 2 (Dafny's `%` agrees with the
   * two's-complement bits for negative values).
   */
  function GroupBytes(g0: byte, g1: byte, g2: byte, g3: byte): (b: seq<byte>)
    requires GroupOk(g0, g1, g2, g3)
    ensures 1 <= |b| <= 3
  {
    var v0, v1, v2, v3 := B64Val(g0), B64Val(g1), PadVal(g2), PadVal(g3);
    [v0 * 4 + v1 / 16] +
    (if g2 != PAD then [(v1 % 16) * 16 + v2 / 4] else []) +
    (if g3 != PAD then [(v2 % 4) * 64 + v3] else [])
  }

  /**
   * What the decoding loop yields for the characters from a group
   * boundary on: complete groups in order, up to the first group it turns
   * down; a trailing partial group yields nothing.
   */
  function DecodeFrom(s: seq<byte>): seq<byte>
    decreases |s|
  {
    if |s| < 4 || !GroupOk(s[0], s[1], s[2], s[3]) then []
    else GroupBytes(s[0], s[1], s[2], s[3]) + DecodeFrom(s[4..])
  }

  /** At most three bytes come out of every complete group of four characters. */
  lemma {:induction false} DecodeBound(s: seq<byte>)
    ensures |DecodeFrom(s)| <= 3 * (|s| / 4)
    decreases |s|
  {
    if |s| >= 4 && GroupOk(s[0], s[1], s[2], s[3]) {
      DecodeBound(s[4..]);
      assert (|s| - 4) / 4 == |s| / 4 - 1;
    }
  }

  /** Only complete groups are decoded: characters past the last one are ignored. */
  lemma {:induction false} PartialGroupIgnored(s: seq<byte>)
    ensures DecodeFrom(s) == DecodeFrom(s[..4 * (|s| / 4)])
    decreases |s|
  {
    var t := s[..4 * (|s| / 4)];
    if |s| >= 4 {
      assert t[..4] == s[..4];
      assert t[4..] == s[4..][..4 * (|s[4..]| / 4)];
      PartialGroupIgnored(s[4..]);
    }
  }

  /** Decoding stops at the first group that is turned down, whatever follows it. */
  lemma {:induction false} DecodeStops(s: seq<byte>, k: nat)
    requires 4 * k + 4 <= |s| && !GroupOk(s[4 * k], s[4 * k + 1], s[4 * k + 2], s[4 * k + 3])
    ensures DecodeFrom(s) == DecodeFrom(s[..4 * k])
    decreases k
  {
    if k > 0 && GroupOk(s[0], s[1], s[2], s[3]) {
      var t := s[4..];
      assert t[4 * (k - 1)..4 * (k - 1) + 4] == s[4 * k..4 * k + 4];
      DecodeStops(t, k - 1);
      assert s[..4 * k][4..] == t[..4 * (k - 1)];
    }
  }

  // ----- the encoder the decoder is meant to read back (RFC 4648, section 4) -----

  /** The four characters of one, two or three bytes, padded with `=`. */
  function EncodeGroup(b: seq<byte>): (g: seq<byte>)
    requires 1 <= |b| <= 3
    ensures |g| == 4
  {
    var b1 := if |b| > 1 then b[1] else 0;
    var b2 := if |b| > 2 then b[2] else 0;
    [Char(b[0] / 4), Char((b[0] % 4) * 16 + b1 / 16)] +
    (if |b| > 1 then [Char((b1 % 16) * 4 + b2 / 64)] else [PAD]) +
    (if |b| > 2 then [Char(b2 % 64)] else [PAD])
  }

  /** Base64 of a byte string: three bytes to four characters, the last group padded. */
  function Encode(d: seq<byte>): (s: seq<byte>)
    ensures |s| % 4 == 0 && (d != [] ==> |s| >= 4)
    decreases |d|
  {
    if d == [] then []
    else if |d| <= 3 then EncodeGroup(d)
    else EncodeGroup(d[..3]) + Encode(d[3..])
  }

  /** Four characters for every three bytes begun. */
  lemma {:induction false} EncodeLength(d: seq<byte>)
    ensures |Encode(d)| == 4 * ((|d| + 2) / 3)
    decreases |d|
  {
    if |d| > 3 {
      EncodeLength(d[3..]);
      assert (|d| - 3 + 2) / 3 == (|d| + 2) / 3 - 1;
    }
  }

  /**
   * The six-bit pieces of three bytes put back together give the bytes:
   * the arithmetic behind the decoder's shifts.
   */
  lemma Regroup(b0: byte, b1: byte, b2: byte)
    ensures (b0 / 4) * 4 + ((b0 % 4) * 16 + b1 / 16) / 16 == b0
    ensures (((b0 % 4) * 16 + b1 / 16) % 16) * 16 + ((b1 % 16) * 4 + b2 / 64) / 4 == b1
    ensures (((b1 % 16) * 4 + b2 / 64) % 4) * 64 + b2 % 64 == b2
  {
    var hi, lo := b0 % 4, b1 / 16;
    assert (hi * 16 + lo) / 16 == hi && (hi * 16 + lo) % 16 == lo;
    var hi2, lo2 := b1 % 16, b2 / 64;
    assert (hi2 * 4 + lo2) / 4 == hi2 && (hi2 * 4 + lo2) % 4 == lo2;
  }

  /** A group of the encoder is accepted by the decoder and decodes to its bytes. */
  lemma GroupRoundTrip(b: seq<byte>)
    requires 1 <= |b| <= 3
    ensures var g := EncodeGroup(b); GroupOk(g[0], g[1], g[2], g[3]) && GroupBytes(g[0], g[1], g[2], g[3]) == b
  {
    var g := EncodeGroup(b);
    var b1 := if |b| > 1 then b[1] else 0;
    var b2 := if |b| > 2 then b[2] else 0;
    Regroup(b[0], b1, b2);
    var c0, c1, c2, c3 := b[0] / 4, (b[0] % 4) * 16 + b1 / 16, (b1 % 16) * 4 + b2 / 64, b2 % 64;
    assert g[0] == Char(c0) && g[1] == Char(c1);
    assert g[2] == if |b| > 1 then Char(c2) else PAD;
    assert g[3] == if |b| > 2 then Char(c3) else PAD;
    assert B64Val(g[0]) == c0 && B64Val(g[1]) == c1;
    assert |b| > 1 ==> PadVal(g[2]) == c2;
    assert |b| > 2 ==> PadVal(g[3]) == c3;
    var r := GroupBytes(g[0], g[1], g[2], g[3]);
    assert |r| == |b| && r[0] == b[0];
    assert |b| > 1 ==> r[1] == b1;
    assert |b| > 2 ==> r[2] == b2;
  }

  /** The decoder reads back everything the encoder writes. */
  lemma {:induction false} DecodeEncode(d: seq<byte>)
    ensures DecodeFrom(Encode(d)) == d
    decreases |d|
  {
    if d == [] {
    } else if |d| <= 3 {
      GroupRoundTrip(d);
      var g := EncodeGroup(d);
      assert g[4..] == [];
    } else {
      var b := d[..3];
      var g := EncodeGroup(b);
      var s := g + Encode(d[3..]);
      GroupRoundTrip(b);
      assert s[..4] == g && s[4..] == Encode(d[3..]);
      DecodeEncode(d[3..]);
      assert b + d[3..] == d;
    }
  }

  /** The last group ends in `=` exactly when fewer than three bytes remain for it, in `==` when one does. */
  lemma EncodePadding(d: seq<byte>)
    requires d != []
    ensures var s := Encode(d);
      (s[|s| - 1] == PAD <==> |d| % 3 != 0) && (s[|s| - 2] == PAD <==> |d| % 3 == 1)
  {
    var m := 3 * ((|d| - 1) / 3);
    var b := d[m..];
    assert 1 <= |b| <= 3 && (|b| < 3 <==> |d| % 3 != 0) && (|b| == 1 <==> |d| % 3 == 1) by {
      LastGroupSize(|d|);
    }
    assert Encode(d) == Encode(d[..m]) + EncodeGroup(b) by {
      EncodeSplit(d);
    }
    EndPadding(Encode(d), Encode(d[..m]), b);
  }

  /** A group of the encoder pads with one `=` for two bytes and two for one. */
  lemma GroupPadding(b: seq<byte>)
    requires 1 <= |b| <= 3
    ensures var g := EncodeGroup(b); (g[3] == PAD <==> |b| < 3) && (g[2] == PAD <==> |b| == 1)
    ensures Plain(EncodeGroup(b)[..|b| + 1])
  {
    var g := EncodeGroup(b);
    assert forall k :: 0 <= k <= |b| ==> g[..|b| + 1][k] == g[k];
  }

  // ----- the line-gathering loop of main -----

  /**
   * How the loop ends a transfer: as written, at the first `=`; with
   * `padGroup`, at the first `=` that completes a group of four.
   */
  datatype Config = Config(padGroup: bool)

  const AsWritten: Config := Config(false)
  const Intended: Config := Config(true)

  /** What one byte does: the new line, whether it is handed to the decoder, and whether the transfer ends. */
  datatype Gathered = Gathered(line: seq<byte>, flush: bool, done: bool)

  /**
   * One received byte. CR is dropped. `=` is appended while there is room
   * and ends the transfer (as written; with `padGroup` only once the line
   * holds whole groups). Any other byte but LF is appended while there is
   * room. LF, the end of the transfer or a full buffer hand the line on.
   */
  function Step(cfg: Config, line: seq<byte>, ch: byte): (g: Gathered)
    requires |line| < B64_LINE_MAX - 1
    ensures |g.line| <= B64_LINE_MAX - 1 && (g.done ==> g.flush)
    ensures !g.flush ==> |g.line| < B64_LINE_MAX - 1 && !g.done
  {
    if ch == CR then Gathered(line, false, false)
    else
      var l := if ch != LF then line + [ch] else line;
      var done := ch == PAD && (!cfg.padGroup || |l| % 4 == 0);
      var flush := ch == LF || done || |l| >= B64_LINE_MAX - 1;
      Gathered(l, flush, done)
  }

  /** What a run leaves behind: the bytes written to the file, and whether the transfer ended. */
  datatype Outcome = Outcome(file: seq<byte>, finished: bool)

  /** The bytes a line handed on writes: the decoded groups, when the line is not empty. */
  function Flushed(line: seq<byte>): seq<byte>
  {
    if line == [] then [] else DecodeFrom(line)
  }

  /**
   * The receiver over the bytes it reads. The loop has no idle exit: a
   * stream that runs out before the transfer ends leaves the pending line
   * undecoded and the program still waiting.
   */
  function Device(cfg: Config, line: seq<byte>, stream: seq<byte>): Outcome
    requires |line| < B64_LINE_MAX - 1
    decreases |stream|
  {
    if stream == [] then Outcome([], false)
    else
      var g := Step(cfg, line, stream[0]);
      if !g.flush then Device(cfg, g.line, stream[1..])
      else if g.done then Outcome(Flushed(g.line), true)
      else
        var rest := Device(cfg, [], stream[1..]);
        Outcome(Flushed(g.line) + rest.file, rest.finished)
  }

  // ----- what the receiver makes of the encoder's output -----

  /** Characters of the alphabet only: none of them is CR, LF or `=`. */
  predicate Plain(t: seq<byte>)
  {
    forall k :: 0 <= k < |t| ==> B64Val(t[k]) >= 0
  }

  /** The encoding of whole three-byte groups has no padding. */
  lemma {:induction false} EncodePlain(e: seq<byte>)
    requires |e| % 3 == 0
    ensures Plain(Encode(e))
    decreases |e|
  {
    if e != [] {
      ModShift(|e[3..]|, 1);
      EncodePlain(e[3..]);
      var g := EncodeGroup(e[..3]);
      var s := g + Encode(e[3..]);
      forall k | 0 <= k < |s|
        ensures B64Val(s[k]) >= 0
      {
        if k >= 4 {
          assert s[k] == Encode(e[3..])[k - 4];
        }
      }
    }
  }

  /** Text ending in the group of `b` ends in its padding. */
  lemma EndPadding(s: seq<byte>, p: seq<byte>, b: seq<byte>)
    requires 1 <= |b| <= 3 && s == p + EncodeGroup(b)
    ensures (s[|s| - 1] == PAD <==> |b| < 3) && (s[|s| - 2] == PAD <==> |b| == 1)
  {
    var g := EncodeGroup(b);
    GroupPadding(b);
    assert s[|s| - 1] == g[3] && s[|s| - 2] == g[2];
  }

  /** Dropping the first group moves the start of the last group back by three. */
  lemma GroupShift(n: int)
    requires n > 3
    ensures 3 * ((n - 4) / 3) == 3 * ((n - 1) / 3) - 3 >= 0
  {
  }

  /** The encoding splits after the last whole group before the final one. */
  lemma {:induction false} EncodeSplit(d: seq<byte>)
    requires d != []
    ensures var m := 3 * ((|d| - 1) / 3);
      Encode(d) == Encode(d[..m]) + EncodeGroup(d[m..])
    decreases |d|
  {
    var m := 3 * ((|d| - 1) / 3);
    if |d| > 3 {
      var r := d[3..];
      assert 3 * ((|r| - 1) / 3) == m - 3 >= 0 by {
        GroupShift(|d|);
      }
      assert |d| - 3 <= m < |d| by {
        LastGroupSize(|d|);
      }
      EncodeSplit(r);
      DropSlices(d, 3, m);
      SplitAfterFirst(d, m);
    } else {
      assert d[..m] == [] && d[m..] == d;
    }
  }

  /** Slices of a suffix are slices of the whole. */
  lemma DropSlices<T>(d: seq<T>, k: nat, j: nat)
    requires k <= j <= |d|
    ensures d[k..][..j - k] == d[k..j] && d[k..][j - k..] == d[j..]
  {
  }

  /** Slices of a prefix are slices of the whole. */
  lemma TakeSlices<T>(d: seq<T>, k: nat, j: nat)
    requires k <= j <= |d|
    ensures d[..j][..k] == d[..k] && d[..j][k..] == d[k..j]
  {
  }

  /** The split of `d` follows from the split of `d` without its first group. */
  lemma SplitAfterFirst(d: seq<byte>, m: nat)
    requires 3 <= m < |d| <= m + 3
    requires Encode(d[3..]) == Encode(d[3..m]) + EncodeGroup(d[m..])
    ensures Encode(d) == Encode(d[..m]) + EncodeGroup(d[m..])
  {
    var g0, mid, last := EncodeGroup(d[..3]), Encode(d[3..m]), EncodeGroup(d[m..]);
    assert Encode(d) == g0 + Encode(d[3..]);
    assert Encode(d[..m]) == g0 + mid by {
      TakeSlices(d, 3, m);
      if m == 3 {
        assert d[3..m] == [];
      }
    }
    AppendAssoc(g0, mid, last);
  }

  /** Whole groups of the encoder decode back and leave the decoder at what follows them. */
  lemma {:induction false} DecodeAfterEncode(e: seq<byte>, x: seq<byte>)
    requires |e| % 3 == 0
    ensures DecodeFrom(Encode(e) + x) == e + DecodeFrom(x)
    decreases |e|
  {
    if e == [] {
      assert Encode(e) + x == x;
    } else {
      var b := e[..3];
      var g := EncodeGroup(b);
      var s := Encode(e) + x;
      GroupRoundTrip(b);
      AppendAssoc(g, Encode(e[3..]), x);
      assert s[..4] == g && s[4..] == Encode(e[3..]) + x;
      ModShift(|e[3..]|, 1);
      DecodeAfterEncode(e[3..], x);
      AppendAssoc(b, e[3..], DecodeFrom(x));
      assert b + e[3..] == e;
    }
  }

  /** Alphabet characters are gathered into the line while it has room. */
  lemma {:induction false} GatherPlain(cfg: Config, line: seq<byte>, t: seq<byte>, more: seq<byte>)
    requires Plain(t) && |line| + |t| < B64_LINE_MAX - 1
    ensures Device(cfg, line, t + more) == Device(cfg, line + t, more)
    decreases |t|
  {
    if t != [] {
      assert (t + more)[0] == t[0] && (t + more)[1..] == t[1..] + more;
      GatherPlain(cfg, line + [t[0]], t[1..], more);
      assert line + [t[0]] + t[1..] == line + t;
    } else {
      assert t + more == more && line + t == line;
    }
  }

  /** Adding whole groups of three keeps the remainder. */
  lemma ModShift(n: int, q: nat)
    ensures (n + 3 * q) % 3 == n % 3
  {
    var k := n + 3 * q;
    assert k == 3 * (n / 3 + q) + n % 3;
  }

  /** At most 57 bytes, the 76 characters of one line of the encoder. */
  const LINE_BYTES: int := 57

  /**
   * The transmission of a file: its encoding cut into lines of 76
   * characters (57 bytes), each ended by LF; only the last group of the
   * last line is padded.
   */
  function Transmission(d: seq<byte>): (w: seq<byte>)
    ensures |w| > 0
    decreases |d|
  {
    if |d| <= LINE_BYTES then Encode(d) + [LF]
    else Encode(d[..LINE_BYTES]) + [LF] + Transmission(d[LINE_BYTES..])
  }

  /** A full line of whole groups is decoded at its LF, and the receiver starts afresh. */
  lemma FullLine(cfg: Config, e: seq<byte>, more: seq<byte>)
    requires |e| % 3 == 0 && |e| <= LINE_BYTES
    ensures Device(cfg, [], Encode(e) + [LF] + more) == Resume(e, Device(cfg, [], more))
  {
    var s := Encode(e);
    EncodeLength(e);
    EncodePlain(e);
    AppendAssoc(s, [LF], more);
    GatherPlain(cfg, [], s, [LF] + more);
    assert [] + s == s;
    assert ([LF] + more)[1..] == more;
    DecodeAfterEncode(e, []);
    assert s + [] == s && e + [] == e;
  }

  /**
   * The last line as the receiver sees it: the bytes it writes and whether
   * the transfer ends. Without padding the line is decoded at its LF and
   * the receiver goes on waiting; a single `=` ends the transfer with every
   * byte written. With `==` the transfer ends at the first `=`, before the
   * group is complete, and the last byte is lost, unless the receiver
   * waits for the group to fill (`Intended`).
   */
  lemma LastLine(cfg: Config, d: seq<byte>)
    requires |d| <= LINE_BYTES
    ensures Device(cfg, [], Encode(d) + [LF]) ==
      if |d| % 3 == 1 && !cfg.padGroup then Outcome(d[..|d| - 1], true)
      else Outcome(d, |d| % 3 != 0)
  {
    if |d| % 3 == 0 {
      FullLine(cfg, d, []);
      assert Encode(d) + [LF] + [] == Encode(d) + [LF] && d + [] == d;
    } else {
      PaddedLine(cfg, d);
    }
  }

  lemma PaddedLine(cfg: Config, d: seq<byte>)
    requires |d| <= LINE_BYTES && |d| % 3 != 0
    ensures Device(cfg, [], Encode(d) + [LF]) ==
      if |d| % 3 == 1 && !cfg.padGroup then Outcome(d[..|d| - 1], true) else Outcome(d, true)
  {
    var e, b, t := LastGroup(d);
    var g := EncodeGroup(b);
    var rest := g[|b| + 1..] + [LF];
    assert Encode(d) + [LF] == t + rest by {
      assert g == g[..|b| + 1] + g[|b| + 1..];
      AppendAssoc(Encode(e), g[..|b| + 1], g[|b| + 1..]);
      AppendAssoc(t, g[|b| + 1..], [LF]);
    }
    calc {
      Device(cfg, [], Encode(d) + [LF]);
      Device(cfg, [], t + rest);
      { GatherPlain(cfg, [], t, rest); assert [] + t == t; }
      Device(cfg, t, rest);
      { PaddedEnd(cfg, e, b, t, rest); }
      if |b| == 1 && !cfg.padGroup then Outcome(e, true) else Outcome(e + b, true);
    }
    assert |b| == 1 ==> e == d[..|d| - 1];
  }

  /**
   * The encoding of a line whose last group is padded: the whole groups
   * `e`, the last group's bytes `b`, and `t`, the characters up to the
   * first `=`.
   */
  lemma LastGroup(d: seq<byte>) returns (e: seq<byte>, b: seq<byte>, t: seq<byte>)
    requires |d| <= LINE_BYTES && |d| % 3 != 0
    ensures e + b == d && |e| % 3 == 0 && |b| == |d| % 3
    ensures t == Encode(e) + EncodeGroup(b)[..|b| + 1] && Plain(t) && |t| < 76
    ensures Encode(d) == Encode(e) + EncodeGroup(b) && Encode(d)[|t|] == PAD
    ensures |b| == 1 ==> Encode(d)[|t| + 1] == PAD
  {
    var m := 3 * ((|d| - 1) / 3);
    LastGroupSize(|d|);
    e, b := d[..m], d[m..];
    assert e + b == d;
    EncodeSplit(d);
    var p, g := Encode(e), EncodeGroup(b);
    assert |p| + 4 <= 76 by {
      EncodeLength(d);
      LineLength(|d|);
    }
    EncodePlain(e);
    GroupPadding(b);
    t := p + g[..|b| + 1];
    PlainConcat(p, g[..|b| + 1]);
    assert Encode(d)[|t|] == g[|b| + 1];
    assert |b| == 1 ==> Encode(d)[|t| + 1] == g[3];
  }

  lemma PlainConcat(p: seq<byte>, x: seq<byte>)
    requires Plain(p) && Plain(x)
    ensures Plain(p + x)
  {
    forall k | 0 <= k < |p + x|
      ensures B64Val((p + x)[k]) >= 0
    {
      if k >= |p| {
        assert (p + x)[k] == x[k - |p|];
      }
    }
  }

  /** Where the last group begins in a length that is not a multiple of three. */
  /** A line's worth of bytes encodes to at most 76 characters. */
  lemma LineLength(n: int)
    requires 0 <= n <= LINE_BYTES
    ensures 4 * ((n + 2) / 3) <= 76
  {
  }

  lemma LastGroupSize(n: int)
    requires n > 0
    ensures var m := 3 * ((n - 1) / 3);
      0 <= m < n && m % 3 == 0 && n - m == if n % 3 == 0 then 3 else n % 3
  {
    var q, r := (n - 1) / 3, (n - 1) % 3;
    assert n == 3 * q + r + 1;
    ModShift(0, q);
    ModShift(r + 1, q);
  }

  /** A single group decodes to its bytes. */
  lemma DecodeGroupOnly(g: seq<byte>)
    requires |g| == 4 && GroupOk(g[0], g[1], g[2], g[3])
    ensures DecodeFrom(g) == GroupBytes(g[0], g[1], g[2], g[3])
  {
    assert g[4..] == [];
  }

  /** From the first `=` of a padded last group on. */
  lemma PaddedEnd(cfg: Config, e: seq<byte>, b: seq<byte>, t: seq<byte>, rest: seq<byte>)
    requires |e| % 3 == 0 && 1 <= |b| <= 2 && |t| < 76
    requires t == Encode(e) + EncodeGroup(b)[..|b| + 1]
    requires rest == EncodeGroup(b)[|b| + 1..] + [LF]
    requires EncodeGroup(b)[|b| + 1] == PAD && (|b| == 1 ==> EncodeGroup(b)[3] == PAD)
    ensures Device(cfg, t, rest) ==
      if |b| == 1 && !cfg.padGroup then Outcome(e, true) else Outcome(e + b, true)
  {
    var p, g := Encode(e), EncodeGroup(b);
    var l := t + [PAD];
    assert Step(cfg, t, PAD) == Gathered(l, |b| == 2 || !cfg.padGroup, |b| == 2 || !cfg.padGroup) by {
      assert |l| == |p| + |b| + 2;
      Mod4Tail(|p|);
    }
    assert rest[0] == PAD;
    if |b| == 2 {
      assert DecodeFrom(l) == e + b by {
        assert l == p + g;
        WholeLastGroup(e, b);
      }
    } else if !cfg.padGroup {
      assert DecodeFrom(l) == e by {
        assert l == p + g[..3];
        DecodeAfterEncode(e, g[..3]);
        assert e + [] == e;
      }
    } else {
      assert rest[1..] == [PAD, LF] by {
        assert rest == g[2..] + [LF] && g[2..] == [g[2], g[3]];
      }
      assert l == p + g[..3];
      SecondPad(cfg, p, g);
      WholeLastGroup(e, b);
    }
  }

  /** With `padGroup`, the second `=` of a group ends the transfer with the whole group. */
  lemma SecondPad(cfg: Config, p: seq<byte>, g: seq<byte>)
    requires cfg.padGroup && |p| % 4 == 0 && |g| == 4 && g[3] == PAD && |p| + 3 < B64_LINE_MAX - 1
    ensures Device(cfg, p + g[..3], [PAD, LF]) == Outcome(Flushed(p + g), true)
  {
    var l, l2 := p + g[..3], p + g;
    assert l2 == l + [PAD];
    Mod4Tail(|p|);
    assert Step(cfg, l, PAD) == Gathered(l2, true, true);
  }

  /** Whole groups then the complete padded group of `b` decode to the bytes and `b`. */
  lemma WholeLastGroup(e: seq<byte>, b: seq<byte>)
    requires |e| % 3 == 0 && 1 <= |b| <= 3
    ensures DecodeFrom(Encode(e) + EncodeGroup(b)) == e + b
  {
    var g := EncodeGroup(b);
    GroupRoundTrip(b);
    DecodeGroupOnly(g);
    DecodeAfterEncode(e, g);
  }

  /** The positions of a group's last two characters, past whole groups. */
  lemma Mod4Tail(n: int)
    requires n % 4 == 0
    ensures (n + 3) % 4 == 3 && (n + 4) % 4 == 0
  {
  }

  /**
   * The receiver over a whole transmission: as written, a file whose
   * length leaves one byte in the last group loses that byte, and a file
   * of whole groups never ends the transfer.
   */
  lemma {:induction false} TransmissionAsWritten(d: seq<byte>)
    ensures Device(AsWritten, [], Transmission(d)) ==
      if |d| % 3 == 1 then Outcome(d[..|d| - 1], true) else Outcome(d, |d| % 3 != 0)
    decreases |d|
  {
    if |d| <= LINE_BYTES {
      LastLine(AsWritten, d);
    } else {
      var r := d[LINE_BYTES..];
      FullLine(AsWritten, d[..LINE_BYTES], Transmission(r));
      TransmissionAsWritten(r);
      ModShift(|r|, 19);
      assert d[..LINE_BYTES] + r == d;
      if |d| % 3 == 1 {
        assert d[..LINE_BYTES] + r[..|r| - 1] == d[..|d| - 1];
      }
    }
  }

  /** Waiting for the group to fill, every file comes through whole. */
  lemma {:induction false} TransmissionIntended(d: seq<byte>)
    ensures Device(Intended, [], Transmission(d)) == Outcome(d, |d| % 3 != 0)
    decreases |d|
  {
    if |d| <= LINE_BYTES {
      LastLine(Intended, d);
    } else {
      var r := d[LINE_BYTES..];
      FullLine(Intended, d[..LINE_BYTES], Transmission(r));
      TransmissionIntended(r);
      ModShift(|r|, 19);
      assert d[..LINE_BYTES] + r == d;
    }
  }

  /** The receiver's state: its line buffer and the output file. */
  class Receiver {
    var line: array<byte>
    var lineLen: int
    /** The output file's contents. */
    var file: seq<byte>

    predicate Valid()
      reads this
    {
      line.Length == B64_LINE_MAX && 0 <= lineLen < B64_LINE_MAX - 1
    }

    constructor ()
      ensures Valid() && lineLen == 0 && file == []
    {
      line := new byte[B64_LINE_MAX](_ => 0);
      lineLen := 0;
      file := [];
    }

    /**
     * `b64_decode_and_write(line, len, out_fd)`: the complete groups of the
     * line, up to the first one turned down, are decoded into `out` and
     * written when there are any; the result is the number of bytes written.
     */
    method DecodeAndWrite(len: int) returns (o: int)
      requires line.Length == B64_LINE_MAX && 0 <= len < B64_LINE_MAX
      modifies this`file
      ensures file == old(file) + DecodeFrom(line[..len])
      ensures o == |DecodeFrom(line[..len])| <= 3 * (len / 4)
    {
      var out;
      out, o := DecodeLine(len);
      assert o == 0 ==> file + out[..o] == file;
      DecodeBound(line[..len]);
      if o > 0 {
        file := file + out[..o];
      }
    }

    /** The decoding loop of DecodeAndWrite: the groups of the line, decoded into `out`. */
    method DecodeLine(len: int) returns (out: array<byte>, o: int)
      requires line.Length == B64_LINE_MAX && 0 <= len < B64_LINE_MAX
      ensures fresh(out) && 0 <= o <= out.Length && out[..o] == DecodeFrom(line[..len])
    {
      ghost var s := line[..len];
      out := new byte[OUT_SIZE];
      o := 0;
      var i := 0;
      while i + 3 < len
        invariant 0 <= i <= len && 0 <= o && 4 * o <= 3 * i
        invariant DecodeFrom(s) == out[..o] + DecodeFrom(s[i..])
      {
        var v0, v1 := B64Val(line[i]), B64Val(line[i + 1]);
        var v2 := if line[i + 2] == PAD then -2 else B64Val(line[i + 2]);
        var v3 := if line[i + 3] == PAD then -2 else B64Val(line[i + 3]);
        DecodeGroup(s, i);
        if v0 < 0 || v1 < 0 || v2 == -1 || v3 == -1 {
          break;
        }
        ghost var before := out[..o];
        o := EmitGroup(out, o, line[i], line[i + 1], line[i + 2], line[i + 3], v0, v1, v2, v3);
        AppendAssoc(before, GroupBytes(line[i], line[i + 1], line[i + 2], line[i + 3]), DecodeFrom(s[i + 4..]));
        i := i + 4;
      }
      if i + 3 >= len {
        assert DecodeFrom(s[i..]) == [];
      }
      assert out[..o] + [] == out[..o];
    }

    /**
     * One byte read by the loop of `main`: CR is dropped, `=` is appended
     * while there is room and ends the transfer, any other byte but LF is
     * appended while there is room, and LF, the end or a full buffer decode
     * a non-empty line and empty the buffer.
     */
    method Feed(rxChar: byte) returns (done: bool)
      requires Valid()
      modifies this`lineLen, this`file, line
      ensures Valid()
      ensures var g := Step(AsWritten, old(line[..lineLen]), rxChar);
        done == g.done &&
        if g.flush then lineLen == 0 && file == old(file) + Flushed(g.line)
        else line[..lineLen] == g.line && file == old(file)
    {
      ghost var pending := line[..lineLen];
      done := false;
      if rxChar == CR {
        return;
      }
      if rxChar == PAD {
        if lineLen < B64_LINE_MAX - 1 {
          line[lineLen] := rxChar;
          lineLen := lineLen + 1;
        }
        done := true;
      } else if rxChar != LF && lineLen < B64_LINE_MAX - 1 {
        line[lineLen] := rxChar;
        lineLen := lineLen + 1;
      }
      assert line[..lineLen] == if rxChar != LF then pending + [rxChar] else pending;
      if rxChar == LF || done || lineLen >= B64_LINE_MAX - 1 {
        if lineLen > 0 {
          var written := DecodeAndWrite(lineLen);
        }
        lineLen := 0;
      }
    }

    /**
     * The loop of `main` over the bytes read: each byte is fed to the line
     * buffer until one ends the transfer; the result says whether one did.
     */
    method Receive(stream: seq<byte>) returns (finished: bool)
      requires Valid() && lineLen == 0
      modifies this`lineLen, this`file, line
      ensures file == old(file) + Device(AsWritten, [], stream).file
      ensures finished == Device(AsWritten, [], stream).finished
    {
      ghost var acc: seq<byte> := [];
      finished := false;
      var i := 0;
      while i < |stream|
        invariant Valid() && 0 <= i <= |stream| && !finished
        invariant file == old(file) + acc
        invariant Device(AsWritten, [], stream) == Resume(acc, Device(AsWritten, line[..lineLen], stream[i..]))
      {
        ghost var pending := line[..lineLen];
        ghost var g := Step(AsWritten, pending, stream[i]);
        ghost var w := if g.flush then Flushed(g.line) else [];
        FeedStep(acc, pending, stream[i..]);
        var rxChar := stream[i];
        i := i + 1;
        finished := Feed(rxChar);
        AppendAssoc(old(file), acc, w);
        acc := acc + w;
        if finished {
          break;
        }
      }
      if !finished {
        assert stream[i..] == [] && acc + [] == acc;
      }
    }
  }

  /**
   * The three stores of one accepted group into `out` at `o`; `v0`..`v3`
   * are the values the loop computed for its characters.
   */
  method EmitGroup(out: array<byte>, o: int, g0: byte, g1: byte, g2: byte, g3: byte,
                   v0: int, v1: int, v2: int, v3: int) returns (o': int)
    requires GroupOk(g0, g1, g2, g3) && 0 <= o && o + 3 <= out.Length
    requires v0 == B64Val(g0) && v1 == B64Val(g1) && v2 == PadVal(g2) && v3 == PadVal(g3)
    modifies out
    ensures o < o' <= o + 3 && o' == o + |GroupBytes(g0, g1, g2, g3)|
    ensures out[..o'] == old(out[..o]) + GroupBytes(g0, g1, g2, g3)
  {
    o' := o;
    out[o'] := v0 * 4 + v1 / 16;
    o' := o' + 1;
    if g2 != PAD {
      out[o'] := (v1 % 16) * 16 + v2 / 4;
      o' := o' + 1;
    }
    if g3 != PAD {
      out[o'] := (v2 % 4) * 64 + v3;
      o' := o' + 1;
    }
  }

  /** The decoder at a group boundary: the group's bytes and the rest, or nothing. */
  lemma DecodeGroup(s: seq<byte>, i: int)
    requires 0 <= i && i + 3 < |s|
    ensures DecodeFrom(s[i..]) ==
      if GroupOk(s[i], s[i + 1], s[i + 2], s[i + 3])
      then GroupBytes(s[i], s[i + 1], s[i + 2], s[i + 3]) + DecodeFrom(s[i + 4..])
      else []
  {
    assert s[i..][4..] == s[i + 4..];
  }

  /** A run's outcome after `acc` was already written. */
  function Resume(acc: seq<byte>, o: Outcome): Outcome
  {
    Outcome(acc + o.file, o.finished)
  }

  lemma AppendAssoc(a: seq<byte>, b: seq<byte>, c: seq<byte>)
    ensures a + b + c == a + (b + c)
  {
    assert |a + b + c| == |a + (b + c)|;
    forall k | 0 <= k < |a + b + c|
      ensures (a + b + c)[k] == (a + (b + c))[k]
    {
    }
  }

  /** One byte of the stream, as the receive loop sees it. */
  lemma FeedStep(acc: seq<byte>, line: seq<byte>, rest: seq<byte>)
    requires rest != [] && |line| < B64_LINE_MAX - 1
    ensures var g := Step(AsWritten, line, rest[0]);
      var w := if g.flush then Flushed(g.line) else [];
      if g.done then Resume(acc, Device(AsWritten, line, rest)) == Outcome(acc + w, true)
      else Resume(acc, Device(AsWritten, line, rest)) == Resume(acc + w, Device(AsWritten, if g.flush then [] else g.line, rest[1..]))
  {
    var g := Step(AsWritten, line, rest[0]);
    if g.flush && !g.done {
      AppendAssoc(acc, Flushed(g.line), Device(AsWritten, [], rest[1..]).file);
    }
  }
}
