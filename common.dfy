/**
 * Vocabulary shared by the models: bytes, optional values, sums of byte
 * sequences and the upper-case hexadecimal text that the host tools
 * (`{:02X}`, `{:04X}`) and the on-device programs (`%02X`, `hexdigits`) print.
 */
module Common {

  /** An unsigned 8-bit value (`uint8_t`, `unsigned char`, a Python `bytes` element). */
  type byte = x: int | 0 <= x < 256

  datatype Option<T> = None | Some(value: T)

  /** The smaller of two integers. */
  function Min(a: int, b: int): (m: int)
    ensures m <= a && m <= b && (m == a || m == b)
  {
    if a <= b then a else b
  }

  /** Sum of a sequence, accumulated from the front as the source's loops do. */
  function Sum(s: seq<int>): int
  {
    if s == [] then 0 else Sum(s[..|s| - 1]) + s[|s| - 1]
  }

  lemma {:induction false} SumAppend(a: seq<int>, b: seq<int>)
    ensures Sum(a + b) == Sum(a) + Sum(b)
    decreases |b|
  {
    if b == [] {
      assert a + b == a;
    } else {
      assert (a + b)[..|a + b| - 1] == a + b[..|b| - 1];
      SumAppend(a, b[..|b| - 1]);
    }
  }

  /** Concatenation of a sequence of sequences, in order. */
  function Flatten<T>(ss: seq<seq<T>>): seq<T>
  {
    if ss == [] then [] else Flatten(ss[..|ss| - 1]) + ss[|ss| - 1]
  }

  lemma {:induction false} FlattenAppend<T>(a: seq<seq<T>>, b: seq<seq<T>>)
    ensures Flatten(a + b) == Flatten(a) + Flatten(b)
    decreases |b|
  {
    if b == [] {
      assert a + b == a;
    } else {
      var init, last := b[..|b| - 1], b[|b| - 1];
      var ab := a + b;
      assert ab[..|ab| - 1] == a + init && ab[|ab| - 1] == last;
      assert Flatten(ab) == Flatten(a + init) + last;
      assert Flatten(b) == Flatten(init) + last;
      FlattenAppend(a, init);
    }
  }

  lemma FlattenSingle<T>(x: seq<T>)
    ensures Flatten([x]) == x
  {
    assert [x][..0] == [];
  }

  /** A character `0`-`9`, `A`-`F` or `a`-`f`. */
  predicate IsHexDigit(c: char)
  {
    ('0' <= c <= '9') || ('A' <= c <= 'F') || ('a' <= c <= 'f')
  }

  /** The value of a hexadecimal digit of either case. */
  function DigitValue(c: char): (v: int)
    requires IsHexDigit(c)
    ensures 0 <= v < 16
  {
    if '0' <= c <= '9' then c as int - '0' as int
    else if 'A' <= c <= 'F' then c as int - 'A' as int + 10
    else c as int - 'a' as int + 10
  }

  /** The upper-case digit of a nibble. */
  function HexChar(n: int): (c: char)
    requires 0 <= n < 16
    ensures IsHexDigit(c) && DigitValue(c) == n
    ensures ('0' <= c <= '9') || ('A' <= c <= 'F')
  {
    if n < 10 then (n + '0' as int) as char else (n - 10 + 'A' as int) as char
  }

  /**
   * Python's `format(n, '0wX')` and C's `%0wX`: the upper-case hexadecimal
   * digits of `n`, padded on the left with `0` to at least `w` characters.
   * A value too wide for `w` digits keeps all its digits.
   */
  function HexField(n: nat, w: nat): string
    decreases n + w
  {
    if n < 16 && w <= 1 then [HexChar(n)]
    else HexField(n / 16, if w == 0 then 0 else w - 1) + [HexChar(n % 16)]
  }

  /** `%02X` of a byte. */
  function Hex2(b: byte): (s: string)
    ensures |s| == 2 && IsHexDigit(s[0]) && IsHexDigit(s[1])
  {
    Hex2Digits(b);
    HexField(b, 2)
  }

  /** Two upper-case digits, high nibble first. */
  lemma Hex2Digits(b: byte)
    ensures HexField(b, 2) == [HexChar(b / 16), HexChar(b % 16)]
  {
    assert HexField(b / 16, 1) == [HexChar(b / 16)];
  }

  /** A 16-bit value in four digits is its high byte's two digits, then its low byte's. */
  lemma Hex4Digits(a: int)
    requires 0 <= a < 0x10000
    ensures HexField(a, 4) == Hex2(a / 256) + Hex2(a % 256)
  {
    var hi, lo := a / 256, a % 256;
    assert (a / 16) / 16 == hi;
    assert (a / 16) % 16 == lo / 16;
    assert a % 16 == lo % 16;
    Hex2Digits(hi);
    Hex2Digits(lo);
    assert HexField(a, 4) == HexField(a / 16, 3) + [HexChar(a % 16)];
    assert HexField(a / 16, 3) == HexField(hi, 2) + [HexChar((a / 16) % 16)];
  }

  /** Every character of a hexadecimal field is an upper-case digit. */
  lemma {:induction false} HexFieldDigits(n: nat, w: nat)
    ensures |HexField(n, w)| >= 1 && |HexField(n, w)| >= w
    ensures forall i :: 0 <= i < |HexField(n, w)| ==> IsHexDigit(HexField(n, w)[i]) && HexField(n, w)[i] < 'a'
    decreases n + w
  {
    if !(n < 16 && w <= 1) {
      HexFieldDigits(n / 16, if w == 0 then 0 else w - 1);
    }
  }

  /** `(int16_t)x`, and the value of a 16-bit `int` on cc65: the 16-bit two's-complement reading of `x`'s low 16 bits. */
  function Signed16(x: int): (r: int)
    ensures -0x8000 <= r < 0x8000 && (r - x) % 0x10000 == 0
  {
    var y := x % 0x10000;
    if y >= 0x8000 then y - 0x10000 else y
  }

  /** 16 to the power `k`. */
  function Pow16(k: nat): (p: nat)
    ensures p >= 1
  {
    if k == 0 then 1 else 16 * Pow16(k - 1)
  }

  /** A value of 16^k or more takes more than k digits, whatever the padding. */
  lemma {:induction false} HexFieldWide(n: nat, w: nat, k: nat)
    requires n >= Pow16(k)
    ensures |HexField(n, w)| >= k + 1
    decreases k
  {
    if k > 0 {
      assert n / 16 >= Pow16(k - 1);
      HexFieldWide(n / 16, if w == 0 then 0 else w - 1, k - 1);
    }
  }
}
