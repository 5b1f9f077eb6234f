/**
 * The source-level machinery of the two-pass 65C02 assemblers ext-mass.c and
 * ext-hass.c, which share it almost line for line: comment and blank
 * trimming, `split_token`, numbers and `<`/`>` values, the symbol table
 * and `.ascii` strings. Where the two files differ, a `Dialect` says which
 * one is meant.
 */
module Mass {
  import opened Common
  import opened Opcodes

  /** `MAXLINES`, `MAXOUT` and `MAXSYM` of both files. */
  const MaxLines := 256
  const MaxOut := 8192
  const MaxSym := 64

  /** Characters kept of a label or symbol name (`char name[48]`). */
  const NameLimit := 47

  /** The value `org` holds until the first line that fixes it. */
  const Unset := 0xFFFF

  /**
   * What tells the two files apart: ext-hass.c reads `%` binary numbers,
   * lets a defined symbol pick a zero-page mode, and keeps an assembly
   * status that stops the save; they start at $9000 and $9A00. `ops` is
   * the opcode table the file is built with.
   */
  datatype Dialect = Dialect(binary: bool, symbolFits: bool, status: bool, defaultOrg: nat,
                             ops: seq<Row<VarDef>>)

  const MassDialect := Dialect(false, false, false, 0x9A00, Ops)

  /**
   * ext-hass.c includes its own `ext-hass-opcodes.h`, which is not part of
   * this model; it reads the table through `count` and `vars`, the
   * variant-list layout, so `Ops` stands in for it.
   */
  const HassDialect := Dialect(true, true, true, 0x9000, Ops)

  // ---------------------------------------------------------------------
  // Characters and trimming
  // ---------------------------------------------------------------------

  /** The characters `ltrim_ptr` skips. */
  predicate IsBlank(c: char) { c == ' ' || c == '\t' }

  /** C's `isspace`: space, tab, LF, VT, FF, CR. */
  predicate IsSpace(c: char) { c == ' ' || ('\t' <= c <= '\r') }

  predicate IsDigit(c: char) { '0' <= c <= '9' }

  predicate IsAlpha(c: char) { ('A' <= c <= 'Z') || ('a' <= c <= 'z') }

  predicate IsAlnum(c: char) { IsAlpha(c) || IsDigit(c) }

  /** `is_ident_start` and `is_ident_char`. */
  predicate IsIdentStart(c: char) { IsAlpha(c) || c == '_' || c == '.' }

  predicate IsIdentChar(c: char) { IsAlnum(c) || c == '_' || c == '.' }

  /** The characters `rstrip` removes. */
  predicate IsTrail(c: char) { c == '\r' || c == '\n' || c == ' ' || c == '\t' }

  /** `trim_comment`: the text before the first `;`. */
  function TrimComment(s: string): (r: string)
    ensures r <= s && ';' !in r
    ensures |r| < |s| ==> s[|r|] == ';'
  {
    if s == [] || s[0] == ';' then [] else [s[0]] + TrimComment(s[1..])
  }

  /** `rstrip`: `s` without its trailing CR, LF, space and tab characters. */
  function RStrip(s: string): (r: string)
    ensures r <= s
    ensures r == [] || !IsTrail(r[|r| - 1])
    ensures forall i :: |r| <= i < |s| ==> IsTrail(s[i])
  {
    if s != [] && IsTrail(s[|s| - 1]) then RStrip(s[..|s| - 1]) else s
  }

  /** `ltrim_ptr`: `s` from its first character that is not a blank. */
  function LTrim(s: string): (r: string)
    ensures |r| <= |s|
    ensures r == [] || !IsBlank(r[0])
  {
    if s != [] && IsBlank(s[0]) then LTrim(s[1..]) else s
  }

  /** `toupper` in the C locale. */
  function UpperChar(c: char): char
  {
    if 'a' <= c <= 'z' then (c as int - 32) as char else c
  }

  /** `to_upper_str`. */
  function Upper(s: string): (r: string)
    ensures |r| == |s| && forall i :: 0 <= i < |s| ==> r[i] == UpperChar(s[i])
  {
    if s == [] then [] else [UpperChar(s[0])] + Upper(s[1..])
  }

  /** The length of the run of non-space characters `s` starts with. */
  function WordLen(s: string): (n: nat)
    ensures n <= |s| && (n < |s| ==> IsSpace(s[n]))
    ensures forall i :: 0 <= i < n ==> !IsSpace(s[i])
  {
    if s == [] || IsSpace(s[0]) then 0 else 1 + WordLen(s[1..])
  }

  /**
   * `split_token`: after the leading blanks, the run of non-space characters
   * and the rest past the one character that ends it, without its leading
   * blanks. `None` when `s` holds only blanks; a rest of "" stands for the
   * null pointer the C code returns.
   */
  function SplitToken(s: string): (r: Option<(string, string)>)
    ensures r.None? <==> LTrim(s) == []
    ensures r.Some? ==> forall i :: 0 <= i < |r.value.0| ==> !IsSpace(r.value.0[i])
    ensures r.Some? ==> r.value.1 == [] || !IsBlank(r.value.1[0])
  {
    var t := LTrim(s);
    if t == [] then None
    else
      var n := WordLen(t);
      var rest := if n < |t| then t[n + 1..] else [];
      Some((t[..n], LTrim(rest)))
  }

  /** A token, one space and a rest that starts with no blank split back into the two. */
  lemma SplitTokenJoin(a: string, b: string)
    requires a != [] && !IsBlank(a[0]) && forall i :: 0 <= i < |a| ==> !IsSpace(a[i])
    requires b == [] || !IsBlank(b[0])
    ensures SplitToken(a + " " + b) == Some((a, b))
    ensures SplitToken(a) == Some((a, ""))
  {
    var s := a + " " + b;
    assert s[0] == a[0];
    LTrimKeeps(s);
    WordLenOf(a, " " + b);
    assert s == a + (" " + b);
    assert s[..|a|] == a;
    assert s[|a| + 1..] == b;
    LTrimKeeps(b);
    LTrimKeeps(a);
    WordLenOf(a, "");
    assert a + "" == a;
  }

  /** `ltrim_ptr` leaves alone a string that starts with no blank. */
  lemma LTrimKeeps(s: string)
    requires s == [] || !IsBlank(s[0])
    ensures LTrim(s) == s
  {
  }

  lemma {:induction false} WordLenOf(a: string, b: string)
    requires forall i :: 0 <= i < |a| ==> !IsSpace(a[i])
    requires b == [] || IsSpace(b[0])
    ensures WordLen(a + b) == |a|
    decreases |a|
  {
    if a != [] {
      assert (a + b)[1..] == a[1..] + b;
      WordLenOf(a[1..], b);
    } else {
      assert a + b == b;
    }
  }

  // ---------------------------------------------------------------------
  // The token lists of `.byte` and `.word`
  // ---------------------------------------------------------------------

  /** The longest token `g_tok` takes (`i < 79`). */
  const TokenLimit := 79

  /** The length of the next token: characters up to a comma, at most 79. */
  function FieldLen(s: string): (n: nat)
    ensures n <= |s| && n <= TokenLimit
    ensures forall i :: 0 <= i < n ==> s[i] != ','
    ensures n < |s| && n < TokenLimit ==> s[n] == ','
  {
    FieldUpTo(s, TokenLimit)
  }

  function FieldUpTo(s: string, k: nat): (n: nat)
    ensures n <= |s| && n <= k
    ensures forall i :: 0 <= i < n ==> s[i] != ','
    ensures n < |s| && n < k ==> s[n] == ','
  {
    if s == [] || s[0] == ',' || k == 0 then 0 else 1 + FieldUpTo(s[1..], k - 1)
  }

  /** What the token loop goes on with after a token of `n` characters: past the comma, if one ends it. */
  function AfterField(t: string, n: nat): (r: string)
    requires n <= |t|
    ensures |r| <= |t| - n
  {
    if n < |t| && t[n] == ',' then t[n + 1..] else t[n..]
  }

  /**
   * The tokens the `.byte` and `.word` loops walk: leading blanks are
   * skipped, a token runs to the next comma (at most 79 characters), the
   * comma is consumed, and an empty token is dropped.
   */
  function Items(s: string): (r: seq<string>)
    decreases |s|
  {
    var t := LTrim(s);
    if t == [] then []
    else
      var n := FieldLen(t);
      (if n > 0 then [t[..n]] else []) + Items(AfterField(t, n))
  }

  lemma ItemsStep(p: string)
    requires LTrim(p) != []
    ensures |Items(p)| == (if FieldLen(LTrim(p)) > 0 then 1 else 0) + |Items(AfterField(LTrim(p), FieldLen(LTrim(p))))|
  {
  }

  /** Items separated by commas. */
  function Join(items: seq<string>): string
  {
    if items == [] then [] else if |items| == 1 then items[0] else items[0] + "," + Join(items[1..])
  }

  /** An item the source writes itself: no comma, no leading blank, at most 79 characters. */
  predicate PlainItem(t: string)
  {
    0 < |t| <= TokenLimit && !IsBlank(t[0]) && ',' !in t
  }

  /** `Items` recovers the items `Join` put together. */
  lemma {:induction false} ItemsJoin(items: seq<string>)
    requires forall k :: 0 <= k < |items| ==> PlainItem(items[k])
    ensures Items(Join(items)) == items
    decreases |items|
  {
    if items != [] {
      var t := items[0];
      assert PlainItem(t);
      var rest := if |items| == 1 then "" else "," + Join(items[1..]);
      var s := t + rest;
      assert Join(items) == s;
      assert s[0] == t[0];
      LTrimKeeps(s);
      FieldLenOf(t, rest);
      assert s[..|t|] == t;
      if |items| == 1 {
        assert s[|t|..] == [];
        assert Items(s) == [t] + Items([]);
      } else {
        assert s[|t|] == ',';
        assert s[|t| + 1..] == Join(items[1..]);
        ItemsJoin(items[1..]);
        assert Items(s) == [t] + Items(Join(items[1..]));
        assert [t] + items[1..] == items;
      }
    }
  }

  lemma FieldLenOf(t: string, rest: string)
    requires |t| <= TokenLimit && ',' !in t
    requires rest == [] || rest[0] == ','
    ensures FieldLen(t + rest) == |t|
  {
    FieldUpToOf(t, rest, TokenLimit);
  }

  lemma {:induction false} FieldUpToOf(t: string, rest: string, k: nat)
    requires |t| <= k && ',' !in t
    requires rest == [] || rest[0] == ','
    ensures FieldUpTo(t + rest, k) == |t|
    decreases |t|
  {
    if t != [] {
      assert (t + rest)[1..] == t[1..] + rest;
      FieldUpToOf(t[1..], rest, k - 1);
    } else {
      assert t + rest == rest;
    }
  }

  /**
   * The pass-1 loop over the tokens of `.byte` or `.word`: it counts the
   * non-empty ones.
   */
  method CountItems(s: string) returns (n: nat)
    ensures n == |Items(s)|
  {
    n := 0;
    var p := s;
    while LTrim(p) != []
      invariant n + |Items(p)| == |Items(s)|
      decreases |p|
    {
      var t := LTrim(p);
      var i := FieldLen(t);
      ItemsStep(p);
      if i > 0 {
        n := n + 1;
      }
      p := AfterField(t, i);
    }
  }

  // ---------------------------------------------------------------------
  // Numbers: `strtoul`, `parse_number10` and `parse_number`
  // ---------------------------------------------------------------------

  /** `ULONG_MAX` of the 32-bit `unsigned long` of the 6502 C compiler. */
  const ULongMax := 0xFFFF_FFFF

  /** The value of a digit character in bases up to 36, or 36 for any other character. */
  function DigitIn(c: char): (v: nat)
    ensures v <= 36
  {
    if IsDigit(c) then c as nat - '0' as nat
    else if 'A' <= c <= 'Z' then c as nat - 'A' as nat + 10
    else if 'a' <= c <= 'z' then c as nat - 'a' as nat + 10
    else 36
  }

  /** The length of the run of base-`base` digits `s` starts with. */
  function DigitRun(s: string, base: nat): (n: nat)
    ensures n <= |s| && (n < |s| ==> DigitIn(s[n]) >= base)
    ensures forall i :: 0 <= i < n ==> DigitIn(s[i]) < base
  {
    if s == [] || DigitIn(s[0]) >= base then 0 else 1 + DigitRun(s[1..], base)
  }

  /** The number the digits spell, most significant first. */
  function Spelled(s: string, base: nat): nat
  {
    if s == [] then 0 else Spelled(s[..|s| - 1], base) * base + DigitIn(s[|s| - 1])
  }

  /** `isspace` characters skipped at the front. */
  function SkipSpace(s: string): (r: string)
    ensures |r| <= |s| && r == s[|s| - |r|..]
    ensures r == [] || !IsSpace(r[0])
  {
    if s != [] && IsSpace(s[0]) then SkipSpace(s[1..]) else s
  }

  /** The text after `strtoul`'s leading white space and sign. */
  function Unsigned(s: string): string
  {
    var t := SkipSpace(s);
    if t != [] && (t[0] == '-' || t[0] == '+') then t[1..] else t
  }

  /** Whether `strtoul` reads a minus sign. */
  predicate Minus(s: string)
  {
    var t := SkipSpace(s);
    t != [] && t[0] == '-'
  }

  /**
   * The digits `strtoul` converts: the longest run after the white space,
   * the sign and, in base 16, a `0x` or `0X` that a hexadecimal digit follows.
   */
  function Subject(s: string, base: nat): (d: string)
    ensures forall i :: 0 <= i < |d| ==> DigitIn(d[i]) < base
  {
    var u := Unsigned(s);
    var w := if base == 16 && |u| >= 3 && u[0] == '0' && (u[1] == 'x' || u[1] == 'X') && DigitIn(u[2]) < 16
             then u[2..] else u;
    w[..DigitRun(w, base)]
  }

  /**
   * `strtoul(s, &end, base)` for the bases 10 and 16, as the C standard
   * describes it: `None` when no digit is converted (`end == s`); a value
   * above `ULONG_MAX` gives `ULONG_MAX`; a minus sign negates modulo 2^32.
   */
  function StrToUL(s: string, base: nat): (r: Option<nat>)
    ensures r.None? <==> Subject(s, base) == []
    ensures r.Some? ==> r.value <= ULongMax
    ensures r.Some? && !Minus(s) ==> r.value == Min(Spelled(Subject(s, base), base), ULongMax)
  {
    var d := Subject(s, base);
    if d == [] then None
    else
      var v := Spelled(d, base);
      if v > ULongMax then Some(ULongMax)
      else if Minus(s) then Some((ULongMax + 1 - v) % (ULongMax + 1))
      else Some(v)
  }

  /** The `(uint16_t)` cast of a converted value. */
  function Cast16(x: Option<nat>): (r: Option<nat>)
    ensures r.Some? <==> x.Some?
    ensures r.Some? ==> r.value == x.value % 0x10000
  {
    match x
    case None => None
    case Some(v) => Some(v % 0x10000)
  }

  /**
   * ext-hass.c's `%` form: 1 to 8 binary digits and nothing after them but
   * blanks. A ninth digit makes the loop give up.
   */
  function ParseBinary(t: string): (r: Option<nat>)
    ensures r.Some? ==> 0 < DigitRun(t, 2) <= 8 && r.value == Spelled(t[..DigitRun(t, 2)], 2)
    ensures r.Some? <==> 0 < DigitRun(t, 2) <= 8 && LTrim(t[DigitRun(t, 2)..]) == []
    ensures r.Some? ==> r.value < 0x100
  {
    var n := DigitRun(t, 2);
    if n == 0 || n > 8 || LTrim(t[n..]) != [] then None
    else
      BinaryBelow(t, n);
      Some(Spelled(t[..n], 2))
  }

  lemma BinaryBelow(t: string, n: nat)
    requires n == DigitRun(t, 2) && n <= 8
    ensures Spelled(t[..n], 2) < 0x100
  {
    var d := t[..n];
    assert forall i :: 0 <= i < |d| ==> DigitIn(d[i]) < 2;
    SpelledBelow(d, 2);
    Pow2Grows(n, 8);
    assert Pow2(8) == 0x100;
  }

  /** Digits below `base` spell a number below `base` to the power of their count. */
  lemma {:induction false} SpelledBelow(d: string, base: nat)
    requires base == 2
    requires forall i :: 0 <= i < |d| ==> DigitIn(d[i]) < base
    ensures Spelled(d, base) < Pow2(|d|)
  {
    if d != [] {
      SpelledBelow(d[..|d| - 1], base);
    }
  }

  lemma {:induction false} Pow2Grows(j: nat, k: nat)
    requires j <= k
    ensures Pow2(j) <= Pow2(k)
    decreases k
  {
    if j < k {
      Pow2Grows(j, k - 1);
    }
  }

  /**
   * `parse_number`: `$` and `strtoul` in base 16; with `binary` (ext-hass.c)
   * a `%` after leading blanks and `ParseBinary`; otherwise a decimal number
   * that starts with a digit. The result is cast to 16 bits.
   */
  function ParseNumber(s: string, binary: bool): (r: Option<nat>)
    ensures r.Some? ==> r.value < 0x10000
    ensures s != [] && s[0] == '$' ==> r == Cast16(StrToUL(s[1..], 16))
    ensures s != [] && IsDigit(s[0]) ==> r == Cast16(StrToUL(s, 10))
  {
    if s != [] && s[0] == '$' then Cast16(StrToUL(s[1..], 16))
    else if binary && LTrim(s) != [] && LTrim(s)[0] == '%' then ParseBinary(LTrim(s)[1..])
    else if s != [] && IsDigit(s[0]) then Cast16(StrToUL(s, 10))
    else None
  }

  /** Decimal digits of `n`, most significant first. */
  function Decimal(n: nat): (s: string)
    ensures s != [] && forall i :: 0 <= i < |s| ==> IsDigit(s[i])
  {
    if n < 10 then [(n + '0' as nat) as char] else Decimal(n / 10) + [(n % 10 + '0' as nat) as char]
  }

  /** The `k` binary digits of `n`. */
  function Binary(n: nat, k: nat): (s: string)
    ensures |s| == k && forall i :: 0 <= i < k ==> s[i] == '0' || s[i] == '1'
  {
    if k == 0 then [] else Binary(n / 2, k - 1) + [if n % 2 == 0 then '0' else '1']
  }

  function Pow2(k: nat): (p: nat)
    ensures p >= 1
  {
    if k == 0 then 1 else 2 * Pow2(k - 1)
  }

  lemma {:induction false} SpelledDecimal(n: nat)
    ensures Spelled(Decimal(n), 10) == n
  {
    if n >= 10 {
      var s := Decimal(n);
      assert s[..|s| - 1] == Decimal(n / 10);
      SpelledDecimal(n / 10);
    }
  }

  lemma {:induction false} SpelledHex(n: nat, w: nat)
    ensures Spelled(HexField(n, w), 16) == n
    ensures forall i :: 0 <= i < |HexField(n, w)| ==> DigitIn(HexField(n, w)[i]) < 16
    decreases n + w
  {
    var s := HexField(n, w);
    if n < 16 && w <= 1 {
      assert s == [HexChar(n)];
    } else {
      var w' := if w == 0 then 0 else w - 1;
      assert s == HexField(n / 16, w') + [HexChar(n % 16)];
      assert s[..|s| - 1] == HexField(n / 16, w');
      SpelledHex(n / 16, w');
    }
  }

  lemma {:induction false} SpelledBinary(n: nat, k: nat)
    requires n < Pow2(k)
    ensures Spelled(Binary(n, k), 2) == n
  {
    if k > 0 {
      var s := Binary(n, k);
      assert s[..|s| - 1] == Binary(n / 2, k - 1);
      SpelledBinary(n / 2, k - 1);
    }
  }

  /** A run of digits followed by a character that is not one is converted whole. */
  lemma {:induction false} DigitRunOf(d: string, rest: string, base: nat)
    requires forall i :: 0 <= i < |d| ==> DigitIn(d[i]) < base
    requires rest == [] || DigitIn(rest[0]) >= base
    ensures DigitRun(d + rest, base) == |d|
    decreases |d|
  {
    if d != [] {
      assert (d + rest)[1..] == d[1..] + rest;
      DigitRunOf(d[1..], rest, base);
    } else {
      assert d + rest == rest;
    }
  }

  lemma DollarNumber(s: string, binary: bool)
    requires s != [] && s[0] == '$'
    ensures ParseNumber(s, binary) == Cast16(StrToUL(s[1..], 16))
  {
  }

  /** `strtoul` converts a string of digits whole, with no sign. */
  lemma SubjectOfDigits(d: string, base: nat)
    requires base == 10 || base == 16
    requires d != [] && forall i :: 0 <= i < |d| ==> DigitIn(d[i]) < base
    ensures Subject(d, base) == d && !Minus(d)
  {
    UnsignedOfDigits(d, base);
    if |d| >= 3 {
      assert DigitIn(d[1]) < 16;
    }
    DigitRunOf(d, [], base);
    assert d + [] == d;
  }

  lemma UnsignedOfDigits(d: string, base: nat)
    requires base <= 36
    requires d != [] && DigitIn(d[0]) < base
    ensures SkipSpace(d) == d && Unsigned(d) == d && !Minus(d)
  {
    assert !IsSpace(d[0]);
  }

  /** A `%` in the first column: ext-hass.c reads a binary number, ext-mass.c none. */
  lemma PercentOf(b: string)
    ensures ParseNumber("%" + b, true) == ParseBinary(b)
    ensures ParseNumber("%" + b, false) == None
  {
    var s := "%" + b;
    assert s[0] == '%' && s[1..] == b;
    LTrimKeeps(s);
  }

  /** The digits `HexField` prints read back as the value, after `$`. */
  lemma HexNumber(n: nat, binary: bool)
    requires n < 0x10000
    ensures ParseNumber("$" + HexField(n, 4), binary) == Some(n)
  {
    var d := HexField(n, 4);
    assert d != [] && forall i :: 0 <= i < |d| ==> DigitIn(d[i]) < 16 by {
      SpelledHex(n, 4);
      HexFieldDigits(n, 4);
    }
    assert Spelled(d, 16) == n by {
      SpelledHex(n, 4);
    }
    DollarDigits(d, binary, n);
  }

  /** Digits in `base` are converted whole by `strtoul`. */
  lemma DigitsRead(d: string, base: nat)
    requires base == 10 || base == 16
    requires d != [] && forall i :: 0 <= i < |d| ==> DigitIn(d[i]) < base
    ensures StrToUL(d, base) == Some(Min(Spelled(d, base), ULongMax))
  {
    SubjectOfDigits(d, base);
  }

  /** `$` and hexadecimal digits read as their value, cast to 16 bits. */
  lemma DollarDigits(d: string, binary: bool, v: nat)
    requires d != [] && forall i :: 0 <= i < |d| ==> DigitIn(d[i]) < 16
    requires Spelled(d, 16) == v && v < 0x10000
    ensures ParseNumber("$" + d, binary) == Some(v)
  {
    var x := StrToUL(d, 16);
    assert x == Some(v) by {
      DigitsRead(d, 16);
    }
    Cast16Small(v);
    DollarRead("$" + d, d, binary);
  }

  lemma Cast16Small(v: nat)
    requires v < 0x10000
    ensures Cast16(Some(v)) == Some(v)
  {
  }

  lemma DollarRead(s: string, d: string, binary: bool)
    requires s == "$" + d
    ensures ParseNumber(s, binary) == Cast16(StrToUL(d, 16))
  {
    assert s[0] == '$' && s[1..] == d;
  }

  /**
   * Decimal text reads back as the value cast to 16 bits, and a value past
   * `ULONG_MAX` as `$FFFF`.
   */
  lemma DecimalNumber(n: nat, binary: bool)
    ensures ParseNumber(Decimal(n), binary) == Some(Min(n, ULongMax) % 0x10000)
  {
    var d := Decimal(n);
    SpelledDecimal(n);
    forall i | 0 <= i < |d| ensures DigitIn(d[i]) < 10 {
    }
    SubjectOfDigits(d, 10);
    assert IsDigit(d[0]);
    assert StrToUL(d, 10) == Some(Min(n, ULongMax));
  }

  /**
   * In ext-hass.c, `%` and one to eight binary digits read back as their
   * value; ext-mass.c has no binary form.
   */
  lemma BinaryNumber(n: nat, k: nat)
    requires 1 <= k <= 8 && n < Pow2(k)
    ensures ParseNumber("%" + Binary(n, k), true) == Some(n)
    ensures ParseNumber("%" + Binary(n, k), false) == None
  {
    PercentOf(Binary(n, k));
    BinaryRead(n, k);
  }

  /** Nine binary digits or more are refused. */
  lemma BinaryTooWide(n: nat, k: nat)
    requires k > 8
    ensures ParseNumber("%" + Binary(n, k), true) == None
  {
    PercentOf(Binary(n, k));
    BinaryTooLong(Binary(n, k));
  }

  lemma BinaryRead(n: nat, k: nat)
    requires 1 <= k <= 8 && n < Pow2(k)
    ensures ParseBinary(Binary(n, k)) == Some(n)
  {
    var b := Binary(n, k);
    SpelledBinary(n, k);
    forall i | 0 <= i < |b| ensures DigitIn(b[i]) < 2 {
    }
    DigitRunOf(b, [], 2);
    assert b + [] == b && b[..|b|] == b && b[|b|..] == [];
  }

  lemma BinaryTooLong(b: string)
    requires |b| > 8 && forall i :: 0 <= i < |b| ==> b[i] == '0' || b[i] == '1'
    ensures ParseBinary(b) == None
  {
    forall i | 0 <= i < |b| ensures DigitIn(b[i]) < 2 {
    }
    DigitRunOf(b, [], 2);
    assert b + [] == b;
  }

  // ---------------------------------------------------------------------
  // Values with `<` and `>`
  // ---------------------------------------------------------------------

  /** `asm_vop_t`. */
  datatype Vop = Normal | Low | High

  /**
   * `asm_value_t` as `parse_value_out` leaves it: a number or a label of at
   * most 47 characters, with its operator. (`force_zp` is always left 0 by
   * `init_val_num` and `init_val_lab`; the operand parser keeps its own.)
   */
  datatype Value = Num(num: nat, op: Vop) | Label(name: string, op: Vop)

  /** The value `parse_value_out` gives an empty or null token. */
  const NoValue := Num(0, Normal)

  /** `init_val_lab`'s copy of at most 47 characters. */
  function Truncate(s: string, n: nat): (r: string)
    ensures r == s[..Min(|s|, n)]
  {
    s[..Min(|s|, n)]
  }

  /**
   * `parse_value_out`: "" stands for a null or empty token. A leading `*`
   * and the blanks after it are skipped; then `<` or `>` picks the low or
   * high byte; then a number, or else a label.
   */
  function ParseValue(tok: string, binary: bool): (r: Value)
    ensures r.Label? ==> |r.name| <= NameLimit
    ensures r.Num? ==> r.num < 0x10000
  {
    var t := if tok != [] && tok[0] == '*' then LTrim(tok[1..]) else tok;
    if t == [] then NoValue
    else
      var op := if t[0] == '<' then Low else if t[0] == '>' then High else Normal;
      var u := if op == Normal then t else t[1..];
      match ParseNumber(u, binary)
      case Some(v) => Num(v, op)
      case None => Label(Truncate(u, NameLimit), op)
  }

  /** `apply_vop`. */
  function ApplyVop(v: nat, op: Vop): (r: nat)
    ensures op != Normal ==> r < 0x100
    ensures op == Normal ==> r == v
  {
    match op
    case Normal => v
    case Low => v % 0x100
    case High => (v / 0x100) % 0x100
  }

  /** The high and the low byte put together give back a 16-bit value. */
  lemma HighLow(v: nat)
    requires v < 0x10000
    ensures ApplyVop(v, High) * 0x100 + ApplyVop(v, Low) == v
  {
  }

  function VopText(op: Vop): string
  {
    match op
    case Normal => ""
    case Low => "<"
    case High => ">"
  }

  /** A label as the source writes it: an identifier of at most 47 characters. */
  predicate Identifier(name: string)
  {
    0 < |name| <= NameLimit && IsIdentStart(name[0])
    && forall i :: 0 <= i < |name| ==> IsIdentChar(name[i])
  }

  /** A value written back as text: its operator, then `$` and four hex digits, or the label. */
  function ValueText(v: Value): string
  {
    match v
    case Num(n, op) => VopText(op) + "$" + HexField(n, 4)
    case Label(name, op) => VopText(op) + name
  }

  /** Values with a 16-bit number or an identifier label: the ones `ValueText` can write. */
  predicate Canonical(v: Value)
  {
    match v
    case Num(n, _) => n < 0x10000
    case Label(name, _) => Identifier(name)
  }

  /** `parse_value_out` reads back every value `ValueText` writes. */
  lemma ParseValueText(v: Value, binary: bool)
    requires Canonical(v)
    ensures ParseValue(ValueText(v), binary) == v
  {
    var p := VopText(v.op);
    match v
    case Num(n, op) =>
      var u := "$" + HexField(n, 4);
      assert ValueText(v) == p + u;
      assert ParseNumber(u, binary) == Some(n) by {
        HexNumber(n, binary);
      }
      ParseValueOp(op, u, binary);
    case Label(name, op) =>
      assert ValueText(v) == p + name;
      assert ParseNumber(name, binary) == None by {
        NameNotNumber(name, binary);
      }
      assert Truncate(name, NameLimit) == name;
      ParseValueOp(op, name, binary);
  }

  /** A token that starts like a number or a name reads the same with `<` or `>` before it. */
  lemma ParseValueOp(op: Vop, u: string, binary: bool)
    requires u != [] && u[0] != '*' && u[0] != '<' && u[0] != '>'
    ensures ParseValue(VopText(op) + u, binary)
            == match ParseNumber(u, binary)
               case Some(x) => Num(x, op)
               case None => Label(Truncate(u, NameLimit), op)
  {
    var t := VopText(op) + u;
    if op == Normal {
      assert t == u;
    } else {
      assert t[0] != '*' && t[1..] == u;
    }
  }

  /** An identifier is never read as a number. */
  lemma NameNotNumber(name: string, binary: bool)
    requires Identifier(name)
    ensures ParseNumber(name, binary) == None
  {
    assert name[0] != '$' && !IsDigit(name[0]) && !IsBlank(name[0]);
    LTrimKeeps(name);
  }

  // ---------------------------------------------------------------------
  // `parse_ascii_bytes`
  // ---------------------------------------------------------------------

  /** The byte a C `char` holds. */
  function ByteOf(c: char): byte
  {
    (c as int % 0x100) as byte
  }

  /** The character an escape letter stands for, if it is one of `n r t \ "`. */
  function Escaped(e: char): (r: Option<char>)
    ensures r.Some? <==> e in "nrt\\\""
  {
    if e == 'n' then Some('\n')
    else if e == 'r' then Some('\r')
    else if e == 't' then Some('\t')
    else if e == '\\' then Some('\\')
    else if e == '"' then Some('"')
    else None
  }

  /**
   * The loop of `parse_ascii_bytes` from just after the opening quote, with
   * `out` the bytes so far: `None` on a bad escape, on more than `max`
   * bytes or on a missing closing quote; after the quote only blanks may
   * follow.
   */
  function AsciiBody(s: string, max: nat, out: seq<byte>): (r: Option<seq<byte>>)
    requires |out| <= max
    ensures r.Some? ==> out <= r.value && |r.value| <= max
    decreases |s|
  {
    if s == [] then None
    else if s[0] == '"' then (if LTrim(s[1..]) == [] then Some(out) else None)
    else if s[0] == '\\' then
      if |s| < 2 then None
      else match Escaped(s[1])
        case None => None
        case Some(c) => if |out| >= max then None else AsciiBody(s[2..], max, out + [ByteOf(c)])
    else if |out| >= max then None
    else AsciiBody(s[1..], max, out + [ByteOf(s[0])])
  }

  /**
   * `parse_ascii_bytes(s, out, max)`: leading blanks, a quoted string with
   * the escapes `\n \r \t \\ \"`, and only blanks after it.
   */
  function AsciiBytes(s: string, max: nat): (r: Option<seq<byte>>)
    ensures r.Some? ==> |r.value| <= max
    ensures r.Some? ==> LTrim(s) != [] && LTrim(s)[0] == '"'
  {
    var t := LTrim(s);
    if t == [] || t[0] != '"' then None else AsciiBody(t[1..], max, [])
  }

  /** One character as `Escape` writes it: a backslash or a quote gets a backslash before it. */
  function Piece(c: char): string
  {
    if c == '\\' || c == '"' then ['\\', c] else [c]
  }

  /** The text with backslashes and quotes escaped. */
  function Escape(t: string): string
  {
    if t == [] then [] else Piece(t[0]) + Escape(t[1..])
  }

  function Bytes(t: string): (b: seq<byte>)
    ensures |b| == |t|
  {
    if t == [] then [] else [ByteOf(t[0])] + Bytes(t[1..])
  }

  lemma {:induction false} AsciiBodyEscape(t: string, tail: string, max: nat, out: seq<byte>)
    requires |out| <= max
    requires LTrim(tail) == []
    ensures AsciiBody(Escape(t) + ['"'] + tail, max, out)
            == if |out| + |t| <= max then Some(out + Bytes(t)) else None
    decreases |t|
  {
    if t == [] {
      assert Escape(t) + ['"'] + tail == ['"'] + tail;
      assert out + Bytes(t) == out;
      AsciiClose(tail, max, out);
    } else {
      var c := t[0];
      var more := Escape(t[1..]) + ['"'] + tail;
      assert Escape(t) + ['"'] + tail == Piece(c) + more;
      assert AsciiBody(Piece(c) + more, max, out)
             == if |out| >= max then None else AsciiBody(more, max, out + [ByteOf(c)]) by {
        AsciiStep(c, more, max, out);
      }
      if |out| < max {
        var out' := out + [ByteOf(c)];
        assert AsciiBody(more, max, out')
               == if |out'| + |t[1..]| <= max then Some(out' + Bytes(t[1..])) else None by {
          AsciiBodyEscape(t[1..], tail, max, out');
        }
        assert Bytes(t) == [ByteOf(c)] + Bytes(t[1..]);
        SnocAppend(out, ByteOf(c), Bytes(t[1..]));
      }
    }
  }

  lemma SnocAppend<T>(a: seq<T>, x: T, b: seq<T>)
    ensures (a + [x]) + b == a + ([x] + b)
  {
  }

  lemma AsciiClose(tail: string, max: nat, out: seq<byte>)
    requires |out| <= max && LTrim(tail) == []
    ensures AsciiBody(['"'] + tail, max, out) == Some(out)
  {
    var s := ['"'] + tail;
    assert s[0] == '"' && s[1..] == tail;
  }

  /** One character of escaped text adds its byte, if there is room. */
  lemma AsciiStep(c: char, more: string, max: nat, out: seq<byte>)
    requires |out| <= max
    ensures AsciiBody(Piece(c) + more, max, out)
            == if |out| >= max then None else AsciiBody(more, max, out + [ByteOf(c)])
  {
    var s := Piece(c) + more;
    if c == '\\' || c == '"' {
      assert s[0] == '\\' && s[1] == c && s[2..] == more;
      assert Escaped(c) == Some(c);
    } else {
      assert s[0] == c && s[1..] == more;
    }
  }

  /**
   * A quoted string with its backslashes and quotes escaped reads back as
   * its bytes when they fit in `max`, and fails when they do not.
   */
  lemma AsciiQuoted(t: string, max: nat)
    ensures AsciiBytes(['"'] + Escape(t) + ['"'], max) == if |t| <= max then Some(Bytes(t)) else None
  {
    var b := Escape(t) + ['"'];
    assert ['"'] + Escape(t) + ['"'] == ['"'] + b;
    assert AsciiBytes(['"'] + b, max) == AsciiBody(b, max, []) by {
      AsciiOpen(b, max);
    }
    assert AsciiBody(Escape(t) + ['"'] + [], max, [])
           == if |t| <= max then Some([] + Bytes(t)) else None by {
      AsciiBodyEscape(t, [], max, []);
    }
    assert b == Escape(t) + ['"'] + [];
    assert [] + Bytes(t) == Bytes(t);
  }

  /** An opening quote in the first column starts the body. */
  lemma AsciiOpen(b: string, max: nat)
    ensures AsciiBytes(['"'] + b, max) == AsciiBody(b, max, [])
  {
    var s := ['"'] + b;
    LTrimKeeps(s);
    assert s[1..] == b;
  }

  // ---------------------------------------------------------------------
  // The symbol table
  // ---------------------------------------------------------------------

  /** `symbol_t`: the name as stored (at most 47 characters), the value and `defined`. */
  datatype Symbol = Symbol(name: string, value: nat, defined: bool)

  /** `find_sym`: the first entry whose stored name equals `name`. */
  function FindSym(t: seq<Symbol>, name: string): (r: Option<nat>)
    ensures r.Some? ==> r.value < |t| && t[r.value].name == name
    ensures r.Some? ==> forall j :: 0 <= j < r.value ==> t[j].name != name
    ensures r.None? <==> forall j :: 0 <= j < |t| ==> t[j].name != name
  {
    if t == [] then None
    else if t[0].name == name then Some(0)
    else match FindSym(t[1..], name)
      case None => None
      case Some(i) => Some(i + 1)
  }

  /** No two entries share a name. */
  predicate Unique(t: seq<Symbol>)
  {
    forall i, j :: 0 <= i < j < |t| ==> t[i].name != t[j].name
  }

  /**
   * `add_or_update_sym`: `None` for the exit at `MAXSYM` entries, which
   * happens even when the name is already there; an existing entry takes
   * the new value only when `defined`; a new one is appended.
   */
  function AddOrUpdate(t: seq<Symbol>, name: string, value: nat, defined: bool): (r: Option<seq<Symbol>>)
    ensures r.None? <==> |t| >= MaxSym
    ensures r.Some? ==> |r.value| == |t| || |r.value| == |t| + 1
  {
    if |t| >= MaxSym then None
    else match FindSym(t, name)
      case Some(i) => Some(if defined then t[i := Symbol(t[i].name, value, true)] else t)
      case None => Some(t + [Symbol(Truncate(name, NameLimit), value, defined)])
  }

  /** The value of a defined symbol, as `find_sym` and `xram_sym_is_defined` see it. */
  function Defined(t: seq<Symbol>, name: string): (r: Option<nat>)
    ensures r.Some? <==> exists i :: 0 <= i < |t| && t[i].name == name && t[i].defined
                                    && forall j :: 0 <= j < i ==> t[j].name != name
  {
    match FindSym(t, name)
    case None => None
    case Some(i) => if t[i].defined then Some(t[i].value) else None
  }

  /**
   * After a definition, the name's value is the one given, and every other
   * name keeps its value.
   */
  lemma AddDefines(t: seq<Symbol>, name: string, value: nat, other: string)
    requires |t| < MaxSym && |name| <= NameLimit
    requires other != name
    ensures AddOrUpdate(t, name, value, true).Some?
    ensures Defined(AddOrUpdate(t, name, value, true).value, name) == Some(value)
    ensures Defined(AddOrUpdate(t, name, value, true).value, other) == Defined(t, other)
  {
    var r := AddOrUpdate(t, name, value, true).value;
    var e := Symbol(name, value, true);
    match FindSym(t, name)
    case Some(i) =>
      assert r == t[i := e];
      FindSymIs(r, name, i);
      FindSymUpdate(t, i, e, other);
    case None =>
      assert Truncate(name, NameLimit) == name;
      assert r == t + [e];
      FindSymAppend(t, e, name);
      FindSymAppend(t, e, other);
  }

  /** `find_sym` stops at the first entry with the name. */
  lemma FindSymIs(t: seq<Symbol>, n: string, i: nat)
    requires i < |t| && t[i].name == n && forall j :: 0 <= j < i ==> t[j].name != n
    ensures FindSym(t, n) == Some(i)
  {
  }

  lemma {:induction false} FindSymAppend(t: seq<Symbol>, e: Symbol, n: string)
    ensures FindSym(t + [e], n) == if FindSym(t, n).Some? then FindSym(t, n) else if e.name == n then Some(|t|) else None
  {
    var r := FindSym(t + [e], n);
    if FindSym(t, n).None? {
      assert forall j :: 0 <= j < |t| ==> (t + [e])[j] == t[j];
      assert (t + [e])[|t|] == e;
    } else {
      var i := FindSym(t, n).value;
      assert (t + [e])[i] == t[i];
      assert forall j :: 0 <= j < i ==> (t + [e])[j] == t[j];
    }
  }

  lemma FindSymUpdate(t: seq<Symbol>, i: nat, e: Symbol, n: string)
    requires i < |t| && e.name == t[i].name && n != e.name
    ensures FindSym(t[i := e], n) == FindSym(t, n)
  {
    var u := t[i := e];
    assert forall j :: 0 <= j < |t| ==> (u[j].name == n <==> t[j].name == n);
  }

  /** Names stay unique under `add_or_update_sym` with a name of at most 47 characters. */
  lemma AddKeepsUnique(t: seq<Symbol>, name: string, value: nat, defined: bool)
    requires Unique(t) && |t| < MaxSym && |name| <= NameLimit
    ensures Unique(AddOrUpdate(t, name, value, defined).value)
  {
  }

  /** A declaration that is not a definition leaves an existing entry alone. */
  lemma DeclareKeeps(t: seq<Symbol>, name: string, value: nat)
    requires |t| < MaxSym && FindSym(t, name).Some?
    ensures AddOrUpdate(t, name, value, false) == Some(t)
  {
  }

  /** The value of `v` when it is known: a number, or a defined label. */
  function Known(t: seq<Symbol>, v: Value): (r: Option<nat>)
    ensures v.Num? ==> r == Some(ApplyVop(v.num, v.op))
    ensures v.Label? ==> (r.Some? <==> Defined(t, v.name).Some?)
  {
    match v
    case Num(n, op) => Some(ApplyVop(n, op))
    case Label(name, op) =>
      match Defined(t, name)
      case None => None
      case Some(x) => Some(ApplyVop(x, op))
  }

  /** `resolve_value`: an unknown label counts as 0. */
  function Resolve(t: seq<Symbol>, v: Value): (r: nat)
    ensures Known(t, v).Some? ==> r == Known(t, v).value
    ensures Known(t, v).None? ==> r == 0
  {
    match Known(t, v)
    case Some(x) => x
    case None => 0
  }
}
