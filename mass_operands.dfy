/**
 * An instruction as the two passes of ext-mass.c and ext-hass.c see it: the
 * operand syntax `parse_operand_mode` turns into an addressing mode, the
 * size pass 1 counts for the mode, the bytes pass 2 emits and the branch
 * offset it computes.
 */
module MassOperands {
  import opened Common
  import opened Opcodes
  import opened Mass

  /** What `parse_operand_mode` returns, with the value and `force_zp` it leaves in `*val`. */
  datatype Operand = Operand(mode: Mode, value: Value, forceZp: bool)

  /** The character at `k`, or the terminating NUL past the end. */
  function At(s: string, k: nat): char
  {
    if k < |s| then s[k] else '\0'
  }

  /** Where `strchr` finds `c` in `s`, or `|s|` when it finds nothing. */
  function Pos(s: string, c: char): (k: nat)
    ensures k <= |s| && (k < |s| ==> s[k] == c)
    ensures forall i :: 0 <= i < k ==> s[i] != c
  {
    if s == [] || s[0] == c then 0 else 1 + Pos(s[1..], c)
  }

  /** The accumulator test as written: `A` or `a` not followed by a letter or a digit. */
  predicate AccText(s: string)
  {
    s != [] && (s[0] == 'A' || s[0] == 'a') && !IsAlnum(At(s, 1))
  }

  /**
   * Whether a value selects a zero-page mode. ext-mass.c takes a plain
   * number up to $FF; ext-hass.c (`value_fits_zp`) takes any value it
   * knows, from a number or a symbol defined so far, of at most $FF once
   * its operator is applied.
   */
  predicate FitsZp(d: Dialect, t: seq<Symbol>, v: Value)
  {
    if d.symbolFits then Known(t, v).Some? && Known(t, v).value <= 0xFF
    else v.Num? && v.op == Normal && v.num <= 0xFF
  }

  /** The modes whose operand is one byte in pass 2, and the ones a `*` can force. */
  predicate ShortMode(m: Mode)
  {
    m == Imm || m == Zp || m == ZpX || m == ZpY || m == ZpIndX || m == ZpIndY || m == ZpInd
  }

  predicate ForcibleMode(m: Mode)
  {
    m == Zp || m == ZpX || m == ZpY || m == ZpInd
  }

  /** The modes whose operand is a 16-bit address written low byte first. */
  predicate LongMode(m: Mode)
  {
    m == Abs || m == AbsX || m == AbsY || m == AbsInd
  }

  /**
   * `parse_operand_mode`. An empty operand is implied; blanks are skipped,
   * then a `*` (and the blanks after it) forces a zero-page mode; `A` is the
   * accumulator, `#` immediate, `(` one of the indirect forms; otherwise the
   * first comma picks an indexed form, and without one the operand is
   * direct. A forced or fitting value gives the zero-page form of a mode.
   */
  function OperandMode(s: string, d: Dialect, t: seq<Symbol>): (r: Operand)
    ensures r.mode != PcRel && r.mode != Stack
    ensures r.forceZp ==> ForcibleMode(r.mode)
  {
    if s == [] then Operand(Imp, NoValue, false)
    else
      var s1 := LTrim(s);
      var force := s1 != [] && s1[0] == '*';
      var u := if force then LTrim(s1[1..]) else s1;
      Dispatch(u, d, t, force)
  }

  /** `parse_operand_mode` once the blanks and the `*` are behind it. */
  function Dispatch(u: string, d: Dialect, t: seq<Symbol>, force: bool): (r: Operand)
    ensures r.mode != PcRel && r.mode != Stack
    ensures r.forceZp ==> ForcibleMode(r.mode)
  {
      if AccText(u) then Operand(Acc, NoValue, false)
      else if u != [] && u[0] == '#' then Operand(Imm, ParseValue(u[1..], d.binary), false)
      else if u != [] && u[0] == '(' then Indirect(u, d, t, force)
      else if Pos(u, ',') < |u| then Indexed(u, Pos(u, ','), d, t, force)
      else Direct(u, d, t, force)
  }

  /**
   * The `(` branch: no `)` or nothing before it is implied; `(v),Y`
   * is indirect-indexed, `(v),X` absolute indexed-indirect; `(v,X)` is
   * zero-page or absolute indexed-indirect as `v` fits; `(v)` is
   * zero-page or absolute indirect. At most 79 characters are kept inside.
   */
  function Indirect(u: string, d: Dialect, t: seq<Symbol>, force: bool): (r: Operand)
    requires u != [] && u[0] == '('
    ensures r.mode != PcRel && r.mode != Stack
    ensures r.forceZp ==> r.mode == ZpInd
  {
    var j := Pos(u, ')');
    if j == |u| || j <= 1 then Operand(Imp, NoValue, false)
    else
      var len := Min(j - 1, 79);
      var inner := u[1..1 + len];
      if At(u, j + 1) == ',' && (At(u, j + 2) == 'Y' || At(u, j + 2) == 'y') then
        Operand(ZpIndY, ParseValue(inner, d.binary), false)
      else if At(u, j + 1) == ',' && (At(u, j + 2) == 'X' || At(u, j + 2) == 'x') then
        Operand(AbsIndX, ParseValue(inner, d.binary), false)
      else if len > 2 && inner[len - 2] == ',' && (inner[len - 1] == 'X' || inner[len - 1] == 'x') then
        var v := ParseValue(inner[..len - 2], d.binary);
        Operand(if FitsZp(d, t, v) then ZpIndX else AbsIndX, v, false)
      else
        var v := ParseValue(inner, d.binary);
        Operand(if force || FitsZp(d, t, v) then ZpInd else AbsInd, v, force)
  }

  /** The comma branch: the value before the comma (at most 79 characters), then `X`, `Y` or neither. */
  function Indexed(u: string, k: nat, d: Dialect, t: seq<Symbol>, force: bool): (r: Operand)
    requires k < |u|
    ensures r.mode == ZpX || r.mode == AbsX || r.mode == ZpY || r.mode == AbsY || r.mode == Abs
    ensures r.forceZp ==> r.mode == ZpX || r.mode == ZpY
  {
    var v := ParseValue(u[..Min(k, 79)], d.binary);
    var c := At(u, k + 1);
    if c == 'X' || c == 'x' then Operand(if force || FitsZp(d, t, v) then ZpX else AbsX, v, force)
    else if c == 'Y' || c == 'y' then Operand(if force || FitsZp(d, t, v) then ZpY else AbsY, v, force)
    else Operand(Abs, v, false)
  }

  /** No comma: zero page when forced or fitting, absolute otherwise. */
  function Direct(u: string, d: Dialect, t: seq<Symbol>, force: bool): (r: Operand)
    ensures r.mode == Zp || r.mode == Abs
    ensures r.forceZp ==> r.mode == Zp
  {
    var v := ParseValue(u, d.binary);
    Operand(if force || FitsZp(d, t, v) then Zp else Abs, v, force)
  }

  /**
   * The operand of an instruction line: a branch mnemonic reads its whole
   * operand as the target (relative mode); any other goes through
   * `parse_operand_mode`.
   */
  function InstrOperand(d: Dialect, t: seq<Symbol>, mn: string, op: string): (r: Operand)
    ensures r.mode != Stack
    ensures mn in RelativeMnemonics <==> r.mode == PcRel
    ensures r.forceZp ==> ForcibleMode(r.mode)
  {
    if mn in RelativeMnemonics then Operand(PcRel, ParseValue(op, d.binary), false)
    else OperandMode(op, d, t)
  }

  // ---------------------------------------------------------------------
  // Writing an operand back
  // ---------------------------------------------------------------------

  /** An operand in the syntax the parser reads: `*` when forced, then the form of its mode. */
  function OperandText(o: Operand): string
  {
    var v := ValueText(o.value);
    var star := if o.forceZp then "*" else "";
    match o.mode
    case Imp => ""
    case Acc => "A"
    case Imm => "#" + v
    case Zp => star + v
    case Abs => star + v
    case ZpX => star + v + ",X"
    case AbsX => star + v + ",X"
    case ZpY => star + v + ",Y"
    case AbsY => star + v + ",Y"
    case ZpIndX => "(" + v + ",X)"
    case AbsIndX => "(" + v + ",X)"
    case ZpIndY => "(" + v + "),Y"
    case ZpInd => star + ("(" + v + ")")
    case AbsInd => star + ("(" + v + ")")
    case PcRel => v
    case Stack => ""
  }

  /**
   * The operands the parser can give for some text, in the table `t`: no
   * relative or stack mode; no value for implied and accumulator; a `*`
   * only on a forcible mode; a zero-page mode exactly when forced or
   * fitting; and a value that is not itself read as the accumulator.
   */
  predicate Readable(d: Dialect, t: seq<Symbol>, o: Operand)
  {
    var fits := FitsZp(d, t, o.value);
    o.mode != PcRel && o.mode != Stack
    && (o.mode == Imp || o.mode == Acc ==> o.value == NoValue && !o.forceZp)
    && (o.mode != Imp && o.mode != Acc ==> Canonical(o.value) && !AccText(ValueText(o.value)))
    && (o.forceZp ==> ForcibleMode(o.mode))
    && (ForcibleMode(o.mode) ==> o.forceZp || fits)
    && (LongMode(o.mode) || o.mode == AbsIndX ==> !fits)
    && (o.mode == ZpIndX ==> fits)
  }

  /** The characters a written value starts with and holds, which none of the operand syntax uses. */
  lemma ValueTextShape(v: Value)
    requires Canonical(v)
    ensures var s := ValueText(v);
      0 < |s| <= 49 && !IsBlank(s[0]) && s[0] != '*' && s[0] != '#' && s[0] != '('
      && ',' !in s && ')' !in s
  {
    var s := ValueText(v);
    match v
    case Num(n, op) =>
      Hex4Digits(n);
      HexFieldDigits(n, 4);
      var h := HexField(n, 4);
      assert s == VopText(op) + "$" + h;
      assert forall i :: 0 <= i < |s| ==> s[i] == '<' || s[i] == '>' || s[i] == '$' || IsHexDigit(s[i]);
    case Label(name, op) =>
      assert s == VopText(op) + name;
      assert forall i :: 0 <= i < |s| ==> s[i] == '<' || s[i] == '>' || IsIdentChar(s[i]);
  }

  /** `Pos` of a character that first occurs right after `a`. */
  lemma PosAfter(a: string, c: char, b: string)
    requires c !in a
    ensures Pos(a + [c] + b, c) == |a|
  {
    var s := a + [c] + b;
    assert s[|a|] == c;
    assert forall i :: 0 <= i < |a| ==> s[i] == a[i];
  }

  /** `Pos` of a character a string does not hold. */
  lemma PosNone(a: string, c: char)
    requires c !in a
    ensures Pos(a, c) == |a|
  {
    assert forall i :: 0 <= i < |a| ==> a[i] != c;
  }

  /** The operand text with its optional `*` reaches `Dispatch` as the text after it. */
  lemma StarPrefix(force: bool, u: string, d: Dialect, t: seq<Symbol>)
    requires u != [] && !IsBlank(u[0]) && u[0] != '*'
    ensures OperandMode((if force then "*" else "") + u, d, t) == Dispatch(u, d, t, force)
  {
    var s := (if force then "*" else "") + u;
    LTrimKeeps(s);
    if force {
      assert s[1..] == u;
      LTrimKeeps(u);
    } else {
      assert s == u;
    }
  }

  /** A written value that is not the accumulator stays so with anything after it. */
  lemma NotAcc(v: string, tail: string)
    requires v != [] && !AccText(v) && (|v| == 1 ==> tail == [] || !IsAlnum(tail[0]))
    ensures !AccText(v + tail)
  {
    var u := v + tail;
    assert u[0] == v[0];
    if |v| > 1 {
      assert u[1] == v[1];
    }
  }

  /** A value on its own is a direct operand. */
  lemma DirectText(v: Value, d: Dialect, t: seq<Symbol>, force: bool)
    requires Canonical(v) && !AccText(ValueText(v))
    ensures Dispatch(ValueText(v), d, t, force) == Direct(ValueText(v), d, t, force)
  {
    ValueTextShape(v);
    PosNone(ValueText(v), ',');
  }

  /** A value, a comma and an index register make an indexed operand. */
  lemma IndexedText(w: string, r: char, d: Dialect, t: seq<Symbol>, force: bool)
    requires w != [] && !AccText(w) && !IsBlank(w[0]) && w[0] != '#' && w[0] != '('
    requires ',' !in w && |w| <= 79 && (r == 'X' || r == 'Y')
    ensures var v := ParseValue(w, d.binary);
      var zp := force || FitsZp(d, t, v);
      Dispatch(w + [',', r], d, t, force)
        == Operand(if r == 'X' then (if zp then ZpX else AbsX) else (if zp then ZpY else AbsY), v, force)
  {
    var u := w + [',', r];
    assert Dispatch(u, d, t, force) == Indexed(u, |w|, d, t, force) by {
      NotAcc(w, [',', r]);
      assert u[0] == w[0];
      assert u == w + [','] + [r];
      PosAfter(w, ',', [r]);
    }
    assert u[..Min(|w|, 79)] == w && At(u, |w| + 1) == r;
  }

  /** The mode the zero-page test picks, given what a readable operand says about it. */
  lemma PickedMode(d: Dialect, t: seq<Symbol>, o: Operand, zp: Mode, abs: Mode)
    requires Readable(d, t, o) && (o.mode == zp || o.mode == abs)
    requires ForcibleMode(zp) && LongMode(abs)
    ensures (if o.forceZp || FitsZp(d, t, o.value) then zp else abs) == o.mode
    ensures o.mode == abs ==> !o.forceZp
  {
  }

  /** The direct forms read back as written. */
  lemma DirectRoundTrip(d: Dialect, t: seq<Symbol>, o: Operand)
    requires Readable(d, t, o)
    requires o.mode == Zp || o.mode == Abs
    ensures OperandMode(OperandText(o), d, t) == o
  {
    var w := ValueText(o.value);
    ValueTextShape(o.value);
    assert OperandText(o) == (if o.forceZp then "*" else "") + w;
    StarPrefix(o.forceZp, w, d, t);
    DirectText(o.value, d, t, o.forceZp);
    ParseValueText(o.value, d.binary);
    PickedMode(d, t, o, Zp, Abs);
    assert Direct(w, d, t, o.forceZp)
        == Operand(if o.forceZp || FitsZp(d, t, o.value) then Zp else Abs, o.value, o.forceZp);
  }

  /** The indexed forms read back as written. */
  lemma IndexedRoundTrip(d: Dialect, t: seq<Symbol>, o: Operand)
    requires Readable(d, t, o)
    requires o.mode == ZpX || o.mode == AbsX || o.mode == ZpY || o.mode == AbsY
    ensures OperandMode(OperandText(o), d, t) == o
  {
    var w := ValueText(o.value);
    ValueTextShape(o.value);
    var r := if o.mode == ZpX || o.mode == AbsX then 'X' else 'Y';
    var u := w + [',', r];
    assert OperandText(o) == (if o.forceZp then "*" else "") + u;
    StarPrefix(o.forceZp, u, d, t);
    IndexedText(w, r, d, t, o.forceZp);
    ParseValueText(o.value, d.binary);
    if r == 'X' {
      PickedMode(d, t, o, ZpX, AbsX);
    } else {
      PickedMode(d, t, o, ZpY, AbsY);
    }
  }

  /** `(`, a body without `)`, `)` and a tail: what the indirect branch sees. */
  lemma IndirectShape(body: string, tail: string)
    requires body != [] && ')' !in body && |body| <= 79
    ensures var u := "(" + body + ")" + tail;
      Pos(u, ')') == |body| + 1 && u[1..1 + Min(|body|, 79)] == body
      && At(u, |body| + 2) == At(tail, 0) && At(u, |body| + 3) == At(tail, 1)
  {
    var u := "(" + body + ")" + tail;
    assert u == ("(" + body) + [')'] + tail;
    PosAfter("(" + body, ')', tail);
  }

  /** `(v),Y` is indirect-indexed, whatever `v`. */
  lemma IndirectYText(w: string, d: Dialect, t: seq<Symbol>, force: bool)
    requires w != [] && ')' !in w && |w| <= 79
    ensures Dispatch("(" + w + "),Y", d, t, force) == Operand(ZpIndY, ParseValue(w, d.binary), false)
  {
    var u := "(" + w + ")" + ",Y";
    assert "(" + w + "),Y" == u;
    IndirectShape(w, ",Y");
    assert u[0] == '(';
  }

  /** `(v,X)` is indexed-indirect, zero page when `v` fits. */
  lemma IndirectXText(w: string, d: Dialect, t: seq<Symbol>, force: bool)
    requires w != [] && ')' !in w && ',' !in w && |w| <= 77
    ensures var v := ParseValue(w, d.binary);
      Dispatch("(" + w + ",X)", d, t, force) == Operand(if FitsZp(d, t, v) then ZpIndX else AbsIndX, v, false)
  {
    var body := w + ",X";
    var u := "(" + body + ")" + "";
    assert "(" + w + ",X)" == u;
    assert Dispatch(u, d, t, force) == Indirect(u, d, t, force) by {
      assert u[0] == '(';
    }
    assert Pos(u, ')') == |body| + 1 && u[1..1 + Min(|body|, 79)] == body && At(u, |body| + 2) == '\0' by {
      assert ')' !in body by {
        assert forall i :: 0 <= i < |body| ==> body[i] == ',' || body[i] == 'X' || body[i] == w[i];
      }
      IndirectShape(body, "");
    }
    assert body[|body| - 2] == ',' && body[|body| - 1] == 'X' && body[..|body| - 2] == w;
    IndexedIndirect(u, body, d, t, force);
  }

  /** The indirect branch on a body that ends in `,X` with nothing after the `)`. */
  lemma IndexedIndirect(u: string, body: string, d: Dialect, t: seq<Symbol>, force: bool)
    requires |u| == |body| + 2 && u[0] == '(' && 2 < |body| <= 79
    requires Pos(u, ')') == |body| + 1 && u[1..1 + Min(|body|, 79)] == body && At(u, |body| + 2) == '\0'
    requires body[|body| - 2] == ',' && body[|body| - 1] == 'X'
    ensures var v := ParseValue(body[..|body| - 2], d.binary);
      Indirect(u, d, t, force) == Operand(if FitsZp(d, t, v) then ZpIndX else AbsIndX, v, false)
  {
  }

  /** `(v)` is indirect, zero page when forced or when `v` fits. */
  lemma IndirectText(w: string, d: Dialect, t: seq<Symbol>, force: bool)
    requires w != [] && ')' !in w && ',' !in w && |w| <= 79
    ensures var v := ParseValue(w, d.binary);
      Dispatch("(" + w + ")", d, t, force) == Operand(if force || FitsZp(d, t, v) then ZpInd else AbsInd, v, force)
  {
    var u := "(" + w + ")" + "";
    assert "(" + w + ")" == u;
    IndirectShape(w, "");
    assert u[0] == '(';
    assert |w| > 2 ==> w[|w| - 2] != ',';
  }

  /** The indirect forms read back as written. */
  lemma IndirectRoundTrip(d: Dialect, t: seq<Symbol>, o: Operand)
    requires Readable(d, t, o)
    requires o.mode == ZpIndX || o.mode == AbsIndX || o.mode == ZpIndY || o.mode == ZpInd || o.mode == AbsInd
    ensures OperandMode(OperandText(o), d, t) == o
  {
    if o.mode == ZpIndY {
      IndirectYRoundTrip(d, t, o);
    } else if o.mode == ZpIndX || o.mode == AbsIndX {
      IndirectXRoundTrip(d, t, o);
    } else {
      IndirectPlainRoundTrip(d, t, o);
    }
  }

  /** `(v),Y` reads back. */
  lemma IndirectYRoundTrip(d: Dialect, t: seq<Symbol>, o: Operand)
    requires Readable(d, t, o) && o.mode == ZpIndY
    ensures OperandMode(OperandText(o), d, t) == o
  {
    var w := ValueText(o.value);
    ValueTextShape(o.value);
    ParseValueText(o.value, d.binary);
    assert OperandText(o) == "(" + w + "),Y";
    StarPrefix(false, "(" + w + "),Y", d, t);
    IndirectYText(w, d, t, false);
  }

  /** `(v,X)` reads back, zero page exactly when `v` fits. */
  lemma IndirectXRoundTrip(d: Dialect, t: seq<Symbol>, o: Operand)
    requires Readable(d, t, o) && (o.mode == ZpIndX || o.mode == AbsIndX)
    ensures OperandMode(OperandText(o), d, t) == o
  {
    var w := ValueText(o.value);
    ValueTextShape(o.value);
    ParseValueText(o.value, d.binary);
    IndirectXRead(w, o.value, d, t);
    assert OperandText(o) == "(" + w + ",X)";
    assert o == Operand(if FitsZp(d, t, o.value) then ZpIndX else AbsIndX, o.value, false);
  }

  lemma IndirectXRead(w: string, v: Value, d: Dialect, t: seq<Symbol>)
    requires w != [] && ')' !in w && ',' !in w && |w| <= 77 && ParseValue(w, d.binary) == v
    ensures OperandMode("(" + w + ",X)", d, t) == Operand(if FitsZp(d, t, v) then ZpIndX else AbsIndX, v, false)
  {
    var u := "(" + w + ",X)";
    assert "" + u == u;
    StarPrefix(false, u, d, t);
    IndirectXText(w, d, t, false);
  }

  /** `(v)` and `*(v)` read back, zero page when forced or fitting. */
  lemma IndirectPlainRoundTrip(d: Dialect, t: seq<Symbol>, o: Operand)
    requires Readable(d, t, o) && (o.mode == ZpInd || o.mode == AbsInd)
    ensures OperandMode(OperandText(o), d, t) == o
  {
    var w := ValueText(o.value);
    ValueTextShape(o.value);
    ParseValueText(o.value, d.binary);
    var fits := FitsZp(d, t, o.value);
    assert OperandText(o) == (if o.forceZp then "*" else "") + ("(" + w + ")");
    StarPrefix(o.forceZp, "(" + w + ")", d, t);
    IndirectText(w, d, t, o.forceZp);
    assert o.mode == (if o.forceZp || fits then ZpInd else AbsInd);
  }

  /**
   * Every operand the parser can give reads back from its written form:
   * the parser and `OperandText` are inverse on the readable operands.
   */
  lemma OperandRoundTrip(d: Dialect, t: seq<Symbol>, o: Operand)
    requires Readable(d, t, o)
    ensures OperandMode(OperandText(o), d, t) == o
  {
    match o.mode
    case Imp =>
    case Acc =>
      StarPrefix(false, "A", d, t);
    case Imm =>
      var v := ValueText(o.value);
      ValueTextShape(o.value);
      ParseValueText(o.value, d.binary);
      StarPrefix(false, "#" + v, d, t);
      assert ("#" + v)[1..] == v;
    case Zp => DirectRoundTrip(d, t, o);
    case Abs => DirectRoundTrip(d, t, o);
    case ZpX => IndexedRoundTrip(d, t, o);
    case AbsX => IndexedRoundTrip(d, t, o);
    case ZpY => IndexedRoundTrip(d, t, o);
    case AbsY => IndexedRoundTrip(d, t, o);
    case ZpIndX => IndirectRoundTrip(d, t, o);
    case AbsIndX => IndirectRoundTrip(d, t, o);
    case ZpIndY => IndirectRoundTrip(d, t, o);
    case ZpInd => IndirectRoundTrip(d, t, o);
    case AbsInd => IndirectRoundTrip(d, t, o);
  }

  // ---------------------------------------------------------------------
  // Sizes and the bytes pass 2 emits
  // ---------------------------------------------------------------------

  /** The bytes pass 1 counts for an instruction in mode `m`: 1, 2 or 3. */
  function Size(m: Mode): (r: nat)
    ensures 1 <= r <= 3
    ensures r == 1 <==> m == Imp || m == Acc
  {
    if m == Imp || m == Acc then 1
    else if ShortMode(m) || m == PcRel then 2
    else 3
  }

  /** `resolve_value`'s `uint16_t` result. */
  function Word(t: seq<Symbol>, v: Value): (w: nat)
    ensures w < 0x10000
  {
    Resolve(t, v) % 0x10000
  }

  /** `(uint8_t)v` and `(uint8_t)(v >> 8)` of a 16-bit value. */
  function Lo(v: nat): byte
  {
    (v % 0x100) as byte
  }

  function Hi(v: nat): byte
  {
    ((v / 0x100) % 0x100) as byte
  }

  /**
   * The branch offset as pass 2 computes it for an operand byte at `at`:
   * `(int16_t)target - (int16_t)(at + 1)`, stored back into an `int16_t`.
   */
  function Offset(target: nat, at: nat): int
  {
    Signed16(Signed16(target) - Signed16((at + 1) % 0x10000))
  }

  /** A 16-bit value is its low byte plus 256 times its high byte. */
  lemma LoHi(v: nat)
    requires v < 0x10000
    ensures Lo(v) as int + 0x100 * Hi(v) as int == v
  {
  }

  /**
   * The operand bytes of an instruction whose opcode sits at `pc`, with the
   * value resolved in `t`, and whether ext-hass.c flags an error for them (a
   * forced zero-page value over $FF, a branch out of reach). As written, an
   * `AbsIndX` operand is not emitted at all; with `complete` it is written
   * as the two bytes of its address.
   */
  function OperandBytes(o: Operand, t: seq<Symbol>, pc: nat, complete: bool): (r: (seq<byte>, bool))
    ensures |r.0| <= 2
    ensures r.1 ==> (ShortMode(o.mode) && o.forceZp && Word(t, o.value) > 0xFF) || o.mode == PcRel
    ensures (LongMode(o.mode) || (complete && o.mode == AbsIndX)) ==>
      |r.0| == 2 && r.0[0] as int + 0x100 * r.0[1] as int == Word(t, o.value)
  {
    var v := Word(t, o.value);
    if ShortMode(o.mode) then ([Lo(v)], o.forceZp && ForcibleMode(o.mode) && v > 0xFF)
    else if LongMode(o.mode) || (complete && o.mode == AbsIndX) then LoHi(v); ([Lo(v), Hi(v)], false)
    else if o.mode == PcRel then
      var off := Offset(v, (pc + 1) % 0x10000);
      if -128 <= off <= 127 then ([(off % 0x100) as byte], false) else ([0], true)
    else ([], false)
  }

  /**
   * With the `AbsIndX` operand emitted, pass 2 writes as many bytes for an
   * instruction as pass 1 counted: the opcode and the operand add up to
   * `Size` in every mode the parser produces.
   */
  lemma SizeMatches(o: Operand, t: seq<Symbol>, pc: nat)
    requires o.mode != Stack
    ensures 1 + |OperandBytes(o, t, pc, true).0| == Size(o.mode)
    ensures o.mode != AbsIndX ==> OperandBytes(o, t, pc, false) == OperandBytes(o, t, pc, true)
  {
  }

  /**
   * As written, `JMP ($1234,X)` is counted as three bytes in pass 1 and
   * emitted as one in pass 2: the mode is in none of pass 2's groups. The
   * parser does produce the mode for that text, and `JMP` has an opcode
   * for it ($7C).
   */
  lemma AbsIndXDropped(d: Dialect, t: seq<Symbol>, v: Value, pc: nat)
    requires Canonical(v) && !FitsZp(d, t, v) && !AccText(ValueText(v))
    ensures var o := Operand(AbsIndX, v, false);
      OperandMode(OperandText(o), d, t) == o && Size(o.mode) == 3 && OperandBytes(o, t, pc, false).0 == []
  {
    var o := Operand(AbsIndX, v, false);
    assert Readable(d, t, o);
    OperandRoundTrip(d, t, o);
  }

  /** The 6502's reading of an offset byte. */
  function SignExtend(b: byte): int
  {
    if b >= 0x80 then b as int - 0x100 else b as int
  }

  /** The nested 16-bit casts of `Offset` come to the signed distance modulo $10000. */
  lemma OffsetIsDistance(target: nat, at: nat)
    ensures Offset(target, at) == Signed16(target - at - 1)
  {
    var a := Signed16(target);
    var b := Signed16((at + 1) % 0x10000);
    assert ((a - b) - (target - at - 1)) % 0x10000 == 0 by {
      assert (a - target) % 0x10000 == 0;
      assert (b - (at + 1)) % 0x10000 == 0;
    }
    SameSigned16(a - b, target - at - 1);
  }

  lemma SameSigned16(x: int, y: int)
    requires (x - y) % 0x10000 == 0
    ensures Signed16(x) == Signed16(y)
  {
    assert x % 0x10000 == y % 0x10000;
  }

  /** Where a branch whose next instruction is at `next` goes with offset `k`. */
  function Lands(next: int, k: int): int
  {
    (next + k) % 0x10000
  }

  /** A target is in reach exactly when its signed 16-bit distance is, and that distance gets there. */
  lemma Reach(target: nat, next: nat, off: int)
    requires target < 0x10000 && next < 0x10000 && off == Signed16(target - next)
    ensures (-128 <= off <= 127) <==> exists k :: -128 <= k <= 127 && Lands(next, k) == target
    ensures -128 <= off <= 127 ==> Lands(next, off) == target
  {
    if -128 <= off <= 127 {
      assert Lands(next, off) == target;
    } else {
      forall k | -128 <= k <= 127 && Lands(next, k) == target
        ensures false
      {
        SameSigned16(target - next, k);
      }
    }
  }

  /**
   * The branch byte pass 2 emits for an opcode at `pc` lands on the target
   * exactly when the target lies within -128..127 of the next instruction
   * (modulo $10000, as the 6502 counts); otherwise the byte is 0 and
   * ext-hass.c flags the line.
   */
  lemma BranchLands(o: Operand, t: seq<Symbol>, pc: nat)
    requires o.mode == PcRel && pc < 0x10000
    ensures var target := Word(t, o.value);
      var next := (pc + 2) % 0x10000;
      var (bytes, err) := OperandBytes(o, t, pc, false);
      |bytes| == 1
      && (!err <==> exists k :: -128 <= k <= 127 && Lands(next, k) == target)
      && (!err ==> Lands(next, SignExtend(bytes[0])) == target)
      && (err ==> bytes[0] == 0)
  {
    var target := Word(t, o.value);
    var at := (pc + 1) % 0x10000;
    var next := (pc + 2) % 0x10000;
    var off := Offset(target, at);
    OffsetNext(target, pc);
    Reach(target, next, off);
    if -128 <= off <= 127 {
      OffsetByte(off);
    }
  }

  /** The offset computed at the operand byte is the signed distance from the next instruction. */
  lemma OffsetNext(target: nat, pc: nat)
    requires pc < 0x10000
    ensures Offset(target, (pc + 1) % 0x10000) == Signed16(target - (pc + 2) % 0x10000)
  {
    var at := (pc + 1) % 0x10000;
    OffsetIsDistance(target, at);
    NextAfter(pc);
    SameSigned16(target - at - 1, target - (pc + 2) % 0x10000);
  }

  /** The operand byte and the next instruction follow the opcode, wrapping at $10000. */
  lemma NextAfter(pc: nat)
    requires pc < 0x10000
    ensures ((pc + 1) % 0x10000 + 1 - (pc + 2) % 0x10000) % 0x10000 == 0
  {
    if pc == 0xFFFF {
      assert (pc + 1) % 0x10000 == 0 && (pc + 2) % 0x10000 == 1;
    } else if pc == 0xFFFE {
      assert (pc + 1) % 0x10000 == 0xFFFF && (pc + 2) % 0x10000 == 0;
    } else {
      assert (pc + 1) % 0x10000 == pc + 1 && (pc + 2) % 0x10000 == pc + 2;
    }
  }

  /** An offset in reach survives `& 0xFF` and the 6502's sign extension. */
  lemma OffsetByte(off: int)
    requires -128 <= off <= 127
    ensures SignExtend((off % 0x100) as byte) == off
  {
    if off < 0 {
      assert off % 0x100 == off + 0x100;
    } else {
      assert off % 0x100 == off;
    }
  }
}
