/**
 * One source line as the two passes of ext-qasm.c, the in-RAM 65C02
 * assembler, handle it: its own opcode table, values and operand syntax,
 * what pass 1 makes of `pc` and the symbol table, and what pass 2 emits.
 * The line-level text handling (`trim_comment`, `ltrim_ptr`,
 * `split_token`, the label scan, `parse_number`, the symbol search) is
 * the same code as in ext-mass.c, and is taken from that model.
 */
module QasmLines {
  import opened Common
  import opened Opcodes
  import opened Mass
  import opened MassOperands
  import opened MassLines

  /** `MAXLINES`, `MAXLEN`, `MAXOUT` and `MAXSYM` of ext-qasm.c. */
  const MaxLines := 128
  const MaxLen := 80
  const MaxOut := 8192
  const MaxSym := 50

  /** `org` and `pc` before `pass1` runs. */
  const StartOrg := 0xC000

  /**
   * Which `.equ` the passes follow: as written, only a directive line
   * reaches it, and the name it defines is the line's first token; as
   * intended, a `NAME .equ value` line defines NAME, as ext-mass.c does.
   */
  const AsWritten := false
  const Intended := true

  // ---------------------------------------------------------------------
  // The opcode table
  // ---------------------------------------------------------------------

  const QOpsPart1: seq<Row<seq<int>>> := [
    Entry("LDA", [-1, -1, 0xA9, 0xA5, 0xB5, -1, 0xAD, 0xBD, 0xB9, 0xA1, 0xB1, 0xB2, -1, -1]),
    Entry("LDX", [-1, -1, 0xA2, 0xA6, -1, 0xB6, 0xAE, 0xBE, -1, -1, -1, -1, -1, -1]),
    Entry("LDY", [-1, -1, 0xA0, 0xA4, 0xB4, -1, 0xAC, 0xBC, -1, -1, -1, -1, -1, -1]),
    Entry("STA", [-1, -1, -1, 0x85, 0x95, -1, 0x8D, 0x9D, 0x99, 0x81, 0x91, 0x92, -1, -1]),
    Entry("STX", [-1, -1, -1, 0x86, -1, 0x96, 0x8E, -1, -1, -1, -1, -1, -1, -1]),
    Entry("STY", [-1, -1, -1, 0x84, 0x94, -1, 0x8C, -1, -1, -1, -1, -1, -1, -1]),
    Entry("STZ", [-1, -1, -1, 0x64, 0x74, -1, 0x9C, 0x9E, -1, -1, -1, -1, -1, -1]),
    Entry("ADC", [-1, -1, 0x69, 0x65, 0x75, -1, 0x6D, 0x7D, 0x79, 0x61, 0x71, 0x72, -1, -1])
  ]

  const QOpsPart2: seq<Row<seq<int>>> := [
    Entry("SBC", [-1, -1, 0xE9, 0xE5, 0xF5, -1, 0xED, 0xFD, 0xF9, 0xE1, 0xF1, 0xF2, -1, -1]),
    Entry("AND", [-1, -1, 0x29, 0x25, 0x35, -1, 0x2D, 0x3D, 0x39, 0x21, 0x31, 0x32, -1, -1]),
    Entry("ORA", [-1, -1, 0x09, 0x05, 0x15, -1, 0x0D, 0x1D, 0x19, 0x01, 0x11, 0x12, -1, -1]),
    Entry("EOR", [-1, -1, 0x49, 0x45, 0x55, -1, 0x4D, 0x5D, 0x59, 0x41, 0x51, 0x52, -1, -1]),
    Entry("CMP", [-1, -1, 0xC9, 0xC5, 0xD5, -1, 0xCD, 0xDD, 0xD9, 0xC1, 0xD1, 0xD2, -1, -1]),
    Entry("CPX", [-1, -1, 0xE0, 0xE4, -1, -1, 0xEC, -1, -1, -1, -1, -1, -1, -1]),
    Entry("CPY", [-1, -1, 0xC0, 0xC4, -1, -1, 0xCC, -1, -1, -1, -1, -1, -1, -1]),
    Entry("INC", [-1, -1, -1, 0xE6, 0xF6, -1, 0xEE, 0xFE, -1, -1, -1, -1, -1, -1])
  ]

  const QOpsPart3: seq<Row<seq<int>>> := [
    Entry("DEC", [-1, -1, -1, 0xC6, 0xD6, -1, 0xCE, 0xDE, -1, -1, -1, -1, -1, -1]),
    Entry("ASL", [0x0A, 0x0A, -1, 0x06, 0x16, -1, 0x0E, 0x1E, -1, -1, -1, -1, -1, -1]),
    Entry("LSR", [0x4A, 0x4A, -1, 0x46, 0x56, -1, 0x4E, 0x5E, -1, -1, -1, -1, -1, -1]),
    Entry("ROL", [0x2A, 0x2A, -1, 0x26, 0x36, -1, 0x2E, 0x3E, -1, -1, -1, -1, -1, -1]),
    Entry("ROR", [0x6A, 0x6A, -1, 0x66, 0x76, -1, 0x6E, 0x7E, -1, -1, -1, -1, -1, -1]),
    Entry("JMP", [-1, -1, -1, -1, -1, -1, 0x4C, -1, -1, -1, -1, -1, 0x6C, -1]),
    Entry("JSR", [-1, -1, -1, -1, -1, -1, 0x20, -1, -1, -1, -1, -1, -1, -1]),
    Entry("RTS", [0x60, -1, -1, -1, -1, -1, -1, -1, -1, -1, -1, -1, -1, -1])
  ]

  const QOpsPart4: seq<Row<seq<int>>> := [
    Entry("RTI", [0x40, -1, -1, -1, -1, -1, -1, -1, -1, -1, -1, -1, -1, -1]),
    Entry("PHA", [0x48, -1, -1, -1, -1, -1, -1, -1, -1, -1, -1, -1, -1, -1]),
    Entry("PLA", [0x68, -1, -1, -1, -1, -1, -1, -1, -1, -1, -1, -1, -1, -1]),
    Entry("PHP", [0x08, -1, -1, -1, -1, -1, -1, -1, -1, -1, -1, -1, -1, -1]),
    Entry("PLP", [0x28, -1, -1, -1, -1, -1, -1, -1, -1, -1, -1, -1, -1, -1]),
    Entry("TAX", [0xAA, -1, -1, -1, -1, -1, -1, -1, -1, -1, -1, -1, -1, -1]),
    Entry("TXA", [0x8A, -1, -1, -1, -1, -1, -1, -1, -1, -1, -1, -1, -1, -1]),
    Entry("TAY", [0xA8, -1, -1, -1, -1, -1, -1, -1, -1, -1, -1, -1, -1, -1])
  ]

  const QOpsPart5: seq<Row<seq<int>>> := [
    Entry("TYA", [0x98, -1, -1, -1, -1, -1, -1, -1, -1, -1, -1, -1, -1, -1]),
    Entry("TSX", [0xBA, -1, -1, -1, -1, -1, -1, -1, -1, -1, -1, -1, -1, -1]),
    Entry("TXS", [0x9A, -1, -1, -1, -1, -1, -1, -1, -1, -1, -1, -1, -1, -1]),
    Entry("CLC", [0x18, -1, -1, -1, -1, -1, -1, -1, -1, -1, -1, -1, -1, -1]),
    Entry("SEC", [0x38, -1, -1, -1, -1, -1, -1, -1, -1, -1, -1, -1, -1, -1]),
    Entry("CLI", [0x58, -1, -1, -1, -1, -1, -1, -1, -1, -1, -1, -1, -1, -1]),
    Entry("SEI", [0x78, -1, -1, -1, -1, -1, -1, -1, -1, -1, -1, -1, -1, -1]),
    Entry("CLD", [0xD8, -1, -1, -1, -1, -1, -1, -1, -1, -1, -1, -1, -1, -1])
  ]

  const QOpsPart6: seq<Row<seq<int>>> := [
    Entry("SED", [0xF8, -1, -1, -1, -1, -1, -1, -1, -1, -1, -1, -1, -1, -1]),
    Entry("CLV", [0xB8, -1, -1, -1, -1, -1, -1, -1, -1, -1, -1, -1, -1, -1]),
    Entry("NOP", [0xEA, -1, -1, -1, -1, -1, -1, -1, -1, -1, -1, -1, -1, -1]),
    Entry("BRK", [0x00, -1, -1, -1, -1, -1, -1, -1, -1, -1, -1, -1, -1, -1]),
    Entry("BRA", [-1, -1, -1, -1, -1, -1, -1, -1, -1, -1, -1, -1, -1, 0x80]),
    Entry("BCC", [-1, -1, -1, -1, -1, -1, -1, -1, -1, -1, -1, -1, -1, 0x90]),
    Entry("BCS", [-1, -1, -1, -1, -1, -1, -1, -1, -1, -1, -1, -1, -1, 0xB0]),
    Entry("BEQ", [-1, -1, -1, -1, -1, -1, -1, -1, -1, -1, -1, -1, -1, 0xF0])
  ]

  const QOpsPart7: seq<Row<seq<int>>> := [
    Entry("BMI", [-1, -1, -1, -1, -1, -1, -1, -1, -1, -1, -1, -1, -1, 0x30]),
    Entry("BNE", [-1, -1, -1, -1, -1, -1, -1, -1, -1, -1, -1, -1, -1, 0xD0]),
    Entry("BPL", [-1, -1, -1, -1, -1, -1, -1, -1, -1, -1, -1, -1, -1, 0x10]),
    Entry("BVC", [-1, -1, -1, -1, -1, -1, -1, -1, -1, -1, -1, -1, -1, 0x50]),
    Entry("BVS", [-1, -1, -1, -1, -1, -1, -1, -1, -1, -1, -1, -1, -1, 0x70])
  ]

  /**
   * `ops[]` of ext-qasm.c: 14 columns in the order of `Columns`, -1 (`XX`)
   * for a missing mode, and a null name at the end.
   */
  const QOps: seq<Row<seq<int>>> :=
    QOpsPart1 + QOpsPart2 + QOpsPart3 + QOpsPart4 + QOpsPart5 + QOpsPart6 + QOpsPart7 + [Sentinel]

  lemma QOpsPart1Ok()
    ensures forall j :: 0 <= j < |QOpsPart1| ==> QOpsPart1[j].Entry? && WellFormedRow(QOpsPart1[j])
  {
    QOpsPart1Tail();
    assert EntriesFrom(QOpsPart1, 0, WellFormedRow);
    EntriesFromMeans(QOpsPart1, 0, WellFormedRow);
  }

  lemma QOpsPart1Tail()
    ensures EntriesFrom(QOpsPart1, 4, WellFormedRow)
  {
  }

  lemma QOpsPart2Ok()
    ensures forall j :: 0 <= j < |QOpsPart2| ==> QOpsPart2[j].Entry? && WellFormedRow(QOpsPart2[j])
  {
    QOpsPart2Tail();
    assert EntriesFrom(QOpsPart2, 0, WellFormedRow);
    EntriesFromMeans(QOpsPart2, 0, WellFormedRow);
  }

  lemma QOpsPart2Tail()
    ensures EntriesFrom(QOpsPart2, 4, WellFormedRow)
  {
  }

  lemma QOpsPart3Ok()
    ensures forall j :: 0 <= j < |QOpsPart3| ==> QOpsPart3[j].Entry? && WellFormedRow(QOpsPart3[j])
  {
    QOpsPart3Tail();
    assert EntriesFrom(QOpsPart3, 0, WellFormedRow);
    EntriesFromMeans(QOpsPart3, 0, WellFormedRow);
  }

  lemma QOpsPart3Tail()
    ensures EntriesFrom(QOpsPart3, 4, WellFormedRow)
  {
  }

  lemma QOpsPart4Ok()
    ensures forall j :: 0 <= j < |QOpsPart4| ==> QOpsPart4[j].Entry? && WellFormedRow(QOpsPart4[j])
  {
    QOpsPart4Tail();
    assert EntriesFrom(QOpsPart4, 0, WellFormedRow);
    EntriesFromMeans(QOpsPart4, 0, WellFormedRow);
  }

  lemma QOpsPart4Tail()
    ensures EntriesFrom(QOpsPart4, 4, WellFormedRow)
  {
  }

  lemma QOpsPart5Ok()
    ensures forall j :: 0 <= j < |QOpsPart5| ==> QOpsPart5[j].Entry? && WellFormedRow(QOpsPart5[j])
  {
    QOpsPart5Tail();
    assert EntriesFrom(QOpsPart5, 0, WellFormedRow);
    EntriesFromMeans(QOpsPart5, 0, WellFormedRow);
  }

  lemma QOpsPart5Tail()
    ensures EntriesFrom(QOpsPart5, 4, WellFormedRow)
  {
  }

  lemma QOpsPart6Ok()
    ensures forall j :: 0 <= j < |QOpsPart6| ==> QOpsPart6[j].Entry? && WellFormedRow(QOpsPart6[j])
  {
    QOpsPart6Tail();
    assert EntriesFrom(QOpsPart6, 0, WellFormedRow);
    EntriesFromMeans(QOpsPart6, 0, WellFormedRow);
  }

  lemma QOpsPart6Tail()
    ensures EntriesFrom(QOpsPart6, 4, WellFormedRow)
  {
  }

  lemma QOpsPart7Ok()
    ensures forall j :: 0 <= j < |QOpsPart7| ==> QOpsPart7[j].Entry? && WellFormedRow(QOpsPart7[j])
  {
    QOpsPart7Tail();
    assert EntriesFrom(QOpsPart7, 0, WellFormedRow);
    EntriesFromMeans(QOpsPart7, 0, WellFormedRow);
  }

  lemma QOpsPart7Tail()
    ensures EntriesFrom(QOpsPart7, 3, WellFormedRow)
  {
  }

  /**
   * ext-qasm.c's table ends with its null name and has no other; every row
   * has 14 cells; exactly the branches have a relative opcode, and nothing
   * else; exactly the shifts and rotates have an accumulator opcode, equal
   * to their implied one.
   */
  lemma QOpsWellFormed()
    ensures Terminated(QOps) && forall j :: 0 <= j < |QOps| ==> WellFormedRow(QOps[j])
  {
    QOpsPart1Ok();
    QOpsPart2Ok();
    QOpsPart3Ok();
    QOpsPart4Ok();
    QOpsPart5Ok();
    QOpsPart6Ok();
    QOpsPart7Ok();
  }

  // ---------------------------------------------------------------------
  // Values and operands
  // ---------------------------------------------------------------------

  /**
   * `parse_value_out` of ext-qasm.c: "" stands for a null or empty token;
   * `<` or `>` picks the low or high byte; then a `$` or decimal number
   * (`parse_number`, no `%` form), or else a label of at most 47
   * characters. Unlike ext-mass.c there is no `*` to skip.
   */
  function ParseValue(tok: string): (r: Value)
    ensures r.Label? ==> |r.name| <= NameLimit
    ensures r.Num? ==> r.num < 0x10000
    ensures tok == [] ==> r == NoValue
  {
    if tok == [] then NoValue
    else
      var op := if tok[0] == '<' then Low else if tok[0] == '>' then High else Normal;
      var u := if op == Normal then tok else tok[1..];
      match ParseNumber(u, false)
      case Some(v) => Num(v, op)
      case None => Label(Truncate(u, NameLimit), op)
  }

  /** On a token that does not start with `*`, the two assemblers read the same value. */
  lemma ParseValueAgrees(tok: string)
    requires tok == [] || tok[0] != '*'
    ensures ParseValue(tok) == Mass.ParseValue(tok, false)
  {
  }

  /** `parse_value_out` reads back every value `ValueText` writes. */
  lemma ParseValueText(v: Value)
    requires Canonical(v)
    ensures ParseValue(ValueText(v)) == v
  {
    ValueTextShape(v);
    ParseValueAgrees(ValueText(v));
    Mass.ParseValueText(v, false);
  }

  /** The zero-page test of ext-qasm.c: a plain number of at most $FF. */
  predicate Short(v: Value)
  {
    v.Num? && v.op == Normal && v.num <= 0xFF
  }

  /**
   * `parse_operand_mode` of ext-qasm.c. An empty operand is implied;
   * blanks are skipped; `A` is the accumulator, `#` immediate, `(` one of
   * the indirect forms; otherwise the first comma picks an indexed form,
   * and without one the operand is direct. A short value gives the
   * zero-page form.
   */
  function OperandMode(s: string): (r: Operand)
    ensures r.mode != PcRel && r.mode != Stack && r.mode != AbsIndX && !r.forceZp
  {
    if s == [] then Operand(Imp, NoValue, false) else Dispatch(LTrim(s))
  }

  /** The operand once its leading blanks are gone. */
  function Dispatch(u: string): (r: Operand)
    ensures r.mode != PcRel && r.mode != Stack && r.mode != AbsIndX && !r.forceZp
  {
    if AccText(u) then Operand(Acc, NoValue, false)
    else if u != [] && u[0] == '#' then Operand(Imm, ParseValue(u[1..]), false)
    else if u != [] && u[0] == '(' then Indirect(u)
    else if Pos(u, ',') < |u| then Indexed(u, Pos(u, ','))
    else Direct(u)
  }

  /**
   * The `(` branch: no `)` or nothing before it is implied; `(v),Y` is
   * indirect-indexed; `(v,X)` indexed-indirect whatever `v`; `(v)`
   * zero-page or absolute indirect as `v` is short. At most 79 characters
   * are kept inside; a `(v),X` is read as `(v)`.
   */
  function Indirect(u: string): (r: Operand)
    requires u != [] && u[0] == '('
    ensures r.mode in {Imp, ZpIndY, ZpIndX, ZpInd, AbsInd} && !r.forceZp
  {
    var j := Pos(u, ')');
    if j == |u| || j <= 1 then Operand(Imp, NoValue, false)
    else
      var len := Min(j - 1, 79);
      var inner := u[1..1 + len];
      if At(u, j + 1) == ',' && (At(u, j + 2) == 'Y' || At(u, j + 2) == 'y') then
        Operand(ZpIndY, ParseValue(inner), false)
      else if len > 2 && inner[len - 2] == ',' && (inner[len - 1] == 'X' || inner[len - 1] == 'x') then
        Operand(ZpIndX, ParseValue(inner[..len - 2]), false)
      else
        var v := ParseValue(inner);
        Operand(if Short(v) then ZpInd else AbsInd, v, false)
  }

  /** The comma branch: the value before the comma (at most 79 characters), then `X`, `Y` or neither. */
  function Indexed(u: string, k: nat): (r: Operand)
    requires k < |u|
    ensures r.mode in {ZpX, AbsX, ZpY, AbsY, Abs} && !r.forceZp
  {
    var v := ParseValue(u[..Min(k, 79)]);
    var c := At(u, k + 1);
    if c == 'X' || c == 'x' then Operand(if Short(v) then ZpX else AbsX, v, false)
    else if c == 'Y' || c == 'y' then Operand(if Short(v) then ZpY else AbsY, v, false)
    else Operand(Abs, v, false)
  }

  /** No comma: zero page for a short value, absolute otherwise. */
  function Direct(u: string): (r: Operand)
    ensures r.mode == Zp || r.mode == Abs
    ensures r.mode == Zp <==> Short(r.value)
  {
    var v := ParseValue(u);
    Operand(if Short(v) then Zp else Abs, v, false)
  }

  /**
   * The operand of an instruction: a branch mnemonic reads its whole
   * operand as the target (relative mode); any other goes through
   * `parse_operand_mode`.
   */
  function InstrOperand(mn: string, op: string): (r: Operand)
    ensures r.mode != Stack && r.mode != AbsIndX && !r.forceZp
    ensures mn in Branches <==> r.mode == PcRel
  {
    if mn in Branches then Operand(PcRel, ParseValue(op), false) else OperandMode(op)
  }

  /**
   * The operands ext-qasm.c's parser can give: no relative, stack or
   * absolute indexed-indirect mode and no `*`; no value for implied and
   * accumulator; a zero-page direct, indexed or indirect mode exactly for
   * a short value; and a value that is not itself read as the accumulator.
   */
  predicate Readable(o: Operand)
  {
    o.mode != PcRel && o.mode != Stack && o.mode != AbsIndX && !o.forceZp
    && (o.mode == Imp || o.mode == Acc ==> o.value == NoValue)
    && (o.mode != Imp && o.mode != Acc ==> Canonical(o.value) && !AccText(ValueText(o.value)))
    && (ForcibleMode(o.mode) ==> Short(o.value))
    && (LongMode(o.mode) ==> !Short(o.value))
  }

  /** Text that starts with neither a blank nor nothing goes straight to the dispatch. */
  lemma Trimmed(u: string)
    requires u != [] && !IsBlank(u[0])
    ensures OperandMode(u) == Dispatch(u)
  {
    LTrimKeeps(u);
  }

  /**
   * `(v)` followed by anything but `,Y`: zero page or absolute indirect as
   * `v` is short; what follows the parenthesis is not looked at.
   */
  lemma IndirectPlain(w: string, tail: string)
    requires w != [] && ')' !in w && ',' !in w && |w| <= 79
    requires !(At(tail, 0) == ',' && (At(tail, 1) == 'Y' || At(tail, 1) == 'y'))
    ensures var v := ParseValue(w); Dispatch("(" + w + ")" + tail) == Operand(if Short(v) then ZpInd else AbsInd, v, false)
  {
    var u := "(" + w + ")" + tail;
    IndirectShape(w, tail);
    assert u[0] == '(';
    assert |w| > 2 ==> w[|w| - 2] != ',';
  }

  /** `(v),Y`: indirect-indexed. */
  lemma IndirectY(w: string)
    requires w != [] && ')' !in w && |w| <= 79
    ensures Dispatch("(" + w + "),Y") == Operand(ZpIndY, ParseValue(w), false)
  {
    var u := "(" + w + ")" + ",Y";
    assert "(" + w + "),Y" == u;
    IndirectShape(w, ",Y");
    assert At(u, |w| + 2) == ',' && At(u, |w| + 3) == 'Y';
    assert Dispatch(u) == Indirect(u) by {
      assert u[0] == '(';
    }
  }

  /** `(v,X)`: indexed-indirect. */
  lemma IndirectX(w: string)
    requires w != [] && ')' !in w && ',' !in w && |w| <= 77
    ensures Dispatch("(" + w + ",X)") == Operand(ZpIndX, ParseValue(w), false)
  {
    var body := w + ",X";
    var u := "(" + body + ")" + "";
    assert "(" + w + ",X)" == u;
    XBody(w);
    IndirectShape(body, "");
    assert Dispatch(u) == Indirect(u) by {
      assert u[0] == '(';
    }
  }

  /** The text inside `(v,X)`: no `)`, and `,X` after the value. */
  lemma XBody(w: string)
    requires w != [] && ')' !in w && |w| <= 77
    ensures var body := w + ",X";
      ')' !in body && |body| <= 79 && body[|body| - 2] == ',' && body[|body| - 1] == 'X' && body[..|body| - 2] == w
  {
    var body := w + ",X";
    assert forall i :: 0 <= i < |body| ==> body[i] == ',' || body[i] == 'X' || body[i] == w[i];
  }

  /** A value, a comma and an index register: an indexed operand. */
  lemma IndexedForm(w: string, r: char)
    requires w != [] && !AccText(w) && w[0] != '#' && w[0] != '('
    requires ',' !in w && |w| <= 79 && (r == 'X' || r == 'Y')
    ensures var v := ParseValue(w);
      Dispatch(w + [',', r])
        == Operand(if r == 'X' then (if Short(v) then ZpX else AbsX) else (if Short(v) then ZpY else AbsY), v, false)
  {
    var u := w + [',', r];
    assert u[0] == w[0];
    NotAcc(w, [',', r]);
    assert u == w + [','] + [r];
    PosAfter(w, ',', [r]);
    assert u[..Min(|w|, 79)] == w && At(u, |w| + 1) == r;
  }

  /** A value on its own: a direct operand. */
  lemma DirectForm(w: string)
    requires w != [] && !AccText(w) && w[0] != '#' && w[0] != '(' && ',' !in w
    ensures Dispatch(w) == Direct(w)
  {
    PosNone(w, ',');
  }

  /** The facts about a written value the operand lemmas need. */
  lemma WrittenValue(o: Operand)
    requires Readable(o) && o.mode != Imp && o.mode != Acc
    ensures var w := ValueText(o.value);
      w != [] && !IsBlank(w[0]) && !AccText(w) && w[0] != '#' && w[0] != '(' && w[0] != '*'
      && ',' !in w && ')' !in w && |w| <= 49 && ParseValue(w) == o.value
  {
    ValueTextShape(o.value);
    ParseValueText(o.value);
  }

  /** Direct operands read back as written. */
  lemma DirectRoundTrip(o: Operand)
    requires Readable(o) && (o.mode == Zp || o.mode == Abs)
    ensures OperandMode(OperandText(o)) == o
  {
    var w := ValueText(o.value);
    WrittenValue(o);
    assert OperandText(o) == w;
    Trimmed(w);
    DirectForm(w);
  }

  /** Indexed operands read back as written. */
  lemma IndexedRoundTrip(o: Operand)
    requires Readable(o) && o.mode in {ZpX, AbsX, ZpY, AbsY}
    ensures OperandMode(OperandText(o)) == o
  {
    WrittenValue(o);
    IndexedBack(o, ValueText(o.value));
  }

  /** An unforced indexed operand is written as its value, a comma and the register. */
  lemma IndexedWritten(o: Operand)
    requires o.mode in {ZpX, AbsX, ZpY, AbsY} && !o.forceZp
    ensures OperandText(o) == ValueText(o.value) + [',', if o.mode == ZpX || o.mode == AbsX then 'X' else 'Y']
  {
    var v := ValueText(o.value);
    assert "" + v + ",X" == v + [',', 'X'];
    assert "" + v + ",Y" == v + [',', 'Y'];
  }

  lemma IndexedBack(o: Operand, w: string)
    requires o.mode in {ZpX, AbsX, ZpY, AbsY} && !o.forceZp && w == ValueText(o.value)
    requires o.mode == ZpX || o.mode == ZpY <==> Short(o.value)
    requires w != [] && !IsBlank(w[0]) && !AccText(w) && w[0] != '#' && w[0] != '('
    requires ',' !in w && |w| <= 49 && ParseValue(w) == o.value
    ensures OperandMode(OperandText(o)) == o
  {
    var r := if o.mode == ZpX || o.mode == AbsX then 'X' else 'Y';
    var t := w + [',', r];
    assert OperandText(o) == t by { IndexedWritten(o); }
    assert OperandMode(t) == Dispatch(t) by {
      assert t[0] == w[0];
      Trimmed(t);
    }
    IndexedForm(w, r);
  }

  /** The parenthesised operands read back as written. */
  lemma IndirectRoundTrip(o: Operand)
    requires Readable(o) && o.mode in {ZpIndX, ZpIndY, ZpInd, AbsInd}
    ensures OperandMode(OperandText(o)) == o
  {
    var w := ValueText(o.value);
    WrittenValue(o);
    if o.mode == ZpIndX {
      IndirectXRoundTrip(o, w);
    } else if o.mode == ZpIndY {
      IndirectYRoundTrip(o, w);
    } else {
      IndirectPlainRoundTrip(o, w);
    }
  }

  lemma IndirectXRoundTrip(o: Operand, w: string)
    requires o.mode == ZpIndX && !o.forceZp && w == ValueText(o.value)
    requires w != [] && ')' !in w && ',' !in w && |w| <= 49 && ParseValue(w) == o.value
    ensures OperandMode(OperandText(o)) == o
  {
    var t := "(" + w + ",X)";
    assert OperandText(o) == t;
    assert OperandMode(t) == Dispatch(t) by {
      Trimmed(t);
    }
    IndirectX(w);
  }

  lemma IndirectYRoundTrip(o: Operand, w: string)
    requires o.mode == ZpIndY && !o.forceZp && w == ValueText(o.value)
    requires w != [] && ')' !in w && |w| <= 49 && ParseValue(w) == o.value
    ensures OperandMode(OperandText(o)) == o
  {
    var t := "(" + w + "),Y";
    assert OperandText(o) == t;
    assert OperandMode(t) == Dispatch(t) by {
      Trimmed(t);
    }
    IndirectY(w);
  }

  lemma IndirectPlainRoundTrip(o: Operand, w: string)
    requires (o.mode == ZpInd || o.mode == AbsInd) && !o.forceZp && w == ValueText(o.value)
    requires o.mode == ZpInd <==> Short(o.value)
    requires w != [] && ')' !in w && ',' !in w && |w| <= 49 && ParseValue(w) == o.value
    ensures OperandMode(OperandText(o)) == o
  {
    var t := "(" + w + ")" + "";
    assert OperandText(o) == t;
    assert OperandMode(t) == Dispatch(t) by {
      Trimmed(t);
    }
    IndirectPlain(w, "");
  }

  /**
   * Every operand ext-qasm.c's parser can give reads back from its
   * written form: `parse_operand_mode` and `OperandText` are inverse on
   * the readable operands.
   */
  lemma OperandRoundTrip(o: Operand)
    requires Readable(o)
    ensures OperandMode(OperandText(o)) == o
  {
    if o.mode == Imp {
    } else if o.mode == Acc {
      Trimmed("A");
    } else if o.mode == Imm {
      var w := ValueText(o.value);
      WrittenValue(o);
      var u := "#" + w;
      Trimmed(u);
      assert u[1..] == w;
    } else if o.mode in {ZpIndX, ZpIndY, ZpInd, AbsInd} {
      IndirectRoundTrip(o);
    } else if o.mode == Zp || o.mode == Abs {
      DirectRoundTrip(o);
    } else {
      IndexedRoundTrip(o);
    }
  }

  /**
   * As written, `(v),X` is read as `(v)`: the `,X` after the parenthesis
   * is not looked at, and the operand is indirect, not indexed.
   */
  lemma IndexAfterParenIgnored(v: Value)
    requires Canonical(v) && !AccText(ValueText(v))
    ensures OperandMode("(" + ValueText(v) + "),X") == Operand(if Short(v) then ZpInd else AbsInd, v, false)
  {
    var w := ValueText(v);
    WrittenValue(Operand(Imm, v, false));
    IndirectTailIgnored(w);
  }

  lemma IndirectTailIgnored(w: string)
    requires w != [] && ')' !in w && ',' !in w && |w| <= 79
    ensures var v := ParseValue(w); OperandMode("(" + w + "),X") == Operand(if Short(v) then ZpInd else AbsInd, v, false)
  {
    assert "(" + w + "),X" == "(" + w + ")" + ",X";
    assert ("(" + w + ")" + ",X")[0] == '(';
    Trimmed("(" + w + ")" + ",X");
    IndirectPlain(w, ",X");
  }

  /**
   * The opcode the table gives a mnemonic (already upper-cased and cut to
   * 7 characters) with its operand: `None` for an unknown mnemonic or a
   * mode whose cell is negative; the byte `(uint8_t)` makes of the cell
   * otherwise.
   */
  function OpcodeOf(ops: seq<Row<seq<int>>>, mn: string, op: string): (r: Option<byte>)
    ensures r.Some? <==> Find(ops, mn).Some? && Cell(ops[Find(ops, mn).value].body, InstrOperand(mn, op).mode) >= 0
  {
    match Find(ops, mn)
    case None => None
    case Some(j) =>
      var c := Cell(ops[j].body, InstrOperand(mn, op).mode);
      if c < 0 then None else Some((c % 0x100) as byte)
  }

  /**
   * A branch mnemonic the table holds always assembles, whatever its
   * operand, to the byte of its relative column, which is filled.
   */
  lemma BranchOpcode(mn: string, op: string)
    requires mn in Branches && Find(QOps, mn).Some?
    ensures var body := QOps[Find(QOps, mn).value].body;
      |body| == 14 && body[13] >= 0 && OpcodeOf(QOps, mn, op) == Some((body[13] % 0x100) as byte)
  {
    var j := Find(QOps, mn).value;
    QOpsWellFormed();
    assert WellFormedRow(QOps[j]);
    assert Columns[13] == PcRel;
  }

  // ---------------------------------------------------------------------
  // The symbol table
  // ---------------------------------------------------------------------

  /**
   * `add_or_update_sym` of ext-qasm.c: the exit at `MAXSYM` entries (even
   * for a name already there), otherwise the update or append ext-mass.c
   * also does, the name cut to 47 characters.
   */
  function AddSym(t: seq<Symbol>, name: string, value: nat, defined: bool): (r: Option<seq<Symbol>>)
    ensures r.None? <==> |t| >= MaxSym
    ensures r.Some? ==> r == Mass.AddOrUpdate(t, name, value, defined)
  {
    if |t| >= MaxSym then None else Mass.AddOrUpdate(t, name, value, defined)
  }

  /**
   * A definition in a table with room: the name takes the value and every
   * other name keeps its own; the names stay unique.
   */
  lemma AddSymDefines(t: seq<Symbol>, name: string, value: nat, other: string)
    requires |t| < MaxSym && |name| <= NameLimit && other != name && Unique(t)
    ensures AddSym(t, name, value, true).Some?
    ensures var u := AddSym(t, name, value, true).value;
      Defined(u, name) == Some(value) && Defined(u, other) == Defined(t, other) && Unique(u)
  {
    AddDefines(t, name, value, other);
    AddKeepsUnique(t, name, value, true);
  }

  // ---------------------------------------------------------------------
  // Pass 1
  // ---------------------------------------------------------------------

  /** What `pass1` keeps: `org` ($FFFF until a line fixes it), the 16-bit `pc`, and the symbol table. */
  datatype State = State(org: nat, pc: nat, syms: seq<Symbol>)

  /** `if(org==0xFFFF) org=pc;` */
  function FixOrg(s: State): (r: State)
    ensures r.pc == s.pc && r.syms == s.syms
    ensures s.org != Unset ==> r == s
    ensures s.org == Unset ==> r.org == s.pc
  {
    if s.org == Unset then s.(org := s.pc) else s
  }

  /** `n` bytes further on, wrapping as the `uint16_t pc` does. */
  function Advance(s: State, n: nat): (r: State)
    ensures r.pc == Wrap16(s.pc + n) && r.org == s.org && r.syms == s.syms
  {
    s.(pc := Wrap16(s.pc + n))
  }

  /**
   * A constant definition: a number, or a label already defined, is stored
   * with its operator applied; an unknown label leaves the table as it is.
   * `None` is the exit at a full symbol table.
   */
  function Define(s: State, name: string, v: Value): (r: Option<State>)
    ensures r.Some? ==> r.value.pc == s.pc && r.value.org == s.org
    ensures Known(s.syms, v).None? ==> r == Some(s)
    ensures Known(s.syms, v).Some? ==> (r.None? <==> |s.syms| >= MaxSym)
  {
    match Known(s.syms, v)
    case None => Some(s)
    case Some(x) =>
      match AddSym(s.syms, name, x, true)
      case None => None
      case Some(t) => Some(s.(syms := t))
  }

  /** The state after a line's label: `org` fixed and the label defined at `pc`. */
  function Labelled(s: State, line: string): (r: Option<State>)
    ensures r.Some? ==> r.value.pc == s.pc
    ensures r.Some? && s.org != Unset ==> r.value.org == s.org
    ensures r.Some? && s.pc < 0x10000 && s.org < 0x10000 ==> r.value.org < 0x10000
    ensures Label1(Text(line)).None? ==> r == Some(s)
  {
    match Label1(Text(line))
    case None => Some(s)
    case Some((name, _)) =>
      var s1 := FixOrg(s);
      match AddSym(s1.syms, name, s.pc, true)
      case None => None
      case Some(t) => Some(s1.(syms := t))
  }

  /**
   * Pass 1 on a directive (`b` starts with `.`): `.org` with a number
   * moves `pc` there, its operator ignored, while a label is refused and
   * leaves everything as it was; `.byte` and `.word` count 1 and 2 bytes
   * per item; `.equ` defines the first token of the whole line with the
   * value after the directive; any other directive is ignored.
   */
  function Directive1(s: State, line: string, b: string): (r: Option<State>)
    ensures r.Some? && s.org != Unset ==> r.value.org == s.org
    ensures r.Some? && s.pc < 0x10000 ==> r.value.pc < 0x10000
    ensures r.Some? && s.pc < 0x10000 && s.org < 0x10000 ==> r.value.org < 0x10000
  {
    match SplitToken(b)
    case None => Some(s)
    case Some((w, rest)) =>
      var dir := Upper(w);
      if dir == ".ORG" then
        var v := ParseValue(rest);
        if v.Label? then Some(s) else Some(FixOrg(s.(pc := v.num)))
      else if dir == ".BYTE" then Some(Advance(FixOrg(s), |Items(rest)|))
      else if dir == ".WORD" then Some(Advance(FixOrg(s), 2 * |Items(rest)|))
      else if dir == ".EQU" then
        match SplitToken(Text(line))
        case None => Some(s)
        case Some((t1, t2)) => if t2 != [] then Define(s, t1, ParseValue(rest)) else Some(s)
      else Some(s)
  }

  /** The mnemonic `find_op` is given: the first token cut to 7 characters, upper-cased. */
  function Mnemonic(w: string): string
  {
    Upper(w[..Min(7, |w|)])
  }

  /**
   * Pass 1 on an instruction: an unknown mnemonic or a mode with no
   * opcode leaves everything as it was; otherwise `pc` moves on by the
   * size of the mode (1, 2 or 3 bytes).
   */
  function Instr1(ops: seq<Row<seq<int>>>, s: State, b: string): (r: Option<State>)
    ensures r.Some?
    ensures s.org != Unset ==> r.value.org == s.org
    ensures s.pc < 0x10000 ==> r.value.pc < 0x10000
    ensures s.pc < 0x10000 && s.org < 0x10000 ==> r.value.org < 0x10000
  {
    match SplitToken(b)
    case None => Some(s)
    case Some((w, op)) =>
      var mn := Mnemonic(w);
      if OpcodeOf(ops, mn, op).None? then Some(s)
      else Some(Advance(FixOrg(s), Size(InstrOperand(mn, op).mode)))
  }

  /**
   * One line of `pass1`; `None` is the exit at a full symbol table. With
   * `named` (the intended reading, see `NamedEquIgnored`) a line
   * `NAME .equ value` defines NAME; as written it is read as an
   * instruction with the unknown mnemonic NAME.
   */
  function Pass1Line(ops: seq<Row<seq<int>>>, s: State, line: string, named: bool): (r: Option<State>)
    ensures r.Some? && s.org != Unset ==> r.value.org == s.org
    ensures r.Some? && s.pc < 0x10000 ==> r.value.pc < 0x10000
    ensures r.Some? && s.pc < 0x10000 && s.org < 0x10000 ==> r.value.org < 0x10000
  {
    match Labelled(s, line)
    case None => None
    case Some(s1) =>
      var b := Body1(line);
      if b == [] then Some(s1)
      else if b[0] == '.' then Directive1(s1, line, b)
      else if named && NamedEqu(b).Some? then Define(s1, NamedEqu(b).value.0, ParseValue(NamedEqu(b).value.1))
      else Instr1(ops, s1, b)
  }

  // ---------------------------------------------------------------------
  // Pass 2
  // ---------------------------------------------------------------------

  /** What pass 2 does with one line: the address it emits from (a `.org` moves it) and the bytes. */
  datatype Placed = Placed(start: nat, bytes: seq<byte>)

  /** `pc` after the line. */
  function EndPc(e: Placed): nat
  {
    Wrap16(e.start + |e.bytes|)
  }

  /** The `.byte` items, each resolved and cut to its low byte. */
  function ByteValues(t: seq<Symbol>, items: seq<string>): (r: seq<byte>)
    ensures |r| == |items|
    ensures forall i :: 0 <= i < |items| ==> r[i] == Lo(Word(t, ParseValue(items[i])))
  {
    seq(|items|, i requires 0 <= i < |items| => Lo(Word(t, ParseValue(items[i]))))
  }

  /** The resolved `.word` items. */
  function WordItems(t: seq<Symbol>, items: seq<string>): (r: seq<nat>)
    ensures |r| == |items|
    ensures forall i :: 0 <= i < |items| ==> r[i] == Word(t, ParseValue(items[i]))
  {
    seq(|items|, i requires 0 <= i < |items| => Word(t, ParseValue(items[i])))
  }

  /**
   * Pass 2 on a directive: `.org` moves `pc` to the resolved value (its
   * operator applied, a label resolved in the final table); `.byte` emits
   * one byte per item and `.word` two, low byte first; the rest emit
   * nothing.
   */
  function Directive2(t: seq<Symbol>, pc: nat, b: string): (r: Placed)
    ensures r.start == pc || r.start < 0x10000
  {
    match SplitToken(b)
    case None => Placed(pc, [])
    case Some((w, rest)) =>
      var dir := Upper(w);
      if dir == ".ORG" then Placed(Word(t, ParseValue(rest)), [])
      else if dir == ".BYTE" then Placed(pc, ByteValues(t, Items(rest)))
      else if dir == ".WORD" then Placed(pc, LowFirst(WordItems(t, Items(rest))))
      else Placed(pc, [])
  }

  /**
   * Pass 2 on an instruction: the opcode, then one operand byte for the
   * one-byte modes, two (low first) for the absolute ones, and the branch
   * offset for a branch (0 when out of reach); nothing for an unknown
   * mnemonic or a missing opcode.
   */
  function Instr2(ops: seq<Row<seq<int>>>, t: seq<Symbol>, pc: nat, b: string): (r: Placed)
    ensures r.start == pc
  {
    match SplitToken(b)
    case None => Placed(pc, [])
    case Some((w, op)) =>
      var mn := Mnemonic(w);
      match OpcodeOf(ops, mn, op)
      case None => Placed(pc, [])
      case Some(c) => Placed(pc, [c] + OperandBytes(InstrOperand(mn, op), t, pc, false).0)
  }

  /** One line of `pass2`, values resolved in the final table `t`. */
  function Pass2Line(ops: seq<Row<seq<int>>>, t: seq<Symbol>, pc: nat, line: string, named: bool): (r: Placed)
    ensures r.start == pc || r.start < 0x10000
  {
    var b := Body2(line);
    if b == [] then Placed(pc, [])
    else if b[0] == '.' then Directive2(t, pc, b)
    else if named && NamedEqu(b).Some? then Placed(pc, [])
    else Instr2(ops, t, pc, b)
  }

  // ---------------------------------------------------------------------
  // The two passes agree
  // ---------------------------------------------------------------------

  /** A `.org` on the line, if any, names a plain number. */
  predicate PlainOrg(line: string)
  {
    var b := Body1(line);
    b != [] && b[0] == '.' && SplitToken(b).Some? && Upper(SplitToken(b).value.0) == ".ORG" ==>
      var v := ParseValue(SplitToken(b).value.1);
      v.Num? && v.op == Normal
  }

  /** On a directive, the two passes agree on where `pc` ends. */
  lemma DirectiveSizes(s: State, line: string, b: string, t: seq<Symbol>)
    requires s.pc < 0x10000 && b != [] && b[0] == '.' && Directive1(s, line, b).Some?
    requires SplitToken(b).Some? && Upper(SplitToken(b).value.0) == ".ORG" ==>
      var v := ParseValue(SplitToken(b).value.1); v.Num? && v.op == Normal
    ensures EndPc(Directive2(t, s.pc, b)) == Directive1(s, line, b).value.pc
  {
    var (w, rest) := SplitToken(b).value;
    var dir := Upper(w);
    if dir == ".ORG" {
      PlainWord(t, ParseValue(rest));
    }
  }

  /** On an instruction, pass 2 emits as many bytes as pass 1 counts. */
  lemma InstrSizes(ops: seq<Row<seq<int>>>, s: State, b: string, t: seq<Symbol>)
    requires s.pc < 0x10000 && b != []
    ensures EndPc(Instr2(ops, t, s.pc, b)) == Instr1(ops, s, b).value.pc
  {
    match SplitToken(b)
    case None =>
    case Some((w, op)) =>
      var mn := Mnemonic(w);
      var o := InstrOperand(mn, op);
      match OpcodeOf(ops, mn, op)
      case None =>
      case Some(c) =>
        assert Instr2(ops, t, s.pc, b) == Placed(s.pc, [c] + OperandBytes(o, t, s.pc, false).0);
        assert Instr1(ops, s, b) == Some(Advance(FixOrg(s), Size(o.mode)));
        SizeMatches(o, t, s.pc);
  }

  /**
   * With labels that fit and a plain `.org`, pass 2 ends a line where
   * pass 1 does: started from the same `pc`, whatever the tables.
   */
  lemma LineSizes(ops: seq<Row<seq<int>>>, s: State, line: string, t: seq<Symbol>, named: bool)
    requires s.pc < 0x10000 && Pass1Line(ops, s, line, named).Some? && LabelFits(line) && PlainOrg(line)
    ensures EndPc(Pass2Line(ops, t, s.pc, line, named)) == Pass1Line(ops, s, line, named).value.pc
  {
    BodiesAgree(line);
    var s1 := Labelled(s, line).value;
    var b := Body1(line);
    if b == [] {
    } else if b[0] == '.' {
      DirectiveSizes(s1, line, b, t);
    } else if named && NamedEqu(b).Some? {
    } else {
      InstrSizes(ops, s1, b, t);
    }
  }

  /** `.org` and a token: what both passes split the directive into. */
  lemma OrgSplit(w: string)
    requires w != [] && !IsBlank(w[0])
    ensures SplitToken(".ORG " + w) == Some((".ORG", w)) && Upper(".ORG") == ".ORG"
  {
    assert ".ORG" == ['.', 'O', 'R', 'G'];
    assert ".ORG " + w == ".ORG" + " " + w;
    SplitTokenJoin(".ORG", w);
  }

  /**
   * `.org` with an operator: pass 1 moves `pc` to the number as written,
   * pass 2 to the byte the operator picks, so the two passes part ways
   * (`.org >$1234`: pass 1 at $1234, pass 2 at $12).
   */
  lemma OrgOperatorSplits(s: State, w: string, n: nat, t: seq<Symbol>)
    requires w != [] && !IsBlank(w[0]) && ParseValue(w) == Num(n, High)
    ensures Directive1(s, ".ORG " + w, ".ORG " + w) == Some(FixOrg(s.(pc := n)))
    ensures Directive2(t, s.pc, ".ORG " + w) == Placed(n / 0x100, [])
  {
    assert Directive1(s, ".ORG " + w, ".ORG " + w) == Some(FixOrg(s.(pc := n))) by {
      OrgSplit(w);
    }
    assert Directive2(t, s.pc, ".ORG " + w) == Placed(n / 0x100, []) by {
      OrgSplit(w);
      WordHigh(t, n);
    }
  }

  /** A number under `>` resolves to its high byte. */
  lemma WordHigh(t: seq<Symbol>, n: nat)
    requires n < 0x10000
    ensures Word(t, Num(n, High)) == n / 0x100
  {
    HighByte(n);
    var h := n / 0x100;
    assert h < 0x10000;
    assert h % 0x10000 == h;
  }

  lemma HighByte(n: nat)
    requires n < 0x10000
    ensures ApplyVop(n, High) == n / 0x100 < 0x100
  {
  }

  /**
   * `.org` with a label: pass 1 leaves `pc` where it was, pass 2 moves it
   * to the label's value in the final table.
   */
  lemma OrgLabelSplits(s: State, w: string, name: string, t: seq<Symbol>)
    requires w != [] && !IsBlank(w[0]) && ParseValue(w) == Label(name, Normal)
    ensures Directive1(s, ".ORG " + w, ".ORG " + w) == Some(s)
    ensures Directive2(t, s.pc, ".ORG " + w) == Placed(Word(t, Label(name, Normal)), [])
  {
    OrgSplit(w);
  }

  // ---------------------------------------------------------------------
  // `NAME .equ value`
  // ---------------------------------------------------------------------

  /**
   * A name that is not a mnemonic of the table (so that the line reaches
   * no opcode) and is a plain identifier that does not start with `.`.
   */
  predicate EquName(ops: seq<Row<seq<int>>>, name: string)
  {
    Identifier(name) && name[0] != '.' && Find(ops, Mnemonic(name)).None?
  }

  /**
   * As written, `NAME .equ value` defines nothing: the line does not
   * start with `.`, so it goes to the instruction path, where NAME is an
   * unknown mnemonic, and pass 1 leaves the state as it was; pass 2 emits
   * nothing for it. This is the form the source's own syntax message asks
   * for.
   */
  lemma NamedEquIgnored(ops: seq<Row<seq<int>>>, s: State, name: string, k: nat, t: seq<Symbol>)
    requires EquName(ops, name) && k < 0x10000
    ensures var line := name + " .equ " + ValueText(Num(k, Normal));
      Pass1Line(ops, s, line, AsWritten) == Some(s) && Pass2Line(ops, t, s.pc, line, AsWritten).bytes == []
  {
    var w := ValueText(Num(k, Normal));
    var line := name + " .equ " + w;
    var rest := ".equ " + w;
    NumTextPlain(k);
    ParseValueText(Num(k, Normal));
    EquLineShape(name, w);
    assert Instr1(ops, s, line) == Some(s) by {
      assert SplitToken(line) == Some((name, rest)) by {
        EquSplit(name, w);
      }
      assert Mnemonic(name) == Mnemonic(name);
      assert OpcodeOf(ops, Mnemonic(name), rest).None?;
    }
    assert Instr2(ops, t, s.pc, line).bytes == [] by {
      EquSplit(name, w);
    }
  }

  /**
   * As intended, `NAME .equ value` defines NAME with the value (the table
   * having room), and pass 2 emits nothing for it.
   */
  lemma NamedEquDefines(ops: seq<Row<seq<int>>>, s: State, name: string, k: nat, t: seq<Symbol>)
    requires EquName(ops, name) && k < 0x10000 && |s.syms| < MaxSym
    ensures var line := name + " .equ " + ValueText(Num(k, Normal));
      var r := Pass1Line(ops, s, line, Intended);
      r.Some? && Defined(r.value.syms, name) == Some(k) && r.value.pc == s.pc
      && Pass2Line(ops, t, s.pc, line, Intended).bytes == []
  {
    var w := ValueText(Num(k, Normal));
    var line := name + " .equ " + w;
    NumTextPlain(k);
    ParseValueText(Num(k, Normal));
    EquLineShape(name, w);
    assert NamedEqu(line) == Some((name, w)) by {
      EquNamed(name, w);
    }
    assert Labelled(s, line) == Some(s);
    assert Pass1Line(ops, s, line, Intended) == Define(s, name, Num(k, Normal));
    assert Known(s.syms, Num(k, Normal)) == Some(k);
    DefinesName(s.syms, name, k);
  }

  /** After a definition in a table with room, the name has the value given. */
  lemma DefinesName(t: seq<Symbol>, name: string, value: nat)
    requires |t| < MaxSym && |name| <= NameLimit
    ensures AddSym(t, name, value, true).Some? && Defined(AddSym(t, name, value, true).value, name) == Some(value)
  {
    AddDefines(t, name, value, name + "!");
  }

  /** A number written back: `$` and hex digits, so no blank, space or `;`. */
  lemma NumTextPlain(k: nat)
    requires k < 0x10000
    ensures var w := ValueText(Num(k, Normal));
      w != [] && !IsBlank(w[0]) && ';' !in w && forall i :: 0 <= i < |w| ==> !IsSpace(w[i])
  {
    NumTextChars(k);
  }

  lemma NumTextChars(k: nat)
    requires k < 0x10000
    ensures var w := ValueText(Num(k, Normal)); w != [] && forall i :: 0 <= i < |w| ==> w[i] == '$' || IsHexDigit(w[i])
  {
    var h := HexField(k, 4);
    Hex4Digits(k);
    HexFieldDigits(k, 4);
    assert ValueText(Num(k, Normal)) == [] + "$" + h;
  }

  /** The line has no label, no comment and no leading blank: both passes read all of it. */
  lemma EquLineShape(name: string, w: string)
    requires Identifier(name) && name[0] != '.' && ';' !in w && w != []
    ensures var line := name + " .equ " + w;
      Label1(Text(line)).None? && Body1(line) == line && Body2(line) == line && line[0] != '.'
  {
    var line := name + " .equ " + w;
    assert ';' !in line by {
      assert ';' !in name by {
        assert forall i :: 0 <= i < |name| ==> IsIdentChar(name[i]);
      }
      assert ';' !in " .equ ";
      assert line == name + " .equ " + w;
    }
    assert line[0] == name[0] && line[|name|] == ' ';
    assert Text(line) == line by {
      PlainText(line);
    }
    assert IdentRun(line) == |name| by {
      IdentRunOf(name, " .equ " + w);
      assert line == name + (" .equ " + w);
    }
    NoLabel(line, |name|);
  }

  /** Text without a comment or a leading blank is read as it is. */
  lemma PlainText(line: string)
    requires ';' !in line && line != [] && !IsBlank(line[0])
    ensures Text(line) == line
  {
    assert TrimComment(line) == line;
    LTrimKeeps(line);
  }

  /** An identifier run of at most 47 characters and no `:` after it: neither pass sees a label. */
  lemma NoLabel(g: string, n: nat)
    requires IdentRun(g) == n <= NameLimit && n < |g| && g[n] != ':'
    ensures Label1(g).None? && Label2(g).None?
  {
  }

  lemma {:induction false} IdentRunOf(a: string, b: string)
    requires forall i :: 0 <= i < |a| ==> IsIdentChar(a[i])
    requires b != [] && !IsIdentChar(b[0])
    ensures IdentRun(a + b) == |a|
    decreases |a|
  {
    if a != [] {
      assert (a + b)[1..] == a[1..] + b;
      IdentRunOf(a[1..], b);
    }
  }

  lemma EquSplit(name: string, w: string)
    requires Identifier(name) && w != [] && !IsBlank(w[0])
    ensures SplitToken(name + " .equ " + w) == Some((name, ".equ " + w))
  {
    assert forall i :: 0 <= i < |name| ==> !IsSpace(name[i]);
    assert name + " .equ " + w == name + " " + (".equ " + w);
    SplitTokenJoin(name, ".equ " + w);
  }

  lemma EquNamed(name: string, w: string)
    requires Identifier(name) && w != [] && !IsBlank(w[0]) && forall i :: 0 <= i < |w| ==> !IsSpace(w[i])
    ensures NamedEqu(name + " .equ " + w) == Some((name, w))
  {
    EquSplit(name, w);
    assert ".equ " + w == ".equ" + " " + w;
    SplitTokenJoin(".equ", w);
    assert Upper(".equ") == ".EQU";
  }
}
