/**
 * One source line as `pass1` and `pass2` of ext-mass.c and ext-hass.c
 * handle it: the label, the `NAME .equ value` form, the directives and the
 * instruction; what pass 1 makes of the location counter and the symbol
 * table, and what pass 2 emits and where.
 */
module MassLines {
  import opened Common
  import opened Opcodes
  import opened Mass
  import opened MassOperands

  /** The length of the run of identifier characters `s` starts with. */
  function IdentRun(s: string): (n: nat)
    ensures n <= |s| && (n < |s| ==> !IsIdentChar(s[n]))
    ensures forall i :: 0 <= i < n ==> IsIdentChar(s[i])
  {
    if s == [] || !IsIdentChar(s[0]) then 0 else 1 + IdentRun(s[1..])
  }

  /** `parse_named_equ_line`: a name, then `.EQU` in any case, then a value. */
  function NamedEqu(g: string): (r: Option<(string, string)>)
    ensures r.Some? ==> r.value.1 != []
  {
    match SplitToken(g)
    case None => None
    case Some((name, rest)) =>
      if rest == [] then None
      else match SplitToken(rest)
        case None => None
        case Some((dir, value)) => if value != [] && Upper(dir) == ".EQU" then Some((name, value)) else None
  }

  /** What a line holds once its comment, its leading blanks and its label are gone. */
  datatype Stmt = Equ(name: string, text: string) | Directive(dir: string, rest: string)
                | Instr(mn: string, op: string) | Empty

  /**
   * The statement both passes see in the text after the label: the
   * `NAME .equ value` form first, then a directive (upper-cased) when the
   * text starts with `.`, otherwise a mnemonic cut to 7 characters and
   * upper-cased, with its operand.
   */
  function Classify(g: string): (r: Stmt)
    ensures r.Equ? <==> NamedEqu(g).Some?
    ensures r.Empty? ==> LTrim(g) == []
  {
    match NamedEqu(g)
    case Some((n, v)) => Equ(n, v)
    case None =>
      match SplitToken(g)
      case None => Empty
      case Some((w, rest)) =>
        if g[0] == '.' then Directive(Upper(w), rest) else Instr(Upper(w[..Min(7, |w|)]), rest)
  }

  /** The comment-free, left-trimmed text both passes start from. */
  function Text(line: string): string
  {
    LTrim(TrimComment(line))
  }

  /**
   * Pass 1's label: at most 47 identifier characters right before a `:`,
   * and the text after the colon.
   */
  function Label1(g: string): (r: Option<(string, string)>)
    ensures r.Some? ==> Identifier(r.value.0)
  {
    if g != [] && IsIdentStart(g[0]) then
      var l := Min(IdentRun(g), NameLimit);
      if l < |g| && g[l] == ':' then Some((g[..l], LTrim(g[l + 1..]))) else None
    else None
  }

  /** Pass 2's label: the whole identifier run before a `:`; the text after it. */
  function Label2(g: string): Option<string>
  {
    if g != [] && IsIdentStart(g[0]) then
      var p := IdentRun(g);
      if p < |g| && g[p] == ':' then Some(LTrim(g[p + 1..])) else None
    else None
  }

  /** The statement text pass 1 reads after the label, and the one pass 2 reads. */
  function Body1(line: string): string
  {
    var g := Text(line);
    match Label1(g)
    case None => g
    case Some((_, rest)) => rest
  }

  function Body2(line: string): string
  {
    var g := Text(line);
    match Label2(g)
    case None => g
    case Some(rest) => rest
  }

  // ---------------------------------------------------------------------
  // Pass 1
  // ---------------------------------------------------------------------

  /**
   * What pass 1 keeps: `org` ($FFFF until a line fixes it), the 16-bit
   * `pc`, the symbol table, and whether ext-hass.c has flagged a pass-1
   * error in `assembly_status`.
   */
  datatype Pass1State = Pass1State(org: nat, pc: nat, syms: seq<Symbol>, failed: bool)

  /** `if(org==0xFFFF) org=pc;` */
  function FixOrg(s: Pass1State): (r: Pass1State)
    ensures r.pc == s.pc && r.syms == s.syms && r.failed == s.failed
    ensures s.org != Unset ==> r == s
    ensures s.org == Unset ==> r.org == s.pc
  {
    if s.org == Unset then s.(org := s.pc) else s
  }

  /** An address as the `uint16_t pc` holds it. */
  function Wrap16(x: nat): (r: nat)
    ensures r < 0x10000 && (x < 0x10000 ==> r == x)
  {
    x % 0x10000
  }

  /** `n` bytes further on, wrapping as the `uint16_t pc` does. */
  function Advance(s: Pass1State, n: nat): (r: Pass1State)
    ensures r.pc == Wrap16(s.pc + n)
    ensures r.org == s.org && r.syms == s.syms && r.failed == s.failed
  {
    s.(pc := Wrap16(s.pc + n))
  }

  /**
   * A constant definition: the value must be known (a number, or a symbol
   * already defined); it is stored with its operator applied. `None` is
   * the exit at a full symbol table.
   */
  function Define(s: Pass1State, name: string, v: Value): (r: Option<Pass1State>)
    ensures r.Some? ==> r.value.pc == s.pc && r.value.org == s.org
    ensures r.None? <==> Known(s.syms, v).Some? && |s.syms| >= MaxSym
  {
    match Known(s.syms, v)
    case None => Some(s.(failed := true))
    case Some(x) =>
      match AddOrUpdate(s.syms, name, x, true)
      case None => None
      case Some(t) => Some(s.(syms := t))
  }

  /**
   * Pass 1 on a directive: `.org` with a number moves `pc` there (its
   * operator is ignored; a label is refused); `.byte` and `.word` count 1
   * and 2 bytes per item; `.ascii` its bytes and `.asciz`/`.asciiz` one
   * more, a bad string being refused; `.equ NAME value` defines NAME; any
   * other directive is ignored.
   */
  function Directive1(d: Dialect, s: Pass1State, dir: string, rest: string): (r: Option<Pass1State>)
    ensures r.Some? && s.org != Unset ==> r.value.org == s.org
    ensures r.Some? && s.pc < 0x10000 ==> r.value.pc < 0x10000
    ensures r.Some? && s.pc < 0x10000 && s.org < 0x10000 ==> r.value.org < 0x10000
  {
    if dir == ".ORG" then
      var v := ParseValue(rest, d.binary);
      if v.Label? then Some(s.(failed := true)) else Some(FixOrg(s.(pc := v.num)))
    else if dir == ".BYTE" then Some(Advance(FixOrg(s), |Items(rest)|))
    else if dir == ".WORD" then Some(Advance(FixOrg(s), 2 * |Items(rest)|))
    else if dir == ".ASCII" || dir == ".ASCIZ" || dir == ".ASCIIZ" then
      match AsciiBytes(rest, 80)
      case None => Some(FixOrg(s).(failed := true))
      case Some(b) => Some(Advance(FixOrg(s), |b| + if dir == ".ASCII" then 0 else 1))
    else if dir == ".EQU" then
      match SplitToken(rest)
      case None => Some(s)
      case Some((name, text)) => if text != [] then Define(s, name, ParseValue(text, d.binary)) else Some(s)
    else Some(s)
  }

  /**
   * The opcode the variant scan of `pass1` and `pass2` finds for row `j`
   * of the `OPCODES` table: `count` slots from its variants on. The scan
   * runs on through the variants of the rows declared after it, and stops
   * at the end of the last one.
   */
  function Opcode(ops: seq<Row<VarDef>>, j: nat, m: Mode): Option<byte>
  {
    if j < |ops| && ops[j].Entry? then
      var slots := VarsFrom(ops, j);
      Lookup(slots[..Min(ops[j].body.count, |slots|)], m)
    else None
  }

  /** The variants of rows `j` onwards, one array after the next. */
  function VarsFrom(ops: seq<Row<VarDef>>, j: nat): seq<OpVar>
    decreases |ops| - j
  {
    if j >= |ops| then []
    else match ops[j]
      case Sentinel => []
      case Entry(_, def) => def.vars + VarsFrom(ops, j + 1)
  }

  /**
   * Pass 1 on an instruction: an unknown mnemonic or a mode the scan finds
   * no opcode for is refused; otherwise `pc` moves on by the size of the
   * mode. Pass 1 picks the mode with the symbol table as it stands.
   */
  function Instr1(s: Pass1State, o: Operand, c: Option<byte>): (r: Option<Pass1State>)
    ensures r.Some? && s.org != Unset ==> r.value.org == s.org
    ensures r.Some? && s.pc < 0x10000 ==> r.value.pc < 0x10000
    ensures r.Some? && s.pc < 0x10000 && s.org < 0x10000 ==> r.value.org < 0x10000
  {
    if c.None? then Some(s.(failed := true)) else Some(Advance(FixOrg(s), Size(o.mode)))
  }

  function Pass1Stmt(d: Dialect, s: Pass1State, st: Stmt): (r: Option<Pass1State>)
    ensures r.Some? && s.org != Unset ==> r.value.org == s.org
    ensures r.Some? && s.pc < 0x10000 ==> r.value.pc < 0x10000
    ensures r.Some? && s.pc < 0x10000 && s.org < 0x10000 ==> r.value.org < 0x10000
  {
    match st
    case Empty => Some(s)
    case Equ(name, text) => Define(s, name, ParseValue(text, d.binary))
    case Directive(dir, rest) => Directive1(d, s, dir, rest)
    case Instr(mn, op) => Instr1(s, InstrOperand(d, s.syms, mn, op), InstrOpcode(d, s.syms, mn, op))
  }

  /** The state after a line's label: `org` fixed and the label defined at `pc`. */
  function Labelled(s: Pass1State, line: string): (r: Option<Pass1State>)
    ensures r.Some? ==> r.value.pc == s.pc && r.value.failed == s.failed
    ensures r.Some? && s.org != Unset ==> r.value.org == s.org
    ensures r.Some? && s.pc < 0x10000 && s.org < 0x10000 ==> r.value.org < 0x10000
  {
    match Label1(Text(line))
    case None => Some(s)
    case Some((name, _)) =>
      var s1 := FixOrg(s);
      match AddOrUpdate(s1.syms, name, s.pc, true)
      case None => None
      case Some(t) => Some(s1.(syms := t))
  }

  /** One line of `pass1`; `None` is the exit at a full symbol table. */
  function Pass1Line(d: Dialect, s: Pass1State, line: string): (r: Option<Pass1State>)
    ensures r.Some? && s.org != Unset ==> r.value.org == s.org
    ensures r.Some? && s.pc < 0x10000 ==> r.value.pc < 0x10000
    ensures r.Some? && s.pc < 0x10000 && s.org < 0x10000 ==> r.value.org < 0x10000
  {
    match Labelled(s, line)
    case None => None
    case Some(s1) =>
      var b := Body1(line);
      if b == [] then Some(s1) else Pass1Stmt(d, s1, Classify(b))
  }

  /** `pass1` over the lines, from `org` $FFFF and `pc` 0. */
  function Pass1Run(d: Dialect, s: Pass1State, lines: seq<string>): Option<Pass1State>
  {
    if lines == [] then Some(s)
    else match Pass1Run(d, s, lines[..|lines| - 1])
      case None => None
      case Some(s1) => Pass1Line(d, s1, lines[|lines| - 1])
  }

  // ---------------------------------------------------------------------
  // Pass 2
  // ---------------------------------------------------------------------

  /**
   * What pass 2 does with one line: the address it emits from (a `.org`
   * moves it), the bytes, and whether ext-hass.c flags an error for them.
   */
  datatype Emit = Emit(start: nat, bytes: seq<byte>, failed: bool)

  /** `pc` after the line. */
  function EndPc(e: Emit): nat
  {
    Wrap16(e.start + |e.bytes|)
  }

  /** The `.byte` values, each cut to its low byte. */
  function ByteValues(t: seq<Symbol>, items: seq<string>, binary: bool): (r: seq<byte>)
    ensures |r| == |items|
    ensures forall i :: 0 <= i < |items| ==> r[i] == Lo(Word(t, ParseValue(items[i], binary)))
  {
    seq(|items|, i requires 0 <= i < |items| => Lo(Word(t, ParseValue(items[i], binary))))
  }

  /** Whether a `.byte` item without `<` or `>` is over $FF, which ext-hass.c flags. */
  predicate ByteTruncates(t: seq<Symbol>, items: seq<string>, binary: bool)
  {
    exists i :: 0 <= i < |items| && ParseValue(items[i], binary).op == Normal
                && Word(t, ParseValue(items[i], binary)) > 0xFF
  }

  /** The `.word` values, two bytes each. */
  function WordValues(t: seq<Symbol>, items: seq<string>, binary: bool): (r: seq<byte>)
    ensures |r| == 2 * |items|
  {
    LowFirst(seq(|items|, i requires 0 <= i < |items| => Word(t, ParseValue(items[i], binary))))
  }

  /** 16-bit values laid out two bytes each. */
  function LowFirst(ws: seq<nat>): (r: seq<byte>)
    ensures |r| == 2 * |ws|
  {
    seq(2 * |ws|, k requires 0 <= k < 2 * |ws| => if k % 2 == 0 then Lo(ws[k / 2]) else Hi(ws[k / 2]))
  }

  /** Each value is stored low byte first. */
  lemma LowFirstBytes(ws: seq<nat>, i: nat)
    requires i < |ws|
    ensures LowFirst(ws)[2 * i] == Lo(ws[i]) && LowFirst(ws)[2 * i + 1] == Hi(ws[i])
  {
    Halves(i);
  }

  /** Each `.word` item is stored low byte first. */
  lemma WordsLowFirst(t: seq<Symbol>, items: seq<string>, binary: bool, i: nat)
    requires i < |items|
    ensures var r := WordValues(t, items, binary); var w := Word(t, ParseValue(items[i], binary));
      r[2 * i] == Lo(w) && r[2 * i + 1] == Hi(w)
  {
    LowFirstBytes(seq(|items|, i requires 0 <= i < |items| => Word(t, ParseValue(items[i], binary))), i);
  }

  lemma Halves(i: nat)
    ensures (2 * i) / 2 == i && (2 * i) % 2 == 0
    ensures (2 * i + 1) / 2 == i && (2 * i + 1) % 2 == 1
  {
  }

  /**
   * Pass 2 on a directive: `.org` moves `pc` to the resolved value
   * (operator applied, labels allowed); `.byte`, `.word`, `.ascii` and
   * `.asciz`/`.asciiz` emit their bytes; the rest emit nothing.
   */
  function Directive2(d: Dialect, t: seq<Symbol>, pc: nat, dir: string, rest: string): (r: Emit)
    ensures r.start == pc || r.start < 0x10000
  {
    if dir == ".ORG" then Emit(Word(t, ParseValue(rest, d.binary)), [], false)
    else if dir == ".BYTE" then
      var items := Items(rest);
      Emit(pc, ByteValues(t, items, d.binary), ByteTruncates(t, items, d.binary))
    else if dir == ".WORD" then Emit(pc, WordValues(t, Items(rest), d.binary), false)
    else if dir == ".ASCII" || dir == ".ASCIZ" || dir == ".ASCIIZ" then
      match AsciiBytes(rest, 80)
      case None => Emit(pc, [], true)
      case Some(b) => Emit(pc, if dir == ".ASCII" then b else b + [0], false)
    else Emit(pc, [], false)
  }

  /**
   * Pass 2 on an instruction: the opcode and its operand bytes, or nothing
   * when the mnemonic or the opcode is missing. The mode is picked in the
   * table `tm`; values resolve in `t`. The source uses the final table for
   * both.
   */
  function Instr2(t: seq<Symbol>, pc: nat, o: Operand, c: Option<byte>, complete: bool): (r: Emit)
    ensures r.start == pc
  {
    match c
    case None => Emit(pc, [], false)
    case Some(opc) =>
      var (b, e) := OperandBytes(o, t, pc, complete);
      Emit(pc, [opc] + b, e)
  }

  function Pass2Stmt(d: Dialect, tm: seq<Symbol>, t: seq<Symbol>, pc: nat, st: Stmt, complete: bool): (r: Emit)
    ensures r.start == pc || r.start < 0x10000
  {
    match st
    case Empty => Emit(pc, [], false)
    case Equ(_, _) => Emit(pc, [], false)
    case Directive(dir, rest) => Directive2(d, t, pc, dir, rest)
    case Instr(mn, op) => Instr2(t, pc, InstrOperand(d, tm, mn, op), InstrOpcode(d, tm, mn, op), complete)
  }

  /** One line of `pass2`. */
  function Pass2Line(d: Dialect, tm: seq<Symbol>, t: seq<Symbol>, pc: nat, line: string, complete: bool): (r: Emit)
    ensures r.start == pc || r.start < 0x10000
  {
    var b := Body2(line);
    if b == [] then Emit(pc, [], false) else Pass2Stmt(d, tm, t, pc, Classify(b), complete)
  }

  // ---------------------------------------------------------------------
  // Pass 1 and pass 2 agree
  // ---------------------------------------------------------------------

  /** No label of more than 47 characters: the two passes read the same statement. */
  predicate LabelFits(line: string)
  {
    var g := Text(line);
    !(g != [] && IsIdentStart(g[0]) && NameLimit < IdentRun(g) < |g| && g[IdentRun(g)] == ':')
  }

  /** A `.org` on the line, if any, names a plain number. */
  predicate PlainOrg(d: Dialect, line: string)
  {
    var b := Body1(line);
    b != [] && Classify(b).Directive? && Classify(b).dir == ".ORG" ==>
      var v := ParseValue(Classify(b).rest, d.binary);
      v.Num? && v.op == Normal
  }

  /** With labels that fit, the label pass 1 cuts off is the one pass 2 cuts off. */
  lemma BodiesAgree(line: string)
    requires LabelFits(line)
    ensures Body1(line) == Body2(line)
  {
    var g := Text(line);
    if g != [] && IsIdentStart(g[0]) && IdentRun(g) > NameLimit {
      assert IsIdentChar(g[NameLimit]);
    }
  }

  /** A symbol table only matters to the mode pick of ext-hass.c. */
  lemma ModeIgnoresTable(d: Dialect, t1: seq<Symbol>, t2: seq<Symbol>, mn: string, op: string)
    requires !d.symbolFits
    ensures InstrOperand(d, t1, mn, op) == InstrOperand(d, t2, mn, op)
  {
    if !(mn in RelativeMnemonics) && op != [] {
      var s1 := LTrim(op);
      var force := s1 != [] && s1[0] == '*';
      var u := if force then LTrim(s1[1..]) else s1;
      DispatchIgnoresTable(u, d, t1, t2, force);
    }
  }

  lemma DispatchIgnoresTable(u: string, d: Dialect, t1: seq<Symbol>, t2: seq<Symbol>, force: bool)
    requires !d.symbolFits
    ensures Dispatch(u, d, t1, force) == Dispatch(u, d, t2, force)
  {
    assert forall v :: FitsZp(d, t1, v) == FitsZp(d, t2, v);
    if u != [] && u[0] == '(' {
      assert Indirect(u, d, t1, force) == Indirect(u, d, t2, force);
    } else if Pos(u, ',') < |u| {
      assert Indexed(u, Pos(u, ','), d, t1, force) == Indexed(u, Pos(u, ','), d, t2, force);
    } else {
      assert Direct(u, d, t1, force) == Direct(u, d, t2, force);
    }
  }

  /** A plain number resolves to itself. */
  lemma PlainWord(t: seq<Symbol>, v: Value)
    requires v.Num? && v.op == Normal && v.num < 0x10000
    ensures Word(t, v) == v.num
  {
    assert Resolve(t, v) == v.num;
  }

  /** A directive moves pass 2's `pc` as far as it moves pass 1's. */
  lemma DirectiveSizes(d: Dialect, s: Pass1State, dir: string, rest: string, t: seq<Symbol>)
    requires s.pc < 0x10000 && Directive1(d, s, dir, rest).Some?
    requires dir == ".ORG" ==> var v := ParseValue(rest, d.binary); v.Num? && v.op == Normal
    ensures EndPc(Directive2(d, t, s.pc, dir, rest)) == Directive1(d, s, dir, rest).value.pc
  {
    if dir == ".ORG" {
      OrgSizes(d, s, rest, t);
    } else if dir == ".BYTE" || dir == ".WORD" {
      DataSizes(d, s, dir, rest, t);
    } else if dir == ".ASCII" || dir == ".ASCIZ" || dir == ".ASCIIZ" {
      AsciiSizes(d, s, dir, rest, t);
    } else {
      assert Directive2(d, t, s.pc, dir, rest) == Emit(s.pc, [], false);
    }
  }

  lemma OrgSizes(d: Dialect, s: Pass1State, rest: string, t: seq<Symbol>)
    requires var v := ParseValue(rest, d.binary); v.Num? && v.op == Normal
    ensures EndPc(Directive2(d, t, s.pc, ".ORG", rest)) == Directive1(d, s, ".ORG", rest).value.pc
  {
    var v := ParseValue(rest, d.binary);
    assert Word(t, v) == v.num by { PlainWord(t, v); }
    assert Directive2(d, t, s.pc, ".ORG", rest) == Emit(v.num, [], false);
    assert Directive1(d, s, ".ORG", rest).value.pc == v.num;
    assert Wrap16(v.num + 0) == v.num;
  }

  lemma DataSizes(d: Dialect, s: Pass1State, dir: string, rest: string, t: seq<Symbol>)
    requires dir == ".BYTE" || dir == ".WORD"
    ensures EndPc(Directive2(d, t, s.pc, dir, rest)) == Directive1(d, s, dir, rest).value.pc
  {
    var n := if dir == ".BYTE" then |Items(rest)| else 2 * |Items(rest)|;
    var e := Directive2(d, t, s.pc, dir, rest);
    assert e.start == s.pc && |e.bytes| == n;
    assert Directive1(d, s, dir, rest) == Some(Advance(FixOrg(s), n));
  }

  lemma AsciiSizes(d: Dialect, s: Pass1State, dir: string, rest: string, t: seq<Symbol>)
    requires s.pc < 0x10000 && (dir == ".ASCII" || dir == ".ASCIZ" || dir == ".ASCIIZ")
    ensures EndPc(Directive2(d, t, s.pc, dir, rest)) == Directive1(d, s, dir, rest).value.pc
  {
    var e := Directive2(d, t, s.pc, dir, rest);
    match AsciiBytes(rest, 80)
    case None =>
      assert e == Emit(s.pc, [], true);
      assert Directive1(d, s, dir, rest).value.pc == s.pc;
    case Some(b) =>
      var n := |b| + if dir == ".ASCII" then 0 else 1;
      assert e.start == s.pc && |e.bytes| == n;
      assert Directive1(d, s, dir, rest) == Some(Advance(FixOrg(s), n));
  }

  /**
   * An instruction moves pass 2's `pc` as far as it moves pass 1's, when
   * both pick the same mode and pass 2 writes that mode's operand.
   */
  lemma InstrSizes(s: Pass1State, o: Operand, c: Option<byte>, t: seq<Symbol>, complete: bool)
    requires s.pc < 0x10000 && o.mode != Stack && (complete || o.mode != AbsIndX)
    ensures EndPc(Instr2(t, s.pc, o, c, complete)) == Instr1(s, o, c).value.pc
  {
    if c.Some? {
      EmitSize(s.pc, c.value, o, t, complete);
    }
  }

  /** An opcode and its operand bytes take `Size` of the mode. */
  lemma EmitSize(pc: nat, opc: byte, o: Operand, t: seq<Symbol>, complete: bool)
    requires o.mode != Stack && (complete || o.mode != AbsIndX)
    ensures var b := OperandBytes(o, t, pc, complete);
      EndPc(Emit(pc, [opc] + b.0, b.1)) == Wrap16(pc + Size(o.mode))
  {
    SizeMatches(o, t, pc);
  }

  /** The opcode an instruction line assembles to, found as both passes look for it. */
  function InstrOpcode(d: Dialect, tm: seq<Symbol>, mn: string, op: string): Option<byte>
  {
    match Find(d.ops, mn)
    case None => None
    case Some(j) => Opcode(d.ops, j, MapMode(InstrOperand(d, tm, mn, op).mode, mn))
  }

  /**
   * On one statement, pass 2 ends where pass 1 put `pc`, when it picks the
   * same modes as pass 1 did and, as ext-mass.c is written (`complete`
   * false), the statement is no `(abs,X)` instruction.
   */
  lemma StmtSizes(d: Dialect, s: Pass1State, st: Stmt, t: seq<Symbol>, complete: bool)
    requires s.pc < 0x10000 && Pass1Stmt(d, s, st).Some?
    requires st.Directive? && st.dir == ".ORG" ==> var v := ParseValue(st.rest, d.binary); v.Num? && v.op == Normal
    requires !complete && st.Instr? ==> InstrOperand(d, s.syms, st.mn, st.op).mode != AbsIndX
    ensures EndPc(Pass2Stmt(d, s.syms, t, s.pc, st, complete)) == Pass1Stmt(d, s, st).value.pc
  {
    match st
    case Empty =>
    case Equ(_, _) =>
    case Directive(dir, rest) => DirectiveSizes(d, s, dir, rest, t);
    case Instr(mn, op) => InstrSizes(s, InstrOperand(d, s.syms, mn, op), InstrOpcode(d, s.syms, mn, op), t, complete);
  }

  /**
   * The line is no instruction with an `(abs,X)` operand, the one mode
   * ext-mass.c's pass 2 writes no operand for. In ext-mass.c the mode does
   * not depend on the symbol table, so the empty one stands for any.
   */
  predicate NoAbsIndX(d: Dialect, line: string)
  {
    var b := Body1(line);
    b != [] && Classify(b).Instr? ==> InstrOperand(d, [], Classify(b).mn, Classify(b).op).mode != AbsIndX
  }

  /**
   * On one line: pass 2 ends where pass 1 put `pc`, when the labels fit,
   * a `.org` names a number, the modes are picked in the table pass 1 had
   * (ext-hass.c) or in any table (ext-mass.c, whose pick never looks at
   * it), and either every operand is written out or, as ext-mass.c is
   * written, the line is no `(abs,X)` instruction.
   */
  lemma LineSizes(d: Dialect, s: Pass1State, line: string, tm: seq<Symbol>, t: seq<Symbol>, complete: bool)
    requires s.pc < 0x10000 && Pass1Line(d, s, line).Some? && LabelFits(line) && PlainOrg(d, line)
    requires d.symbolFits ==> tm == Labelled(s, line).value.syms
    requires complete || (!d.symbolFits && NoAbsIndX(d, line))
    ensures EndPc(Pass2Line(d, tm, t, s.pc, line, complete)) == Pass1Line(d, s, line).value.pc
  {
    BodiesAgree(line);
    var s1 := Labelled(s, line).value;
    var b := Body1(line);
    if b != [] {
      var st := Classify(b);
      if st.Instr? && !d.symbolFits {
        ModeIgnoresTable(d, tm, s1.syms, st.mn, st.op);
        ModeIgnoresTable(d, [], s1.syms, st.mn, st.op);
      }
      StmtSizes(d, s1, st, t, complete);
    }
  }
}
