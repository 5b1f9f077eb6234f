/**
 * The 65C02 opcode tables of `ext-mass-opcodes.h`, both variants the header
 * holds: with `OPCODES` defined, a list of (mode, opcode) variants per
 * mnemonic; without it, a 14-column row per mnemonic with -1 for a mode the
 * instruction lacks. Both tables end with a row whose name is null.
 */
module Opcodes {
  import opened Common

  /**
   * The addressing modes the assemblers tell apart. The `OPCODES` variant of
   * the header uses all sixteen; the 14-column variant and ext-qasm.c use the
   * ones listed in `Columns`.
   */
  datatype Mode = Imp | Acc | Imm | Zp | ZpX | ZpY | Abs | AbsX | AbsY
                | ZpIndX | ZpIndY | ZpInd | AbsInd | AbsIndX | PcRel | Stack

  /** A table row, or the null-name row that ends the table. */
  datatype Row<T> = Entry(name: string, body: T) | Sentinel

  /** `opvar_t`: one addressing mode of a mnemonic and its opcode. */
  datatype OpVar = OpVar(mode: Mode, opcode: byte)

  /** `sizeof` of an `opvar_t` array: two bytes per variant. */
  function SizeOf(vars: seq<OpVar>): (n: nat)
    ensures n == 2 * |vars|
  {
    2 * |vars|
  }

  /** `opdef_t` without its name: the variants and the `count` field as initialised. */
  datatype VarDef = VarDef(vars: seq<OpVar>, count: nat)

  /** The table ends with its sentinel and has no other. */
  predicate Terminated<T>(t: seq<Row<T>>)
  {
    |t| > 0 && t[|t| - 1].Sentinel? && forall j :: 0 <= j < |t| - 1 ==> t[j].Entry?
  }

  predicate Named<T>(r: Row<T>, m: string)
  {
    r.Entry? && r.name == m
  }

  /** The first row named `m`, the row `find_op` stops at. */
  function Find<T>(t: seq<Row<T>>, m: string): (r: Option<nat>)
    ensures r.Some? ==> r.value < |t| && Named(t[r.value], m)
    ensures r.Some? ==> forall j :: 0 <= j < r.value ==> !Named(t[j], m)
    ensures r.None? ==> forall j :: 0 <= j < |t| ==> !Named(t[j], m)
  {
    if t == [] then None
    else if Named(t[0], m) then Some(0)
    else match Find(t[1..], m)
      case None => None
      case Some(i) => Some(i + 1)
  }

  /**
   * `find_op`: walk the rows until the null name, returning the first row
   * whose name equals the upper-cased mnemonic. The sentinel is what keeps
   * the walk inside the table.
   */
  method FindOp<T>(t: seq<Row<T>>, m: string) returns (r: Option<nat>)
    requires Terminated(t)
    ensures r == Find(t, m)
  {
    var p := 0;
    while t[p].Entry?
      invariant 0 <= p < |t|
      invariant forall j :: 0 <= j < p ==> !Named(t[j], m)
      decreases |t| - p
    {
      if t[p].name == m {
        return Some(p);
      }
      p := p + 1;
    }
    return None;
  }

  /**
   * The opcode of the first variant of mode `m` among `vars`: the lookup
   * both assemblers that use the `OPCODES` table intend, scanning exactly the
   * variants of the mnemonic.
   */
  function Lookup(vars: seq<OpVar>, m: Mode): (r: Option<byte>)
    ensures r.None? <==> forall i :: 0 <= i < |vars| ==> vars[i].mode != m
    ensures r.Some? ==> exists i :: 0 <= i < |vars| && vars[i] == OpVar(m, r.value)
                                    && forall j :: 0 <= j < i ==> vars[j].mode != m
  {
    if vars == [] then None
    else if vars[0].mode == m then Some(vars[0].opcode)
    else
      var r := Lookup(vars[1..], m);
      if r.Some? then
        ghost var i :| 0 <= i < |vars[1..]| && vars[1..][i] == OpVar(m, r.value)
                       && forall j :: 0 <= j < i ==> vars[1..][j].mode != m;
        assert vars[i + 1] == OpVar(m, r.value);
        r
      else r
  }

  /**
   * The variant scan of `pass1` and `pass2` in ext-mass.c and ext-hass.c as
   * written: `cnt` slots of memory are examined starting at the mnemonic's
   * variants, and -1 stands for "no opcode". `slots` is the memory from the
   * first variant on, so the scan may run past the variants themselves.
   */
  method ScanVars(slots: seq<OpVar>, cnt: nat, m: Mode) returns (opc: int)
    requires cnt <= |slots|
    ensures opc == (match Lookup(slots[..cnt], m) case Some(b) => b case None => -1)
  {
    opc := -1;
    var i := 0;
    while i < cnt
      invariant 0 <= i <= cnt
      invariant Lookup(slots[..cnt], m) == Lookup(slots[i..cnt], m)
    {
      if slots[i].mode == m {
        opc := slots[i].opcode;
        assert slots[i..cnt][0] == slots[i];
        return;
      }
      assert slots[i..cnt][1..] == slots[i + 1..cnt];
      i := i + 1;
    }
  }

  const VarsADC: seq<OpVar> := [OpVar(Abs, 0x6D), OpVar(AbsX, 0x7D), OpVar(AbsY, 0x79), OpVar(Imm, 0x69), OpVar(Zp, 0x65), OpVar(ZpIndX, 0x61), OpVar(ZpX, 0x75), OpVar(ZpInd, 0x72), OpVar(ZpIndY, 0x71)]
  const VarsAND: seq<OpVar> := [OpVar(Abs, 0x2D), OpVar(AbsX, 0x3D), OpVar(AbsY, 0x39), OpVar(Imm, 0x29), OpVar(Zp, 0x25), OpVar(ZpIndX, 0x21), OpVar(ZpX, 0x35), OpVar(ZpInd, 0x32), OpVar(ZpIndY, 0x31)]
  const VarsASL: seq<OpVar> := [OpVar(Abs, 0x0E), OpVar(AbsX, 0x1E), OpVar(Acc, 0x0A), OpVar(Zp, 0x06), OpVar(ZpX, 0x16)]
  const VarsBBR0: seq<OpVar> := [OpVar(PcRel, 0x0F)]
  const VarsBBR1: seq<OpVar> := [OpVar(PcRel, 0x1F)]
  const VarsBBR2: seq<OpVar> := [OpVar(PcRel, 0x2F)]
  const VarsBBR3: seq<OpVar> := [OpVar(PcRel, 0x3F)]
  const VarsBBR4: seq<OpVar> := [OpVar(PcRel, 0x4F)]
  const VarsBBR5: seq<OpVar> := [OpVar(PcRel, 0x5F)]
  const VarsBBR6: seq<OpVar> := [OpVar(PcRel, 0x6F)]
  const VarsBBR7: seq<OpVar> := [OpVar(PcRel, 0x7F)]
  const VarsBBS0: seq<OpVar> := [OpVar(PcRel, 0x8F)]
  const VarsBBS1: seq<OpVar> := [OpVar(PcRel, 0x9F)]
  const VarsBBS2: seq<OpVar> := [OpVar(PcRel, 0xAF)]
  const VarsBBS3: seq<OpVar> := [OpVar(PcRel, 0xBF)]
  const VarsBBS4: seq<OpVar> := [OpVar(PcRel, 0xCF)]
  const VarsBBS5: seq<OpVar> := [OpVar(PcRel, 0xDF)]
  const VarsBBS6: seq<OpVar> := [OpVar(PcRel, 0xEF)]
  const VarsBBS7: seq<OpVar> := [OpVar(PcRel, 0xFF)]
  const VarsBCC: seq<OpVar> := [OpVar(PcRel, 0x90)]
  const VarsBCS: seq<OpVar> := [OpVar(PcRel, 0xB0)]
  const VarsBEQ: seq<OpVar> := [OpVar(PcRel, 0xF0)]
  const VarsBIT: seq<OpVar> := [OpVar(Abs, 0x2C), OpVar(AbsX, 0x3C), OpVar(Imm, 0x89), OpVar(Zp, 0x24), OpVar(ZpX, 0x34)]
  const VarsBMI: seq<OpVar> := [OpVar(PcRel, 0x30)]
  const VarsBNE: seq<OpVar> := [OpVar(PcRel, 0xD0)]
  const VarsBPL: seq<OpVar> := [OpVar(PcRel, 0x10)]
  const VarsBRA: seq<OpVar> := [OpVar(PcRel, 0x80)]
  const VarsBRK: seq<OpVar> := [OpVar(Stack, 0x00)]
  const VarsBVC: seq<OpVar> := [OpVar(PcRel, 0x50)]
  const VarsBVS: seq<OpVar> := [OpVar(PcRel, 0x70)]
  const VarsCLC: seq<OpVar> := [OpVar(Imp, 0x18)]
  const VarsCLD: seq<OpVar> := [OpVar(Imp, 0xD8)]
  const VarsCLI: seq<OpVar> := [OpVar(Imp, 0x58)]
  const VarsCLV: seq<OpVar> := [OpVar(Imp, 0xB8)]
  const VarsCMP: seq<OpVar> := [OpVar(Abs, 0xCD), OpVar(AbsX, 0xDD), OpVar(AbsY, 0xD9), OpVar(Imm, 0xC9), OpVar(Zp, 0xC5), OpVar(ZpIndX, 0xC1), OpVar(ZpX, 0xD5), OpVar(ZpInd, 0xD2), OpVar(ZpIndY, 0xD1)]
  const VarsCPX: seq<OpVar> := [OpVar(Abs, 0xEC), OpVar(Imm, 0xE0), OpVar(Zp, 0xE4)]
  const VarsCPY: seq<OpVar> := [OpVar(Abs, 0xCC), OpVar(Imm, 0xC0), OpVar(Zp, 0xC4)]
  const VarsDEC: seq<OpVar> := [OpVar(Abs, 0xCE), OpVar(AbsX, 0xDE), OpVar(Acc, 0x3A), OpVar(Zp, 0xC6), OpVar(ZpX, 0xD6)]
  const VarsDEX: seq<OpVar> := [OpVar(Imp, 0xCA)]
  const VarsDEY: seq<OpVar> := [OpVar(Imp, 0x88)]
  const VarsEOR: seq<OpVar> := [OpVar(Abs, 0x4D), OpVar(AbsX, 0x5D), OpVar(AbsY, 0x59), OpVar(Imm, 0x49), OpVar(Zp, 0x45), OpVar(ZpIndX, 0x41), OpVar(ZpX, 0x55), OpVar(ZpInd, 0x52), OpVar(ZpIndY, 0x51)]
  const VarsINC: seq<OpVar> := [OpVar(Abs, 0xEE), OpVar(AbsX, 0xFE), OpVar(Acc, 0x1A), OpVar(Zp, 0xE6), OpVar(ZpX, 0xF6)]
  const VarsINX: seq<OpVar> := [OpVar(Imp, 0xE8)]
  const VarsINY: seq<OpVar> := [OpVar(Imp, 0xC8)]
  const VarsJMP: seq<OpVar> := [OpVar(Abs, 0x4C), OpVar(AbsIndX, 0x7C), OpVar(AbsInd, 0x6C)]
  const VarsJSR: seq<OpVar> := [OpVar(Abs, 0x20)]
  const VarsLDA: seq<OpVar> := [OpVar(Abs, 0xAD), OpVar(AbsX, 0xBD), OpVar(AbsY, 0xB9), OpVar(Imm, 0xA9), OpVar(Zp, 0xA5), OpVar(ZpIndX, 0xA1), OpVar(ZpX, 0xB5), OpVar(ZpInd, 0xB2), OpVar(ZpIndY, 0xB1)]
  const VarsLDX: seq<OpVar> := [OpVar(Abs, 0xAE), OpVar(AbsY, 0xBE), OpVar(Imm, 0xA2), OpVar(Zp, 0xA6), OpVar(ZpY, 0xB6)]
  const VarsLDY: seq<OpVar> := [OpVar(Abs, 0xAC), OpVar(AbsX, 0xBC), OpVar(Imm, 0xA0), OpVar(Zp, 0xA4), OpVar(ZpX, 0xB4)]
  const VarsLSR: seq<OpVar> := [OpVar(Abs, 0x4E), OpVar(AbsX, 0x5E), OpVar(Acc, 0x4A), OpVar(Zp, 0x46), OpVar(ZpX, 0x56)]
  const VarsNOP: seq<OpVar> := [OpVar(Imp, 0xEA)]
  const VarsORA: seq<OpVar> := [OpVar(Abs, 0x0D), OpVar(AbsX, 0x1D), OpVar(AbsY, 0x19), OpVar(Imm, 0x09), OpVar(Zp, 0x05), OpVar(ZpIndX, 0x01), OpVar(ZpX, 0x15), OpVar(ZpInd, 0x12), OpVar(ZpIndY, 0x11)]
  const VarsPHA: seq<OpVar> := [OpVar(Stack, 0x48)]
  const VarsPHP: seq<OpVar> := [OpVar(Stack, 0x08)]
  const VarsPHX: seq<OpVar> := [OpVar(Stack, 0xDA)]
  const VarsPHY: seq<OpVar> := [OpVar(Stack, 0x5A)]
  const VarsPLA: seq<OpVar> := [OpVar(Stack, 0x68)]
  const VarsPLP: seq<OpVar> := [OpVar(Stack, 0x28)]
  const VarsPLX: seq<OpVar> := [OpVar(Stack, 0xFA)]
  const VarsPLY: seq<OpVar> := [OpVar(Stack, 0x7A)]
  const VarsRMB0: seq<OpVar> := [OpVar(Zp, 0x07)]
  const VarsRMB1: seq<OpVar> := [OpVar(Zp, 0x17)]
  const VarsRMB2: seq<OpVar> := [OpVar(Zp, 0x27)]
  const VarsRMB3: seq<OpVar> := [OpVar(Zp, 0x37)]
  const VarsRMB4: seq<OpVar> := [OpVar(Zp, 0x47)]
  const VarsRMB5: seq<OpVar> := [OpVar(Zp, 0x57)]
  const VarsRMB6: seq<OpVar> := [OpVar(Zp, 0x67)]
  const VarsRMB7: seq<OpVar> := [OpVar(Zp, 0x77)]
  const VarsROL: seq<OpVar> := [OpVar(Abs, 0x2E), OpVar(AbsX, 0x3E), OpVar(Acc, 0x2A), OpVar(Zp, 0x26), OpVar(ZpX, 0x36)]
  const VarsROR: seq<OpVar> := [OpVar(Abs, 0x6E), OpVar(AbsX, 0x7E), OpVar(Acc, 0x6A), OpVar(Zp, 0x66), OpVar(ZpX, 0x76)]
  const VarsRTI: seq<OpVar> := [OpVar(Stack, 0x40)]
  const VarsRTS: seq<OpVar> := [OpVar(Stack, 0x60)]
  const VarsSBC: seq<OpVar> := [OpVar(Abs, 0xED), OpVar(AbsX, 0xFD), OpVar(AbsY, 0xF9), OpVar(Imm, 0xE9), OpVar(Zp, 0xE5), OpVar(ZpIndX, 0xE1), OpVar(ZpX, 0xF5), OpVar(ZpInd, 0xF2), OpVar(ZpIndY, 0xF1)]
  const VarsSEC: seq<OpVar> := [OpVar(Imp, 0x38)]
  const VarsSED: seq<OpVar> := [OpVar(Imp, 0xF8)]
  const VarsSEI: seq<OpVar> := [OpVar(Imp, 0x78)]
  const VarsSMB0: seq<OpVar> := [OpVar(Zp, 0x87)]
  const VarsSMB1: seq<OpVar> := [OpVar(Zp, 0x97)]
  const VarsSMB2: seq<OpVar> := [OpVar(Zp, 0xA7)]
  const VarsSMB3: seq<OpVar> := [OpVar(Zp, 0xB7)]
  const VarsSMB4: seq<OpVar> := [OpVar(Zp, 0xC7)]
  const VarsSMB5: seq<OpVar> := [OpVar(Zp, 0xD7)]
  const VarsSMB6: seq<OpVar> := [OpVar(Zp, 0xE7)]
  const VarsSMB7: seq<OpVar> := [OpVar(Zp, 0xF7)]
  const VarsSTA: seq<OpVar> := [OpVar(Abs, 0x8D), OpVar(AbsX, 0x9D), OpVar(AbsY, 0x99), OpVar(Zp, 0x85), OpVar(ZpIndX, 0x81), OpVar(ZpX, 0x95), OpVar(ZpInd, 0x92), OpVar(ZpIndY, 0x91)]
  const VarsSTP: seq<OpVar> := [OpVar(Imp, 0xDB)]
  const VarsSTX: seq<OpVar> := [OpVar(Abs, 0x8E), OpVar(Zp, 0x86), OpVar(ZpY, 0x96)]
  const VarsSTY: seq<OpVar> := [OpVar(Abs, 0x8C), OpVar(Zp, 0x84), OpVar(ZpX, 0x94)]
  const VarsSTZ: seq<OpVar> := [OpVar(Abs, 0x9C), OpVar(AbsX, 0x9E), OpVar(Zp, 0x64), OpVar(ZpX, 0x74)]
  const VarsTAX: seq<OpVar> := [OpVar(Imp, 0xAA)]
  const VarsTAY: seq<OpVar> := [OpVar(Imp, 0xA8)]
  const VarsTRB: seq<OpVar> := [OpVar(Abs, 0x1C), OpVar(Zp, 0x14)]
  const VarsTSB: seq<OpVar> := [OpVar(Abs, 0x0C), OpVar(Zp, 0x04)]
  const VarsTSX: seq<OpVar> := [OpVar(Imp, 0xBA)]
  const VarsTXA: seq<OpVar> := [OpVar(Imp, 0x8A)]
  const VarsTXS: seq<OpVar> := [OpVar(Imp, 0x9A)]
  const VarsTYA: seq<OpVar> := [OpVar(Imp, 0x98)]
  const VarsWAI: seq<OpVar> := [OpVar(Imp, 0xCB)]

  const OpsPart1: seq<Row<VarDef>> := [
    Entry("ADC", VarDef(VarsADC, SizeOf(VarsADC))),
    Entry("AND", VarDef(VarsAND, SizeOf(VarsAND))),
    Entry("ASL", VarDef(VarsASL, SizeOf(VarsASL))),
    Entry("BBR0", VarDef(VarsBBR0, SizeOf(VarsBBR0))),
    Entry("BBR1", VarDef(VarsBBR1, SizeOf(VarsBBR1))),
    Entry("BBR2", VarDef(VarsBBR2, SizeOf(VarsBBR2))),
    Entry("BBR3", VarDef(VarsBBR3, SizeOf(VarsBBR3))),
    Entry("BBR4", VarDef(VarsBBR4, SizeOf(VarsBBR4)))
  ]

  const OpsPart2: seq<Row<VarDef>> := [
    Entry("BBR5", VarDef(VarsBBR5, SizeOf(VarsBBR5))),
    Entry("BBR6", VarDef(VarsBBR6, SizeOf(VarsBBR6))),
    Entry("BBR7", VarDef(VarsBBR7, SizeOf(VarsBBR7))),
    Entry("BBS0", VarDef(VarsBBS0, SizeOf(VarsBBS0))),
    Entry("BBS1", VarDef(VarsBBS1, SizeOf(VarsBBS1))),
    Entry("BBS2", VarDef(VarsBBS2, SizeOf(VarsBBS2))),
    Entry("BBS3", VarDef(VarsBBS3, SizeOf(VarsBBS3))),
    Entry("BBS4", VarDef(VarsBBS4, SizeOf(VarsBBS4)))
  ]

  const OpsPart3: seq<Row<VarDef>> := [
    Entry("BBS5", VarDef(VarsBBS5, SizeOf(VarsBBS5))),
    Entry("BBS6", VarDef(VarsBBS6, SizeOf(VarsBBS6))),
    Entry("BBS7", VarDef(VarsBBS7, SizeOf(VarsBBS7))),
    Entry("BCC", VarDef(VarsBCC, SizeOf(VarsBCC))),
    Entry("BCS", VarDef(VarsBCS, SizeOf(VarsBCS))),
    Entry("BEQ", VarDef(VarsBEQ, SizeOf(VarsBEQ))),
    Entry("BIT", VarDef(VarsBIT, SizeOf(VarsBIT))),
    Entry("BMI", VarDef(VarsBMI, SizeOf(VarsBMI)))
  ]

  const OpsPart4: seq<Row<VarDef>> := [
    Entry("BNE", VarDef(VarsBNE, SizeOf(VarsBNE))),
    Entry("BPL", VarDef(VarsBPL, SizeOf(VarsBPL))),
    Entry("BRA", VarDef(VarsBRA, SizeOf(VarsBRA))),
    Entry("BRK", VarDef(VarsBRK, SizeOf(VarsBRK))),
    Entry("BVC", VarDef(VarsBVC, SizeOf(VarsBVC))),
    Entry("BVS", VarDef(VarsBVS, SizeOf(VarsBVS))),
    Entry("CLC", VarDef(VarsCLC, SizeOf(VarsCLC))),
    Entry("CLD", VarDef(VarsCLD, SizeOf(VarsCLD)))
  ]

  const OpsPart5: seq<Row<VarDef>> := [
    Entry("CLI", VarDef(VarsCLI, SizeOf(VarsCLI))),
    Entry("CLV", VarDef(VarsCLV, SizeOf(VarsCLV))),
    Entry("CMP", VarDef(VarsCMP, SizeOf(VarsCMP))),
    Entry("CPX", VarDef(VarsCPX, SizeOf(VarsCPX))),
    Entry("CPY", VarDef(VarsCPY, SizeOf(VarsCPY))),
    Entry("DEC", VarDef(VarsDEC, SizeOf(VarsDEC))),
    Entry("DEX", VarDef(VarsDEX, SizeOf(VarsDEX))),
    Entry("DEY", VarDef(VarsDEY, SizeOf(VarsDEY)))
  ]

  const OpsPart6: seq<Row<VarDef>> := [
    Entry("EOR", VarDef(VarsEOR, SizeOf(VarsEOR))),
    Entry("INC", VarDef(VarsINC, SizeOf(VarsINC))),
    Entry("INX", VarDef(VarsINX, SizeOf(VarsINX))),
    Entry("INY", VarDef(VarsINY, SizeOf(VarsINY))),
    Entry("JMP", VarDef(VarsJMP, SizeOf(VarsJMP))),
    Entry("JSR", VarDef(VarsJSR, SizeOf(VarsJSR))),
    Entry("LDA", VarDef(VarsLDA, SizeOf(VarsLDA))),
    Entry("LDX", VarDef(VarsLDX, SizeOf(VarsLDX)))
  ]

  const OpsPart7: seq<Row<VarDef>> := [
    Entry("LDY", VarDef(VarsLDY, SizeOf(VarsLDY))),
    Entry("LSR", VarDef(VarsLSR, SizeOf(VarsLSR))),
    Entry("NOP", VarDef(VarsNOP, SizeOf(VarsNOP))),
    Entry("ORA", VarDef(VarsORA, SizeOf(VarsORA))),
    Entry("PHA", VarDef(VarsPHA, SizeOf(VarsPHA))),
    Entry("PHP", VarDef(VarsPHP, SizeOf(VarsPHP))),
    Entry("PHX", VarDef(VarsPHX, SizeOf(VarsPHX))),
    Entry("PHY", VarDef(VarsPHY, SizeOf(VarsPHY)))
  ]

  const OpsPart8: seq<Row<VarDef>> := [
    Entry("PLA", VarDef(VarsPLA, SizeOf(VarsPLA))),
    Entry("PLP", VarDef(VarsPLP, SizeOf(VarsPLP))),
    Entry("PLX", VarDef(VarsPLX, SizeOf(VarsPLX))),
    Entry("PLY", VarDef(VarsPLY, SizeOf(VarsPLY))),
    Entry("RMB0", VarDef(VarsRMB0, SizeOf(VarsRMB0))),
    Entry("RMB1", VarDef(VarsRMB1, SizeOf(VarsRMB1))),
    Entry("RMB2", VarDef(VarsRMB2, SizeOf(VarsRMB2))),
    Entry("RMB3", VarDef(VarsRMB3, SizeOf(VarsRMB3)))
  ]

  const OpsPart9: seq<Row<VarDef>> := [
    Entry("RMB4", VarDef(VarsRMB4, SizeOf(VarsRMB4))),
    Entry("RMB5", VarDef(VarsRMB5, SizeOf(VarsRMB5))),
    Entry("RMB6", VarDef(VarsRMB6, SizeOf(VarsRMB6))),
    Entry("RMB7", VarDef(VarsRMB7, SizeOf(VarsRMB7))),
    Entry("ROL", VarDef(VarsROL, SizeOf(VarsROL))),
    Entry("ROR", VarDef(VarsROR, SizeOf(VarsROR))),
    Entry("RTI", VarDef(VarsRTI, SizeOf(VarsRTI))),
    Entry("RTS", VarDef(VarsRTS, SizeOf(VarsRTS)))
  ]

  const OpsPart10: seq<Row<VarDef>> := [
    Entry("SBC", VarDef(VarsSBC, SizeOf(VarsSBC))),
    Entry("SEC", VarDef(VarsSEC, SizeOf(VarsSEC))),
    Entry("SED", VarDef(VarsSED, SizeOf(VarsSED))),
    Entry("SEI", VarDef(VarsSEI, SizeOf(VarsSEI))),
    Entry("SMB0", VarDef(VarsSMB0, SizeOf(VarsSMB0))),
    Entry("SMB1", VarDef(VarsSMB1, SizeOf(VarsSMB1))),
    Entry("SMB2", VarDef(VarsSMB2, SizeOf(VarsSMB2))),
    Entry("SMB3", VarDef(VarsSMB3, SizeOf(VarsSMB3)))
  ]

  const OpsPart11: seq<Row<VarDef>> := [
    Entry("SMB4", VarDef(VarsSMB4, SizeOf(VarsSMB4))),
    Entry("SMB5", VarDef(VarsSMB5, SizeOf(VarsSMB5))),
    Entry("SMB6", VarDef(VarsSMB6, SizeOf(VarsSMB6))),
    Entry("SMB7", VarDef(VarsSMB7, SizeOf(VarsSMB7))),
    Entry("STA", VarDef(VarsSTA, SizeOf(VarsSTA))),
    Entry("STP", VarDef(VarsSTP, SizeOf(VarsSTP))),
    Entry("STX", VarDef(VarsSTX, SizeOf(VarsSTX))),
    Entry("STY", VarDef(VarsSTY, SizeOf(VarsSTY)))
  ]

  const OpsPart12: seq<Row<VarDef>> := [
    Entry("STZ", VarDef(VarsSTZ, SizeOf(VarsSTZ))),
    Entry("TAX", VarDef(VarsTAX, SizeOf(VarsTAX))),
    Entry("TAY", VarDef(VarsTAY, SizeOf(VarsTAY))),
    Entry("TRB", VarDef(VarsTRB, SizeOf(VarsTRB))),
    Entry("TSB", VarDef(VarsTSB, SizeOf(VarsTSB))),
    Entry("TSX", VarDef(VarsTSX, SizeOf(VarsTSX))),
    Entry("TXA", VarDef(VarsTXA, SizeOf(VarsTXA))),
    Entry("TXS", VarDef(VarsTXS, SizeOf(VarsTXS)))
  ]

  const OpsPart13: seq<Row<VarDef>> := [
    Entry("TYA", VarDef(VarsTYA, SizeOf(VarsTYA))),
    Entry("WAI", VarDef(VarsWAI, SizeOf(VarsWAI)))
  ]

  /** `ops[]` of the `OPCODES` variant; `count` holds `sizeof(vars_X)` in bytes. */
  const Ops: seq<Row<VarDef>> :=
    OpsPart1 + OpsPart2 + OpsPart3 + OpsPart4 + OpsPart5 + OpsPart6 + OpsPart7 + OpsPart8 + OpsPart9 + OpsPart10 + OpsPart11 + OpsPart12 + OpsPart13 + [Sentinel]

  /** The column order of the 14-column variant and of ext-qasm.c. */
  const Columns: seq<Mode> := [Imp, Acc, Imm, Zp, ZpX, ZpY, Abs, AbsX, AbsY, ZpIndX, ZpIndY, ZpInd, AbsInd, PcRel]

  const ColumnsPart1: seq<Row<seq<int>>> := [
    Entry("ADC", [-1, -1, 0x69, 0x65, 0x75, -1, 0x6D, 0x7D, 0x79, 0x61, 0x71, 0x72, -1, -1]),
    Entry("AND", [-1, -1, 0x29, 0x25, 0x35, -1, 0x2D, 0x3D, 0x39, 0x21, 0x31, 0x32, -1, -1]),
    Entry("ASL", [0x0A, 0x0A, -1, 0x06, 0x16, -1, 0x0E, 0x1E, -1, -1, -1, -1, -1, -1]),
    Entry("BCC", [-1, -1, -1, -1, -1, -1, -1, -1, -1, -1, -1, -1, -1, 0x90]),
    Entry("BCS", [-1, -1, -1, -1, -1, -1, -1, -1, -1, -1, -1, -1, -1, 0xB0]),
    Entry("BEQ", [-1, -1, -1, -1, -1, -1, -1, -1, -1, -1, -1, -1, -1, 0xF0]),
    Entry("BMI", [-1, -1, -1, -1, -1, -1, -1, -1, -1, -1, -1, -1, -1, 0x30]),
    Entry("BNE", [-1, -1, -1, -1, -1, -1, -1, -1, -1, -1, -1, -1, -1, 0xD0])
  ]

  const ColumnsPart2: seq<Row<seq<int>>> := [
    Entry("BPL", [-1, -1, -1, -1, -1, -1, -1, -1, -1, -1, -1, -1, -1, 0x10]),
    Entry("BRA", [-1, -1, -1, -1, -1, -1, -1, -1, -1, -1, -1, -1, -1, 0x80]),
    Entry("BRK", [0x00, -1, -1, -1, -1, -1, -1, -1, -1, -1, -1, -1, -1, -1]),
    Entry("BVC", [-1, -1, -1, -1, -1, -1, -1, -1, -1, -1, -1, -1, -1, 0x50]),
    Entry("BVS", [-1, -1, -1, -1, -1, -1, -1, -1, -1, -1, -1, -1, -1, 0x70]),
    Entry("CLC", [0x18, -1, -1, -1, -1, -1, -1, -1, -1, -1, -1, -1, -1, -1]),
    Entry("CLD", [0xD8, -1, -1, -1, -1, -1, -1, -1, -1, -1, -1, -1, -1, -1]),
    Entry("CLI", [0x58, -1, -1, -1, -1, -1, -1, -1, -1, -1, -1, -1, -1, -1])
  ]

  const ColumnsPart3: seq<Row<seq<int>>> := [
    Entry("CLV", [0xB8, -1, -1, -1, -1, -1, -1, -1, -1, -1, -1, -1, -1, -1]),
    Entry("CMP", [-1, -1, 0xC9, 0xC5, 0xD5, -1, 0xCD, 0xDD, 0xD9, 0xC1, 0xD1, 0xD2, -1, -1]),
    Entry("CPX", [-1, -1, 0xE0, 0xE4, -1, -1, 0xEC, -1, -1, -1, -1, -1, -1, -1]),
    Entry("CPY", [-1, -1, 0xC0, 0xC4, -1, -1, 0xCC, -1, -1, -1, -1, -1, -1, -1]),
    Entry("DEC", [-1, -1, -1, 0xC6, 0xD6, -1, 0xCE, 0xDE, -1, -1, -1, -1, -1, -1]),
    Entry("EOR", [-1, -1, 0x49, 0x45, 0x55, -1, 0x4D, 0x5D, 0x59, 0x41, 0x51, 0x52, -1, -1]),
    Entry("INC", [-1, -1, -1, 0xE6, 0xF6, -1, 0xEE, 0xFE, -1, -1, -1, -1, -1, -1]),
    Entry("INX", [0xE8, -1, -1, -1, -1, -1, -1, -1, -1, -1, -1, -1, -1, -1])
  ]

  const ColumnsPart4: seq<Row<seq<int>>> := [
    Entry("INY", [0xC8, -1, -1, -1, -1, -1, -1, -1, -1, -1, -1, -1, -1, -1]),
    Entry("JMP", [-1, -1, -1, -1, -1, -1, 0x4C, -1, -1, -1, -1, -1, 0x6C, -1]),
    Entry("JSR", [-1, -1, -1, -1, -1, -1, 0x20, -1, -1, -1, -1, -1, -1, -1]),
    Entry("LDA", [-1, -1, 0xA9, 0xA5, 0xB5, -1, 0xAD, 0xBD, 0xB9, 0xA1, 0xB1, 0xB2, -1, -1]),
    Entry("LDX", [-1, -1, 0xA2, 0xA6, -1, 0xB6, 0xAE, 0xBE, -1, -1, -1, -1, -1, -1]),
    Entry("LDY", [-1, -1, 0xA0, 0xA4, 0xB4, -1, 0xAC, 0xBC, -1, -1, -1, -1, -1, -1]),
    Entry("LSR", [0x4A, 0x4A, -1, 0x46, 0x56, -1, 0x4E, 0x5E, -1, -1, -1, -1, -1, -1]),
    Entry("NOP", [0xEA, -1, -1, -1, -1, -1, -1, -1, -1, -1, -1, -1, -1, -1])
  ]

  const ColumnsPart5: seq<Row<seq<int>>> := [
    Entry("ORA", [-1, -1, 0x09, 0x05, 0x15, -1, 0x0D, 0x1D, 0x19, 0x01, 0x11, 0x12, -1, -1]),
    Entry("PHA", [0x48, -1, -1, -1, -1, -1, -1, -1, -1, -1, -1, -1, -1, -1]),
    Entry("PHP", [0x08, -1, -1, -1, -1, -1, -1, -1, -1, -1, -1, -1, -1, -1]),
    Entry("PLA", [0x68, -1, -1, -1, -1, -1, -1, -1, -1, -1, -1, -1, -1, -1]),
    Entry("PLP", [0x28, -1, -1, -1, -1, -1, -1, -1, -1, -1, -1, -1, -1, -1]),
    Entry("ROL", [0x2A, 0x2A, -1, 0x26, 0x36, -1, 0x2E, 0x3E, -1, -1, -1, -1, -1, -1]),
    Entry("ROR", [0x6A, 0x6A, -1, 0x66, 0x76, -1, 0x6E, 0x7E, -1, -1, -1, -1, -1, -1]),
    Entry("RTI", [0x40, -1, -1, -1, -1, -1, -1, -1, -1, -1, -1, -1, -1, -1])
  ]

  const ColumnsPart6: seq<Row<seq<int>>> := [
    Entry("RTS", [0x60, -1, -1, -1, -1, -1, -1, -1, -1, -1, -1, -1, -1, -1]),
    Entry("SBC", [-1, -1, 0xE9, 0xE5, 0xF5, -1, 0xED, 0xFD, 0xF9, 0xE1, 0xF1, 0xF2, -1, -1]),
    Entry("SEC", [0x38, -1, -1, -1, -1, -1, -1, -1, -1, -1, -1, -1, -1, -1]),
    Entry("SED", [0xF8, -1, -1, -1, -1, -1, -1, -1, -1, -1, -1, -1, -1, -1]),
    Entry("SEI", [0x78, -1, -1, -1, -1, -1, -1, -1, -1, -1, -1, -1, -1, -1]),
    Entry("STA", [-1, -1, -1, 0x85, 0x95, -1, 0x8D, 0x9D, 0x99, 0x81, 0x91, 0x92, -1, -1]),
    Entry("STX", [-1, -1, -1, 0x86, -1, 0x96, 0x8E, -1, -1, -1, -1, -1, -1, -1]),
    Entry("STY", [-1, -1, -1, 0x84, 0x94, -1, 0x8C, -1, -1, -1, -1, -1, -1, -1])
  ]

  const ColumnsPart7: seq<Row<seq<int>>> := [
    Entry("STZ", [-1, -1, -1, 0x64, 0x74, -1, 0x9C, 0x9E, -1, -1, -1, -1, -1, -1]),
    Entry("TAX", [0xAA, -1, -1, -1, -1, -1, -1, -1, -1, -1, -1, -1, -1, -1]),
    Entry("TAY", [0xA8, -1, -1, -1, -1, -1, -1, -1, -1, -1, -1, -1, -1, -1]),
    Entry("TSX", [0xBA, -1, -1, -1, -1, -1, -1, -1, -1, -1, -1, -1, -1, -1]),
    Entry("TXA", [0x8A, -1, -1, -1, -1, -1, -1, -1, -1, -1, -1, -1, -1, -1]),
    Entry("TXS", [0x9A, -1, -1, -1, -1, -1, -1, -1, -1, -1, -1, -1, -1, -1]),
    Entry("TYA", [0x98, -1, -1, -1, -1, -1, -1, -1, -1, -1, -1, -1, -1, -1])
  ]

  /** `ops[]` of the variant without `OPCODES`: -1 (`XXXX`) marks a missing mode. */
  const OpTable: seq<Row<seq<int>>> :=
    ColumnsPart1 + ColumnsPart2 + ColumnsPart3 + ColumnsPart4 + ColumnsPart5 + ColumnsPart6 + ColumnsPart7 + [Sentinel]

  /** The relative branches of the 14-column table. */
  const Branches: set<string> := {"BCC", "BCS", "BEQ", "BMI", "BNE", "BPL", "BRA", "BVC", "BVS"}

  /** `is_branch_mnemonic` of ext-mass.c and ext-hass.c. */
  const RelativeMnemonics: set<string> :=
    {"BRA", "BCC", "BCS", "BEQ", "BMI", "BNE", "BPL", "BVC", "BVS",
     "BBR0", "BBR1", "BBR2", "BBR3", "BBR4", "BBR5", "BBR6", "BBR7",
     "BBS0", "BBS1", "BBS2", "BBS3", "BBS4", "BBS5", "BBS6", "BBS7"}

  /** `is_stack_mnemonic` of ext-mass.c and ext-hass.c. */
  const StackMnemonics: set<string> :=
    {"BRK", "PHA", "PHP", "PHX", "PHY", "PLA", "PLP", "PLX", "PLY", "RTI", "RTS"}

  /**
   * `map_mode_to_op`: an implied operand of a stack mnemonic is looked up
   * under the stack mode.
   */
  function MapMode(m: Mode, mn: string): (r: Mode)
    ensures m != Stack ==> (r == Stack <==> m == Imp && mn in StackMnemonics)
    ensures r != Stack ==> r == m
  {
    if m == Imp && mn in StackMnemonics then Stack else m
  }

  /** The shifts and rotates, whose implied and accumulator forms are one opcode. */
  const Shifts: set<string> := {"ASL", "LSR", "ROL", "ROR"}

  /** The cell of `row` for mode `m`, or -1 when `m` has no column. */
  function Cell(row: seq<int>, m: Mode): (r: int)
    ensures forall c :: 0 <= c < |Columns| && c < |row| && Columns[c] == m ==> r == row[c]
    ensures m !in Columns ==> r == -1
  {
    if m in Columns then
      var c :| 0 <= c < |Columns| && Columns[c] == m;
      if c < |row| then row[c] else -1
    else -1
  }

  /**
   * The facts the 14-column table keeps row by row: 14 cells, each -1 or an
   * opcode; an opcode in the relative column exactly for a branch, which has
   * no other; an accumulator opcode exactly for a shift or rotate, equal to
   * its implied opcode.
   */
  predicate WellFormedRow(r: Row<seq<int>>)
  {
    r.Entry? ==>
      |r.body| == |Columns|
      && (r.body[13] >= 0 <==> r.name in Branches)
      && (r.name in Branches ==> r.body == [-1, -1, -1, -1, -1, -1, -1, -1, -1, -1, -1, -1, -1, r.body[13]])
      && (r.body[1] >= 0 <==> r.name in Shifts)
      && (r.name in Shifts ==> r.body[0] == r.body[1])
  }

  /** The facts the `OPCODES` table keeps row by row. */
  predicate WellFormedDef(r: Row<VarDef>)
  {
    r.Entry? ==> r.body.count == SizeOf(r.body.vars)
  }

  /** Rows `i` onwards of `t` are entries that satisfy `ok`. */
  predicate EntriesFrom<T>(t: seq<Row<T>>, i: nat, ok: Row<T> -> bool)
    decreases |t| - i
  {
    i >= |t| || (t[i].Entry? && ok(t[i]) && EntriesFrom(t, i + 1, ok))
  }

  lemma {:induction false} EntriesFromMeans<T>(t: seq<Row<T>>, i: nat, ok: Row<T> -> bool)
    requires EntriesFrom(t, i, ok)
    ensures forall j :: i <= j < |t| ==> t[j].Entry? && ok(t[j])
    decreases |t| - i
  {
    if i < |t| {
      EntriesFromMeans(t, i + 1, ok);
    }
  }

  /*
   * The per-part lemmas below evaluate `EntriesFrom` on one literal part of a
   * table at a time; the whole table at once is beyond the solver's budget.
   */

  lemma OpsPart1Ok()
    ensures forall j :: 0 <= j < |OpsPart1| ==> OpsPart1[j].Entry? && WellFormedDef(OpsPart1[j])
  {
    assert EntriesFrom(OpsPart1, 7, WellFormedDef);
    assert EntriesFrom(OpsPart1, 6, WellFormedDef);
    assert EntriesFrom(OpsPart1, 5, WellFormedDef);
    assert EntriesFrom(OpsPart1, 4, WellFormedDef);
    assert EntriesFrom(OpsPart1, 3, WellFormedDef);
    assert EntriesFrom(OpsPart1, 2, WellFormedDef);
    assert EntriesFrom(OpsPart1, 1, WellFormedDef);
    assert EntriesFrom(OpsPart1, 0, WellFormedDef);
    EntriesFromMeans(OpsPart1, 0, WellFormedDef);
  }

  lemma OpsPart2Ok()
    ensures forall j :: 0 <= j < |OpsPart2| ==> OpsPart2[j].Entry? && WellFormedDef(OpsPart2[j])
  {
    assert EntriesFrom(OpsPart2, 7, WellFormedDef);
    assert EntriesFrom(OpsPart2, 6, WellFormedDef);
    assert EntriesFrom(OpsPart2, 5, WellFormedDef);
    assert EntriesFrom(OpsPart2, 4, WellFormedDef);
    assert EntriesFrom(OpsPart2, 3, WellFormedDef);
    assert EntriesFrom(OpsPart2, 2, WellFormedDef);
    assert EntriesFrom(OpsPart2, 1, WellFormedDef);
    assert EntriesFrom(OpsPart2, 0, WellFormedDef);
    EntriesFromMeans(OpsPart2, 0, WellFormedDef);
  }

  lemma OpsPart3Ok()
    ensures forall j :: 0 <= j < |OpsPart3| ==> OpsPart3[j].Entry? && WellFormedDef(OpsPart3[j])
  {
    assert EntriesFrom(OpsPart3, 7, WellFormedDef);
    assert EntriesFrom(OpsPart3, 6, WellFormedDef);
    assert EntriesFrom(OpsPart3, 5, WellFormedDef);
    assert EntriesFrom(OpsPart3, 4, WellFormedDef);
    assert EntriesFrom(OpsPart3, 3, WellFormedDef);
    assert EntriesFrom(OpsPart3, 2, WellFormedDef);
    assert EntriesFrom(OpsPart3, 1, WellFormedDef);
    assert EntriesFrom(OpsPart3, 0, WellFormedDef);
    EntriesFromMeans(OpsPart3, 0, WellFormedDef);
  }

  lemma OpsPart4Ok()
    ensures forall j :: 0 <= j < |OpsPart4| ==> OpsPart4[j].Entry? && WellFormedDef(OpsPart4[j])
  {
    assert EntriesFrom(OpsPart4, 7, WellFormedDef);
    assert EntriesFrom(OpsPart4, 6, WellFormedDef);
    assert EntriesFrom(OpsPart4, 5, WellFormedDef);
    assert EntriesFrom(OpsPart4, 4, WellFormedDef);
    assert EntriesFrom(OpsPart4, 3, WellFormedDef);
    assert EntriesFrom(OpsPart4, 2, WellFormedDef);
    assert EntriesFrom(OpsPart4, 1, WellFormedDef);
    assert EntriesFrom(OpsPart4, 0, WellFormedDef);
    EntriesFromMeans(OpsPart4, 0, WellFormedDef);
  }

  lemma OpsPart5Ok()
    ensures forall j :: 0 <= j < |OpsPart5| ==> OpsPart5[j].Entry? && WellFormedDef(OpsPart5[j])
  {
    assert EntriesFrom(OpsPart5, 7, WellFormedDef);
    assert EntriesFrom(OpsPart5, 6, WellFormedDef);
    assert EntriesFrom(OpsPart5, 5, WellFormedDef);
    assert EntriesFrom(OpsPart5, 4, WellFormedDef);
    assert EntriesFrom(OpsPart5, 3, WellFormedDef);
    assert EntriesFrom(OpsPart5, 2, WellFormedDef);
    assert EntriesFrom(OpsPart5, 1, WellFormedDef);
    assert EntriesFrom(OpsPart5, 0, WellFormedDef);
    EntriesFromMeans(OpsPart5, 0, WellFormedDef);
  }

  lemma OpsPart6Ok()
    ensures forall j :: 0 <= j < |OpsPart6| ==> OpsPart6[j].Entry? && WellFormedDef(OpsPart6[j])
  {
    assert EntriesFrom(OpsPart6, 7, WellFormedDef);
    assert EntriesFrom(OpsPart6, 6, WellFormedDef);
    assert EntriesFrom(OpsPart6, 5, WellFormedDef);
    assert EntriesFrom(OpsPart6, 4, WellFormedDef);
    assert EntriesFrom(OpsPart6, 3, WellFormedDef);
    assert EntriesFrom(OpsPart6, 2, WellFormedDef);
    assert EntriesFrom(OpsPart6, 1, WellFormedDef);
    assert EntriesFrom(OpsPart6, 0, WellFormedDef);
    EntriesFromMeans(OpsPart6, 0, WellFormedDef);
  }

  lemma OpsPart7Ok()
    ensures forall j :: 0 <= j < |OpsPart7| ==> OpsPart7[j].Entry? && WellFormedDef(OpsPart7[j])
  {
    assert EntriesFrom(OpsPart7, 7, WellFormedDef);
    assert EntriesFrom(OpsPart7, 6, WellFormedDef);
    assert EntriesFrom(OpsPart7, 5, WellFormedDef);
    assert EntriesFrom(OpsPart7, 4, WellFormedDef);
    assert EntriesFrom(OpsPart7, 3, WellFormedDef);
    assert EntriesFrom(OpsPart7, 2, WellFormedDef);
    assert EntriesFrom(OpsPart7, 1, WellFormedDef);
    assert EntriesFrom(OpsPart7, 0, WellFormedDef);
    EntriesFromMeans(OpsPart7, 0, WellFormedDef);
  }

  lemma OpsPart8Ok()
    ensures forall j :: 0 <= j < |OpsPart8| ==> OpsPart8[j].Entry? && WellFormedDef(OpsPart8[j])
  {
    assert EntriesFrom(OpsPart8, 7, WellFormedDef);
    assert EntriesFrom(OpsPart8, 6, WellFormedDef);
    assert EntriesFrom(OpsPart8, 5, WellFormedDef);
    assert EntriesFrom(OpsPart8, 4, WellFormedDef);
    assert EntriesFrom(OpsPart8, 3, WellFormedDef);
    assert EntriesFrom(OpsPart8, 2, WellFormedDef);
    assert EntriesFrom(OpsPart8, 1, WellFormedDef);
    assert EntriesFrom(OpsPart8, 0, WellFormedDef);
    EntriesFromMeans(OpsPart8, 0, WellFormedDef);
  }

  lemma OpsPart9Ok()
    ensures forall j :: 0 <= j < |OpsPart9| ==> OpsPart9[j].Entry? && WellFormedDef(OpsPart9[j])
  {
    assert EntriesFrom(OpsPart9, 7, WellFormedDef);
    assert EntriesFrom(OpsPart9, 6, WellFormedDef);
    assert EntriesFrom(OpsPart9, 5, WellFormedDef);
    assert EntriesFrom(OpsPart9, 4, WellFormedDef);
    assert EntriesFrom(OpsPart9, 3, WellFormedDef);
    assert EntriesFrom(OpsPart9, 2, WellFormedDef);
    assert EntriesFrom(OpsPart9, 1, WellFormedDef);
    assert EntriesFrom(OpsPart9, 0, WellFormedDef);
    EntriesFromMeans(OpsPart9, 0, WellFormedDef);
  }

  lemma OpsPart10Ok()
    ensures forall j :: 0 <= j < |OpsPart10| ==> OpsPart10[j].Entry? && WellFormedDef(OpsPart10[j])
  {
    assert EntriesFrom(OpsPart10, 7, WellFormedDef);
    assert EntriesFrom(OpsPart10, 6, WellFormedDef);
    assert EntriesFrom(OpsPart10, 5, WellFormedDef);
    assert EntriesFrom(OpsPart10, 4, WellFormedDef);
    assert EntriesFrom(OpsPart10, 3, WellFormedDef);
    assert EntriesFrom(OpsPart10, 2, WellFormedDef);
    assert EntriesFrom(OpsPart10, 1, WellFormedDef);
    assert EntriesFrom(OpsPart10, 0, WellFormedDef);
    EntriesFromMeans(OpsPart10, 0, WellFormedDef);
  }

  lemma OpsPart11Ok()
    ensures forall j :: 0 <= j < |OpsPart11| ==> OpsPart11[j].Entry? && WellFormedDef(OpsPart11[j])
  {
    assert EntriesFrom(OpsPart11, 7, WellFormedDef);
    assert EntriesFrom(OpsPart11, 6, WellFormedDef);
    assert EntriesFrom(OpsPart11, 5, WellFormedDef);
    assert EntriesFrom(OpsPart11, 4, WellFormedDef);
    assert EntriesFrom(OpsPart11, 3, WellFormedDef);
    assert EntriesFrom(OpsPart11, 2, WellFormedDef);
    assert EntriesFrom(OpsPart11, 1, WellFormedDef);
    assert EntriesFrom(OpsPart11, 0, WellFormedDef);
    EntriesFromMeans(OpsPart11, 0, WellFormedDef);
  }

  lemma OpsPart12Ok()
    ensures forall j :: 0 <= j < |OpsPart12| ==> OpsPart12[j].Entry? && WellFormedDef(OpsPart12[j])
  {
    assert EntriesFrom(OpsPart12, 7, WellFormedDef);
    assert EntriesFrom(OpsPart12, 6, WellFormedDef);
    assert EntriesFrom(OpsPart12, 5, WellFormedDef);
    assert EntriesFrom(OpsPart12, 4, WellFormedDef);
    assert EntriesFrom(OpsPart12, 3, WellFormedDef);
    assert EntriesFrom(OpsPart12, 2, WellFormedDef);
    assert EntriesFrom(OpsPart12, 1, WellFormedDef);
    assert EntriesFrom(OpsPart12, 0, WellFormedDef);
    EntriesFromMeans(OpsPart12, 0, WellFormedDef);
  }

  lemma OpsPart13Ok()
    ensures forall j :: 0 <= j < |OpsPart13| ==> OpsPart13[j].Entry? && WellFormedDef(OpsPart13[j])
  {
    assert EntriesFrom(OpsPart13, 1, WellFormedDef);
    assert EntriesFrom(OpsPart13, 0, WellFormedDef);
    EntriesFromMeans(OpsPart13, 0, WellFormedDef);
  }

  /**
   * `count` is initialised with `sizeof(vars_X)`, and `opvar_t` is two bytes,
   * so every count is twice the number of variants the scan may use.
   */
  lemma DefsWellFormed()
    ensures Terminated(Ops)
    ensures forall j :: 0 <= j < |Ops| - 1 ==> Ops[j].body.count == 2 * |Ops[j].body.vars|
  {
    OpsPart1Ok();
    OpsPart2Ok();
    OpsPart3Ok();
    OpsPart4Ok();
    OpsPart5Ok();
    OpsPart6Ok();
    OpsPart7Ok();
    OpsPart8Ok();
    OpsPart9Ok();
    OpsPart10Ok();
    OpsPart11Ok();
    OpsPart12Ok();
    OpsPart13Ok();
  }

  /** Every row of the 14-column table satisfies `WellFormedRow`. */
  lemma ColumnsPart1Ok()
    ensures forall j :: 0 <= j < |ColumnsPart1| ==> ColumnsPart1[j].Entry? && WellFormedRow(ColumnsPart1[j])
  {
    ColumnsPart1Tail();
    assert EntriesFrom(ColumnsPart1, 0, WellFormedRow);
    EntriesFromMeans(ColumnsPart1, 0, WellFormedRow);
  }

  lemma ColumnsPart1Tail()
    ensures EntriesFrom(ColumnsPart1, 4, WellFormedRow)
  {
  }

  lemma ColumnsPart2Ok()
    ensures forall j :: 0 <= j < |ColumnsPart2| ==> ColumnsPart2[j].Entry? && WellFormedRow(ColumnsPart2[j])
  {
    ColumnsPart2Tail();
    assert EntriesFrom(ColumnsPart2, 0, WellFormedRow);
    EntriesFromMeans(ColumnsPart2, 0, WellFormedRow);
  }

  lemma ColumnsPart2Tail()
    ensures EntriesFrom(ColumnsPart2, 4, WellFormedRow)
  {
  }

  lemma ColumnsPart3Ok()
    ensures forall j :: 0 <= j < |ColumnsPart3| ==> ColumnsPart3[j].Entry? && WellFormedRow(ColumnsPart3[j])
  {
    ColumnsPart3Tail();
    assert EntriesFrom(ColumnsPart3, 0, WellFormedRow);
    EntriesFromMeans(ColumnsPart3, 0, WellFormedRow);
  }

  lemma ColumnsPart3Tail()
    ensures EntriesFrom(ColumnsPart3, 4, WellFormedRow)
  {
  }

  lemma ColumnsPart4Ok()
    ensures forall j :: 0 <= j < |ColumnsPart4| ==> ColumnsPart4[j].Entry? && WellFormedRow(ColumnsPart4[j])
  {
    ColumnsPart4Tail();
    assert EntriesFrom(ColumnsPart4, 0, WellFormedRow);
    EntriesFromMeans(ColumnsPart4, 0, WellFormedRow);
  }

  lemma ColumnsPart4Tail()
    ensures EntriesFrom(ColumnsPart4, 4, WellFormedRow)
  {
  }

  lemma ColumnsPart5Ok()
    ensures forall j :: 0 <= j < |ColumnsPart5| ==> ColumnsPart5[j].Entry? && WellFormedRow(ColumnsPart5[j])
  {
    ColumnsPart5Tail();
    assert EntriesFrom(ColumnsPart5, 0, WellFormedRow);
    EntriesFromMeans(ColumnsPart5, 0, WellFormedRow);
  }

  lemma ColumnsPart5Tail()
    ensures EntriesFrom(ColumnsPart5, 4, WellFormedRow)
  {
  }

  lemma ColumnsPart6Ok()
    ensures forall j :: 0 <= j < |ColumnsPart6| ==> ColumnsPart6[j].Entry? && WellFormedRow(ColumnsPart6[j])
  {
    ColumnsPart6Tail();
    assert EntriesFrom(ColumnsPart6, 0, WellFormedRow);
    EntriesFromMeans(ColumnsPart6, 0, WellFormedRow);
  }

  lemma ColumnsPart6Tail()
    ensures EntriesFrom(ColumnsPart6, 4, WellFormedRow)
  {
  }

  lemma ColumnsPart7Ok()
    ensures forall j :: 0 <= j < |ColumnsPart7| ==> ColumnsPart7[j].Entry? && WellFormedRow(ColumnsPart7[j])
  {
    ColumnsPart7Tail();
    assert EntriesFrom(ColumnsPart7, 0, WellFormedRow);
    EntriesFromMeans(ColumnsPart7, 0, WellFormedRow);
  }

  lemma ColumnsPart7Tail()
    ensures EntriesFrom(ColumnsPart7, 4, WellFormedRow)
  {
  }

  lemma RowsWellFormed()
    ensures Terminated(OpTable) && forall j :: 0 <= j < |OpTable| ==> WellFormedRow(OpTable[j])
  {
    ColumnsPart1Ok();
    ColumnsPart2Ok();
    ColumnsPart3Ok();
    ColumnsPart4Ok();
    ColumnsPart5Ok();
    ColumnsPart6Ok();
    ColumnsPart7Ok();
  }

  /**
   * In the 14-column table a row has an opcode in the relative column exactly
   * when it is a branch, and a branch has no opcode in any other column.
   */
  lemma BranchesOnlyRelative(j: nat)
    requires j < |OpTable| && OpTable[j].Entry?
    ensures |OpTable[j].body| == 14
    ensures OpTable[j].body[13] >= 0 <==> OpTable[j].name in Branches
    ensures OpTable[j].name in Branches ==> forall c :: 0 <= c < 13 ==> OpTable[j].body[c] == -1
  {
    RowsWellFormed();
    assert WellFormedRow(OpTable[j]);
  }

  /**
   * The accumulator column is filled exactly for the shifts and rotates, and
   * for them it holds the same opcode as the implied column.
   */
  lemma ShiftsShareImpliedAndAccumulator(j: nat)
    requires j < |OpTable| && OpTable[j].Entry?
    ensures |OpTable[j].body| == 14
    ensures OpTable[j].body[1] >= 0 <==> OpTable[j].name in Shifts
    ensures OpTable[j].name in Shifts ==> OpTable[j].body[0] == OpTable[j].body[1] >= 0
  {
    RowsWellFormed();
    assert WellFormedRow(OpTable[j]);
  }

  /**
   * The scan as written reads `count` slots, twice the variants: for `INC`
   * with no operand (implied mode, which `INC` lacks) it runs into the
   * variants stored next, and when `vars_INX` follows `vars_INC` in memory,
   * as declared, it returns `INX`'s opcode $E8. The same holds for `DEC`
   * and `DEX` ($CA).
   */
  lemma IncScansIntoInx(rest: seq<OpVar>)
    requires |rest| >= 4
    ensures Lookup((VarsINC + VarsINX + rest)[..SizeOf(VarsINC)], Imp) == Some(0xE8)
    ensures Lookup((VarsDEC + VarsDEX + rest)[..SizeOf(VarsDEC)], Imp) == Some(0xCA)
    ensures Lookup(VarsINC, Imp).None? && Lookup(VarsDEC, Imp).None?
  {
    assert (VarsINC + VarsINX + rest)[..10] == VarsINC + (VarsINX + rest[..4]);
    LookupAppend(VarsINC, VarsINX + rest[..4], Imp);
    assert (VarsDEC + VarsDEX + rest)[..10] == VarsDEC + (VarsDEX + rest[..4]);
    LookupAppend(VarsDEC, VarsDEX + rest[..4], Imp);
  }

  /** A lookup over two runs of variants finds the first run's variant if it has one. */
  lemma {:induction false} LookupAppend(a: seq<OpVar>, b: seq<OpVar>, m: Mode)
    ensures Lookup(a + b, m) == if Lookup(a, m).Some? then Lookup(a, m) else Lookup(b, m)
  {
    if a != [] {
      assert (a + b)[1..] == a[1..] + b;
      LookupAppend(a[1..], b, m);
    } else {
      assert a + b == b;
    }
  }
}
