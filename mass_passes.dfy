/**
 * The two passes of ext-mass.c and ext-hass.c over the stored lines, the
 * output area in XRAM that pass 2 fills through `emit_at`, and `save_bin`.
 * The functions are the specification; `Assembler` is the program's state
 * and its methods are the passes, proved against the functions.
 */
module MassPasses {
  import opened Common
  import opened Opcodes
  import opened Mass
  import opened MassOperands
  import opened MassLines

  // ---------------------------------------------------------------------
  // Pass 2's output area
  // ---------------------------------------------------------------------

  /** What pass 2 keeps: `pc`, the `MAXOUT` output bytes, and the error flag. */
  datatype Image = Image(pc: nat, out: seq<byte>, failed: bool)

  /** Where `emit_at` writes a byte for address `at`, if it does. */
  predicate InArea(addr: nat, org: nat)
  {
    org <= addr && addr - org < MaxOut
  }

  /**
   * `emit_at(b, pc++)`: a byte before `org` or `MAXOUT` bytes past it is
   * refused (ext-hass.c flags it), any other is stored at `at - org`; `pc`
   * moves on, wrapping at $10000.
   */
  function Put(im: Image, org: nat, b: byte): (r: Image)
    requires |im.out| == MaxOut
    ensures |r.out| == MaxOut && r.pc == Wrap16(im.pc + 1)
    ensures InArea(im.pc, org) ==> r.out == im.out[im.pc - org := b] && r.failed == im.failed
    ensures !InArea(im.pc, org) ==> r.out == im.out && r.failed
  {
    var next := Wrap16(im.pc + 1);
    if InArea(im.pc, org) then Image(next, im.out[im.pc - org := b], im.failed)
    else Image(next, im.out, true)
  }

  /** The bytes of one line, one `emit_at` after the other. */
  function PutAll(im: Image, org: nat, bytes: seq<byte>): (r: Image)
    requires |im.out| == MaxOut
    ensures |r.out| == MaxOut && (im.pc < 0x10000 ==> r.pc < 0x10000)
  {
    if bytes == [] then im
    else Put(PutAll(im, org, bytes[..|bytes| - 1]), org, bytes[|bytes| - 1])
  }

  /** One more after `n` is `n + 1` further on, modulo $10000. */
  lemma Wrap16Step(x: nat, n: nat)
    ensures Wrap16(Wrap16(x + n) + 1) == Wrap16(x + (n + 1))
  {
  }

  /** After the bytes, `pc` is their count further on. */
  lemma {:induction false} PutAllPc(im: Image, org: nat, bytes: seq<byte>)
    requires |im.out| == MaxOut && im.pc < 0x10000
    ensures PutAll(im, org, bytes).pc == Wrap16(im.pc + |bytes|)
    decreases |bytes|
  {
    if bytes != [] {
      var n := |bytes| - 1;
      PutAllPc(im, org, bytes[..n]);
      Wrap16Step(im.pc, n);
    }
  }

  /**
   * Bytes that fit the area from `pc` on land one after the other at
   * `pc - org`, and nothing else changes.
   */
  lemma {:induction false} PutAllPlaces(im: Image, org: nat, bytes: seq<byte>)
    requires |im.out| == MaxOut && org <= im.pc && im.pc - org + |bytes| <= MaxOut && im.pc + |bytes| < 0x10000
    ensures var r := PutAll(im, org, bytes); var a := im.pc - org;
      r.out == im.out[..a] + bytes + im.out[a + |bytes|..] && r.failed == im.failed
    decreases |bytes|
  {
    var a := im.pc - org;
    if bytes == [] {
      assert im.out[..a] + [] + im.out[a..] == im.out;
    } else {
      var n := |bytes| - 1;
      PutAllPlaces(im, org, bytes[..n]);
      PutAllPc(im, org, bytes[..n]);
      var p := PutAll(im, org, bytes[..n]);
      assert p.pc == im.pc + n;
      assert InArea(p.pc, org);
      assert p.out[a + n := bytes[n]] == im.out[..a] + bytes + im.out[a + |bytes|..];
    }
  }

  /** A byte for an address outside the area marks the output failed. */
  lemma {:induction false} PutAllFlags(im: Image, org: nat, bytes: seq<byte>)
    requires |im.out| == MaxOut && im.failed
    ensures PutAll(im, org, bytes).failed
    decreases |bytes|
  {
    if bytes != [] {
      PutAllFlags(im, org, bytes[..|bytes| - 1]);
    }
  }

  /** Pass 2 on one line: from where the line starts, its bytes one by one. */
  function Pass2Step(d: Dialect, t: seq<Symbol>, org: nat, im: Image, line: string, complete: bool): (r: Image)
    requires |im.out| == MaxOut
    ensures |r.out| == MaxOut && (im.pc < 0x10000 ==> r.pc < 0x10000)
  {
    var e := Pass2Line(d, t, t, im.pc, line, complete);
    PutAll(Image(e.start, im.out, im.failed || e.failed), org, e.bytes)
  }

  /** `pass2` over the lines; the source picks modes and resolves in the final table `t`. */
  function Pass2Run(d: Dialect, t: seq<Symbol>, org: nat, im: Image, lines: seq<string>, complete: bool): (r: Image)
    requires |im.out| == MaxOut
    ensures |r.out| == MaxOut && (im.pc < 0x10000 ==> r.pc < 0x10000)
  {
    if lines == [] then im
    else Pass2Step(d, t, org, Pass2Run(d, t, org, im, lines[..|lines| - 1], complete), lines[|lines| - 1], complete)
  }

  /** After a line, `pc` is where the line's bytes end. */
  lemma Pass2StepPc(d: Dialect, t: seq<Symbol>, org: nat, im: Image, line: string, complete: bool)
    requires |im.out| == MaxOut && im.pc < 0x10000
    ensures Pass2Step(d, t, org, im, line, complete).pc == EndPc(Pass2Line(d, t, t, im.pc, line, complete))
  {
    var e := Pass2Line(d, t, t, im.pc, line, complete);
    PutAllPc(Image(e.start, im.out, im.failed || e.failed), org, e.bytes);
  }

  // ---------------------------------------------------------------------
  // The two passes agree
  // ---------------------------------------------------------------------

  /** Every line has labels that fit and a plain `.org`. */
  predicate Regular(d: Dialect, lines: seq<string>)
  {
    forall i :: 0 <= i < |lines| ==> LabelFits(lines[i]) && PlainOrg(d, lines[i])
  }

  /**
   * Pass 2 writes every operand pass 1 counted: either it emits the
   * `(abs,X)` operand (`complete`), or, as ext-mass.c is written, no line
   * is an `(abs,X)` instruction.
   */
  predicate Emitted(d: Dialect, lines: seq<string>, complete: bool)
  {
    complete || forall i :: 0 <= i < |lines| ==> NoAbsIndX(d, lines[i])
  }

  /** A run that gets through every line got through every prefix. */
  lemma {:induction false} Pass1Prefix(d: Dialect, s: Pass1State, lines: seq<string>, k: nat)
    requires k <= |lines| && Pass1Run(d, s, lines).Some?
    ensures Pass1Run(d, s, lines[..k]).Some?
    decreases |lines|
  {
    if k < |lines| {
      var n := |lines| - 1;
      assert Pass1Run(d, s, lines[..n]).Some?;
      Pass1Prefix(d, s, lines[..n], k);
      assert lines[..n][..k] == lines[..k];
    } else {
      assert lines[..k] == lines;
    }
  }

  /** Pass 1 started from a 16-bit `pc` ends on one. */
  lemma {:induction false} Pass1RunPc(d: Dialect, s: Pass1State, lines: seq<string>)
    requires s.pc < 0x10000 && Pass1Run(d, s, lines).Some?
    ensures Pass1Run(d, s, lines).value.pc < 0x10000
    decreases |lines|
  {
    if lines != [] {
      var n := |lines| - 1;
      Pass1RunPc(d, s, lines[..n]);
    }
  }

  /**
   * ext-mass.c: started from the same address, pass 2 ends where pass 1
   * ends, whatever the tables, so the saved length is the one pass 1
   * counted. As written (`complete` false) this needs a program without
   * `(abs,X)` instructions; with that operand emitted it holds for every
   * program.
   */
  lemma {:induction false} RunsAgree(d: Dialect, s: Pass1State, im: Image, t: seq<Symbol>, org: nat, lines: seq<string>, complete: bool)
    requires !d.symbolFits && |im.out| == MaxOut && s.pc < 0x10000 && im.pc == s.pc
    requires Regular(d, lines) && Emitted(d, lines, complete) && Pass1Run(d, s, lines).Some?
    ensures Pass2Run(d, t, org, im, lines, complete).pc == Pass1Run(d, s, lines).value.pc
    decreases |lines|
  {
    if lines != [] {
      var n := |lines| - 1;
      Pass1Prefix(d, s, lines, n);
      assert Regular(d, lines[..n]) && Emitted(d, lines[..n], complete);
      RunsAgree(d, s, im, t, org, lines[..n], complete);
      var s1 := Pass1Run(d, s, lines[..n]).value;
      var i1 := Pass2Run(d, t, org, im, lines[..n], complete);
      Pass1RunPc(d, s, lines[..n]);
      Pass2StepPc(d, t, org, i1, lines[n], complete);
      LineSizes(d, s1, lines[n], t, t, complete);
    }
  }

  /**
   * A line that is a plain `.org n` without a label: whatever `pc` it
   * meets, both passes leave it at `n`.
   */
  predicate OrgLine(d: Dialect, line: string, n: nat)
  {
    var g := Text(line);
    LabelFits(line) && Label1(g).None? && g != [] && Classify(g).Directive? && Classify(g).dir == ".ORG" &&
    ParseValue(Classify(g).rest, d.binary) == Num(n, Normal)
  }

  lemma OrgLineMoves(d: Dialect, s: Pass1State, im: Image, t: seq<Symbol>, org: nat, line: string, n: nat, complete: bool)
    requires OrgLine(d, line, n) && |im.out| == MaxOut && im.pc < 0x10000
    ensures Pass1Line(d, s, line).Some? && Pass1Line(d, s, line).value.pc == n
    ensures Pass1Line(d, s, line).value.org == if s.org == Unset then n else s.org
    ensures Pass2Step(d, t, org, im, line, complete).pc == n
  {
    OrgPass1(d, s, line, n);
    OrgPass2(d, t, im.pc, line, n, complete);
    Pass2StepPc(d, t, org, im, line, complete);
  }

  lemma OrgPass1(d: Dialect, s: Pass1State, line: string, n: nat)
    requires OrgLine(d, line, n)
    ensures Pass1Line(d, s, line) == Some(FixOrg(s.(pc := n)))
  {
    var g := Text(line);
    assert Labelled(s, line) == Some(s);
    assert Body1(line) == g;
    assert Directive1(d, s, ".ORG", Classify(g).rest) == Some(FixOrg(s.(pc := n)));
  }

  lemma OrgPass2(d: Dialect, t: seq<Symbol>, pc: nat, line: string, n: nat, complete: bool)
    requires OrgLine(d, line, n)
    ensures Pass2Line(d, t, t, pc, line, complete) == Emit(n, [], false)
  {
    OrgBody(d, line, n);
    var st := Classify(Text(line));
    OrgDirective2(d, t, pc, st.rest, n);
  }

  /** Without a label, both passes read the whole text. */
  lemma OrgBody(d: Dialect, line: string, n: nat)
    requires OrgLine(d, line, n)
    ensures Body1(line) == Body2(line) == Text(line)
  {
    BodiesAgree(line);
  }

  lemma OrgDirective2(d: Dialect, t: seq<Symbol>, pc: nat, rest: string, n: nat)
    requires ParseValue(rest, d.binary) == Num(n, Normal)
    ensures Directive2(d, t, pc, ".ORG", rest) == Emit(n, [], false)
  {
    PlainWord(t, ParseValue(rest, d.binary));
  }

  /**
   * ext-mass.c on a program that opens with `.org n`: pass 1 starts at 0
   * and pass 2 at `org`, yet after every line they agree on `pc`; so the
   * program's `org` is `n` and the length `save_bin` writes is the number
   * of bytes pass 1 counted past `n`. As written (`complete` false) this
   * needs a program without `(abs,X)` instructions.
   */
  lemma {:induction false} ProgramAgrees(d: Dialect, s: Pass1State, im: Image, t: seq<Symbol>, org: nat, lines: seq<string>, n: nat, complete: bool)
    requires !d.symbolFits && |im.out| == MaxOut && im.pc < 0x10000 && s.org == Unset && n != Unset
    requires lines != [] && OrgLine(d, lines[0], n) && Regular(d, lines) && Emitted(d, lines, complete)
    requires Pass1Run(d, s, lines).Some?
    ensures Pass1Run(d, s, lines).value.org == n
    ensures Pass2Run(d, t, org, im, lines, complete).pc == Pass1Run(d, s, lines).value.pc
    decreases |lines|
  {
    var m := |lines| - 1;
    if m == 0 {
      assert lines[..0] == [];
      OrgLineMoves(d, s, im, t, org, lines[0], n, complete);
    } else {
      Pass1Prefix(d, s, lines, m);
      assert lines[..m][0] == lines[0];
      assert Regular(d, lines[..m]) && Emitted(d, lines[..m], complete);
      ProgramAgrees(d, s, im, t, org, lines[..m], n, complete);
      var s1 := Pass1Run(d, s, lines[..m]).value;
      var i1 := Pass2Run(d, t, org, im, lines[..m], complete);
      Pass1RunPcFrom(d, s, lines[..m], n);
      Pass2StepPc(d, t, org, i1, lines[m], complete);
      LineSizes(d, s1, lines[m], t, t, complete);
    }
  }

  /** Once a `.org n` line has run, `pc` stays a 16-bit address. */
  lemma {:induction false} Pass1RunPcFrom(d: Dialect, s: Pass1State, lines: seq<string>, n: nat)
    requires lines != [] && OrgLine(d, lines[0], n) && Pass1Run(d, s, lines).Some?
    ensures Pass1Run(d, s, lines).value.pc < 0x10000
    decreases |lines|
  {
    var m := |lines| - 1;
    if m == 0 {
      assert lines[..0] == [];
      assert n < 0x10000;
      OrgLineMoves(d, s, Image(0, seq(MaxOut, _ => 0), false), [], 0, lines[0], n, true);
    } else {
      Pass1Prefix(d, s, lines, m);
      assert lines[..m][0] == lines[0];
      Pass1RunPcFrom(d, s, lines[..m], n);
    }
  }

  // ---------------------------------------------------------------------
  // save_bin and the whole program
  // ---------------------------------------------------------------------

  /** The cleared output area. */
  function Cleared(): (r: seq<byte>)
    ensures |r| == MaxOut && forall i :: 0 <= i < MaxOut ==> r[i] == 0
  {
    seq(MaxOut, i => 0)
  }

  /** `pc - org` when `pc` is past `org`, else 0: the length `save_bin` reports. */
  function SaveLength(org: nat, pc: nat): nat
  {
    if pc > org then pc - org else 0
  }

  /**
   * `save_bin`: `out.bin` gets `len` bytes of XRAM from the start of the
   * output area, when there are any and (ext-hass.c) no error was flagged;
   * `None` is "nothing to save". `write_xram` is not bounded by the area:
   * past its 8192 bytes the file goes on with `after`, the XRAM that follows
   * it (the symbol table at $6000 in ext-mass.c, the listing buffer at $5200
   * in ext-hass.c) up to the end of XRAM.
   */
  function Saved(d: Dialect, org: nat, pc: nat, failed: bool, out: seq<byte>, after: seq<byte>): (r: Option<seq<byte>>)
    requires |out| == MaxOut
    ensures r.Some? <==> SaveLength(org, pc) > 0 && !(d.status && failed)
    ensures r.Some? ==> |r.value| == Min(SaveLength(org, pc), MaxOut + |after|)
    ensures r.Some? ==> forall i :: 0 <= i < |r.value| ==> r.value[i] == if i < MaxOut then out[i] else after[i - MaxOut]
  {
    var len := SaveLength(org, pc);
    if len > 0 && !(d.status && failed) then Some((out + after)[..Min(len, MaxOut + |after|)]) else None
  }

  /** How a run ends: the exit at a full symbol table, or the file `save_bin` writes, if any. */
  datatype Outcome = Exited | Finished(file: Option<seq<byte>>)

  /**
   * `main` once the lines are stored: `pass1`, `pass2` and `save_bin`, the
   * output area holding `xram` before and the XRAM after it holding
   * `after` at the save. `listing` is whether ext-hass.c
   * could open the listing file; when it could not, `pass2` returns at once.
   */
  function Assemble(d: Dialect, lines: seq<string>, xram: seq<byte>, after: seq<byte>, listing: bool, complete: bool): (r: Outcome)
    requires |xram| == MaxOut
    ensures r.Exited? <==> Pass1Run(d, Pass1State(Unset, 0, [], false), lines).None?
    ensures r.Finished? && r.file.Some? ==> 0 < |r.file.value| <= MaxOut + |after|
  {
    match Pass1Run(d, Pass1State(Unset, 0, [], false), lines)
    case None => Exited
    case Some(s) =>
      if d.status && !listing then Finished(Saved(d, s.org, s.pc, s.failed, xram, after))
      else
        var im := Pass2Run(d, s.syms, s.org, Image(s.org, Cleared(), s.failed), lines, complete);
        Finished(Saved(d, s.org, im.pc, im.failed, im.out, after))
  }

  /**
   * ext-mass.c on a program that opens with `.org n`: the file holds as
   * many bytes as pass 1 counted past `n` (as far as XRAM goes), the
   * area's bytes first. As written (`complete` false) this needs a program
   * without `(abs,X)` instructions; `AbsIndXDropped` shows what happens
   * with one.
   */
  lemma SavesWhatPass1Counted(d: Dialect, lines: seq<string>, xram: seq<byte>, after: seq<byte>, listing: bool, n: nat, complete: bool)
    requires !d.symbolFits && !d.status && |xram| == MaxOut && n != Unset
    requires lines != [] && OrgLine(d, lines[0], n) && Regular(d, lines) && Emitted(d, lines, complete)
    requires Pass1Run(d, Pass1State(Unset, 0, [], false), lines).Some?
    ensures Pass1Run(d, Pass1State(Unset, 0, [], false), lines).value.org == n
    ensures Assemble(d, lines, xram, after, listing, complete).Finished?
    ensures var pc := Pass1Run(d, Pass1State(Unset, 0, [], false), lines).value.pc;
      var f := Assemble(d, lines, xram, after, listing, complete).file;
      (f.Some? <==> pc > n) && (f.Some? ==> |f.value| == Min(pc - n, MaxOut + |after|))
  {
    var s0 := Pass1State(Unset, 0, [], false);
    var s := Pass1Run(d, s0, lines).value;
    assert n < 0x10000;
    ProgramAgrees(d, s0, Image(n, Cleared(), s.failed), s.syms, n, lines, n, complete);
    var im := Pass2Run(d, s.syms, s.org, Image(s.org, Cleared(), s.failed), lines, complete);
    assert im.pc == s.pc && s.org == n;
    var f := Saved(d, n, s.pc, im.failed, im.out, after);
    assert Assemble(d, lines, xram, after, listing, complete) == Finished(f);
    assert f.Some? <==> s.pc > n;
  }

  // ---------------------------------------------------------------------
  // The assembler's state
  // ---------------------------------------------------------------------

  /**
   * The globals of ext-mass.c and ext-hass.c: the stored lines, the symbol
   * table, `org`, `pc`, whether `assembly_status` holds an error, and the
   * `MAXOUT`-byte output area in XRAM.
   */
  class Assembler {
    const d: Dialect
    const lines: seq<string>
    const out: array<byte>
    var syms: seq<Symbol>
    var org: nat
    var pc: nat
    var failed: bool

    ghost predicate Valid()
      reads this
    {
      out.Length == MaxOut && org < 0x10000 && pc < 0x10000
    }

    /** What pass 1 works on. */
    function State(): Pass1State
      reads this
    {
      Pass1State(org, pc, syms, failed)
    }

    /** What pass 2 works on. */
    function Area(): Image
      reads this, out
    {
      Image(pc, out[..], failed)
    }

    /** `main` before `pass1`: an empty table, `org` and `pc` at the default, no error. */
    constructor (d: Dialect, lines: seq<string>, xram: seq<byte>)
      requires |xram| == MaxOut && d.defaultOrg < 0x10000
      ensures Valid() && fresh(out) && out[..] == xram
      ensures this.d == d && this.lines == lines && syms == [] && org == pc == d.defaultOrg && !failed
    {
      this.d := d;
      this.lines := lines;
      out := new byte[MaxOut](i requires 0 <= i < MaxOut => xram[i]);
      syms := [];
      org, pc := d.defaultOrg, d.defaultOrg;
      failed := false;
    }

    /** `pass1`; `exited` is the exit at a full symbol table. */
    method Pass1() returns (exited: bool)
      requires Valid()
      modifies this
      ensures Valid()
      ensures var r := Pass1Run(d, Pass1State(Unset, 0, old(syms), old(failed)), lines);
        exited == r.None? && (r.Some? ==> State() == r.value)
    {
      ghost var s0 := Pass1State(Unset, 0, syms, failed);
      org, pc := Unset, 0;
      var li := 0;
      while li < |lines|
        invariant Valid() && li <= |lines|
        invariant Pass1Run(d, s0, lines[..li]) == Some(State())
      {
        Pass1RunNext(d, s0, lines, li);
        var next := Pass1Line(d, State(), lines[li]);
        if next.None? {
          Pass1Stops(d, s0, lines, li + 1);
          return true;
        }
        org, pc, syms, failed := next.value.org, next.value.pc, next.value.syms, next.value.failed;
        li := li + 1;
      }
      assert lines[..li] == lines;
      return false;
    }

    /** `emit_at(b, pc++)`. */
    method EmitAt(b: byte)
      requires Valid()
      modifies this`pc, this`failed, out
      ensures Valid() && Area() == Put(old(Area()), org, b)
    {
      if org <= pc && pc - org < MaxOut {
        out[pc - org] := b;
      } else {
        failed := true;
      }
      pc := Wrap16(pc + 1);
    }

    /** The bytes of one line, in order. */
    method EmitAll(bytes: seq<byte>)
      requires Valid()
      modifies this`pc, this`failed, out
      ensures Valid() && Area() == PutAll(old(Area()), org, bytes)
    {
      ghost var im0 := Area();
      for k := 0 to |bytes|
        invariant Valid() && Area() == PutAll(im0, org, bytes[..k])
      {
        assert bytes[..k + 1][..k] == bytes[..k];
        EmitAt(bytes[k]);
      }
      assert bytes[..|bytes|] == bytes;
    }

    /**
     * `pass2`: unless ext-hass.c could not open its listing, the output
     * area is cleared, `pc` starts at `org`, and each line's bytes are
     * emitted from where the line starts.
     */
    method Pass2(listing: bool)
      requires Valid()
      modifies this`pc, this`failed, out
      ensures Valid()
      ensures d.status && !listing ==> Area() == old(Area())
      ensures !(d.status && !listing) ==>
        Area() == Pass2Run(d, syms, org, Image(org, Cleared(), old(failed)), lines, false)
    {
      if d.status && !listing {
        return;
      }
      Clear();
      ghost var im0 := Area();
      for li := 0 to |lines|
        invariant Valid() && Area() == Pass2Run(d, syms, org, im0, lines[..li], false)
      {
        Pass2RunNext(d, syms, org, im0, lines, li);
        Step(lines[li]);
      }
      assert lines[..|lines|] == lines;
    }

    /** The start of `pass2`: the output area zeroed and `pc` back at `org`. */
    method Clear()
      requires Valid()
      modifies this`pc, out
      ensures Valid() && Area() == Image(org, Cleared(), failed)
    {
      for i := 0 to MaxOut
        invariant Valid() && out[..i] == Cleared()[..i]
      {
        out[i] := 0;
      }
      assert out[..] == Cleared();
      pc := org;
    }

    /** Pass 2 on one line: `pc` moves to where the line starts, then its bytes go out. */
    method Step(line: string)
      requires Valid()
      modifies this`pc, this`failed, out
      ensures Valid() && Area() == Pass2Step(d, syms, org, old(Area()), line, false)
    {
      ghost var im0 := Area();
      var e := Pass2Line(d, syms, syms, pc, line, false);
      assert Pass2Step(d, syms, org, im0, line, false) == PutAll(Image(e.start, im0.out, im0.failed || e.failed), org, e.bytes);
      pc, failed := e.start, failed || e.failed;
      assert Area() == Image(e.start, im0.out, im0.failed || e.failed);
      EmitAll(e.bytes);
    }

    /** `save_bin`, with `after` the XRAM past the output area. */
    method SaveBin(after: seq<byte>) returns (file: Option<seq<byte>>)
      requires Valid()
      ensures file == Saved(d, org, pc, failed, out[..], after)
    {
      var len := if pc > org then pc - org else 0;
      if len > 0 && !(d.status && failed) {
        file := Some((out[..] + after)[..Min(len, MaxOut + |after|)]);
      } else {
        file := None;
      }
    }

    /** `main` after the lines are read: the two passes and the save. */
    method Run(listing: bool, after: seq<byte>) returns (r: Outcome)
      requires Valid() && syms == [] && !failed
      modifies this, out
      ensures r == Assemble(d, lines, old(out[..]), after, listing, false)
    {
      ghost var xram := out[..];
      var exited := Pass1();
      if exited {
        return Exited;
      }
      Pass2(listing);
      var file := SaveBin(after);
      r := Finished(file);
    }
  }

  /** Pass 1 on one more line. */
  lemma Pass1RunNext(d: Dialect, s: Pass1State, lines: seq<string>, k: nat)
    requires k < |lines|
    ensures Pass1Run(d, s, lines[..k + 1]) ==
      if Pass1Run(d, s, lines[..k]).None? then None else Pass1Line(d, Pass1Run(d, s, lines[..k]).value, lines[k])
  {
    assert lines[..k + 1][..k] == lines[..k];
  }

  /** Pass 2 on one more line. */
  lemma Pass2RunNext(d: Dialect, t: seq<Symbol>, org: nat, im: Image, lines: seq<string>, k: nat)
    requires k < |lines| && |im.out| == MaxOut
    ensures Pass2Run(d, t, org, im, lines[..k + 1], false) ==
      Pass2Step(d, t, org, Pass2Run(d, t, org, im, lines[..k], false), lines[k], false)
  {
    assert lines[..k + 1][..k] == lines[..k];
  }

  /** A line that stops pass 1 stops the whole run. */
  lemma {:induction false} Pass1Stops(d: Dialect, s: Pass1State, lines: seq<string>, k: nat)
    requires k <= |lines| && Pass1Run(d, s, lines[..k]).None?
    ensures Pass1Run(d, s, lines).None?
  {
    if Pass1Run(d, s, lines).Some? {
      Pass1Prefix(d, s, lines, k);
    }
  }
}
