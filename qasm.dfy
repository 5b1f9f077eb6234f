/**
 * ext-qasm.c as a whole: how `main` reads the typed lines into `lines`,
 * the two passes over them, the output buffer `emit_at` fills, the
 * listing row, and `save_bin`. The functions are the specification;
 * `Assembler` is the program's state and its methods are `add_line`, the
 * reading loop, the passes and the save, proved against the functions.
 */
module Qasm {
  import opened Common
  import opened Opcodes
  import opened QasmLines
  import Mass
  import MassLines
  import MassPasses

  // ---------------------------------------------------------------------
  // Reading the program
  // ---------------------------------------------------------------------

  /**
   * What successive `fgets(g_buf, MAXLEN, stdin)` calls return for one
   * typed line `l` (without its newline): pieces of at most 79
   * characters, the last one ending with the newline. A line of exactly
   * 79 characters leaves its newline on its own for the next call.
   */
  function Pieces(l: string): (r: seq<string>)
    ensures r != []
    decreases |l|
  {
    if |l| < MaxLen - 1 then [l + "\n"] else [l[..MaxLen - 1]] + Pieces(l[MaxLen - 1..])
  }

  /** The `fgets` results for a sequence of typed lines. */
  function Typed(text: seq<string>): seq<string>
  {
    if text == [] then [] else Pieces(text[0]) + Typed(text[1..])
  }

  /**
   * A `.include "file"` line, once its comment and leading blanks are
   * gone: the directive in any case, then a rest that opens with `"` and
   * has another `"` after that. `main` reads the named file instead of
   * storing such a line.
   */
  predicate IncludeLine(l: string)
  {
    var g := Mass.LTrim(Mass.TrimComment(l));
    g != [] && g[0] == '.' && Mass.SplitToken(g).Some?
    && Mass.Upper(Mass.SplitToken(g).value.0) == ".INCLUDE"
    && var rest := Mass.SplitToken(g).value.1;
    rest != [] && rest[0] == '"' && exists i :: 0 < i < |rest| && rest[i] == '"'
  }

  /**
   * `main`'s reading loop from the stored lines `acc` on: it stops at
   * `MAXLINES` lines, at the end of input, or at a piece that starts with
   * a newline (the empty line that starts the assembly); every other
   * piece loses its trailing blanks and newline and is stored unless it
   * is an include line.
   *
   * As written (`fixed` false) a newline left on its own by a 79-character
   * piece ends the input too. With `fixed`, such a newline, coming right
   * after a piece that did not end the typed line (`atStart` false), only
   * ends that line.
   */
  function Read(acc: seq<string>, chunks: seq<string>, atStart: bool, fixed: bool): (r: seq<string>)
    ensures acc <= r
    decreases |chunks|
  {
    if |acc| >= MaxLines || chunks == [] || chunks[0] == [] then acc
    else if chunks[0][0] == '\n' && !(fixed && !atStart) then acc
    else
      var c := chunks[0];
      var ends := c[|c| - 1] == '\n';
      if c[0] == '\n' then Read(acc, chunks[1..], true, fixed)
      else
        var l := Mass.RStrip(c);
        Read(if IncludeLine(l) then acc else acc + [Mass.Truncate(l, MaxLen - 1)], chunks[1..], ends, fixed)
  }

  /** A typed line `main` stores as it is: not empty, no newline, no trailing blank, not an include. */
  predicate PlainLine(l: string)
  {
    l != [] && l[0] != '\n' && l[|l| - 1] != '\n' && !Mass.IsTrail(l[|l| - 1]) && !IncludeLine(l)
    && forall i :: 0 <= i < |l| ==> l[i] != '\n'
  }

  /** A line and its newline lose the newline to `rstrip`. */
  lemma StripNewline(l: string)
    requires l != [] && !Mass.IsTrail(l[|l| - 1])
    ensures Mass.RStrip(l + "\n") == l && Mass.RStrip(l) == l
  {
    assert (l + "\n")[..|l|] == l;
  }

  /** Storing the first line, then the others, stores them all. */
  lemma AppendFirst<T>(acc: seq<T>, text: seq<T>)
    requires text != []
    ensures acc + text == (acc + [text[0]]) + text[1..]
  {
    assert text == [text[0]] + text[1..];
  }

  /** The pieces of the first line, then those of the rest. */
  lemma TypedCons(l: string, more: seq<string>)
    ensures Typed([l] + more) == Pieces(l) + Typed(more)
  {
    assert ([l] + more)[1..] == more;
  }

  /** The empty line that ends the program is a lone newline. */
  lemma TypedEnd()
    ensures Typed([""]) == ["\n"]
  {
    assert [""][1..] == [];
    assert "" + "\n" == "\n";
    assert Typed([""]) == Pieces("") + Typed([]);
  }

  /** A line shorter than 79 characters comes back whole, with its newline. */
  lemma ShortPieces(l: string)
    requires |l| < MaxLen - 1
    ensures Pieces(l) == [l + "\n"]
  {
  }

  /** A line of exactly 79 characters comes back, then its newline alone. */
  lemma FullPieces(l: string)
    requires |l| == MaxLen - 1
    ensures Pieces(l) == [l, "\n"]
  {
    assert l[..MaxLen - 1] == l;
    assert l[MaxLen - 1..] == [];
    assert "" + "\n" == "\n";
    assert Pieces(l) == [l] + Pieces([]);
  }

  /** A short piece with its newline stores the line, and the next piece starts a line. */
  lemma ReadShort(acc: seq<string>, l: string, rest: seq<string>, atStart: bool, fixed: bool)
    requires |acc| < MaxLines && PlainLine(l) && |l| < MaxLen - 1
    ensures Read(acc, [l + "\n"] + rest, atStart, fixed) == Read(acc + [l], rest, true, fixed)
  {
    var c := l + "\n";
    assert c[0] == l[0] && c[|c| - 1] == '\n';
    assert ([c] + rest)[0] == c && ([c] + rest)[1..] == rest;
    StripNewline(l);
    assert Mass.Truncate(l, MaxLen - 1) == l;
  }

  /** A full piece without a newline stores the line, and the next piece continues it. */
  lemma ReadFull(acc: seq<string>, l: string, rest: seq<string>, atStart: bool, fixed: bool)
    requires |acc| < MaxLines && PlainLine(l) && |l| <= MaxLen - 1
    ensures Read(acc, [l] + rest, atStart, fixed) == Read(acc + [l], rest, false, fixed)
  {
    assert ([l] + rest)[0] == l && ([l] + rest)[1..] == rest;
    StripNewline(l);
    assert Mass.Truncate(l, MaxLen - 1) == l;
  }

  /**
   * A lone newline ends the input, except with `fixed` when it follows
   * a piece that did not end its line.
   */
  lemma ReadNewline(acc: seq<string>, rest: seq<string>, atStart: bool, fixed: bool)
    requires |acc| < MaxLines
    ensures Read(acc, ["\n"] + rest, atStart, fixed) ==
      if fixed && !atStart then Read(acc, rest, true, fixed) else acc
  {
    assert (["\n"] + rest)[1..] == rest;
  }

  /**
   * Typed lines of fewer than 79 characters each, then the empty line:
   * `main` stores exactly those lines (as many as fit), as written and as
   * intended alike.
   */
  lemma {:induction false} ReadsShortLines(acc: seq<string>, text: seq<string>, fixed: bool)
    requires |acc| + |text| <= MaxLines
    requires forall i :: 0 <= i < |text| ==> PlainLine(text[i]) && |text[i]| < MaxLen - 1
    ensures Read(acc, Typed(text + [""]), true, fixed) == acc + text
    decreases |text|
  {
    if text == [] {
      assert text + [""] == [""];
      TypedEnd();
      if |acc| < MaxLines {
        ReadNewline(acc, [], true, fixed);
      }
    } else {
      var l := text[0];
      var rest := Typed(text[1..] + [""]);
      assert Typed(text + [""]) == [l + "\n"] + rest by {
        assert text + [""] == [l] + (text[1..] + [""]);
        TypedCons(l, text[1..] + [""]);
        ShortPieces(l);
      }
      assert Read(acc, [l + "\n"] + rest, true, fixed) == Read(acc + [l], rest, true, fixed) by {
        ReadShort(acc, l, rest, true, fixed);
      }
      ReadsShortLines(acc + [l], text[1..], fixed);
      AppendFirst(acc, text);
    }
  }

  /**
   * As written, a typed line of exactly 79 characters ends the input:
   * its newline comes back from `fgets` on its own and reads as the empty
   * line, so every line typed after it is lost.
   */
  lemma LongLineEndsInput(l: string, more: seq<string>)
    requires PlainLine(l) && |l| == MaxLen - 1
    ensures Read([], Typed([l] + more), true, false) == [l]
  {
    TypedCons(l, more);
    FullPieces(l);
    assert Typed([l] + more) == [l] + (["\n"] + Typed(more));
    ReadFull([], l, ["\n"] + Typed(more), true, false);
    ReadNewline([l], Typed(more), false, false);
  }

  /** After a full piece, its lone newline only ends the line; at `MAXLINES` nothing more is read. */
  lemma ReadsFullEnd(acc: seq<string>, rest: seq<string>, more: seq<string>)
    requires |acc| <= MaxLines && (|acc| == MaxLines ==> more == []) && rest == Typed(more + [""])
    ensures Read(acc, ["\n"] + rest, false, true) == Read(acc, rest, true, true)
  {
    if |acc| < MaxLines {
      ReadNewline(acc, rest, false, true);
    } else {
      assert more + [""] == [""];
      TypedEnd();
    }
  }

  /**
   * With the newline after a full piece read as the end of that line,
   * typed lines of up to 79 characters, then the empty line, are stored
   * exactly (as many as fit).
   */
  lemma {:induction false} ReadsLinesFixed(acc: seq<string>, text: seq<string>)
    requires |acc| + |text| <= MaxLines
    requires forall i :: 0 <= i < |text| ==> PlainLine(text[i]) && |text[i]| <= MaxLen - 1
    ensures Read(acc, Typed(text + [""]), true, true) == acc + text
    decreases |text|
  {
    if text == [] {
      assert text + [""] == [""];
      TypedEnd();
      if |acc| < MaxLines {
        ReadNewline(acc, [], true, true);
      }
    } else {
      var l := text[0];
      var rest := Typed(text[1..] + [""]);
      assert Typed(text + [""]) == Pieces(l) + rest by {
        assert text + [""] == [l] + (text[1..] + [""]);
        TypedCons(l, text[1..] + [""]);
      }
      assert Read(acc, Pieces(l) + rest, true, true) == Read(acc + [l], rest, true, true) by {
        if |l| < MaxLen - 1 {
          ShortPieces(l);
          ReadShort(acc, l, rest, true, true);
        } else {
          FullPieces(l);
          assert Pieces(l) + rest == [l] + (["\n"] + rest);
          ReadFull(acc, l, ["\n"] + rest, true, true);
          ReadsFullEnd(acc + [l], rest, text[1..]);
        }
      }
      ReadsLinesFixed(acc + [l], text[1..]);
      AppendFirst(acc, text);
    }
  }

  // ---------------------------------------------------------------------
  // The output buffer
  // ---------------------------------------------------------------------

  /** What pass 2 keeps: `pc` and the `MAXOUT` bytes of `outbuf`. */
  datatype Image = Image(pc: nat, out: seq<byte>)

  /** Where `emit_at` stores a byte for address `at`, if it does. */
  predicate InArea(at: nat, org: nat)
  {
    org <= at && at - org < MaxOut
  }

  /**
   * `emit_at(b, pc++)`: a byte before `org` or `MAXOUT` bytes past it is
   * dropped, any other is stored at `at - org`; `pc` moves on, wrapping
   * at $10000.
   */
  function Put(im: Image, org: nat, b: byte): (r: Image)
    requires |im.out| == MaxOut
    ensures |r.out| == MaxOut && r.pc == MassLines.Wrap16(im.pc + 1)
    ensures InArea(im.pc, org) ==> r.out == im.out[im.pc - org := b]
    ensures !InArea(im.pc, org) ==> r.out == im.out
  {
    var next := MassLines.Wrap16(im.pc + 1);
    if InArea(im.pc, org) then Image(next, im.out[im.pc - org := b]) else Image(next, im.out)
  }

  /** The bytes of one line, one `emit_at` after the other. */
  function PutAll(im: Image, org: nat, bytes: seq<byte>): (r: Image)
    requires |im.out| == MaxOut
    ensures |r.out| == MaxOut && (im.pc < 0x10000 ==> r.pc < 0x10000)
  {
    if bytes == [] then im
    else Put(PutAll(im, org, bytes[..|bytes| - 1]), org, bytes[|bytes| - 1])
  }

  /** After the bytes, `pc` is their count further on, modulo $10000. */
  lemma {:induction false} PutAllPc(im: Image, org: nat, bytes: seq<byte>)
    requires |im.out| == MaxOut && im.pc < 0x10000
    ensures PutAll(im, org, bytes).pc == MassLines.Wrap16(im.pc + |bytes|)
    decreases |bytes|
  {
    if bytes != [] {
      var n := |bytes| - 1;
      PutAllPc(im, org, bytes[..n]);
      MassPasses.Wrap16Step(im.pc, n);
    }
  }

  /**
   * Bytes that fit the buffer from `pc` on land one after the other at
   * `pc - org`, and nothing else in the buffer changes.
   */
  lemma {:induction false} PutAllPlaces(im: Image, org: nat, bytes: seq<byte>)
    requires |im.out| == MaxOut && org <= im.pc && im.pc - org + |bytes| <= MaxOut && im.pc + |bytes| < 0x10000
    ensures var a := im.pc - org; PutAll(im, org, bytes).out == im.out[..a] + bytes + im.out[a + |bytes|..]
    decreases |bytes|
  {
    var a := im.pc - org;
    if bytes == [] {
      assert im.out[..a] + [] + im.out[a..] == im.out;
    } else {
      var n := |bytes| - 1;
      PutAllPlaces(im, org, bytes[..n]);
      PutAllPc(im, org, bytes[..n]);
      var p := PutAll(im, org, bytes[..n]);
      assert p.pc == im.pc + n;
      assert InArea(p.pc, org);
      assert p.out[a + n := bytes[n]] == im.out[..a] + bytes + im.out[a + |bytes|..];
    }
  }

  /** Bytes for addresses outside the buffer leave it as it was. */
  lemma {:induction false} PutAllOutside(im: Image, org: nat, bytes: seq<byte>)
    requires |im.out| == MaxOut && im.pc + |bytes| < 0x10000
    requires im.pc + |bytes| <= org || org + MaxOut <= im.pc
    ensures PutAll(im, org, bytes).out == im.out
    decreases |bytes|
  {
    if bytes != [] {
      var n := |bytes| - 1;
      PutAllOutside(im, org, bytes[..n]);
      PutAllPc(im, org, bytes[..n]);
    }
  }

  // ---------------------------------------------------------------------
  // The passes over the lines
  // ---------------------------------------------------------------------

  /** `pass1` over the lines. */
  function Pass1Run(ops: seq<Row<seq<int>>>, s: State, lines: seq<string>, named: bool): Option<State>
  {
    if lines == [] then Some(s)
    else match Pass1Run(ops, s, lines[..|lines| - 1], named)
      case None => None
      case Some(s1) => Pass1Line(ops, s1, lines[|lines| - 1], named)
  }

  /** Pass 2 on one line: from where the line starts, its bytes one by one. */
  function Pass2Step(ops: seq<Row<seq<int>>>, t: seq<Mass.Symbol>, org: nat, im: Image, line: string, named: bool): (r: Image)
    requires |im.out| == MaxOut
    ensures |r.out| == MaxOut && (im.pc < 0x10000 ==> r.pc < 0x10000)
  {
    var e := Pass2Line(ops, t, im.pc, line, named);
    PutAll(Image(e.start, im.out), org, e.bytes)
  }

  /** `pass2_and_list` over the lines, values resolved in the final table `t`. */
  function Pass2Run(ops: seq<Row<seq<int>>>, t: seq<Mass.Symbol>, org: nat, im: Image, lines: seq<string>, named: bool): (r: Image)
    requires |im.out| == MaxOut
    ensures |r.out| == MaxOut && (im.pc < 0x10000 ==> r.pc < 0x10000)
  {
    if lines == [] then im
    else Pass2Step(ops, t, org, Pass2Run(ops, t, org, im, lines[..|lines| - 1], named), lines[|lines| - 1], named)
  }

  /** After a line, `pc` is where the line's bytes end. */
  lemma Pass2StepPc(ops: seq<Row<seq<int>>>, t: seq<Mass.Symbol>, org: nat, im: Image, line: string, named: bool)
    requires |im.out| == MaxOut && im.pc < 0x10000
    ensures Pass2Step(ops, t, org, im, line, named).pc == EndPc(Pass2Line(ops, t, im.pc, line, named))
  {
    var e := Pass2Line(ops, t, im.pc, line, named);
    PutAllPc(Image(e.start, im.out), org, e.bytes);
  }

  /** Every line has labels that fit and a plain `.org`. */
  predicate Regular(lines: seq<string>)
  {
    forall i :: 0 <= i < |lines| ==> MassLines.LabelFits(lines[i]) && PlainOrg(lines[i])
  }

  /** A run that gets through every line got through every prefix. */
  lemma {:induction false} Pass1Prefix(ops: seq<Row<seq<int>>>, s: State, lines: seq<string>, named: bool, k: nat)
    requires k <= |lines| && Pass1Run(ops, s, lines, named).Some?
    ensures Pass1Run(ops, s, lines[..k], named).Some?
    decreases |lines|
  {
    if k < |lines| {
      var n := |lines| - 1;
      Pass1Prefix(ops, s, lines[..n], named, k);
      assert lines[..n][..k] == lines[..k];
    } else {
      assert lines[..k] == lines;
    }
  }

  /** Pass 1 started from a 16-bit `pc` ends on one. */
  lemma {:induction false} Pass1RunPc(ops: seq<Row<seq<int>>>, s: State, lines: seq<string>, named: bool)
    requires s.pc < 0x10000 && Pass1Run(ops, s, lines, named).Some?
    ensures Pass1Run(ops, s, lines, named).value.pc < 0x10000
    decreases |lines|
  {
    if lines != [] {
      Pass1RunPc(ops, s, lines[..|lines| - 1], named);
    }
  }

  /**
   * Started from the same address, pass 2 ends where pass 1 ends, on
   * lines whose labels fit and whose `.org`s are plain numbers, whatever
   * the tables.
   */
  lemma {:induction false} RunsAgree(ops: seq<Row<seq<int>>>, s: State, im: Image, t: seq<Mass.Symbol>, org: nat,
                                     lines: seq<string>, named: bool)
    requires |im.out| == MaxOut && s.pc < 0x10000 && im.pc == s.pc
    requires Regular(lines) && Pass1Run(ops, s, lines, named).Some?
    ensures Pass2Run(ops, t, org, im, lines, named).pc == Pass1Run(ops, s, lines, named).value.pc
    decreases |lines|
  {
    if lines != [] {
      var n := |lines| - 1;
      Pass1Prefix(ops, s, lines, named, n);
      assert Regular(lines[..n]);
      RunsAgree(ops, s, im, t, org, lines[..n], named);
      var s1 := Pass1Run(ops, s, lines[..n], named).value;
      var i1 := Pass2Run(ops, t, org, im, lines[..n], named);
      Pass1RunPc(ops, s, lines[..n], named);
      Pass2StepPc(ops, t, org, i1, lines[n], named);
      LineSizes(ops, s1, lines[n], t, named);
    }
  }

  /** A line that is a plain `.org n` and nothing else. */
  predicate OrgLine(line: string, n: nat)
  {
    var g := MassLines.Text(line);
    MassLines.Label1(g).None? && MassLines.Label2(g).None? && g != [] && g[0] == '.' && Mass.SplitToken(g).Some?
    && Mass.Upper(Mass.SplitToken(g).value.0) == ".ORG" && ParseValue(Mass.SplitToken(g).value.1) == Mass.Num(n, Mass.Normal)
  }

  /** Whatever `pc` a plain `.org n` line meets, both passes leave it at `n`. */
  lemma OrgLineMoves(ops: seq<Row<seq<int>>>, s: State, t: seq<Mass.Symbol>, pc: nat, line: string, n: nat, named: bool)
    requires OrgLine(line, n)
    ensures Pass1Line(ops, s, line, named) == Some(FixOrg(s.(pc := n)))
    ensures Pass2Line(ops, t, pc, line, named) == Placed(n, [])
  {
    var g := MassLines.Text(line);
    assert Labelled(s, line) == Some(s);
    assert MassLines.Body1(line) == g && MassLines.Body2(line) == g;
    MassLines.PlainWord(t, Mass.Num(n, Mass.Normal));
  }

  /**
   * On a program that opens with `.org n`: pass 1 starts at 0 and pass 2
   * at `org`, yet after every line they agree on `pc`; so the program's
   * `org` is `n`.
   */
  lemma {:induction false} ProgramAgrees(ops: seq<Row<seq<int>>>, s: State, im: Image, t: seq<Mass.Symbol>, org: nat,
                                         lines: seq<string>, n: nat, named: bool)
    requires |im.out| == MaxOut && im.pc < 0x10000 && s.org == Mass.Unset && n != Mass.Unset
    requires lines != [] && OrgLine(lines[0], n) && Regular(lines) && Pass1Run(ops, s, lines, named).Some?
    ensures Pass1Run(ops, s, lines, named).value.org == n
    ensures Pass1Run(ops, s, lines, named).value.pc < 0x10000
    ensures Pass2Run(ops, t, org, im, lines, named).pc == Pass1Run(ops, s, lines, named).value.pc
    decreases |lines|
  {
    var m := |lines| - 1;
    if m == 0 {
      assert lines[..0] == [];
      OrgLineMoves(ops, s, t, im.pc, lines[0], n, named);
      assert n < 0x10000 by {
        MassLines.PlainWord(t, Mass.Num(n, Mass.Normal));
      }
      Pass2StepPc(ops, t, org, im, lines[0], named);
    } else {
      Pass1Prefix(ops, s, lines, named, m);
      assert lines[..m][0] == lines[0];
      assert Regular(lines[..m]);
      ProgramAgrees(ops, s, im, t, org, lines[..m], n, named);
      var s1 := Pass1Run(ops, s, lines[..m], named).value;
      var i1 := Pass2Run(ops, t, org, im, lines[..m], named);
      Pass2StepPc(ops, t, org, i1, lines[m], named);
      LineSizes(ops, s1, lines[m], t, named);
    }
  }

  // ---------------------------------------------------------------------
  // The listing row
  // ---------------------------------------------------------------------

  /** The bytes of a line as the listing dumps them: `%02X ` each. */
  function Dump(bytes: seq<byte>): (r: string)
    ensures |r| == 3 * |bytes|
  {
    if bytes == [] then [] else Dump(bytes[..|bytes| - 1]) + Hex2(bytes[|bytes| - 1]) + " "
  }

  /**
   * The padding after the dump, `11 - 3 * (after - before)`, or 0 when that
   * is negative. With cc65's 16-bit `int`, `uint16_t` is `unsigned int`:
   * the subtraction, the product and `11 - ...` are taken modulo $10000,
   * and storing the result in `int pad` reads it as a signed 16-bit value.
   * The result is that value when it is positive, 0 otherwise; a positive
   * pad is congruent to the unbounded expression modulo $10000.
   */
  function Pad(before: nat, after: nat): (r: nat)
    ensures r < 0x8000
    ensures r > 0 ==> (11 - 3 * (after - before) - r) % 0x10000 == 0
  {
    var p := Signed16(11 - 3 * (after - before));
    if p < 0 then 0 else p
  }

  /** A line that emits at most three bytes is padded to 11 columns less three per byte. */
  lemma PadShort(before: nat, after: nat)
    requires before <= after <= before + 3
    ensures Pad(before, after) == 11 - 3 * (after - before)
  {
    var x := 11 - 3 * (after - before);
    assert 0 < x < 0x8000;
    assert x % 0x10000 == x;
  }

  /** One row of `out.lst` for a line that emits `bytes` from `before` to `after`. */
  function ListingRow(before: nat, after: nat, bytes: seq<byte>, text: string): string
    requires before < 0x10000
  {
    Hex4(before) + " " + Dump(bytes) + seq(Pad(before, after), _ => ' ') + "| " + text
  }

  /** `%04X`, four characters. */
  function Hex4(a: nat): (r: string)
    requires a < 0x10000
    ensures |r| == 4 && r == HexField(a, 4)
  {
    Hex4Digits(a);
    HexField(a, 4)
  }

  /**
   * For an instruction (at most 3 bytes, `pc` moving on by their number)
   * the source text starts at column 18, after `| ` at columns 16 and 17.
   */
  lemma RowAligned(before: nat, bytes: seq<byte>, text: string)
    requires before + |bytes| < 0x10000 && |bytes| <= 3
    ensures var r := ListingRow(before, before + |bytes|, bytes, text);
      |r| == 18 + |text| && r[16..18] == "| " && r[18..] == text
  {
    var p := seq(Pad(before, before + |bytes|), _ => ' ');
    var r := ListingRow(before, before + |bytes|, bytes, text);
    var head := Hex4(before) + " " + Dump(bytes) + p;
    PadShort(before, before + |bytes|);
    assert |p| == 11 - 3 * |bytes|;
    assert |head| == 16;
    assert r == head + ("| " + text);
    assert r[16..] == "| " + text;
  }

  /**
   * A line that moves `pc` backwards (a `.org` to a lower address) by up to
   * 10918 bytes is padded past 11 spaces, three more per byte; from 10919
   * bytes on, `11 + 3 * (before - after)` no longer fits a signed 16-bit
   * `int`.
   */
  lemma PadBackwards(before: nat, after: nat)
    requires after < before <= after + 10918
    ensures Pad(before, after) == 11 + 3 * (before - after) > 11
  {
    var x := 11 - 3 * (after - before);
    assert 11 < x < 0x8000;
    assert x % 0x10000 == x;
  }

  /**
   * The 16-bit arithmetic shows on long jumps of `pc`: `.org $C000`, `NOP`,
   * `.org $0000` pads the third row 16398 spaces; `.org $C000` then
   * `.org $F000` pads 28683; a backward jump of 10919 bytes pads none.
   */
  lemma PadWraps()
    ensures Pad(0xC001, 0) == 16398
    ensures Pad(0xC000, 0xF000) == 28683
    ensures Pad(10919, 0) == 0
  {
    assert (11 - 3 * (0 - 0xC001)) % 0x10000 == 16398;
    assert (11 - 3 * (0xF000 - 0xC000)) % 0x10000 == 28683;
    assert (11 - 3 * (0 - 10919)) % 0x10000 == 0x8000;
  }

  // ---------------------------------------------------------------------
  // save_bin and the whole program
  // ---------------------------------------------------------------------

  /**
   * `save_bin`: `out.bin` gets `len` bytes of `outbuf`, `len` being
   * `pc - org` when `pc` is past `org` and 0 otherwise; the file is
   * written even when `len` is 0.
   */
  function Saved(org: nat, pc: nat, out: seq<byte>): (r: seq<byte>)
    requires |out| == MaxOut
    ensures |r| == Min(MassPasses.SaveLength(org, pc), MaxOut)
    ensures r == out[..Min(MassPasses.SaveLength(org, pc), MaxOut)]
  {
    out[..Min(MassPasses.SaveLength(org, pc), MaxOut)]
  }

  /** The zeroed `outbuf` the program starts with. */
  function Zeroes(): (r: seq<byte>)
    ensures |r| == MaxOut && forall i :: 0 <= i < MaxOut ==> r[i] == 0
  {
    seq(MaxOut, i => 0)
  }

  /** How a run ends: the exit at a full symbol table, or the file `save_bin` writes. */
  datatype Outcome = Exited | Finished(file: seq<byte>)

  /** `pass1`, `pass2_and_list` and `save_bin` on the stored lines. */
  function Assemble(ops: seq<Row<seq<int>>>, lines: seq<string>, named: bool): (r: Outcome)
    ensures r.Exited? <==> Pass1Run(ops, State(Mass.Unset, 0, []), lines, named).None?
    ensures r.Finished? ==> |r.file| <= MaxOut
  {
    match Pass1Run(ops, State(Mass.Unset, 0, []), lines, named)
    case None => Exited
    case Some(s) =>
      var im := Pass2Run(ops, s.syms, s.org, Image(s.org, Zeroes()), lines, named);
      Finished(Saved(s.org, im.pc, im.out))
  }

  /**
   * On a program that opens with `.org n` and whose lines are regular,
   * the file holds as many bytes as pass 1 counted past `n` (as far as
   * the buffer goes), and nothing when `pc` ends at or before `n`.
   */
  lemma SavesWhatPass1Counted(ops: seq<Row<seq<int>>>, lines: seq<string>, n: nat, named: bool)
    requires n != Mass.Unset && lines != [] && OrgLine(lines[0], n) && Regular(lines)
    requires Pass1Run(ops, State(Mass.Unset, 0, []), lines, named).Some?
    ensures var s := Pass1Run(ops, State(Mass.Unset, 0, []), lines, named).value;
      s.org == n && Assemble(ops, lines, named).Finished?
      && |Assemble(ops, lines, named).file| == (if s.pc > n then Min(s.pc - n, MaxOut) else 0)
  {
    var s0 := State(Mass.Unset, 0, []);
    var s := Pass1Run(ops, s0, lines, named).value;
    ProgramAgrees(ops, s0, Image(n, Zeroes()), s.syms, n, lines, n, named);
    assert n < 0x10000;
  }

  // ---------------------------------------------------------------------
  // The assembler's state
  // ---------------------------------------------------------------------

  /**
   * The globals of ext-qasm.c: the stored `lines`, the symbol table,
   * `outbuf`, `org` and `pc`, and the opcode table it assembles with.
   */
  class Assembler {
    const ops: seq<Row<seq<int>>>
    const outbuf: array<byte>
    var lines: seq<string>
    var syms: seq<Mass.Symbol>
    var org: nat
    var pc: nat

    ghost predicate Valid()
      reads this
    {
      outbuf.Length == MaxOut && org < 0x10000 && pc < 0x10000 && |lines| <= MaxLines
      && forall i :: 0 <= i < |lines| ==> |lines[i]| <= MaxLen - 1
    }

    /** What pass 1 works on. */
    function State(): QasmLines.State
      reads this
    {
      QasmLines.State(org, pc, syms)
    }

    /** What pass 2 works on. */
    function Area(): Image
      reads this, outbuf
    {
      Image(pc, outbuf[..])
    }

    /** The program's start: no lines, no symbols, a zeroed buffer, `org` and `pc` at $C000. */
    constructor (ops: seq<Row<seq<int>>>)
      ensures Valid() && fresh(outbuf) && outbuf[..] == Zeroes()
      ensures this.ops == ops && lines == [] && syms == [] && org == pc == StartOrg
    {
      this.ops := ops;
      outbuf := new byte[MaxOut](i => 0);
      lines := [];
      syms := [];
      org, pc := StartOrg, StartOrg;
      new;
      assert outbuf[..] == Zeroes();
    }

    /** `add_line`: the exit at `MAXLINES` lines, otherwise the line cut to 79 characters is stored. */
    method AddLine(text: string) returns (exited: bool)
      requires Valid()
      modifies this`lines
      ensures Valid()
      ensures exited <==> |old(lines)| >= MaxLines
      ensures !exited ==> lines == old(lines) + [Mass.Truncate(text, MaxLen - 1)]
      ensures exited ==> lines == old(lines)
    {
      if |lines| >= MaxLines {
        return true;
      }
      lines := lines + [Mass.Truncate(text, MaxLen - 1)];
      return false;
    }

    /**
     * `main`'s reading loop over what the `fgets` calls return: the lines
     * it stores are the ones `Read` gives.
     */
    method ReadInput(chunks: seq<string>)
      requires Valid()
      modifies this`lines
      ensures Valid() && lines == Read(old(lines), chunks, true, false)
    {
      var i := 0;
      while |lines| < MaxLines && i < |chunks|
        invariant Valid() && i <= |chunks|
        invariant Read(old(lines), chunks, true, false) == Read(lines, chunks[i..], true, false)
        decreases |chunks| - i
      {
        var c := chunks[i];
        if c == [] || c[0] == '\n' {
          return;
        }
        assert chunks[i..][1..] == chunks[i + 1..];
        var l := Mass.RStrip(c);
        if !IncludeLine(l) {
          var exited := AddLine(l);
        }
        i := i + 1;
      }
    }

    /** `pass1`; `exited` is the exit at a full symbol table. */
    method Pass1(named: bool) returns (exited: bool)
      requires Valid()
      modifies this`org, this`pc, this`syms
      ensures Valid()
      ensures var r := Pass1Run(ops, QasmLines.State(Mass.Unset, 0, old(syms)), lines, named);
        exited == r.None? && (r.Some? ==> State() == r.value)
    {
      ghost var s0 := QasmLines.State(Mass.Unset, 0, syms);
      org, pc := Mass.Unset, 0;
      var li := 0;
      while li < |lines|
        invariant Valid() && li <= |lines|
        invariant Pass1Run(ops, s0, lines[..li], named) == Some(State())
      {
        Pass1RunNext(ops, s0, lines, li, named);
        var next := Pass1Line(ops, State(), lines[li], named);
        if next.None? {
          Pass1Stops(ops, s0, lines, li + 1, named);
          return true;
        }
        org, pc, syms := next.value.org, next.value.pc, next.value.syms;
        li := li + 1;
      }
      assert lines[..li] == lines;
      return false;
    }

    /** `emit_at(b, pc++)`. */
    method EmitAt(b: byte)
      requires Valid()
      modifies this`pc, outbuf
      ensures Valid() && Area() == Put(old(Area()), org, b)
    {
      if org <= pc && pc - org < MaxOut {
        outbuf[pc - org] := b;
      }
      pc := MassLines.Wrap16(pc + 1);
    }

    /** The bytes of one line, in order. */
    method EmitAll(bytes: seq<byte>)
      requires Valid()
      modifies this`pc, outbuf
      ensures Valid() && Area() == PutAll(old(Area()), org, bytes)
    {
      ghost var im0 := Area();
      for k := 0 to |bytes|
        invariant Valid() && Area() == PutAll(im0, org, bytes[..k])
      {
        assert bytes[..k + 1][..k] == bytes[..k];
        EmitAt(bytes[k]);
      }
      assert bytes[..|bytes|] == bytes;
    }

    /** Pass 2 on one line: `pc` moves to where the line starts, then its bytes go out. */
    method Step(line: string, named: bool)
      requires Valid()
      modifies this`pc, outbuf
      ensures Valid() && Area() == Pass2Step(ops, syms, org, old(Area()), line, named)
    {
      var e := Pass2Line(ops, syms, pc, line, named);
      pc := e.start;
      EmitAll(e.bytes);
    }

    /** `pass2_and_list` without the listing file: `pc` starts at `org`, and each line's bytes go out. */
    method Pass2(named: bool)
      requires Valid()
      modifies this`pc, outbuf
      ensures Valid()
      ensures Area() == Pass2Run(ops, syms, org, Image(org, old(outbuf[..])), lines, named)
    {
      pc := org;
      ghost var im0 := Area();
      for li := 0 to |lines|
        invariant Valid() && Area() == Pass2Run(ops, syms, org, im0, lines[..li], named)
      {
        Pass2RunNext(ops, syms, org, im0, lines, li, named);
        Step(lines[li], named);
      }
      assert lines[..|lines|] == lines;
    }

    /** `save_bin`. */
    method SaveBin() returns (file: seq<byte>)
      requires Valid()
      ensures file == Saved(org, pc, outbuf[..])
    {
      var len := if pc > org then pc - org else 0;
      file := outbuf[..Min(len, MaxOut)];
    }

    /** `main` after the lines are read: the two passes and the save. */
    method Run(named: bool) returns (r: Outcome)
      requires Valid() && syms == [] && outbuf[..] == Zeroes()
      modifies this`org, this`pc, this`syms, outbuf
      ensures r == Assemble(ops, lines, named)
    {
      var exited := Pass1(named);
      if exited {
        return Exited;
      }
      Pass2(named);
      var file := SaveBin();
      r := Finished(file);
    }
  }

  /** Pass 1 on one more line. */
  lemma Pass1RunNext(ops: seq<Row<seq<int>>>, s: State, lines: seq<string>, k: nat, named: bool)
    requires k < |lines|
    ensures Pass1Run(ops, s, lines[..k + 1], named) ==
      if Pass1Run(ops, s, lines[..k], named).None? then None
      else Pass1Line(ops, Pass1Run(ops, s, lines[..k], named).value, lines[k], named)
  {
    assert lines[..k + 1][..k] == lines[..k];
  }

  /** Pass 2 on one more line. */
  lemma Pass2RunNext(ops: seq<Row<seq<int>>>, t: seq<Mass.Symbol>, org: nat, im: Image, lines: seq<string>, k: nat, named: bool)
    requires k < |lines| && |im.out| == MaxOut
    ensures Pass2Run(ops, t, org, im, lines[..k + 1], named) ==
      Pass2Step(ops, t, org, Pass2Run(ops, t, org, im, lines[..k], named), lines[k], named)
  {
    assert lines[..k + 1][..k] == lines[..k];
  }

  /** A line that stops pass 1 stops the whole run. */
  lemma {:induction false} Pass1Stops(ops: seq<Row<seq<int>>>, s: State, lines: seq<string>, k: nat, named: bool)
    requires k <= |lines| && Pass1Run(ops, s, lines[..k], named).None?
    ensures Pass1Run(ops, s, lines, named).None?
  {
    if Pass1Run(ops, s, lines, named).Some? {
      Pass1Prefix(ops, s, lines, named, k);
    }
  }
}
