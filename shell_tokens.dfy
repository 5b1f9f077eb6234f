/**
 * `tokenize` of `src/shell.c`: splits a command line in place into tokens.
 * Unquoted blanks separate tokens and runs of them make no empty tokens;
 * a backslash takes the next character literally; a `'` or `"` groups
 * text up to the same quote character. Each token is copied towards the
 * front of the buffer and terminated by NUL, and the list of token starts
 * is filled in. An unterminated quote or a trailing backslash gives -1.
 */
module ShellTokens {
  import opened Common

  const NUL: char := 0 as char

  /**
   * The scanner between characters: a pending backslash, the open quote
   * character (NUL for none), the finished tokens and the token in progress.
   */
  datatype Scan = Scan(escape: bool, quote: char, done: seq<seq<char>>, cur: seq<char>)

  const Start := Scan(false, NUL, [], [])

  /**
   * One character of the loop (never NUL): the next state, or `None` when
   * the character would begin a token beyond `maxTokens` and the loop stops.
   */
  function Step(s: Scan, c: char, maxTokens: int): Option<Scan>
  {
    if !s.escape && c == '\\' then Some(s.(escape := true))
    else if !s.escape && s.quote != NUL && c == s.quote then Some(s.(quote := NUL))
    else if !s.escape && s.quote == NUL && c == ' ' then
      (if s.cur == [] then Some(s) else Some(s.(done := s.done + [s.cur], cur := [])))
    else if !s.escape && s.quote == NUL && (c == '\'' || c == '"') then Some(s.(quote := c))
    else if s.cur == [] && |s.done| == maxTokens then None
    else Some(s.(cur := s.cur + [c], escape := false))
  }

  /** The loop over the buffer: it ends at a NUL, at the end, or when the token list is full. */
  function Run(input: seq<char>, s: Scan, maxTokens: int): Scan
    decreases |input|
  {
    if input == [] || input[0] == NUL then s
    else match Step(s, input[0], maxTokens)
      case None => s
      case Some(s') => Run(input[1..], s', maxTokens)
  }

  /** The tokens, the one in progress included. */
  function Tokens(s: Scan): seq<seq<char>>
  {
    s.done + (if s.cur == [] then [] else [s.cur])
  }

  /** What `tokenize` returns. */
  function Status(s: Scan): int
  {
    if s.quote != NUL || s.escape then -1 else |Tokens(s)|
  }

  /** Tokens laid out one after another, each followed by NUL. */
  function Packed(ts: seq<seq<char>>): seq<char>
  {
    if ts == [] then [] else Packed(ts[..|ts| - 1]) + ts[|ts| - 1] + [NUL]
  }

  lemma PackedSnoc(ts: seq<seq<char>>, t: seq<char>)
    ensures Packed(ts + [t]) == Packed(ts) + t + [NUL]
  {
    assert (ts + [t])[..|ts|] == ts;
  }

  /** Where each token starts in `Packed(ts)`. */
  function Offsets(ts: seq<seq<char>>): (o: seq<int>)
    ensures |o| == |ts|
  {
    if ts == [] then [] else Offsets(ts[..|ts| - 1]) + [|Packed(ts[..|ts| - 1])|]
  }

  lemma OffsetsSnoc(ts: seq<seq<char>>, t: seq<char>)
    ensures Offsets(ts + [t]) == Offsets(ts) + [|Packed(ts)|]
  {
    assert (ts + [t])[..|ts|] == ts;
  }

  lemma OffsetsLast(ts: seq<seq<char>>, t: seq<char>, t': seq<char>)
    ensures Offsets(ts + [t]) == Offsets(ts + [t'])
  {
    OffsetsSnoc(ts, t);
    OffsetsSnoc(ts, t');
  }

  /**
   * `tokenize(buf, maxBuf, tokenList, maxTokens)`: `in` reads and `out`
   * writes the same buffer, `out` never ahead of `in`. The result is the
   * status, `starts` the indices stored into `tokenList`, and the buffer
   * begins with the tokens, each NUL-terminated.
   */
  method Tokenize(buf: array<char>, maxBuf: int, maxTokens: int) returns (result: int, starts: seq<int>)
    requires 0 <= maxBuf < buf.Length
    modifies buf
    ensures var s := Run(old(buf[..maxBuf]), Start, maxTokens);
      result == Status(s) && |starts| == |Tokens(s)| &&
      |Packed(Tokens(s))| <= buf.Length && buf[..|Packed(Tokens(s))|] == Packed(Tokens(s)) &&
      starts == Offsets(Tokens(s))
  {
    ghost var input := buf[..maxBuf];
    ghost var s := Start;
    var inp, out := 0, 0;
    var escape, quote := false, NUL;
    var tokens, tokenLen := 0, 0;
    starts := [];
    while inp != maxBuf
      invariant 0 <= out <= inp <= maxBuf && buf[inp..maxBuf] == input[inp..]
      invariant Run(input, Start, maxTokens) == Run(input[inp..], s, maxTokens)
      invariant s.escape == escape && s.quote == quote && |s.done| == tokens && |s.cur| == tokenLen
      invariant Layout(buf[..out], s, starts)
    {
      var c := buf[inp];
      assert c == input[inp];
      if c == NUL {
        RunStops(input, inp, s, maxTokens);
        break;
      }
      var stop;
      ghost var next;
      stop, out, starts, escape, quote, tokens, tokenLen, next :=
        Consume(buf, out, c, s, starts, escape, quote, tokens, tokenLen, maxTokens, inp, maxBuf);
      if stop {
        RunStops(input, inp, s, maxTokens);
        break;
      }
      RunStep(input, inp, s, maxTokens);
      s := next;
      inp := inp + 1;
    }
    if inp == maxBuf {
      RunStops(input, inp, s, maxTokens);
    }
    result, starts := Finish(buf, out, s, starts, escape, quote, tokens, tokenLen);
  }

  /**
   * One character of `tokenize`'s loop, `c` not NUL: the branches on the
   * escape flag, the quote and the blank, then "got a character we should
   * put in a token". `stop` is the `break` when the token list is full.
   */
  method Consume(buf: array<char>, out: int, c: char, ghost s: Scan, starts: seq<int>,
                 escape: bool, quote: char, tokens: int, tokenLen: int, maxTokens: int,
                 ghost inp: int, ghost maxBuf: int)
    returns (stop: bool, out': int, starts': seq<int>, escape': bool, quote': char,
             tokens': int, tokenLen': int, ghost s': Scan)
    requires 0 <= out <= inp < maxBuf <= buf.Length && c != NUL
    requires s.escape == escape && s.quote == quote && |s.done| == tokens && |s.cur| == tokenLen
    requires Layout(buf[..out], s, starts)
    modifies buf
    ensures stop <==> Step(s, c, maxTokens).None?
    ensures stop ==> out' == out && starts' == starts && buf[..] == old(buf[..])
    ensures stop ==> escape' == escape && quote' == quote && tokens' == tokens && tokenLen' == tokenLen
    ensures !stop ==> s' == Step(s, c, maxTokens).value && out <= out' <= inp + 1
    ensures !stop ==> s'.escape == escape' && s'.quote == quote' && |s'.done| == tokens' && |s'.cur| == tokenLen'
    ensures !stop ==> Layout(buf[..out'], s', starts')
    ensures buf[inp + 1..maxBuf] == old(buf[inp + 1..maxBuf])
  {
    stop, out', starts', escape', quote', tokens', tokenLen', s' := false, out, starts, escape, quote, tokens, tokenLen, s;
    ghost var before := buf[..out];
    if !escape && c == '\\' {
      escape' := true;
      s' := s.(escape := true);
    } else if !escape && quote != NUL && c == quote {
      quote' := NUL;
      s' := s.(quote := NUL);
    } else if !escape && quote == NUL && c == ' ' {
      if tokenLen != 0 {
        Put(buf, out, NUL, inp + 1, maxBuf);
        out' := out + 1;
        tokenLen' := 0;
        tokens' := tokens + 1;
        s' := s.(done := s.done + [s.cur], cur := []);
        LayoutEnd(before, s, starts);
      }
    } else if !escape && quote == NUL && (c == '\'' || c == '"') {
      quote' := c;
      s' := s.(quote := c);
    } else if tokenLen == 0 && tokens == maxTokens {
      stop := true;
    } else {
      if tokenLen == 0 {
        LayoutBegin(before, s, starts, c);
        starts' := starts + [out];
      } else {
        LayoutAppend(before, s, starts, c);
      }
      Put(buf, out, c, inp + 1, maxBuf);
      out' := out + 1;
      tokenLen' := tokenLen + 1;
      escape' := false;
      s' := s.(cur := s.cur + [c], escape := false);
    }
  }

  /** After the loop: close the token in progress, then signal an open quote or escape. */
  method Finish(buf: array<char>, out: int, ghost s: Scan, starts: seq<int>,
                escape: bool, quote: char, tokens: int, tokenLen: int)
    returns (result: int, starts': seq<int>)
    requires 0 <= out < buf.Length
    requires s.escape == escape && s.quote == quote && |s.done| == tokens && |s.cur| == tokenLen
    requires Layout(buf[..out], s, starts)
    modifies buf
    ensures result == Status(s) && starts' == starts && |starts| == |Tokens(s)| && starts == Offsets(Tokens(s))
    ensures |Packed(Tokens(s))| <= buf.Length && buf[..|Packed(Tokens(s))|] == Packed(Tokens(s))
  {
    starts' := starts;
    ghost var before, end, fin := buf[..out], out, s;
    var count := tokens;
    if tokenLen != 0 {
      Put(buf, out, NUL, out + 1, out + 1);
      count := tokens + 1;
      LayoutEnd(before, s, starts);
      end, fin := out + 1, s.(done := s.done + [s.cur], cur := []);
    }
    LayoutDone(buf[..end], fin, starts);
    assert Tokens(fin) == Tokens(s) && |Tokens(s)| == count;
    result := if quote != NUL || escape then -1 else count;
  }

  /** The buffer up to `out` and the token starts, for the scanner state `s`. */
  predicate Layout(b: seq<char>, s: Scan, starts: seq<int>)
  {
    b == Packed(s.done) + s.cur && starts == Offsets(Tokens(s))
  }

  /** A character begins a token: its start is the current length. */
  lemma LayoutBegin(b: seq<char>, s: Scan, starts: seq<int>, c: char)
    requires Layout(b, s, starts) && s.cur == []
    ensures Layout(b + [c], s.(cur := s.cur + [c], escape := false), starts + [|b|])
  {
    OffsetsSnoc(s.done, [c]);
    assert s.cur + [c] == [c] && Tokens(s) == s.done;
    assert Tokens(s.(cur := s.cur + [c], escape := false)) == s.done + [[c]];
  }

  /** With no token in progress the buffer is exactly the packed tokens. */
  lemma LayoutDone(b: seq<char>, s: Scan, starts: seq<int>)
    requires Layout(b, s, starts) && s.cur == []
    ensures b == Packed(Tokens(s)) && starts == Offsets(Tokens(s))
  {
    assert Tokens(s) == s.done;
  }

  /** A character extends the token in progress. */
  lemma LayoutAppend(b: seq<char>, s: Scan, starts: seq<int>, c: char)
    requires Layout(b, s, starts) && s.cur != []
    ensures Layout(b + [c], s.(cur := s.cur + [c], escape := false), starts)
  {
    OffsetsLast(s.done, s.cur, s.cur + [c]);
    assert Tokens(s) == s.done + [s.cur];
    assert Tokens(s.(cur := s.cur + [c], escape := false)) == s.done + [s.cur + [c]];
  }

  /** A NUL ends the token in progress. */
  lemma LayoutEnd(b: seq<char>, s: Scan, starts: seq<int>)
    requires Layout(b, s, starts) && s.cur != []
    ensures Layout(b + [NUL], s.(done := s.done + [s.cur], cur := []), starts)
  {
    PackedSnoc(s.done, s.cur);
    assert Tokens(s.(done := s.done + [s.cur], cur := [])) == Tokens(s);
  }

  /** The loop goes on from a character that is not NUL and that `Step` takes. */
  lemma RunStep(input: seq<char>, i: int, s: Scan, maxTokens: int)
    requires 0 <= i < |input| && input[i] != NUL && Step(s, input[i], maxTokens).Some?
    ensures Run(input[i..], s, maxTokens) == Run(input[i + 1..], Step(s, input[i], maxTokens).value, maxTokens)
  {
    assert input[i..][0] == input[i] && input[i..][1..] == input[i + 1..];
  }

  /** The loop ends at a NUL, at the end of the buffer, and where `Step` refuses the character. */
  lemma RunStops(input: seq<char>, i: int, s: Scan, maxTokens: int)
    requires 0 <= i <= |input|
    requires i == |input| || input[i] == NUL || Step(s, input[i], maxTokens).None?
    ensures Run(input[i..], s, maxTokens) == s
  {
    if i < |input| {
      assert input[i..][0] == input[i];
    }
  }

  /** `*out++ = c`: `out` is behind `in`, so what is still to be read stays as it was. */
  method Put(buf: array<char>, out: int, c: char, ghost inp: int, ghost maxBuf: int)
    requires 0 <= out < inp <= maxBuf <= buf.Length
    modifies buf
    ensures buf[..out + 1] == old(buf[..out]) + [c]
    ensures buf[inp..maxBuf] == old(buf[inp..maxBuf])
  {
    buf[out] := c;
  }

  /** What the scanner keeps: no empty token, and never more than `maxTokens` of them. */
  predicate Sound(s: Scan, maxTokens: int)
  {
    (forall k :: 0 <= k < |s.done| ==> s.done[k] != []) &&
    |Tokens(s)| <= maxTokens
  }

  lemma StepSound(s: Scan, c: char, maxTokens: int)
    requires Sound(s, maxTokens) && Step(s, c, maxTokens).Some?
    ensures Sound(Step(s, c, maxTokens).value, maxTokens)
  {
    var s' := Step(s, c, maxTokens).value;
    if s'.done != s.done {
      assert s'.done == s.done + [s.cur] && s.cur != [];
      assert Tokens(s') == Tokens(s);
    }
  }

  lemma {:induction false} RunSound(input: seq<char>, s: Scan, maxTokens: int)
    requires Sound(s, maxTokens)
    ensures Sound(Run(input, s, maxTokens), maxTokens)
    decreases |input|
  {
    if input != [] && input[0] != NUL && Step(s, input[0], maxTokens).Some? {
      StepSound(s, input[0], maxTokens);
      RunSound(input[1..], Step(s, input[0], maxTokens).value, maxTokens);
    }
  }

  /**
   * Runs of blanks never make an empty token, and there are never more
   * tokens than the list has room for.
   */
  lemma TokensBounded(input: seq<char>, maxTokens: int)
    requires maxTokens >= 0
    ensures var ts := Tokens(Run(input, Start, maxTokens));
      |ts| <= maxTokens && forall k :: 0 <= k < |ts| ==> ts[k] != [] && NUL !in ts[k]
  {
    RunSound(input, Start, maxTokens);
    RunNoNul(input, Start, maxTokens);
  }

  predicate NulFree(s: Scan)
  {
    NUL !in s.cur && forall k :: 0 <= k < |s.done| ==> NUL !in s.done[k]
  }

  lemma {:induction false} RunNoNul(input: seq<char>, s: Scan, maxTokens: int)
    requires NulFree(s)
    ensures NulFree(Run(input, s, maxTokens))
    decreases |input|
  {
    if input != [] && input[0] != NUL && Step(s, input[0], maxTokens).Some? {
      RunNoNul(input[1..], Step(s, input[0], maxTokens).value, maxTokens);
    }
  }
}
