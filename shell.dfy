/**
 * The command processor of `src/shell.c`: the line editor in `main`, which
 * reacts to one received character at a time, and `execute`, which keeps
 * the line for recall, tokenizes it and dispatches on its first token.
 * Characters sent to the terminal are returned as `echo`; what a command
 * prints itself is not part of this model.
 */
module Shell {
  import opened Common
  import opened ShellTokens

  const CMD_BUF_MAX := 511
  const CMD_TOKEN_MAX := 64

  const BELL: char := 0x07 as char
  const BS: char := 0x08 as char
  const LF: char := 0x0A as char
  const CR: char := 0x0D as char
  const ESC: char := 0x1B as char
  const NCHR: char := '['
  const UP: char := 'A'
  const DOWN: char := 'B'

  const NEWLINE: string := "\r\n"
  const PROMPT: string := "> "

  /** The `commands` table: name and help line. */
  datatype Command = Command(cmd: string, help: string)

  const Commands: seq<Command> := [
    Command("help", "print a list of commands"),
    Command("cls", "clear terminal"),
    Command("xr", "reads xram"),
    Command("mr", "reads ram"),
    Command("dir", "current drive directory")
  ]

  /** `help()`: a heading, then `cmd - help` for every command. */
  function HelpText(): string
  {
    "Available commands: " + NEWLINE + HelpLines(Commands)
  }

  function HelpLines(cs: seq<Command>): string
  {
    if cs == [] then [] else cs[0].cmd + " - " + cs[0].help + NEWLINE + HelpLines(cs[1..])
  }

  /** The first command named `name`, as the `strcmp` loop finds it. */
  function FindCommand(name: string): (r: Option<nat>)
    ensures r.Some? ==> r.value < |Commands| && Commands[r.value].cmd == name
    ensures r.Some? ==> forall j :: 0 <= j < r.value ==> Commands[j].cmd != name
    ensures r.None? ==> forall j :: 0 <= j < |Commands| ==> Commands[j].cmd != name
  {
    FindFrom(name, 0)
  }

  function FindFrom(name: string, i: nat): (r: Option<nat>)
    requires i <= |Commands|
    ensures r.Some? ==> i <= r.value < |Commands| && Commands[r.value].cmd == name
    ensures r.Some? ==> forall j :: i <= j < r.value ==> Commands[j].cmd != name
    ensures r.None? ==> forall j :: i <= j < |Commands| ==> Commands[j].cmd != name
    decreases |Commands| - i
  {
    if i == |Commands| then None
    else if Commands[i].cmd == name then Some(i)
    else FindFrom(name, i + 1)
  }

  /** What `execute` does with a line. */
  datatype Dispatch = NoTokens | ParseError | Unknown | Invoke(index: nat, argv: seq<string>)

  function Dispatched(line: string): Dispatch
  {
    var s := Run(line, Start, CMD_TOKEN_MAX);
    if Status(s) < 0 then ParseError
    else if Status(s) == 0 then NoTokens
    else match FindCommand(Tokens(s)[0])
      case None => Unknown
      case Some(i) => Invoke(i, Tokens(s))
  }

  /** `execute`'s result: -1 for an unknown command; every command in the table returns 0. */
  function ExitCode(d: Dispatch): int
  {
    if d.Unknown? then -1 else 0
  }

  /** What `execute` prints itself. */
  function Message(d: Dispatch): string
  {
    match d
    case ParseError => "Parse error: unterminated quote/escape" + NEWLINE
    case Unknown => "Unknown command" + NEWLINE
    case _ => []
  }

  /**
   * The dispatch is what the tokenizer promises: a command runs with at
   * most `CMD_TOKEN_MAX` non-empty arguments, the first being its name;
   * -1 comes back exactly for a name outside the table; an unterminated
   * quote or escape is reported and returns 0.
   */
  lemma DispatchMeaning(line: string)
    ensures var d := Dispatched(line);
      var s := Run(line, Start, CMD_TOKEN_MAX);
      (d.Invoke? ==>
         d.index < |Commands| && 1 <= |d.argv| <= CMD_TOKEN_MAX && Commands[d.index].cmd == d.argv[0] &&
         forall k :: 0 <= k < |d.argv| ==> d.argv[k] != []) &&
      (ExitCode(d) == -1 <==> Status(s) > 0 && forall j :: 0 <= j < |Commands| ==> Commands[j].cmd != Tokens(s)[0]) &&
      (d.ParseError? <==> s.quote != NUL || s.escape) &&
      (d.NoTokens? <==> s.quote == NUL && !s.escape && Tokens(s) == [])
  {
    TokensBounded(line, CMD_TOKEN_MAX);
  }

  /** A character that the editor puts on the line. */
  predicate Printable(c: char)
  {
    ' ' <= c <= '~'
  }

  /** The editor between characters: the line, the last executed line, `ext_rx` and `last_rx`. */
  datatype Editor = Editor(line: string, last: string, ext: int, lastRx: char)

  /** One received character: the next editor, what is sent back, and the line executed, if any. */
  datatype Reaction = Reaction(next: Editor, echo: string, run: Option<string>)

  const Initial := Editor([], [], 0, NUL)

  /**
   * The body of `main`'s loop for one character. ESC then `[` starts an
   * arrow key; after them `A` recalls the last executed line and `B` lists
   * the commands. A printable character is appended while the line has
   * room, else a bell; backspace removes one character, else a bell. CR
   * or LF executes a non-empty line, except an LF right after a CR, which
   * is ignored and does not even become `last_rx`.
   */
  function Key(e: Editor, rx: char): Reaction
  {
    if rx == ESC then Reaction(e.(ext := 1, lastRx := rx), [], None)
    else if rx == NCHR && e.ext == 1 then Reaction(e.(ext := 2, lastRx := rx), [], None)
    else if e.ext == 2 then
      var e' := e.(ext := 0, lastRx := rx);
      if rx == UP then Reaction(e'.(line := e.last), "\r" + [ESC] + "[K" + PROMPT + e.last, None)
      else if rx == DOWN then Reaction(e', NEWLINE + HelpText() + PROMPT, None)
      else Reaction(e', [], None)
    else if Printable(rx) then
      if |e.line| == CMD_BUF_MAX then Reaction(e.(ext := 0, lastRx := rx), [BELL], None)
      else Reaction(e.(line := e.line + [rx], ext := 0, lastRx := rx), [rx], None)
    else if rx == BS then
      if e.line == [] then Reaction(e.(ext := 0, lastRx := rx), [BELL], None)
      else Reaction(e.(line := e.line[..|e.line| - 1], ext := 0, lastRx := rx), [BS, ' ', BS], None)
    else if rx == CR || rx == LF then Submit(e, rx)
    else Reaction(e.(ext := 0, lastRx := rx), [], None)
  }

  /** CR or LF: a non-empty line is run and kept for recall; an LF right after a CR does nothing. */
  function Submit(e: Editor, rx: char): Reaction
  {
    if rx == LF && e.lastRx == CR then Reaction(e.(ext := 0), [], None)
    else if e.line == [] then Reaction(e.(ext := 0, lastRx := rx), NEWLINE + PROMPT, None)
    else Reaction(Editor([], e.line, 0, rx), NEWLINE + Message(Dispatched(e.line)) + PROMPT, Some(e.line))
  }

  /** The editor after a sequence of characters. */
  function Feed(e: Editor, keys: string): Editor
    decreases |keys|
  {
    if keys == [] then e else Feed(Key(e, keys[0]).next, keys[1..])
  }

  /** The lines executed while a sequence of characters is received, in order. */
  function Runs(e: Editor, keys: string): seq<string>
    decreases |keys|
  {
    if keys == [] then []
    else
      var r := Key(e, keys[0]);
      (if r.run.Some? then [r.run.value] else []) + Runs(r.next, keys[1..])
  }

  /** What the editor keeps: a line of printable characters that fits the buffer, and the same for the last line. */
  predicate Sane(e: Editor)
  {
    |e.line| <= CMD_BUF_MAX && |e.last| <= CMD_BUF_MAX &&
    (forall i :: 0 <= i < |e.line| ==> Printable(e.line[i])) &&
    (forall i :: 0 <= i < |e.last| ==> Printable(e.last[i])) &&
    0 <= e.ext <= 2
  }

  /** Every character keeps the editor sane: the line never outgrows `CMD_BUF_MAX`. */
  lemma KeySane(e: Editor, rx: char)
    requires Sane(e)
    ensures Sane(Key(e, rx).next)
    ensures Key(e, rx).run.Some? ==> Key(e, rx).run.value == e.line != []
  {
  }

  lemma {:induction false} FeedSane(e: Editor, keys: string)
    requires Sane(e)
    ensures Sane(Feed(e, keys))
    decreases |keys|
  {
    if keys != [] {
      KeySane(e, keys[0]);
      FeedSane(Key(e, keys[0]).next, keys[1..]);
    }
  }

  /**
   * Typing printable characters on a line appends them until the buffer
   * is full; the rest only ring the bell. Runs of ESC-free printables
   * never start an arrow key, and nothing is executed.
   */
  lemma {:induction false} TypedKeepsPrefix(e: Editor, keys: string)
    requires e.ext == 0 && |e.line| <= CMD_BUF_MAX
    requires forall i :: 0 <= i < |keys| ==> Printable(keys[i])
    ensures var room := CMD_BUF_MAX - |e.line|;
      Feed(e, keys).line == e.line + keys[..Min(|keys|, room)] && Runs(e, keys) == []
    decreases |keys|
  {
    if keys != [] {
      var e' := Key(e, keys[0]).next;
      assert keys[0] != ESC;
      TypedKeepsPrefix(e', keys[1..]);
      var room := CMD_BUF_MAX - |e.line|;
      if |e.line| == CMD_BUF_MAX {
        assert e'.line == e.line;
      } else {
        assert e'.line == e.line + [keys[0]];
        assert e.line + [keys[0]] + keys[1..][..Min(|keys| - 1, room - 1)] == e.line + keys[..Min(|keys|, room)];
      }
    }
  }

  /** A CR LF pair executes the line once: the LF right after the CR does nothing at all. */
  lemma CrLfRunsOnce(e: Editor)
    requires e.line != [] && e.ext != 2
    ensures Runs(e, [CR, LF]) == [e.line]
    ensures Feed(e, [CR, LF]) == Editor([], e.line, 0, CR)
    ensures Key(Key(e, CR).next, LF).echo == []
  {
    var e1 := Key(e, CR).next;
    assert [CR, LF][0] == CR && [CR, LF][1..] == [LF] && [LF][1..] == [];
    assert Key(e1, LF).run == None && Key(e1, LF).next == e1;
    assert Runs(e1, [LF]) == [] + Runs(e1, []);
    assert Runs(e, [CR, LF]) == [e.line] + Runs(e1, [LF]);
    assert Feed(e, [CR, LF]) == Feed(e1, [LF]) == Feed(e1, []);
  }

  /** After a line runs, ESC `[` `A` puts it back on the line, as the up arrow should. */
  lemma UpRecallsLast(e: Editor)
    requires e.line != [] && e.ext != 2
    ensures var after := Key(e, CR).next;
      Feed(after, [ESC, NCHR, UP]).line == e.line && Runs(after, [ESC, NCHR, UP]) == []
  {
    var e1 := Key(e, CR).next;
    var e2 := Key(e1, ESC).next;
    var e3 := Key(e2, NCHR).next;
    var e4 := Key(e3, UP).next;
    assert e4.line == e.line;
    assert [ESC, NCHR, UP][1..] == [NCHR, UP] && [NCHR, UP][1..] == [UP] && [UP][1..] == [];
    assert Feed(e1, [ESC, NCHR, UP]) == Feed(e2, [NCHR, UP]) == Feed(e3, [UP]) == Feed(e4, []);
    assert Runs(e3, [UP]) == [] + Runs(e4, []);
    assert Runs(e2, [NCHR, UP]) == [] + Runs(e3, [UP]);
    assert Runs(e1, [ESC, NCHR, UP]) == [] + Runs(e2, [NCHR, UP]);
  }

  /** Backspace takes back a character typed on a line that had room for it. */
  lemma BackspaceUndoes(e: Editor, c: char)
    requires e.ext == 0 && |e.line| < CMD_BUF_MAX && Printable(c)
    ensures Feed(e, [c, BS]).line == e.line
  {
    var e1 := Key(e, c).next;
    assert e1.line == e.line + [c];
    assert (e.line + [c])[..|e.line|] == e.line;
    assert [c, BS][1..] == [BS] && [BS][1..] == [];
    assert Feed(e, [c, BS]) == Feed(e1, [BS]) == Feed(Key(e1, BS).next, []);
  }

  /**
   * `cmdline_t` with the state of `main` around it: the line buffer and
   * the recall buffer, each `CMD_BUF_MAX + 1` characters, their lengths,
   * `ext_rx` and `last_rx`.
   */
  class Console {
    var buffer: array<char>
    var lastbuffer: array<char>
    var bytes: int
    var lastbytes: int
    var extRx: int
    var lastRx: char

    ghost predicate Valid()
      reads this, buffer, lastbuffer
    {
      buffer.Length == CMD_BUF_MAX + 1 && lastbuffer.Length == CMD_BUF_MAX + 1 && buffer != lastbuffer &&
      0 <= bytes <= CMD_BUF_MAX && 0 <= lastbytes <= CMD_BUF_MAX &&
      Sane(State())
    }

    /** The editor this console holds. */
    ghost function State(): Editor
      reads this, buffer, lastbuffer
      requires 0 <= bytes <= buffer.Length && 0 <= lastbytes <= lastbuffer.Length
    {
      Editor(buffer[..bytes], lastbuffer[..lastbytes], extRx, lastRx)
    }

    /** `static cmdline_t cmdline = {0}` and the locals of `main`. */
    constructor ()
      ensures Valid() && State() == Initial && fresh(buffer) && fresh(lastbuffer)
    {
      buffer := new char[CMD_BUF_MAX + 1](_ => NUL);
      lastbuffer := new char[CMD_BUF_MAX + 1](_ => NUL);
      bytes, lastbytes := 0, 0;
      extRx, lastRx := 0, NUL;
    }

    /**
     * `execute(&cmdline)`: copy the line to `lastbuffer`, tokenize the
     * line buffer in place, and look the first token up in `commands`.
     */
    method Execute() returns (r: int, d: Dispatch)
      requires Valid()
      modifies this`lastbytes, buffer, lastbuffer
      ensures 0 <= lastbytes <= CMD_BUF_MAX && bytes == old(bytes)
      ensures d == Dispatched(old(buffer[..bytes])) && r == ExitCode(d)
      ensures lastbuffer[..lastbytes] == old(buffer[..bytes])
    {
      ghost var line := buffer[..bytes];
      Remember();
      var tokens, starts := Tokenize(buffer, bytes, CMD_TOKEN_MAX);
      r, d := Lookup(buffer, tokens, starts, line);
    }

    /** The first half of `execute`: the line and its terminating NUL copied to `lastbuffer`. */
    method Remember()
      requires Valid()
      modifies this`lastbytes, lastbuffer
      ensures Valid() && lastbuffer[..lastbytes] == buffer[..bytes]
    {
      lastbytes := 0;
      for i := 0 to bytes
        invariant lastbytes == 0 && lastbuffer[..i] == buffer[..i]
      {
        lastbuffer[i] := buffer[i];
      }
      lastbytes := bytes;
      lastbuffer[bytes] := NUL;
      assert lastbuffer[..lastbytes] == buffer[..bytes];
    }

    /**
     * One received character, the body of `main`'s loop: update the line
     * and the escape state, echo, and run `execute` on Enter.
     */
    method Receive(rx: char) returns (echo: string, d: Option<Dispatch>)
      requires Valid()
      modifies this, buffer, lastbuffer
      ensures Valid() && buffer == old(buffer) && lastbuffer == old(lastbuffer)
      ensures var k := Key(old(State()), rx);
        State() == k.next && echo == k.echo &&
        d == (if k.run.Some? then Some(Dispatched(k.run.value)) else None)
    {
      d := None;
      if rx == ESC {
        extRx, lastRx, echo := 1, rx, [];
      } else if rx == NCHR && extRx == 1 {
        extRx, lastRx, echo := 2, rx, [];
      } else if extRx == 2 {
        echo := Arrow(rx);
      } else if Printable(rx) {
        echo := Type(rx);
      } else if rx == BS {
        echo := Backspace();
      } else if rx == CR || rx == LF {
        echo, d := Enter(rx);
      } else {
        extRx, lastRx, echo := 0, rx, [];
      }
    }

    /** The third character of an arrow key: up recalls the last line, down lists the commands. */
    method Arrow(rx: char) returns (echo: string)
      requires Valid() && extRx == 2 && rx != ESC
      modifies this`bytes, this`extRx, this`lastRx, buffer
      ensures Valid() && Key(old(State()), rx) == Reaction(State(), echo, None)
    {
      ghost var e := State();
      extRx := 0;
      echo := [];
      if rx == UP {
        Recall();
        echo := "\r" + [ESC] + "[K" + PROMPT + lastbuffer[..lastbytes];
      } else if rx == DOWN {
        echo := NEWLINE + HelpText() + PROMPT;
      }
      lastRx := rx;
    }

    /** A printable character: appended and echoed, or a bell when the buffer is full. */
    method Type(rx: char) returns (echo: string)
      requires Valid() && extRx != 2 && Printable(rx) && rx != ESC && !(rx == NCHR && extRx == 1)
      modifies this`bytes, this`extRx, this`lastRx, buffer
      ensures Valid() && Key(old(State()), rx) == Reaction(State(), echo, None)
    {
      ghost var e := State();
      extRx := 0;
      if bytes == CMD_BUF_MAX {
        echo := [BELL];
      } else {
        buffer[bytes] := rx;
        bytes := bytes + 1;
        buffer[bytes] := NUL;
        assert buffer[..bytes] == e.line + [rx];
        echo := [rx];
      }
      lastRx := rx;
    }

    /** Backspace: the last character is rubbed out, or a bell on an empty line. */
    method Backspace() returns (echo: string)
      requires Valid() && extRx != 2
      modifies this`bytes, this`extRx, this`lastRx, buffer
      ensures Valid() && Key(old(State()), BS) == Reaction(State(), echo, None)
    {
      ghost var e := State();
      extRx := 0;
      if bytes != 0 {
        bytes := bytes - 1;
        buffer[bytes] := NUL;
        assert buffer[..bytes] == e.line[..|e.line| - 1];
        echo := [BS, ' ', BS];
      } else {
        echo := [BELL];
      }
      lastRx := BS;
    }

    /** CR or LF: execute a non-empty line and clear it; an LF after a CR is ignored. */
    method Enter(rx: char) returns (echo: string, d: Option<Dispatch>)
      requires Valid() && extRx != 2 && (rx == CR || rx == LF)
      modifies this, buffer, lastbuffer
      ensures Valid() && buffer == old(buffer) && lastbuffer == old(lastbuffer)
      ensures var k := Submit(old(State()), rx);
        State() == k.next && echo == k.echo &&
        d == (if k.run.Some? then Some(Dispatched(k.run.value)) else None)
    {
      ghost var e := State();
      extRx := 0;
      d := None;
      if rx == LF && lastRx == CR {
        echo := [];
        return;
      }
      if bytes != 0 {
        var _, dispatch := Execute();
        bytes := 0;
        buffer[0] := NUL;
        d := Some(dispatch);
        echo := NEWLINE + Message(dispatch) + PROMPT;
        assert lastbuffer[..lastbytes] == e.line;
      } else {
        echo := NEWLINE + PROMPT;
      }
      lastRx := rx;
    }

    /** The up arrow: `memcpy` the recall buffer back into the line buffer. */
    method Recall()
      requires Valid()
      modifies this`bytes, buffer
      ensures Valid() && buffer[..bytes] == lastbuffer[..lastbytes]
      ensures lastbuffer[..lastbytes] == old(lastbuffer[..lastbytes])
    {
      bytes := lastbytes;
      for i := 0 to lastbytes
        invariant bytes == lastbytes && buffer[..i] == lastbuffer[..i]
        invariant lastbuffer[..lastbytes] == old(lastbuffer[..lastbytes])
      {
        buffer[i] := lastbuffer[i];
      }
      buffer[bytes] := NUL;
      assert buffer[..bytes] == lastbuffer[..lastbytes];
    }
  }

  /**
   * The second half of `execute`, after `tokenize` has filled the buffer:
   * no tokens or a parse error give 0, otherwise the `strcmp` loop over
   * `commands` either finds the first token and runs that command or
   * reports it unknown with -1.
   */
  method Lookup(buf: array<char>, tokens: int, starts: seq<int>, ghost line: string) returns (r: int, d: Dispatch)
    requires var ts := Tokens(Run(line, Start, CMD_TOKEN_MAX));
      tokens == Status(Run(line, Start, CMD_TOKEN_MAX)) && starts == Offsets(ts) &&
      |Packed(ts)| <= buf.Length && buf[..|Packed(ts)|] == Packed(ts)
    ensures d == Dispatched(line) && r == ExitCode(d)
  {
    ghost var s := Run(line, Start, CMD_TOKEN_MAX);
    if tokens <= 0 {
      r, d := 0, if tokens < 0 then ParseError else NoTokens;
      return;
    }
    TokensBounded(line, CMD_TOKEN_MAX);
    TokenAt(buf[..], Tokens(s), starts);
    var argv := Argv(buf[..], starts);
    assert CString(buf[0..]) == Tokens(s)[0] by {
      assert argv[0] == Tokens(s)[0] && buf[..][0..] == buf[0..];
    }
    PackedAt(Tokens(s), 0);
    var k := Search(buf, Tokens(s)[0]);
    if k.Some? {
      r, d := 0, Invoke(k.value, argv);
    } else {
      r, d := -1, Unknown;
    }
  }

  /** The `strcmp` loop over `commands`: the first command named by the text at the start of `buf`. */
  method Search(buf: array<char>, ghost name: string) returns (k: Option<nat>)
    requires CString(buf[0..]) == name && |name| < buf.Length
    ensures k == FindCommand(name)
  {
    var i := 0;
    while i < |Commands|
      invariant 0 <= i <= |Commands|
      invariant forall j :: 0 <= j < i ==> Commands[j].cmd != name
    {
      var same := StrEq(buf, 0, Commands[i].cmd);
      if same {
        return Some(i);
      }
      i := i + 1;
    }
    return None;
  }

  /** The text `strcmp` sees at the start of a buffer: everything before the first NUL. */
  function CString(s: seq<char>): (r: string)
    ensures |r| <= |s|
  {
    if s == [] || s[0] == NUL then [] else [s[0]] + CString(s[1..])
  }

  /** `!strcmp(buf + at, name)` for a name without NUL. */
  method StrEq(buf: array<char>, at: nat, name: string) returns (same: bool)
    requires at <= buf.Length && at + |CString(buf[at..])| < buf.Length && NUL !in name
    ensures same == (CString(buf[at..]) == name)
  {
    var i := 0;
    ghost var s := buf[at..];
    while i < |name| && buf[at + i] == name[i]
      invariant 0 <= i <= |name| && i <= |CString(s)|
      invariant CString(s) == name[..i] + CString(s[i..])
    {
      assert s[i] == buf[at + i] == name[i];
      CStringStep(s, i);
      assert name[..i + 1] == name[..i] + [s[i]];
      i := i + 1;
    }
    assert s[i] == buf[at + i];
    same := i == |name| && buf[at + i] == NUL;
    if i == |name| {
      CStringHead(s[i..]);
      assert s[i..][0] == s[i];
      assert name[..i] == name;
    } else {
      CStringDiffers(s, i, name);
    }
  }

  /** `tokenList`: the C string at each recorded start. */
  function Argv(buf: seq<char>, starts: seq<int>): (argv: seq<string>)
    requires forall k :: 0 <= k < |starts| ==> 0 <= starts[k] <= |buf|
    ensures |argv| == |starts|
  {
    seq(|starts|, k requires 0 <= k < |starts| => CString(buf[starts[k]..]))
  }

  lemma CStringStep(s: seq<char>, i: nat)
    requires i < |s| && s[i] != NUL
    ensures CString(s[i..]) == [s[i]] + CString(s[i + 1..])
  {
    assert s[i..][1..] == s[i + 1..];
  }

  lemma CStringHead(s: seq<char>)
    ensures CString(s) == [] <==> s == [] || s[0] == NUL
  {
  }

  /** A mismatch, or a NUL, before the end of `name` decides the comparison. */
  lemma CStringDiffers(s: seq<char>, i: nat, name: string)
    requires i < |name| && i < |s| && s[i] != name[i] && NUL !in name
    requires CString(s) == name[..i] + CString(s[i..])
    ensures CString(s) != name
  {
    if s[i] == NUL {
      assert CString(s[i..]) == [];
      assert |CString(s)| == i;
    } else {
      CStringStep(s, i);
      assert CString(s)[i] == s[i];
    }
  }

  /** After `tokenize`, the C string at each token start is that token. */
  lemma TokenAt(buf: seq<char>, ts: seq<seq<char>>, starts: seq<int>)
    requires forall k :: 0 <= k < |ts| ==> ts[k] != [] && NUL !in ts[k]
    requires |Packed(ts)| <= |buf| && buf[..|Packed(ts)|] == Packed(ts) && starts == Offsets(ts)
    ensures forall k :: 0 <= k < |starts| ==> 0 <= starts[k] <= |buf|
    ensures |ts| > 0 ==> starts[0] == 0
    ensures Argv(buf, starts) == ts
  {
    forall k | 0 <= k < |ts|
      ensures 0 <= starts[k] && starts[k] + |ts[k]| + 1 <= |Packed(ts)| &&
        buf[starts[k]..][..|ts[k]| + 1] == ts[k] + [NUL]
    {
      PackedAt(ts, k);
      var n := |Packed(ts)|;
      var m, len := starts[k], |ts[k]| + 1;
      assert m + len <= n;
      assert buf[m..][..len] == buf[m..m + len];
      assert buf[..n][m..m + len] == buf[m..m + len];
    }
    forall k | 0 <= k < |ts|
      ensures CString(buf[starts[k]..]) == ts[k]
    {
      CStringPrefix(buf[starts[k]..], ts[k]);
    }
    if |ts| > 0 {
      OffsetsStart(ts);
    }
  }

  lemma {:induction false} OffsetsStart(ts: seq<seq<char>>)
    requires |ts| > 0
    ensures Offsets(ts)[0] == 0
    decreases |ts|
  {
    if |ts| > 1 {
      OffsetsStart(ts[..|ts| - 1]);
    } else {
      assert ts[..0] == [];
    }
  }

  /** Token `k` sits at its offset in the packed buffer, followed by NUL. */
  lemma {:induction false} PackedAt(ts: seq<seq<char>>, k: nat)
    requires k < |ts|
    ensures 0 <= Offsets(ts)[k] && Offsets(ts)[k] + |ts[k]| + 1 <= |Packed(ts)|
    ensures Packed(ts)[Offsets(ts)[k]..Offsets(ts)[k] + |ts[k]| + 1] == ts[k] + [NUL]
    decreases |ts|
  {
    var init := ts[..|ts| - 1];
    assert ts == init + [ts[|ts| - 1]];
    PackedSnoc(init, ts[|ts| - 1]);
    OffsetsSnoc(init, ts[|ts| - 1]);
    if k < |ts| - 1 {
      PackedAt(init, k);
      assert init[k] == ts[k];
      assert Offsets(ts)[k] == Offsets(init)[k];
    }
  }

  lemma {:induction false} CStringPrefix(s: seq<char>, t: string)
    requires |t| < |s| && s[..|t| + 1] == t + [NUL] && NUL !in t
    ensures CString(s) == t
    decreases |t|
  {
    if t == [] {
      assert s[0] == NUL;
    } else {
      assert s[0] == t[0];
      assert s[1..][..|t| - 1 + 1] == t[1..] + [NUL];
      CStringPrefix(s[1..], t[1..]);
      assert [t[0]] + t[1..] == t;
    }
  }
}
