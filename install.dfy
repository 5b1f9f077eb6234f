/**
 * The host-side installer (tools/install.py): it talks to the device's
 * console over a serial port, sending a command line and waiting for the
 * console's prompt character, retrying a write that fails, and runs the
 * fixed command sequence of an installation around the upload of the
 * binary.
 *
 * Time is a step counter: each read of the port takes one millisecond
 * tick and each sleep adds its milliseconds. The port is a script of what
 * its reads deliver (a byte, silence, or an exception) and of which write
 * attempts raise.
 */
module Install {
  import opened Common

  const PROMPT_TIMEOUT_MS: nat := 5000
  /** `max_retries`: two retries after the first attempt. */
  const MAX_RETRIES: nat := 2
  /** The pause between failed attempts used by every call in `main`. */
  const DELAY_MS: nat := 400

  /** What one `port.read(1)` does: return a byte, time out with nothing, or raise. */
  datatype Read = Byte(b: byte) | Silence | Fault

  /** The lines written to standard error. */
  datatype Warning =
    | PromptTimeout(prompt: char, caption: string)
    | PortUnavailable
    | UploadNotFound  // the "rp6502.py not found" message, which a missing launcher prints
    | UploadExit(code: int)

  /**
   * A snapshot of the port and its surroundings: the reads still to come,
   * which write attempts will raise (an attempt past the end succeeds),
   * every line whose write was attempted, the lines written, the clock in
   * milliseconds and the warnings printed.
   */
  datatype Link = Link(incoming: seq<Read>, faults: seq<bool>, tries: seq<string>,
                       written: seq<string>, clock: int, log: seq<Warning>)

  /** What a read returns: the next scripted event, silence once the script is exhausted. */
  function NextRead(incoming: seq<Read>): Read
  {
    if incoming == [] then Silence else incoming[0]
  }

  function RestReads(incoming: seq<Read>): (r: seq<Read>)
    ensures |r| == if incoming == [] then 0 else |incoming| - 1
  {
    if incoming == [] then [] else incoming[1..]
  }

  /** The `k`-th read from now. */
  function ReadAt(incoming: seq<Read>, k: nat): Read
  {
    if k < |incoming| then incoming[k] else Silence
  }

  /** `ch.decode(errors="ignore")` of one byte: an ASCII character, or nothing for a byte above 0x7F. */
  function Decoded(b: byte): string
  {
    if b < 128 then [b as char] else []
  }

  /** A read that delivers the prompt character. */
  predicate Matches(r: Read, prompt: char)
  {
    r.Byte? && Decoded(r.b) == [prompt]
  }

  // ----- wait_for_prompt -----

  datatype Waited = Prompted | TimedOut | ReadFailed

  /**
   * `wait_for_prompt` until the clock reaches `deadline`: read until the
   * prompt arrives (true), the deadline passes (false) or a read raises.
   */
  function Wait(l: Link, prompt: char, deadline: int): (r: (Waited, Link))
    ensures r.1 == l.(incoming := r.1.incoming, clock := r.1.clock)
    ensures l.clock <= r.1.clock && (l.clock <= deadline ==> r.1.clock <= deadline)
    decreases deadline - l.clock
  {
    if l.clock >= deadline then (TimedOut, l)
    else
      var ev := NextRead(l.incoming);
      var l' := l.(incoming := RestReads(l.incoming), clock := l.clock + 1);
      if ev.Fault? then (ReadFailed, l')
      else if Matches(ev, prompt) then (Prompted, l')
      else Wait(l', prompt, deadline)
  }

  /**
   * The prompt is seen exactly when, before the deadline, a read delivers
   * it and no read before it raises; any other byte is ignored.
   */
  lemma {:induction false} WaitPrompted(l: Link, prompt: char, deadline: int)
    ensures Wait(l, prompt, deadline).0 == Prompted <==>
      exists k :: 0 <= k < deadline - l.clock && Matches(ReadAt(l.incoming, k), prompt) &&
        forall j :: 0 <= j < k ==> !ReadAt(l.incoming, j).Fault?
    decreases deadline - l.clock
  {
    if l.clock < deadline {
      var l' := l.(incoming := RestReads(l.incoming), clock := l.clock + 1);
      var ev := NextRead(l.incoming);
      assert ev == ReadAt(l.incoming, 0);
      forall k: nat
        ensures ReadAt(l'.incoming, k) == ReadAt(l.incoming, k + 1)
      {
      }
      WaitPrompted(l', prompt, deadline);
      if !ev.Fault? && !Matches(ev, prompt) {
        if Wait(l, prompt, deadline).0 == Prompted {
          var k :| 0 <= k < deadline - l'.clock && Matches(ReadAt(l'.incoming, k), prompt) &&
            forall j :: 0 <= j < k ==> !ReadAt(l'.incoming, j).Fault?;
          assert Matches(ReadAt(l.incoming, k + 1), prompt);
          forall j | 0 <= j < k + 1
            ensures !ReadAt(l.incoming, j).Fault?
          {
            if j > 0 {
              assert ReadAt(l.incoming, j) == ReadAt(l'.incoming, j - 1);
            }
          }
        }
        if exists k :: 0 <= k < deadline - l.clock && Matches(ReadAt(l.incoming, k), prompt) &&
                       forall j :: 0 <= j < k ==> !ReadAt(l.incoming, j).Fault? {
          var k :| 0 <= k < deadline - l.clock && Matches(ReadAt(l.incoming, k), prompt) &&
            forall j :: 0 <= j < k ==> !ReadAt(l.incoming, j).Fault?;
          assert k > 0;
          assert Matches(ReadAt(l'.incoming, k - 1), prompt);
          forall j | 0 <= j < k - 1
            ensures !ReadAt(l'.incoming, j).Fault?
          {
            assert ReadAt(l'.incoming, j) == ReadAt(l.incoming, j + 1);
          }
          assert Wait(l', prompt, deadline).0 == Prompted;
        }
      }
    }
  }

  // ----- writing a line -----

  /** One `port.write((text + "\r").encode())` and `port.flush()`: whether it went through. */
  function WriteLine(l: Link, text: string): (r: (bool, Link))
    ensures r.1.tries == l.tries + [text + "\r"]
    ensures r.1.written == if r.0 then l.written + [text + "\r"] else l.written
    ensures r.1 == l.(faults := r.1.faults, tries := r.1.tries, written := r.1.written)
  {
    var fails := l.faults != [] && l.faults[0];
    var l' := l.(faults := if l.faults == [] then [] else l.faults[1..], tries := l.tries + [text + "\r"]);
    if fails then (false, l') else (true, l'.(written := l.written + [text + "\r"]))
  }

  function Sleep(l: Link, ms: nat): Link
  {
    l.(clock := l.clock + ms)
  }

  /** How a sending helper ends: it returns, or it re-raises the last exception. */
  datatype Done = Returned | Raised

  /**
   * `send_line_and_wait` from attempt `attempt` on: write the line and
   * wait for the prompt, which when it does not come only prints a
   * warning; a write or read that raises is retried after `delay` while
   * attempts remain, and re-raised after the last one.
   */
  function SendAndWait(l: Link, text: string, caption: string, prompt: char, delay: nat, attempt: nat): (r: (Done, Link))
    requires attempt <= MAX_RETRIES
    ensures r.1.log == l.log || (r.0 == Returned && r.1.log == l.log + [PromptTimeout(prompt, caption)])
    decreases MAX_RETRIES - attempt
  {
    var (w, l2) := Attempt(l, text, prompt);
    if w == Prompted then (Returned, l2)
    else if w == TimedOut then (Returned, l2.(log := l2.log + [PromptTimeout(prompt, caption)]))
    else if attempt < MAX_RETRIES then SendAndWait(Sleep(l2, delay), text, caption, prompt, delay, attempt + 1)
    else (Raised, l2)
  }

  /**
   * One attempt of `send_line_and_wait`: write the line and, if that went
   * through, wait for the prompt; `ReadFailed` stands for any exception.
   */
  function Attempt(l: Link, text: string, prompt: char): (r: (Waited, Link))
    ensures r.1.tries == l.tries + [text + "\r"]
    ensures r.1.faults == WriteLine(l, text).1.faults && r.1.log == l.log
  {
    var (ok, l1) := WriteLine(l, text);
    if ok then Wait(l1, prompt, l1.clock + PROMPT_TIMEOUT_MS) else (ReadFailed, l1)
  }

  /** `send_line` from attempt `attempt` on: the same retries, with no prompt to wait for. */
  function SendOnly(l: Link, text: string, delay: nat, attempt: nat): (r: (Done, Link))
    requires attempt <= MAX_RETRIES
    decreases MAX_RETRIES - attempt
  {
    var (ok, l1) := WriteLine(l, text);
    if ok then (Returned, l1)
    else if attempt < MAX_RETRIES then SendOnly(Sleep(l1, delay), text, delay, attempt + 1)
    else (Raised, l1)
  }

  /** `t` is `s` followed by zero or more copies of `x`. */
  predicate Extends(s: seq<string>, t: seq<string>, x: string)
  {
    |s| <= |t| && t[..|s|] == s && forall i :: |s| <= i < |t| ==> t[i] == x
  }

  lemma ExtendsStep(s: seq<string>, t: seq<string>, x: string)
    requires Extends(s + [x], t, x)
    ensures Extends(s, t, x)
  {
    assert t[..|s|] == (t[..|s| + 1])[..|s|];
  }

  /**
   * Every attempt writes the line followed by CR; there are at most three
   * attempts, and an exception is re-raised only after the third.
   */
  lemma {:induction false} SendAndWaitAttempts(l: Link, text: string, caption: string, prompt: char, delay: nat, attempt: nat)
    requires attempt <= MAX_RETRIES
    ensures var r := SendAndWait(l, text, caption, prompt, delay, attempt);
      |l.tries| < |r.1.tries| <= |l.tries| + 3 - attempt && Extends(l.tries, r.1.tries, text + "\r") &&
      (r.0 == Raised ==> |r.1.tries| == |l.tries| + 3 - attempt)
    decreases MAX_RETRIES - attempt
  {
    var a := Attempt(l, text, prompt);
    var r := SendAndWait(l, text, caption, prompt, delay, attempt);
    if a.0 == ReadFailed && attempt < MAX_RETRIES {
      var l3 := Sleep(a.1, delay);
      SendAndWaitAttempts(l3, text, caption, prompt, delay, attempt + 1);
      ExtendsStep(l.tries, r.1.tries, text + "\r");
    }
  }

  /** The same for `send_line`, whose exception is re-raised exactly when no attempt went through. */
  lemma {:induction false} SendOnlyAttempts(l: Link, text: string, delay: nat, attempt: nat)
    requires attempt <= MAX_RETRIES
    ensures var r := SendOnly(l, text, delay, attempt);
      |l.tries| < |r.1.tries| <= |l.tries| + 3 - attempt && Extends(l.tries, r.1.tries, text + "\r") &&
      (r.0 == Raised <==> |r.1.tries| == |l.tries| + 3 - attempt && r.1.written == l.written)
    decreases MAX_RETRIES - attempt
  {
    var (ok, l1) := WriteLine(l, text);
    var r := SendOnly(l, text, delay, attempt);
    if !ok && attempt < MAX_RETRIES {
      var l3 := Sleep(l1, delay);
      SendOnlyAttempts(l3, text, delay, attempt + 1);
      ExtendsStep(l.tries, r.1.tries, text + "\r");
    }
  }

  /**
   * A prompt that does not come is not an error: once the line is
   * written, a wait that times out adds one warning and the helper returns.
   */
  lemma PromptTimeoutWarns(l: Link, text: string, caption: string, prompt: char, delay: nat, attempt: nat)
    requires attempt <= MAX_RETRIES
    requires Attempt(l, text, prompt).0 == TimedOut
    ensures var (d, l') := SendAndWait(l, text, caption, prompt, delay, attempt);
      d == Returned && l'.log == l.log + [PromptTimeout(prompt, caption)] && l'.written == l.written + [text + "\r"]
  {
  }

  /** A port none of whose writes or reads raise. */
  predicate Reliable(l: Link)
  {
    (forall i :: 0 <= i < |l.faults| ==> !l.faults[i]) &&
    (forall i :: 0 <= i < |l.incoming| ==> !l.incoming[i].Fault?)
  }

  lemma {:induction false} WaitReliable(l: Link, prompt: char, deadline: int)
    requires Reliable(l)
    ensures Wait(l, prompt, deadline).0 != ReadFailed && Reliable(Wait(l, prompt, deadline).1)
    decreases deadline - l.clock
  {
    if l.clock < deadline {
      var l' := l.(incoming := RestReads(l.incoming), clock := l.clock + 1);
      assert forall i :: 0 <= i < |l'.incoming| ==> l'.incoming[i] == l.incoming[i + 1];
      WaitReliable(l', prompt, deadline);
    }
  }

  /** Over a reliable port `send_line_and_wait` writes its line once and returns. */
  lemma SendAndWaitReliable(l: Link, text: string, caption: string, prompt: char, delay: nat)
    requires Reliable(l)
    ensures var r := SendAndWait(l, text, caption, prompt, delay, 0);
      r.0 == Returned && r.1.written == l.written + [text + "\r"] && Reliable(r.1)
  {
    var (ok, l1) := WriteLine(l, text);
    assert ok;
    assert forall i :: 0 <= i < |l1.faults| ==> l1.faults[i] == l.faults[i + 1];
    WaitReliable(l1, prompt, l1.clock + PROMPT_TIMEOUT_MS);
    var a := Attempt(l, text, prompt);
    assert a == Wait(l1, prompt, l1.clock + PROMPT_TIMEOUT_MS);
    assert a.1.written == l1.written;
  }

  /** The same for `send_line`. */
  lemma SendOnlyReliable(l: Link, text: string, delay: nat)
    requires Reliable(l)
    ensures var r := SendOnly(l, text, delay, 0);
      r.0 == Returned && r.1.written == l.written + [text + "\r"] && Reliable(r.1)
  {
    var (ok, l1) := WriteLine(l, text);
    assert ok;
    assert forall i :: 0 <= i < |l1.faults| ==> l1.faults[i] == l.faults[i + 1];
  }

  // ----- main -----

  /** One step of a `with serial_port(...)` block. */
  datatype Step =
    | Pause(ms: nat)
    | Ask(text: string, caption: string, prompt: char)
    | Tell(text: string)

  /**
   * A `with serial_port(...)` block: the steps in order; a port that does
   * not open, or a step that raises, prints the "not available" warning
   * and skips the rest.
   */
  function Session(l: Link, opens: bool, steps: seq<Step>): Link
    decreases |steps|
  {
    if !opens then l.(log := l.log + [PortUnavailable])
    else if steps == [] then l
    else
      var (d, l') := RunStep(l, steps[0]);
      if d == Raised then l'.(log := l'.log + [PortUnavailable])
      else Session(l', true, steps[1..])
  }

  function RunStep(l: Link, s: Step): (Done, Link)
  {
    match s
    case Pause(ms) => (Returned, Sleep(l, ms))
    case Ask(text, caption, prompt) => SendAndWait(l, text, caption, prompt, DELAY_MS, 0)
    case Tell(text) => SendOnly(l, text, DELAY_MS, 0)
  }

  /** A pause, then a command sent while waiting for `]`. */
  function Paced(ms: nat, text: string, caption: string): seq<Step>
  {
    [Pause(ms), Ask(text, caption, ']')]
  }

  /** The initial cleanup on the device. */
  function CleanupSteps(): seq<Step>
  {
    Paced(500, "exit", "exit") + Paced(400, "0:", "0:") + Paced(400, "cd /", "cd /") + [Pause(400)]
  }

  /** The installation proper; `reboot` is `--shellreboot Y`. */
  function InstallSteps(name: string, reboot: bool): seq<Step>
  {
    Paced(400, "set boot -", "set boot -") + Paced(400, "remove " + name, "remove " + name) +
    Paced(400, "install " + name + ".rp6502", "install " + name) +
    Paced(400, "set boot " + name, "set boot " + name) + [Pause(400)] +
    (if reboot then [Tell("reboot")] else [Ask("shell", "shell", '>')])
  }

  /**
   * How the upload subprocess ended. `subprocess.run` raises
   * `FileNotFoundError` only when the program it launches, `python3`, cannot
   * be found; a missing `rp6502.py` makes `python3` itself exit with code 2,
   * which is `Exited(2)`.
   */
  datatype Upload = LauncherMissing | Exited(code: int)

  /** `main`: cleanup, upload, and the installation unless the upload failed. */
  function Run(l: Link, name: string, reboot: bool, opens1: bool, upload: Upload, opens2: bool): (r: Link)
    ensures upload != Exited(0) ==>
      var l1 := Session(l, opens1, CleanupSteps());
      r.tries == l1.tries && r.written == l1.written && |r.log| == |l1.log| + 1
  {
    var l1 := Session(l, opens1, CleanupSteps());
    match upload
    case LauncherMissing => l1.(log := l1.log + [UploadNotFound])
    case Exited(code) =>
      if code != 0 then l1.(log := l1.log + [UploadExit(code)])
      else Session(l1, opens2, InstallSteps(name, reboot))
  }

  /** The lines a session writes over a reliable port. */
  function Lines(steps: seq<Step>): seq<string>
  {
    if steps == [] then []
    else
      match steps[0]
      case Pause(_) => Lines(steps[1..])
      case Ask(text, _, _) => [text + "\r"] + Lines(steps[1..])
      case Tell(text) => [text + "\r"] + Lines(steps[1..])
  }

  lemma {:induction false} LinesAppend(a: seq<Step>, b: seq<Step>)
    ensures Lines(a + b) == Lines(a) + Lines(b)
    decreases |a|
  {
    if a == [] {
      assert a + b == b;
    } else {
      assert (a + b)[0] == a[0] && (a + b)[1..] == a[1..] + b;
      LinesAppend(a[1..], b);
    }
  }

  lemma LinesPaced(ms: nat, text: string, caption: string)
    ensures Lines(Paced(ms, text, caption)) == [text + "\r"]
  {
    var p := Paced(ms, text, caption);
    assert p[1..] == [Ask(text, caption, ']')];
    assert p[1..][1..] == [];
    assert Lines(p[1..]) == [text + "\r"] + Lines([]);
  }

  /** One step over a reliable port writes that step's line, if it has one. */
  lemma RunStepReliable(l: Link, s: Step)
    requires Reliable(l)
    ensures RunStep(l, s).0 == Returned && RunStep(l, s).1.written == l.written + Lines([s]) && Reliable(RunStep(l, s).1)
  {
    assert [s][1..] == [];
    match s {
      case Pause(ms) =>
        assert l.written + [] == l.written;
      case Ask(text, caption, prompt) => SendAndWaitReliable(l, text, caption, prompt, DELAY_MS);
      case Tell(text) => SendOnlyReliable(l, text, DELAY_MS);
    }
  }

  lemma {:induction false} SessionReliable(l: Link, steps: seq<Step>)
    requires Reliable(l)
    ensures Session(l, true, steps).written == l.written + Lines(steps) && Reliable(Session(l, true, steps))
    decreases |steps|
  {
    if steps != [] {
      var l' := RunStep(l, steps[0]).1;
      RunStepReliable(l, steps[0]);
      SessionReliable(l', steps[1..]);
      assert Lines(steps) == Lines([steps[0]]) + Lines(steps[1..]) by {
        LinesAppend([steps[0]], steps[1..]);
        assert steps == [steps[0]] + steps[1..];
      }
      AppendAssoc(l.written, Lines([steps[0]]), Lines(steps[1..]));
    } else {
      assert l.written + [] == l.written;
    }
  }

  lemma AppendAssoc(a: seq<string>, b: seq<string>, c: seq<string>)
    ensures a + b + c == a + (b + c)
  {
  }

  /**
   * Over a reliable port that opens both times and a successful upload,
   * the device receives the cleanup commands, then `set boot -`, `remove`,
   * `install`, `set boot`, and finally `shell` or an unacknowledged `reboot`.
   */
  lemma InstallOrder(l: Link, name: string, reboot: bool)
    requires Reliable(l)
    ensures Run(l, name, reboot, true, Exited(0), true).written ==
      l.written + ["exit\r", "0:\r", "cd /\r", "set boot -\r", "remove " + name + "\r",
                   "install " + name + ".rp6502\r", "set boot " + name + "\r",
                   if reboot then "reboot\r" else "shell\r"]
  {
    SessionReliable(l, CleanupSteps());
    var l1 := Session(l, true, CleanupSteps());
    SessionReliable(l1, InstallSteps(name, reboot));
    CleanupLines();
    InstallLines(name, reboot);
  }

  lemma CleanupLines()
    ensures Lines(CleanupSteps()) == ["exit\r", "0:\r", "cd /\r"]
  {
    var a, b, c := Paced(500, "exit", "exit"), Paced(400, "0:", "0:"), Paced(400, "cd /", "cd /");
    LinesPaced(500, "exit", "exit");
    LinesPaced(400, "0:", "0:");
    LinesPaced(400, "cd /", "cd /");
    LinesAppend(a, b);
    LinesAppend(a + b, c);
    LinesAppend(a + b + c, [Pause(400)]);
    LinesPause(400);
    assert Lines(a + b + c) + [] == Lines(a + b + c);
    assert CleanupSteps() == a + b + c + [Pause(400)];
    assert "exit" + "\r" == "exit\r" && "0:" + "\r" == "0:\r" && "cd /" + "\r" == "cd /\r";
  }

  lemma LinesPause(ms: nat)
    ensures Lines([Pause(ms)]) == []
  {
    assert [Pause(ms)][1..] == [];
  }

  lemma InstallLines(name: string, reboot: bool)
    ensures Lines(InstallSteps(name, reboot)) == ["set boot -\r", "remove " + name + "\r",
      "install " + name + ".rp6502\r", "set boot " + name + "\r", if reboot then "reboot\r" else "shell\r"]
  {
    var last := if reboot then [Tell("reboot")] else [Ask("shell", "shell", '>')];
    var a, b := Paced(400, "set boot -", "set boot -"), Paced(400, "remove " + name, "remove " + name);
    var c := Paced(400, "install " + name + ".rp6502", "install " + name);
    var d := Paced(400, "set boot " + name, "set boot " + name);
    LinesPaced(400, "set boot -", "set boot -");
    LinesPaced(400, "remove " + name, "remove " + name);
    LinesPaced(400, "install " + name + ".rp6502", "install " + name);
    LinesPaced(400, "set boot " + name, "set boot " + name);
    LinesAppend(a, b);
    LinesAppend(a + b, c);
    LinesAppend(a + b + c, d);
    LinesAppend(a + b + c + d, [Pause(400)]);
    LinesAppend(a + b + c + d + [Pause(400)], last);
    LinesPause(400);
    assert Lines(a + b + c + d) + [] == Lines(a + b + c + d);
    assert Lines(last) == [if reboot then "reboot\r" else "shell\r"] by {
      assert last[1..] == [];
      assert "reboot" + "\r" == "reboot\r" && "shell" + "\r" == "shell\r";
    }
    assert "set boot -" + "\r" == "set boot -\r";
    assert "install " + name + ".rp6502" + "\r" == "install " + name + ".rp6502\r";
    assert InstallSteps(name, reboot) == a + b + c + d + [Pause(400)] + last;
  }

  /** A failed upload returns before the installation: nothing more is sent, and a warning says why. */
  lemma UploadFailureStops(l: Link, name: string, reboot: bool, opens1: bool, upload: Upload, opens2: bool)
    requires upload.LauncherMissing? || upload.code != 0
    ensures var l1 := Session(l, opens1, CleanupSteps());
      var r := Run(l, name, reboot, opens1, upload, opens2);
      r.written == l1.written && r.tries == l1.tries &&
      r.log == l1.log + [if upload.LauncherMissing? then UploadNotFound else UploadExit(upload.code)]
  {
  }

  /** A port that does not open during cleanup costs only a warning: the upload and installation go ahead. */
  lemma CleanupPortFailureWarns(l: Link, name: string, reboot: bool, opens2: bool)
    ensures Run(l, name, reboot, false, Exited(0), opens2) ==
      Session(l.(log := l.log + [PortUnavailable]), opens2, InstallSteps(name, reboot))
  {
  }

  // ----- the imperative program -----

  /** The serial port and the host around it. */
  class Port {
    var incoming: seq<Read>
    var faults: seq<bool>
    var tries: seq<string>
    var written: seq<string>
    var clock: int
    var log: seq<Warning>

    function State(): Link
      reads this
    {
      Link(incoming, faults, tries, written, clock, log)
    }

    constructor (incoming: seq<Read>, faults: seq<bool>)
      ensures State() == Link(incoming, faults, [], [], 0, [])
    {
      this.incoming := incoming;
      this.faults := faults;
      tries := [];
      written := [];
      clock := 0;
      log := [];
    }

    /** `port.read(1)`: one tick of the clock. */
    method ReadByte() returns (r: Read)
      modifies this
      ensures r == NextRead(old(incoming))
      ensures State() == old(State()).(incoming := RestReads(old(incoming)), clock := old(clock) + 1)
    {
      r := NextRead(incoming);
      incoming := RestReads(incoming);
      clock := clock + 1;
    }

    /** `port.write(...)` and `port.flush()`; false when either raises. */
    method Write(text: string) returns (ok: bool)
      modifies this
      ensures (ok, State()) == WriteLine(old(State()), text)
    {
      ok := !(faults != [] && faults[0]);
      faults := if faults == [] then [] else faults[1..];
      tries := tries + [text + "\r"];
      if ok {
        written := written + [text + "\r"];
      }
    }

    method Pause(ms: nat)
      modifies this
      ensures State() == Sleep(old(State()), ms)
    {
      clock := clock + ms;
    }

    method Warn(w: Warning)
      modifies this
      ensures State() == old(State()).(log := old(log) + [w])
    {
      log := log + [w];
    }
  }

  /** `wait_for_prompt(port, prompt, timeout_ms)`; `ReadFailed` is a read that raised. */
  method WaitForPrompt(port: Port, prompt: char, timeoutMs: nat) returns (w: Waited)
    modifies port
    ensures (w, port.State()) == Wait(old(port.State()), prompt, old(port.clock) + timeoutMs)
  {
    var deadline := port.clock + timeoutMs;
    while port.clock < deadline
      invariant port.clock <= deadline
      invariant Wait(old(port.State()), prompt, deadline) == Wait(port.State(), prompt, deadline)
      decreases deadline - port.clock
    {
      var ch := port.ReadByte();
      if ch.Fault? {
        return ReadFailed;
      }
      if Matches(ch, prompt) {
        return Prompted;
      }
    }
    return TimedOut;
  }

  /** `send_line_and_wait(port, text, caption, prompt, delay_ms)`. */
  method SendLineAndWait(port: Port, text: string, caption: string, prompt: char, delay: nat) returns (d: Done)
    modifies port
    ensures (d, port.State()) == SendAndWait(old(port.State()), text, caption, prompt, delay, 0)
  {
    var attempt := 0;
    while true
      invariant 0 <= attempt <= MAX_RETRIES
      invariant SendAndWait(old(port.State()), text, caption, prompt, delay, 0) ==
        SendAndWait(port.State(), text, caption, prompt, delay, attempt)
      decreases MAX_RETRIES - attempt
    {
      ghost var l0 := port.State();
      var ok := port.Write(text);
      var w := ReadFailed;
      if ok {
        w := WaitForPrompt(port, prompt, PROMPT_TIMEOUT_MS);
      }
      ghost var l2 := port.State();
      assert (w, l2) == Attempt(l0, text, prompt);
      if w == TimedOut {
        port.Warn(PromptTimeout(prompt, caption));
      }
      if w != ReadFailed {
        return Returned;
      }
      if attempt < MAX_RETRIES {
        port.Pause(delay);
        attempt := attempt + 1;
      } else {
        return Raised;
      }
    }
  }

  /** `send_line(port, text, delay_ms)`. */
  method SendLine(port: Port, text: string, delay: nat) returns (d: Done)
    modifies port
    ensures (d, port.State()) == SendOnly(old(port.State()), text, delay, 0)
  {
    var attempt := 0;
    while true
      invariant 0 <= attempt <= MAX_RETRIES
      invariant SendOnly(old(port.State()), text, delay, 0) == SendOnly(port.State(), text, delay, attempt)
      decreases MAX_RETRIES - attempt
    {
      var ok := port.Write(text);
      if ok {
        return Returned;
      }
      if attempt < MAX_RETRIES {
        port.Pause(delay);
        attempt := attempt + 1;
      } else {
        return Raised;
      }
    }
  }

  /** One `with serial_port(...)` block. */
  method RunSession(port: Port, opens: bool, steps: seq<Step>)
    modifies port
    ensures port.State() == Session(old(port.State()), opens, steps)
  {
    if !opens {
      port.Warn(PortUnavailable);
      return;
    }
    var i := 0;
    while i < |steps|
      invariant 0 <= i <= |steps|
      decreases |steps| - i
      invariant Session(old(port.State()), true, steps) == Session(port.State(), true, steps[i..])
    {
      var d := Returned;
      match steps[i] {
        case Pause(ms) => port.Pause(ms);
        case Ask(text, caption, prompt) => d := SendLineAndWait(port, text, caption, prompt, DELAY_MS);
        case Tell(text) => d := SendLine(port, text, DELAY_MS);
      }
      if d == Raised {
        port.Warn(PortUnavailable);
        return;
      }
      i := i + 1;
    }
  }

  /** `main` of the installer, with the port's availability and the upload's result as parameters. */
  method InstallExtension(port: Port, name: string, reboot: bool, opens1: bool, upload: Upload, opens2: bool)
    modifies port
    ensures port.State() == Run(old(port.State()), name, reboot, opens1, upload, opens2)
  {
    RunSession(port, opens1, CleanupSteps());
    match upload
    case LauncherMissing =>
      port.Warn(UploadNotFound);
    case Exited(code) =>
      if code != 0 {
        port.Warn(UploadExit(code));
      } else {
        RunSession(port, opens2, InstallSteps(name, reboot));
      }
  }
}
