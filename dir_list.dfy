/**
 * The `dir` command of `src/ext-dir.c`, apart from the wildcard test
 * (module DirMask): decimal and FAT date/time formatting, the split of
 * the argument into drive, path and mask, the sort flags, the collection
 * of directory entries and their in-place sort, and the listing. The
 * FatFs calls (`f_chdrive`, `f_getcwd`, `f_opendir`, `f_readdir`,
 * `f_closedir`) are parameters: their results are given, not performed.
 */
module DirList {
  import opened Common
  import opened DirMask

  const NUL: char := 0 as char
  const FNAMELEN := 64
  const DIR_LIST_MAX := 40

  /** The FAT attribute bits. */
  const AM_RDO := 0x01
  const AM_HID := 0x02
  const AM_SYS := 0x04
  const AM_VOL := 0x08
  const AM_DIR := 0x10
  const AM_ARC := 0x20

  /** 2^32: `unsigned long` on the 6502 target. */
  const ULONG := 0x1_0000_0000

  /** `dir_list_entry_t`: name, size, attributes and the packed FAT date and time. */
  datatype Entry = Entry(name: string, fsize: nat, fattrib: byte, fdate: nat, ftime: nat)

  /** What FatFs hands out: a NUL-free name without `*`, and fields within their C types. */
  predicate FatEntry(e: Entry)
  {
    NUL !in e.name && '*' !in e.name && e.fsize < ULONG && e.fdate < 0x10000 && e.ftime < 0x10000
  }

  /** `attrib & bit` for a single-bit mask. */
  predicate HasBit(attrib: byte, bit: int)
    requires bit in {AM_RDO, AM_HID, AM_SYS, AM_VOL, AM_DIR, AM_ARC}
  {
    (attrib / bit) % 2 == 1
  }

  /** Every entry is one FatFs could hand out. */
  predicate AllFat(es: seq<Entry>)
  {
    forall i :: 0 <= i < |es| ==> FatEntry(es[i])
  }

  predicate IsDir(e: Entry)
  {
    HasBit(e.fattrib, AM_DIR)
  }

  // ---------------------------------------------------------------- decimal

  function DigitChar(d: int): char
    requires 0 <= d < 10
  {
    ('0' as int + d) as char
  }

  /** Decimal digits, no leading zero, "0" for zero. */
  function Decimal(v: nat): (s: string)
    ensures |s| >= 1
    decreases v
  {
    if v < 10 then [DigitChar(v)] else Decimal(v / 10) + [DigitChar(v % 10)]
  }

  /** The number a string of decimal digits denotes. */
  function Value(s: string): int
  {
    if s == [] then 0 else 10 * Value(s[..|s| - 1]) + (s[|s| - 1] as int - '0' as int)
  }

  function Pow10(k: nat): (p: nat)
    ensures p >= 1
  {
    if k == 0 then 1 else 10 * Pow10(k - 1)
  }

  /**
   * The digits read back as the number, the first is never `0` unless the
   * number is, and every character is a digit; below 10^k there are at
   * most k of them.
   */
  lemma {:induction false} DecimalMeaning(v: nat, k: nat)
    requires v < Pow10(k)
    ensures var s := Decimal(v);
      Value(s) == v && (s[0] == '0' <==> v == 0) && |s| <= Math1(k) &&
      forall i :: 0 <= i < |s| ==> '0' <= s[i] <= '9'
    decreases v
  {
    if v >= 10 {
      DecimalMeaning(v / 10, k - 1);
      var s := Decimal(v);
      assert s[..|s| - 1] == Decimal(v / 10);
    }
  }

  /** At least one digit: `k` or 1. */
  function Math1(k: nat): nat
  {
    if k == 0 then 1 else k
  }

  /**
   * `tx_dec32(val)`: `'0'` for zero, else digits written from the right
   * into a ten-character buffer while `val` and `i` are non-zero.
   */
  method TxDec32(val0: nat) returns (text: string)
    requires val0 < ULONG
    ensures text == Decimal(val0)
  {
    if val0 == 0 {
      return ['0'];
    }
    var out := new char[10];
    var i: nat, val: nat := 10, val0;
    assert Pow10(10) == 10000000000;
    while val != 0 && i != 0
      invariant i <= 10 && val < Pow10(i)
      invariant val != 0 ==> Decimal(val0) == Decimal(val) + out[i..]
      invariant val == 0 ==> Decimal(val0) == out[i..]
      decreases i
    {
      ghost var tail := out[i..];
      i := i - 1;
      out[i] := DigitChar(val % 10);
      assert out[i..] == [out[i]] + tail;
      if val >= 10 {
        assert Decimal(val) == Decimal(val / 10) + [out[i]];
      }
      val := val / 10;
    }
    text := out[i..];
  }

  // ---------------------------------------------------------------- date and time

  /** The fields of a FAT date/time pair. */
  datatype Stamp = Stamp(year: int, month: int, day: int, hour: int, min: int, sec: int)

  /**
   * `format_fat_datetime`'s decoding: the date holds years since 1980 in
   * bits 9-15, the month in 5-8, the day in 0-4; the time holds the hour in
   * 11-15, the minute in 5-10, and seconds halved in 0-4.
   */
  function Fields(fdate: nat, ftime: nat): Stamp
  {
    Stamp(1980 + fdate / 512, (fdate / 32) % 16, fdate % 32, ftime / 2048, (ftime / 32) % 64, 2 * (ftime % 32))
  }

  /** The packed form of a stamp. */
  function Pack(t: Stamp): (nat, nat)
    requires Representable(t)
  {
    ((t.year - 1980) * 512 + t.month * 32 + t.day, t.hour * 2048 + t.min * 32 + t.sec / 2)
  }

  /** What the 16-bit fields can hold. */
  predicate Representable(t: Stamp)
  {
    1980 <= t.year < 1980 + 128 && 0 <= t.month < 16 && 0 <= t.day < 32 &&
    0 <= t.hour < 32 && 0 <= t.min < 64 && 0 <= t.sec < 64 && t.sec % 2 == 0
  }

  /** Decoding undoes packing, and packed values fit in 16 bits. */
  lemma FieldsPack(t: Stamp)
    requires Representable(t)
    ensures Pack(t).0 < 0x10000 && Pack(t).1 < 0x10000
    ensures Fields(Pack(t).0, Pack(t).1) == t
  {
    var (d, tm) := Pack(t);
    var y := t.year - 1980;
    assert d / 512 == y;
    assert d / 32 == y * 16 + t.month;
    assert (y * 16 + t.month) % 16 == t.month;
    assert d % 32 == t.day;
    assert tm / 2048 == t.hour;
    assert tm / 32 == t.hour * 64 + t.min;
    assert (t.hour * 64 + t.min) % 64 == t.min;
    assert tm % 32 == t.sec / 2;
  }

  /** Every field of a 16-bit date and time pair is in the range the text needs. */
  lemma FieldsRange(fdate: nat, ftime: nat)
    requires fdate < 0x10000 && ftime < 0x10000
    ensures Representable(Fields(fdate, ftime))
  {
  }

  /** Two digits read back. */
  function Read2(s: string): int
    requires |s| == 2
  {
    10 * (s[0] as int - '0' as int) + (s[1] as int - '0' as int)
  }

  /** `YYYY-MM-DD hh:mm:ss`, each digit `'0'` plus the quotient and remainder the C code takes. */
  function StampText(t: Stamp): (s: string)
    requires Representable(t)
    ensures |s| == 19
  {
    [DigitChar(t.year / 1000), DigitChar((t.year / 100) % 10), DigitChar((t.year / 10) % 10), DigitChar(t.year % 10), '-',
     DigitChar(t.month / 10), DigitChar(t.month % 10), '-', DigitChar(t.day / 10), DigitChar(t.day % 10), ' ',
     DigitChar(t.hour / 10), DigitChar(t.hour % 10), ':', DigitChar(t.min / 10), DigitChar(t.min % 10), ':',
     DigitChar(t.sec / 10), DigitChar(t.sec % 10)]
  }

  /**
   * The text has its separators in place, and each field reads back as the
   * value it shows: the text is `YYYY-MM-DD hh:mm:ss` of the stamp.
   */
  lemma StampTextReads(t: Stamp)
    requires Representable(t)
    ensures var s := StampText(t);
      s[4] == '-' && s[7] == '-' && s[10] == ' ' && s[13] == ':' && s[16] == ':' &&
      100 * Read2(s[..2]) + Read2(s[2..4]) == t.year &&
      Read2(s[5..7]) == t.month && Read2(s[8..10]) == t.day &&
      Read2(s[11..13]) == t.hour && Read2(s[14..16]) == t.min && Read2(s[17..19]) == t.sec
  {
    var s := StampText(t);
    var y := t.year;
    assert Read2(s[..2]) == y / 100 by {
      Hundreds(y);
      PairReads(s[..2], y / 100);
    }
    assert Read2(s[2..4]) == y % 100 by {
      TensOfRest(y);
      UnitsOfRest(y);
      PairReads(s[2..4], y % 100);
    }
    PairReads(s[5..7], t.month);
    PairReads(s[8..10], t.day);
    PairReads(s[11..13], t.hour);
    PairReads(s[14..16], t.min);
    PairReads(s[17..19], t.sec);
  }

  /* The digits of a year, as the C code takes them and as pairs. */

  lemma Hundreds(y: nat)
    ensures y / 100 / 10 == y / 1000
  {
  }

  lemma TensOfRest(y: nat)
    ensures (y % 100) / 10 == (y / 10) % 10
  {
  }

  lemma UnitsOfRest(y: nat)
    ensures (y % 100) % 10 == y % 10
  {
  }

  /** Two digits written as quotient and remainder by ten read back as the number. */
  lemma PairReads(s: string, v: nat)
    requires v < 100 && s == [DigitChar(v / 10), DigitChar(v % 10)]
    ensures Read2(s) == v
  {
  }

  /**
   * `format_fat_datetime(fdate, ftime)`: the twenty characters of
   * `dir_dt_buf`, the text then NUL.
   */
  method FormatFatDatetime(buf: array<char>, fdate: nat, ftime: nat)
    requires buf.Length == 20 && fdate < 0x10000 && ftime < 0x10000
    modifies buf
    ensures Representable(Fields(fdate, ftime))
    ensures buf[..] == StampText(Fields(fdate, ftime)) + [NUL]
  {
    var t := Fields(fdate, ftime);
    FieldsRange(fdate, ftime);
    WriteDate(buf, t);
    WriteTime(buf, t);
    assert buf[..] == buf[..10] + buf[10..];
  }

  /** The first ten characters, `YYYY-MM-DD`. */
  method WriteDate(buf: array<char>, t: Stamp)
    requires buf.Length == 20 && Representable(t)
    modifies buf
    ensures buf[..10] == StampText(t)[..10] && buf[10..] == old(buf[10..])
  {
    buf[0] := DigitChar(t.year / 1000);
    buf[1] := DigitChar((t.year / 100) % 10);
    buf[2] := DigitChar((t.year / 10) % 10);
    buf[3] := DigitChar(t.year % 10);
    buf[4] := '-';
    buf[5] := DigitChar(t.month / 10);
    buf[6] := DigitChar(t.month % 10);
    buf[7] := '-';
    buf[8] := DigitChar(t.day / 10);
    buf[9] := DigitChar(t.day % 10);
  }

  /** The last ten, ` hh:mm:ss` and the NUL. */
  method WriteTime(buf: array<char>, t: Stamp)
    requires buf.Length == 20 && Representable(t)
    modifies buf
    ensures buf[10..] == StampText(t)[10..] + [NUL] && buf[..10] == old(buf[..10])
  {
    buf[10] := ' ';
    buf[11] := DigitChar(t.hour / 10);
    buf[12] := DigitChar(t.hour % 10);
    buf[13] := ':';
    buf[14] := DigitChar(t.min / 10);
    buf[15] := DigitChar(t.min % 10);
    buf[16] := ':';
    buf[17] := DigitChar(t.sec / 10);
    buf[18] := DigitChar(t.sec % 10);
    buf[19] := NUL;
  }

  // ---------------------------------------------------------------- arguments

  /** Where to list and what: the drive prefix if any, the directory path and the mask. */
  datatype Target = Target(drive: Option<char>, path: string, mask: string)

  predicate IsSep(c: char)
  {
    c == '/' || c == '\\'
  }

  /** The character at `i` of a C string: NUL past the end. */
  function At(s: string, i: nat): char
  {
    if i < |s| then s[i] else NUL
  }

  /** The index of the last separator, as the scan with `last_sep` finds it. */
  function LastSep(p: string): (k: Option<nat>)
    ensures k.Some? ==> k.value < |p| && IsSep(p[k.value]) && forall j :: k.value < j < |p| ==> !IsSep(p[j])
    ensures k.None? ==> forall j :: 0 <= j < |p| ==> !IsSep(p[j])
  {
    if p == [] then None
    else if IsSep(p[|p| - 1]) then Some(|p| - 1)
    else LastSep(p[..|p| - 1])
  }

  /**
   * Lines 158-196: a `d:` prefix must name drive 0-7; one leading separator
   * is dropped; the last separator splits the path from the mask; an empty
   * path is `.` and an empty mask is `*`. `None` is "Invalid drive".
   */
  function SplitArg(arg: string): (r: Option<Target>)
    ensures r.Some? ==> r.value.mask != [] && r.value.path != []
    ensures r.Some? && r.value.drive.Some? ==> '0' <= r.value.drive.value <= '7'
  {
    if At(arg, 1) == ':' then
      if arg[0] < '0' || arg[0] > '7' then None else Some(SplitPath(Some(arg[0]), arg[2..]))
    else Some(SplitPath(None, arg))
  }

  function SplitPath(drive: Option<char>, p0: string): Target
  {
    var p := if p0 != [] && IsSep(p0[0]) then p0[1..] else p0;
    var k := LastSep(p);
    var path := if k.None? || k.value == 0 then "." else p[..k.value];
    var mask := if k.None? then p else p[k.value + 1..];
    Target(drive, path, if mask == [] then "*" else mask)
  }

  /**
   * The split keeps what it was given: the mask has no separator and is
   * never empty, the path is never empty, a drive is always 0-7, and when
   * the mask is not the default, path, separator and mask put together
   * give the argument back (less its drive and its leading separator).
   */
  lemma SplitMeaning(arg: string)
    requires SplitArg(arg).Some?
    ensures var t := SplitArg(arg).value;
      t.mask != [] && t.path != [] && (forall j :: 0 <= j < |t.mask| ==> !IsSep(t.mask[j])) &&
      (t.drive.Some? ==> '0' <= t.drive.value <= '7' && |arg| >= 2 && arg[..2] == [t.drive.value, ':'])
  {
    if At(arg, 1) == ':' {
      PathMeaning(Some(arg[0]), arg[2..]);
    } else {
      PathMeaning(None, arg);
    }
  }

  lemma PathMeaning(d: Option<char>, p0: string)
    ensures var t := SplitPath(d, p0);
      t.drive == d && t.mask != [] && t.path != [] && forall j :: 0 <= j < |t.mask| ==> !IsSep(t.mask[j])
  {
    var p := if p0 != [] && IsSep(p0[0]) then p0[1..] else p0;
    MaskNoSep(p);
  }

  lemma MaskNoSep(p: string)
    ensures LastSep(p).Some? ==> forall j :: LastSep(p).value + 1 <= j < |p| ==> !IsSep(p[j])
    ensures LastSep(p).Some? ==> var m := p[LastSep(p).value + 1..]; forall j :: 0 <= j < |m| ==> !IsSep(m[j])
  {
    if LastSep(p).Some? {
      var k := LastSep(p).value;
      var m := p[k + 1..];
      forall j | 0 <= j < |m|
        ensures !IsSep(m[j])
      {
        assert m[j] == p[k + 1 + j];
      }
    }
  }

  /** A directory part and a mask, put back together, give the argument (less its leading separator). */
  lemma SplitRebuilds(p: string)
    requires p != [] && !IsSep(p[0]) && LastSep(p).Some? && LastSep(p).value > 0 && !IsSep(p[|p| - 1])
    ensures var t := SplitPath(None, p);
      t.path + [p[LastSep(p).value]] + t.mask == p
  {
    var k := LastSep(p).value;
    assert k < |p| - 1;
    assert p[k + 1..] != [];
    Rejoin(p, k);
  }

  lemma Rejoin(p: string, k: nat)
    requires k < |p|
    ensures p[..k] + [p[k]] + p[k + 1..] == p
  {
  }

  /** "Invalid drive" exactly for a `d:` prefix whose `d` is not 0-7. */
  lemma SplitRejects(arg: string)
    ensures SplitArg(arg).None? <==> |arg| >= 2 && arg[1] == ':' && !('0' <= arg[0] <= '7')
  {
  }

  /** The sort mode a flag selects, as lines 201-204 map them. */
  function FlagMode(flag: string): Option<nat>
  {
    if flag == "/da" then Some(1)
    else if flag == "/dd" then Some(2)
    else if flag == "/sa" then Some(3)
    else if flag == "/sd" then Some(4)
    else None
  }

  /** The mode after the flags `args[2..i]`: the last recognised flag wins, 0 without one. */
  function ModeAfter(args: seq<string>, i: nat): nat
    requires i <= |args|
  {
    if i <= 2 then 0
    else match FlagMode(args[i - 1])
      case Some(m) => m
      case None => ModeAfter(args, i - 1)
  }

  /** The flag loop of lines 199-206. */
  method SortFlags(args: seq<string>) returns (mode: nat)
    ensures mode == ModeAfter(args, |args|)
    ensures mode <= 4
  {
    mode := 0;
    var i := 2;
    while i < |args|
      invariant 2 <= i || |args| <= i
      invariant i <= |args| || |args| < 2
      invariant mode == (if i <= |args| then ModeAfter(args, i) else 0) && mode <= 4
    {
      var a := args[i];
      if |a| > 0 && a[0] == '/' {
        if a == "/da" { mode := 1; }
        else if a == "/dd" { mode := 2; }
        else if a == "/sa" { mode := 3; }
        else if a == "/sd" { mode := 4; }
      }
      assert FlagMode(a).Some? ==> |a| > 0 && a[0] == '/';
      i := i + 1;
    }
  }

  /** The flags for dates the other way round, as the usage text describes them: `/da` oldest first. */
  function FlagModeIntended(flag: string): Option<nat>
  {
    if flag == "/da" then Some(2)
    else if flag == "/dd" then Some(1)
    else FlagMode(flag)
  }

  /** The mode after the flags with the date flags the way round the usage text gives them. */
  function ModeAfterIntended(args: seq<string>, i: nat): nat
    requires i <= |args|
  {
    if i <= 2 then 0
    else match FlagModeIntended(args[i - 1])
      case Some(m) => m
      case None => ModeAfterIntended(args, i - 1)
  }

  /**
   * As written, `/da` ("sorted by date ascending") selects mode 1, whose
   * swap test puts the newer of two entries first: an older entry can
   * never come before a newer one.
   */
  lemma DaSortsNewestFirst(args: seq<string>, older: Entry, newer: Entry)
    requires |args| >= 3 && args[|args| - 1] == "/da" && TimeKey(older) < TimeKey(newer)
    ensures ModeAfter(args, |args|) == 1
    ensures !Settled([older, newer], ModeAfter(args, |args|), 2) && Settled([newer, older], ModeAfter(args, |args|), 2)
  {
    assert FlagMode(args[|args| - 1]) == Some(1);
    assert [older, newer][0] == older && [older, newer][1] == newer;
    assert [newer, older][0] == newer && [newer, older][1] == older;
  }

  /** With the flags the intended way round, `/da` lists the older entry first, and `/dd` the newer. */
  lemma DaSortsOldestFirstIntended(args: seq<string>, older: Entry, newer: Entry)
    requires |args| >= 3 && TimeKey(older) < TimeKey(newer)
    ensures args[|args| - 1] == "/da" ==>
      (ModeAfterIntended(args, |args|) == 2 && Settled([older, newer], 2, 2) && !Settled([newer, older], 2, 2))
    ensures args[|args| - 1] == "/dd" ==>
      (ModeAfterIntended(args, |args|) == 1 && Settled([newer, older], 1, 2) && !Settled([older, newer], 1, 2))
  {
    assert [older, newer][0] == older && [older, newer][1] == newer;
    assert [newer, older][0] == newer && [newer, older][1] == older;
  }

  // ---------------------------------------------------------------- collecting entries

  /** One `f_readdir`: an entry (an empty name ends the list) or a failure. */
  datatype ReadResult = Got(entry: Entry) | ReadFailed

  /** How the reading loop ended. */
  datatype Stop = EndOfList | Truncated | Failed

  /**
   * The reading loop of lines 229-253 from `kept` on: a failure stops it,
   * an empty name or the end of the results ends it, a forty-first entry
   * truncates it, and a file the mask rejects is skipped; directories are
   * always kept.
   */
  function Collected(results: seq<ReadResult>, mask: string, kept: seq<Entry>): (r: (seq<Entry>, Stop))
    decreases |results|
  {
    if results == [] then (kept, EndOfList)
    else match results[0]
      case ReadFailed => (kept, Failed)
      case Got(e) =>
        if e.name == [] then (kept, EndOfList)
        else if |kept| == DIR_LIST_MAX then (kept, Truncated)
        else if !IsDir(e) && !Glob(e.name, mask) then Collected(results[1..], mask, kept)
        else Collected(results[1..], mask, kept + [e])
  }

  /** The mask filters files, never directories. */
  predicate Passes(e: Entry, mask: string)
  {
    IsDir(e) || Glob(e.name, mask)
  }

  function Filter(es: seq<Entry>, mask: string): (r: seq<Entry>)
    ensures forall i :: 0 <= i < |r| ==> Passes(r[i], mask)
  {
    if es == [] then []
    else (if Passes(es[0], mask) then [es[0]] else []) + Filter(es[1..], mask)
  }

  /** The entries the directory yields before its end or a failure. */
  function Listed(results: seq<ReadResult>): seq<Entry>
  {
    if results == [] || results[0].ReadFailed? || results[0].entry.name == [] then []
    else [results[0].entry] + Listed(results[1..])
  }

  /**
   * The loop keeps exactly the directories and the matching files, in the
   * order read, unless it stops at `DIR_LIST_MAX`, where it keeps the first
   * forty of them.
   */
  lemma {:induction false} CollectedMeaning(results: seq<ReadResult>, mask: string, kept: seq<Entry>)
    requires |kept| <= DIR_LIST_MAX
    ensures var (all, stop) := Collected(results, mask, kept);
      var wanted := kept + Filter(Listed(results), mask);
      |all| <= DIR_LIST_MAX && kept <= all && all <= wanted &&
      (stop != Truncated ==> all == wanted) && (stop == Truncated ==> |all| == DIR_LIST_MAX)
    decreases |results|
  {
    var wanted := kept + Filter(Listed(results), mask);
    assert kept <= wanted;
    if results != [] && results[0].Got? && results[0].entry.name != [] && |kept| < DIR_LIST_MAX {
      var e := results[0].entry;
      var rest := Listed(results[1..]);
      assert Listed(results) == [e] + rest;
      assert ([e] + rest)[1..] == rest;
      if !Passes(e, mask) {
        assert wanted == kept + Filter(rest, mask);
        CollectedMeaning(results[1..], mask, kept);
      } else {
        var more := kept + [e];
        assert wanted == more + Filter(rest, mask) by {
          assert kept + Filter([e] + rest, mask) == kept + [e] + Filter(rest, mask);
        }
        CollectedMeaning(results[1..], mask, more);
        var all := Collected(results, mask, kept).0;
        assert kept <= all by {
          PrefixTrans(kept, more, all);
        }
      }
    }
  }

  lemma PrefixTrans<T>(a: seq<T>, b: seq<T>, c: seq<T>)
    requires a <= b && b <= c
    ensures a <= c
  {
    assert c[..|a|] == b[..|a|];
  }

  /**
   * The reading loop: entries go into the forty-slot `dir_entries` array
   * in the order read. `results` stands for the successive `f_readdir`
   * calls.
   */
  method Collect(entries: array<Entry>, results: seq<ReadResult>, mask: string) returns (count: nat, stop: Stop)
    requires entries.Length == DIR_LIST_MAX && FatResults(results)
    modifies entries
    ensures count <= DIR_LIST_MAX && (entries[..count], stop) == Collected(results, mask, [])
    ensures forall i :: 0 <= i < count ==> FatEntry(entries[i])
  {
    count := 0;
    var k := 0;
    while true
      invariant 0 <= k <= |results| && count <= DIR_LIST_MAX
      invariant Collected(results, mask, []) == Collected(results[k..], mask, entries[..count])
      invariant forall i :: 0 <= i < count ==> FatEntry(entries[i])
      decreases |results| - k
    {
      if k == |results| {
        stop := EndOfList;
        return;
      }
      assert results[k..][0] == results[k] && results[k..][1..] == results[k + 1..];
      match results[k]
      case ReadFailed =>
        stop := Failed;
        return;
      case Got(e) =>
        if e.name == [] {
          stop := EndOfList;
          return;
        }
        if count == DIR_LIST_MAX {
          stop := Truncated;
          return;
        }
        var keep := true;
        if !HasBit(e.fattrib, AM_DIR) {
          keep := MatchMask(e.name, mask);
        }
        if keep {
          entries[count] := e;
          assert entries[..count + 1] == entries[..count] + [e];
          count := count + 1;
        }
        k := k + 1;
    }
  }

  predicate FatResults(results: seq<ReadResult>)
  {
    forall i :: 0 <= i < |results| && results[i].Got? ==> FatEntry(results[i].entry)
  }

  // ---------------------------------------------------------------- sorting

  /** `strcmp(x, y) > 0` on NUL-free names: the first difference decides, and a proper prefix is smaller. */
  predicate StrGreater(x: string, y: string)
  {
    if y == [] then x != []
    else if x == [] then false
    else if x[0] != y[0] then x[0] > y[0]
    else StrGreater(x[1..], y[1..])
  }

  lemma {:induction false} StrGreaterIrreflexive(x: string)
    ensures !StrGreater(x, x)
    decreases |x|
  {
    if x != [] {
      StrGreaterIrreflexive(x[1..]);
    }
  }

  lemma {:induction false} StrGreaterTransitive(x: string, y: string, z: string)
    requires StrGreater(x, y) && StrGreater(y, z)
    ensures StrGreater(x, z)
    decreases |x|
  {
    if z != [] && x[0] == y[0] && y[0] == z[0] {
      StrGreaterTransitive(x[1..], y[1..], z[1..]);
    }
  }

  /** Two different names are always ordered one way or the other. */
  lemma {:induction false} StrGreaterTotal(x: string, y: string)
    requires x != y
    ensures StrGreater(x, y) || StrGreater(y, x)
    decreases |x|
  {
    if x != [] && y != [] && x[0] == y[0] {
      StrGreaterTotal(x[1..], y[1..]);
    }
  }

  /** `((unsigned long)fdate << 16) | ftime`, with both fields below 2^16. */
  function TimeKey(e: Entry): nat
  {
    e.fdate * 0x10000 + e.ftime
  }

  /**
   * The `swap` decision of lines 266-296 for the pair at `dir_i` and `dir_j`:
   * mode 1 swaps an older entry ahead of a newer one, mode 2 the reverse,
   * 3 and 4 do the same by size, and every other mode puts directories
   * after files and, among equals, orders by name.
   */
  predicate Swaps(mode: nat, x: Entry, y: Entry)
  {
    if mode == 1 then TimeKey(x) < TimeKey(y)
    else if mode == 2 then TimeKey(x) > TimeKey(y)
    else if mode == 3 then x.fsize > y.fsize
    else if mode == 4 then x.fsize < y.fsize
    else if IsDir(x) != IsDir(y) then IsDir(x) && !IsDir(y)
    else StrGreater(x.name, y.name)
  }

  /** Every mode's swap test is a strict order: never true of an entry and itself, and transitive. */
  lemma SwapsIrreflexive(mode: nat, x: Entry)
    ensures !Swaps(mode, x, x)
  {
    StrGreaterIrreflexive(x.name);
  }

  lemma SwapsTransitive(mode: nat, x: Entry, y: Entry, z: Entry)
    requires Swaps(mode, x, y) && Swaps(mode, y, z)
    ensures Swaps(mode, x, z)
  {
    if mode !in {1, 2, 3, 4} && IsDir(x) == IsDir(y) && IsDir(y) == IsDir(z) {
      StrGreaterTransitive(x.name, y.name, z.name);
    }
  }

  /** Entries `0..i` are in their final place: no later entry would be swapped in ahead of them. */
  predicate Settled(s: seq<Entry>, mode: nat, i: int)
  {
    forall p, q :: 0 <= p < i && p < q < |s| ==> !Swaps(mode, s[p], s[q])
  }

  /**
   * The exchange sort of lines 264-303 over `dir_entries[..count]`: the
   * entries end up in an order no pair of which the swap test would
   * exchange, and they are the same entries.
   */
  method SortEntries(a: array<Entry>, count: nat, mode: nat)
    requires count <= a.Length
    modifies a
    ensures Settled(a[..count], mode, count)
    ensures multiset(a[..count]) == multiset(old(a[..count])) && a[count..] == old(a[count..])
  {
    var i := 0;
    while i < count
      invariant i <= count && Settled(a[..count], mode, i)
      invariant multiset(a[..count]) == multiset(old(a[..count])) && a[count..] == old(a[count..])
    {
      PlaceFirst(a, count, mode, i);
      i := i + 1;
    }
  }

  /** The inner loop for `dir_i == i`: it leaves at `i` an entry no later one would be swapped with. */
  method PlaceFirst(a: array<Entry>, count: nat, mode: nat, i: nat)
    requires i < count <= a.Length && Settled(a[..count], mode, i)
    modifies a
    ensures Settled(a[..count], mode, i + 1)
    ensures multiset(a[..count]) == multiset(old(a[..count])) && a[count..] == old(a[count..])
  {
    var j := i + 1;
    while j < count
      invariant i < j <= count && Settled(a[..count], mode, i)
      invariant forall q :: i < q < j ==> !Swaps(mode, a[i], a[q])
      invariant multiset(a[..count]) == multiset(old(a[..count])) && a[count..] == old(a[count..])
    {
      if Swaps(mode, a[i], a[j]) {
        Exchange(a, count, mode, i, j);
      }
      j := j + 1;
    }
  }

  /** Lines 297-301: `dir_entries[dir_i]` and `dir_entries[dir_j]` trade places. */
  method Exchange(a: array<Entry>, count: nat, mode: nat, i: nat, j: nat)
    requires i < j < count <= a.Length && Settled(a[..count], mode, i) && Swaps(mode, a[i], a[j])
    requires forall q :: i < q < j ==> !Swaps(mode, a[i], a[q])
    modifies a
    ensures a[..count] == old(a[..count])[i := old(a[j])][j := old(a[i])] && a[count..] == old(a[count..])
    ensures Settled(a[..count], mode, i) && forall q :: i < q <= j ==> !Swaps(mode, a[i], a[q])
    ensures multiset(a[..count]) == multiset(old(a[..count]))
  {
    ghost var before := a[..count];
    a[i], a[j] := a[j], a[i];
    assert a[..count] == before[i := before[j]][j := before[i]];
    SwapKeeps(before, mode, i, j);
  }

  /**
   * What a settled list looks like in each mode: `/da`'s mode 1 newest
   * first, mode 2 oldest first, 3 smallest first, 4 largest first, and by
   * default files before directories, each group by ascending name.
   */
  lemma SettledMeaning(s: seq<Entry>, mode: nat, p: nat, q: nat)
    requires Settled(s, mode, |s|) && p < q < |s|
    ensures mode == 1 ==> TimeKey(s[p]) >= TimeKey(s[q])
    ensures mode == 2 ==> TimeKey(s[p]) <= TimeKey(s[q])
    ensures mode == 3 ==> s[p].fsize <= s[q].fsize
    ensures mode == 4 ==> s[p].fsize >= s[q].fsize
    ensures mode !in {1, 2, 3, 4} ==> (IsDir(s[p]) ==> IsDir(s[q]))
    ensures mode !in {1, 2, 3, 4} && IsDir(s[p]) == IsDir(s[q]) && s[p].name != s[q].name ==>
      StrGreater(s[q].name, s[p].name)
  {
    if mode !in {1, 2, 3, 4} && IsDir(s[p]) == IsDir(s[q]) && s[p].name != s[q].name {
      StrGreaterTotal(s[p].name, s[q].name);
    }
  }

  /** One exchange of the inner loop keeps the settled prefix, the entries, and the candidate at `i` minimal so far. */
  lemma SwapKeeps(s: seq<Entry>, mode: nat, i: nat, j: nat)
    requires i < j < |s| && Settled(s, mode, i) && Swaps(mode, s[i], s[j])
    requires forall q :: i < q < j ==> !Swaps(mode, s[i], s[q])
    ensures var t := s[i := s[j]][j := s[i]];
      Settled(t, mode, i) && multiset(t) == multiset(s) &&
      forall q :: i < q <= j ==> !Swaps(mode, t[i], t[q])
  {
    var t := s[i := s[j]][j := s[i]];
    var x, y := s[i], s[j];
    forall q | i < q <= j
      ensures !Swaps(mode, t[i], t[q])
    {
      if q == j {
        if Swaps(mode, y, x) {
          SwapsTransitive(mode, x, y, x);
          SwapsIrreflexive(mode, x);
        }
      } else if Swaps(mode, y, t[q]) {
        SwapsTransitive(mode, x, y, t[q]);
      }
    }
  }

  // ---------------------------------------------------------------- listing

  const NEWLINE: string := "\r\n"

  /** The attribute column of lines 332-337: `RHSVDA`, with `-` for each bit not set. */
  function AttrFlags(attrib: byte): (r: string)
    ensures |r| == 6
  {
    [if HasBit(attrib, AM_RDO) then 'R' else '-', if HasBit(attrib, AM_HID) then 'H' else '-',
     if HasBit(attrib, AM_SYS) then 'S' else '-', if HasBit(attrib, AM_VOL) then 'V' else '-',
     if HasBit(attrib, AM_DIR) then 'D' else '-', if HasBit(attrib, AM_ARC) then 'A' else '-']
  }

  /** The bits a flag column shows, read back: column `k` stands for bit `2^k`. */
  function ShownBits(r: string): nat
    requires |r| == 6
  {
    (if r[0] != '-' then 1 else 0) + (if r[1] != '-' then 2 else 0) + (if r[2] != '-' then 4 else 0) +
    (if r[3] != '-' then 8 else 0) + (if r[4] != '-' then 16 else 0) + (if r[5] != '-' then 32 else 0)
  }

  /** The column shows exactly the six low attribute bits. */
  lemma AttrFlagsShowBits(attrib: byte)
    ensures ShownBits(AttrFlags(attrib)) == attrib as int % 64
  {
    LowBits(attrib);
  }

  /** The six low bits of a number, one by one. */
  lemma LowBits(a: nat)
    ensures a % 64 == a % 2 + 2 * ((a / 2) % 2) + 4 * ((a / 4) % 2) + 8 * ((a / 8) % 2) + 16 * ((a / 16) % 2) + 32 * ((a / 32) % 2)
  {
    var a1, a2, a3, a4, a5 := a / 2, a / 4, a / 8, a / 16, a / 32;
    Halves(a);
    assert a % 64 == a % 2 + 2 * (a1 % 32) by { LowBit64(a); }
    assert a1 % 32 == a1 % 2 + 2 * (a2 % 16) by { LowBit32(a1); }
    assert a2 % 16 == a2 % 2 + 2 * (a3 % 8) by { LowBit16(a2); }
    assert a3 % 8 == a3 % 2 + 2 * (a4 % 4) by { LowBit8(a3); }
    assert a4 % 4 == a4 % 2 + 2 * (a5 % 2) by { LowBit4(a4); }
  }

  /* Splitting off the low bit below 64, 32, 16, 8 and 4, one lemma each to keep the solver's work small. */

  lemma LowBit64(x: nat)
    ensures x % 64 == x % 2 + 2 * ((x / 2) % 32)
  {
  }

  lemma LowBit32(x: nat)
    ensures x % 32 == x % 2 + 2 * ((x / 2) % 16)
  {
  }

  lemma LowBit16(x: nat)
    ensures x % 16 == x % 2 + 2 * ((x / 2) % 8)
  {
  }

  lemma LowBit8(x: nat)
    ensures x % 8 == x % 2 + 2 * ((x / 2) % 4)
  {
  }

  lemma LowBit4(x: nat)
    ensures x % 4 == x % 2 + 2 * ((x / 2) % 2)
  {
  }

  /** Halving `a / 2^k` is `a / 2^(k+1)`. */
  lemma Halves(a: nat)
    ensures a / 2 / 2 == a / 4 && a / 4 / 2 == a / 8 && a / 8 / 2 == a / 16 && a / 16 / 2 == a / 32
  {
  }

  /** `n` spaces. */
  function Spaces(n: int): (r: string)
    ensures |r| == if n < 0 then 0 else n
    ensures forall i :: 0 <= i < |r| ==> r[i] == ' '
    decreases n
  {
    if n <= 0 then [] else Spaces(n - 1) + [' ']
  }

  /** The name as shown: in brackets for a directory. */
  function Shown(e: Entry): string
  {
    if IsDir(e) then "[" + e.name + "]" else e.name
  }

  /** Lines 306-319: the shown name, padded with spaces to 32 characters. */
  function NameColumn(e: Entry): string
  {
    Shown(e) + Spaces(32 - |Shown(e)|)
  }

  /** One line of the listing, lines 306-338. */
  function EntryLine(e: Entry): string
    requires FatEntry(e)
  {
    FieldsRange(e.fdate, e.ftime);
    NameColumn(e) + "\t" + StampText(Fields(e.fdate, e.ftime)) + "\t" +
    (if IsDir(e) then "<DIR>" else Decimal(e.fsize)) + "\t" + AttrFlags(e.fattrib) + NEWLINE
  }

  /**
   * The name column is left-aligned in a field of 32: it starts with the
   * shown name, is at least 32 wide, and anything past the name is blank;
   * a name of 32 or more is shown whole, unpadded.
   */
  lemma NameColumnAligned(e: Entry)
    ensures var c, n := NameColumn(e), Shown(e);
      |c| == (if |n| < 32 then 32 else |n|) && c[..|n|] == n &&
      (forall i :: |n| <= i < |c| ==> c[i] == ' ')
  {
    var c, n := NameColumn(e), Shown(e);
    assert c[..|n|] == n;
  }

  /** The listing of `es`, one line each in order. */
  function Lines(es: seq<Entry>): string
    requires AllFat(es)
  {
    if es == [] then [] else Lines(es[..|es| - 1]) + EntryLine(es[|es| - 1])
  }

  function FileCount(es: seq<Entry>): (n: nat)
    ensures n <= |es|
  {
    if es == [] then 0 else FileCount(es[..|es| - 1]) + (if IsDir(es[|es| - 1]) then 0 else 1)
  }

  /** The sum of the file sizes, unbounded. */
  function FileBytes(es: seq<Entry>): nat
  {
    if es == [] then 0 else FileBytes(es[..|es| - 1]) + (if IsDir(es[|es| - 1]) then 0 else es[|es| - 1].fsize)
  }

  /** The summary after the entries, lines 340-347. */
  function Totals(files: nat, dirs: nat, bytes: nat): string
  {
    NEWLINE + "Files: " + Decimal(files) + "  Dirs: " + Decimal(dirs) + "  Bytes: " + Decimal(bytes) + NEWLINE + NEWLINE
  }

  /**
   * The counts of a listing: files and directories together are all the
   * entries, and the byte total is the files' sizes, wrapped at 2^32 as
   * `unsigned long total_bytes` is.
   */
  function Summary(es: seq<Entry>): string
  {
    Totals(FileCount(es), |es| - FileCount(es), Wrap(FileBytes(es)))
  }

  /** Unsigned 32-bit wrap-around. */
  function Wrap(x: int): (r: nat)
    ensures r < ULONG
  {
    x % ULONG
  }

  /**
   * The listing loop of lines 305-347 over the sorted `dir_entries[..count]`.
   */
  method ListEntries(entries: array<Entry>, count: nat) returns (out: string)
    requires count <= entries.Length == DIR_LIST_MAX && AllFat(entries[..count])
    ensures out == Lines(entries[..count]) + Summary(entries[..count])
  {
    ghost var es := entries[..count];
    var files, dirs, total;
    out, files, dirs, total := ListLines(entries, count);
    var summary := SummaryText(files, dirs, total);
    assert summary == Summary(es);
    out := out + summary;
  }

  /** Lines 305-338: the entry lines, and the counters the summary reports. */
  method ListLines(entries: array<Entry>, count: nat) returns (out: string, files: nat, dirs: nat, total: nat)
    requires count <= entries.Length == DIR_LIST_MAX && AllFat(entries[..count])
    ensures out == Lines(entries[..count]) && files == FileCount(entries[..count]) && dirs == count - files
    ensures total == Wrap(FileBytes(entries[..count])) && files < ULONG && dirs < ULONG
  {
    out := [];
    ghost var es := entries[..count];
    files, dirs, total := 0, 0, 0;
    ghost var ghostBytes := 0;
    var buf := new char[20];
    var i := 0;
    while i < count
      invariant i <= count && out == Lines(es[..i])
      invariant files == FileCount(es[..i]) && dirs == i - files && ghostBytes == FileBytes(es[..i]) && total == Wrap(ghostBytes)
      invariant files <= i && AllFat(es)
    {
      out, files, dirs, total, ghostBytes := ListNext(buf, entries[i], es, i, out, files, dirs, total, ghostBytes);
      i := i + 1;
    }
    assert es == es[..i];
  }

  /** One pass of the listing loop: the line of entry `i`, and the counters with it. */
  method ListNext(buf: array<char>, e: Entry, ghost es: seq<Entry>, ghost i: nat,
                  out: string, files: nat, dirs: nat, total: nat, ghost bytes: nat)
    returns (out': string, files': nat, dirs': nat, total': nat, ghost bytes': nat)
    requires buf.Length == 20 && i < |es| && e == es[i] && AllFat(es)
    requires out == Lines(es[..i]) && files == FileCount(es[..i]) && dirs == i - files
    requires bytes == FileBytes(es[..i]) && total == Wrap(bytes)
    modifies buf
    ensures out' == Lines(es[..i + 1]) && files' == FileCount(es[..i + 1]) && dirs' == i + 1 - files'
    ensures bytes' == FileBytes(es[..i + 1]) && total' == Wrap(bytes')
  {
    var line := EntryText(buf, e);
    assert out + line == Lines(es[..i + 1]) by {
      ListStep(es, i);
    }
    files', dirs', total', bytes' := Tally(e, files, dirs, total, bytes);
    CountStep(es, i);
    out' := out + line;
  }

  /** The counters of lines 323-330: a directory counts as one, a file as one and its size. */
  method Tally(e: Entry, files: nat, dirs: nat, total: nat, ghost bytes: nat)
    returns (files': nat, dirs': nat, total': nat, ghost bytes': nat)
    requires total == Wrap(bytes)
    ensures files' == files + (if IsDir(e) then 0 else 1) && dirs' == dirs + (if IsDir(e) then 1 else 0)
    ensures bytes' == bytes + (if IsDir(e) then 0 else e.fsize) && total' == Wrap(bytes')
  {
    files', dirs', total', bytes' := files, dirs, total, bytes;
    if HasBit(e.fattrib, AM_DIR) {
      dirs' := dirs + 1;
    } else {
      ModAdd(bytes, total, e.fsize);
      total' := Wrap(total + e.fsize);
      bytes' := bytes + e.fsize;
      files' := files + 1;
    }
  }

  /** One more entry adds its line. */
  lemma ListStep(es: seq<Entry>, i: nat)
    requires i < |es| && AllFat(es)
    ensures Lines(es[..i + 1]) == Lines(es[..i]) + EntryLine(es[i])
  {
    assert es[..i + 1][..i] == es[..i];
  }

  /** One more entry counts once, as a file or as a directory. */
  lemma CountStep(es: seq<Entry>, i: nat)
    requires i < |es|
    ensures FileCount(es[..i + 1]) == FileCount(es[..i]) + (if IsDir(es[i]) then 0 else 1)
    ensures FileBytes(es[..i + 1]) == FileBytes(es[..i]) + (if IsDir(es[i]) then 0 else es[i].fsize)
  {
    assert es[..i + 1][..i] == es[..i];
  }

  /** Adding to a wrapped total is wrapping the sum. */
  lemma ModAdd(x: nat, t: nat, y: nat)
    requires t == Wrap(x)
    ensures Wrap(t + y) == Wrap(x + y)
  {
    assert x == ULONG * (x / ULONG) + x % ULONG;
  }

  /** Lines 340-347. */
  method SummaryText(files: nat, dirs: nat, total: nat) returns (text: string)
    requires files < ULONG && dirs < ULONG && total < ULONG
    ensures text == Totals(files, dirs, total)
  {
    var f := TxDec32(files);
    var d := TxDec32(dirs);
    var b := TxDec32(total);
    text := NEWLINE + "Files: " + f + "  Dirs: " + d + "  Bytes: " + b + NEWLINE + NEWLINE;
  }

  /** The text of one line, as lines 306-338 send it. */
  method EntryText(buf: array<char>, e: Entry) returns (line: string)
    requires buf.Length == 20 && FatEntry(e)
    modifies buf
    ensures line == EntryLine(e)
  {
    line := NameText(e);
    line := line + "\t";
    FormatFatDatetime(buf, e.fdate, e.ftime);
    assert buf[..19] == StampText(Fields(e.fdate, e.ftime));
    line := line + buf[..19] + "\t";
    if HasBit(e.fattrib, AM_DIR) {
      line := line + "<DIR>";
    } else {
      var digits := TxDec32(e.fsize);
      line := line + digits;
    }
    line := line + "\t" + AttrFlags(e.fattrib) + NEWLINE;
  }

  /** Lines 307-319: the name or `[name]`, then spaces while fewer than 32 characters have gone out. */
  method NameText(e: Entry) returns (text: string)
    ensures text == NameColumn(e)
  {
    var nameLen;
    if HasBit(e.fattrib, AM_DIR) {
      text := "[" + e.name + "]";
      nameLen := |e.name| + 2;
    } else {
      text := e.name;
      nameLen := |e.name|;
    }
    while nameLen < 32
      invariant nameLen <= 32 || nameLen == |Shown(e)|
      invariant text == Shown(e) + Spaces(nameLen - |Shown(e)|) && nameLen >= |Shown(e)|
    {
      text := text + " ";
      nameLen := nameLen + 1;
    }
  }

  /** Totals count every entry once: the files, and the rest as directories. */
  lemma {:induction false} CountsAddUp(es: seq<Entry>)
    ensures FileCount(es) + (|es| - FileCount(es)) == |es|
    ensures FileCount(es) == |es| <==> forall i :: 0 <= i < |es| ==> !IsDir(es[i])
    decreases |es|
  {
    if es != [] {
      var init := es[..|es| - 1];
      CountsAddUp(init);
      assert forall i :: 0 <= i < |init| ==> init[i] == es[i];
    }
  }

  // ---------------------------------------------------------------- the command

  /** The scan of lines 178-183 for the last separator. */
  method FindLastSep(p: string) returns (k: Option<nat>)
    ensures k == LastSep(p)
  {
    k := None;
    var i := 0;
    while i < |p|
      invariant i <= |p| && k == LastSep(p[..i])
    {
      assert p[..i + 1][..i] == p[..i];
      if IsSep(p[i]) {
        k := Some(i);
      }
      i := i + 1;
    }
    assert p[..i] == p;
  }

  /** Lines 155-197: the argument split into drive, path and mask, or `None` for "Invalid drive". */
  method ParseTarget(arg: string) returns (t: Option<Target>)
    ensures t == SplitArg(arg)
  {
    var drive: Option<char> := None;
    var p := arg;
    if At(arg, 1) == ':' {
      if arg[0] < '0' || arg[0] > '7' {
        return None;
      }
      drive := Some(arg[0]);
      p := arg[2..];
    }
    var target := ParsePath(drive, p);
    t := Some(target);
  }

  /** Lines 169-196: the leading separator dropped, then the split at the last separator. */
  method ParsePath(drive: Option<char>, p0: string) returns (t: Target)
    ensures t == SplitPath(drive, p0)
  {
    var p := p0;
    if p != [] && IsSep(p[0]) {
      p := p[1..];
    }
    ghost var k := LastSep(p);
    var path, mask := ".", "*";
    if p != [] {
      var last := FindLastSep(p);
      if last.Some? {
        mask := p[last.value + 1..];
        path := if last.value == 0 then "." else p[..last.value];
      } else {
        mask := p;
      }
    } else {
      assert k.None?;
    }
    assert path == if k.None? || k.value == 0 then "." else p[..k.value];
    assert mask == if k.None? then (if p == [] then "*" else p) else p[k.value + 1..];
    if mask == [] {
      mask := "*";
    }
    t := Target(drive, path, mask);
  }

  /** What the FatFs calls answer during one run: the calls are not performed, their results are given. */
  datatype Volume = Volume(chdrive: bool, cwd: Option<string>, opendir: bool, results: seq<ReadResult>, closedir: bool)

  const USAGE: string :=
    "Command : dir\r\n\r\nshow active drive directory, wildcards allowed\r\n\r\n" +
    "Usage:\r\ndir *.rp6502 (only .rp6502 files)\r\ndir /da (sorted by date ascending)\r\n\r\n"

  function Header(cwd: string): string
  {
    NEWLINE + "Directory: " + cwd + NEWLINE + NEWLINE
  }

  /** The message the reading loop prints on its way out. */
  function StopMessage(stop: Stop): string
  {
    match stop
      case EndOfList => ""
      case Truncated => "Directory listing truncated, too many entries, use wildcards to narrow results\r\n"
      case Failed => "readdir failed\r\n"
  }

  /** The target of a run: the split argument, or `.` and `*` without one. */
  function TargetOf(args: seq<string>): (r: Option<Target>)
    ensures |args| < 2 ==> r == Some(Target(None, ".", "*"))
    ensures r.Some? ==> r.value.mask != [] && r.value.path != []
  {
    if |args| >= 2 then SplitArg(args[1]) else Some(Target(None, ".", "*"))
  }

  /** The mode a list of flags selects: the last recognised flag wins, 0 without one. */
  function ModeOfFlags(flags: seq<string>): nat
  {
    if flags == [] then 0
    else match FlagMode(flags[|flags| - 1])
      case Some(m) => m
      case None => ModeOfFlags(flags[..|flags| - 1])
  }

  /** The flag loop reads exactly the arguments from `argv[2]` on. */
  lemma {:induction false} ModeAfterFlags(args: seq<string>, i: nat)
    requires 2 <= i <= |args|
    ensures ModeAfter(args, i) == ModeOfFlags(args[2..i])
    decreases i
  {
    if i > 2 {
      assert args[2..i][..i - 3] == args[2..i - 1];
      ModeAfterFlags(args, i - 1);
    }
  }

  /**
   * As written, `main` takes the path from `argv[1]` and the flags from
   * `argv[2]` on, while the first argument the user types is `argv[0]`
   * (line 146 tests `argv[0]` for `/?`): the path is the second argument
   * and the flags follow it, whatever the first argument is.
   */
  lemma ArgumentsShifted(x: string, args: seq<string>)
    requires args != []
    ensures TargetOf([x] + args) == SplitArg(args[0])
    ensures ModeAfter([x] + args, |args| + 1) == ModeOfFlags(args[1..])
  {
    assert ([x] + args)[1] == args[0];
    FlagsShifted(x, args);
  }

  /** The flags of `[x] + args` are `args` less its first. */
  lemma FlagsShifted(x: string, args: seq<string>)
    requires args != []
    ensures ModeAfter([x] + args, |args| + 1) == ModeOfFlags(args[1..])
  {
    var full := [x] + args;
    assert full[2..|full|] == args[1..];
    ModeAfterFlags(full, |full|);
  }

  /**
   * So a single argument is ignored: `dir *.rp6502` and `dir /da`, the
   * usage text's own examples, list the same entries as `dir`, with the
   * mask `*` and the mode 0.
   */
  lemma SingleArgumentIgnored(a: string, v: Volume)
    requires a != "/?"
    ensures TargetOf([a]) == TargetOf([]) == Some(Target(None, ".", "*"))
    ensures Kept([a], v) == Kept([], v) && ModeAfter([a], 1) == 0
  {
  }

  /**
   * The target as the usage text means it: the first argument, unless it
   * is one of the flags, in which case the default.
   */
  function TargetOfIntended(args: seq<string>): Option<Target>
  {
    if args != [] && FlagMode(args[0]).None? then SplitArg(args[0]) else Some(Target(None, ".", "*"))
  }

  /** Read from the first argument on, a path in front of the flags does not change the mode. */
  lemma {:induction false} FlagsAfterPath(a: string, flags: seq<string>)
    requires FlagMode(a).None?
    ensures ModeOfFlags([a] + flags) == ModeOfFlags(flags)
    decreases |flags|
  {
    if flags != [] {
      var n := |flags|;
      assert ([a] + flags)[..n] == [a] + flags[..n - 1];
      assert ([a] + flags)[n] == flags[n - 1];
      FlagsAfterPath(a, flags[..n - 1]);
    } else {
      assert ([a] + flags)[..0] == [];
    }
  }

  /**
   * With the arguments read from the first on, `dir PATTERN FLAGS...` lists
   * PATTERN with the mode FLAGS select, and a flag given alone sorts the
   * whole directory: `dir *.rp6502` keeps the mask and `dir /da` is mode 1.
   */
  lemma ArgumentsIntended(a: string, flags: seq<string>)
    requires FlagMode(a).None?
    ensures TargetOfIntended([a] + flags) == SplitArg(a)
    ensures ModeOfFlags([a] + flags) == ModeOfFlags(flags)
    ensures TargetOfIntended(["*.rp6502"]) == Some(Target(None, ".", "*.rp6502"))
    ensures TargetOfIntended(["/da"]) == Some(Target(None, ".", "*")) && ModeOfFlags(["/da"]) == 1
  {
    FlagsAfterPath(a, flags);
    assert LastSep("*.rp6502") == None;
  }

  /** Whether the run gets as far as reading the directory. */
  predicate Opens(args: seq<string>, v: Volume)
  {
    !(|args| == 1 && args[0] == "/?") && TargetOf(args).Some? &&
    (TargetOf(args).value.drive.None? || v.chdrive) && v.cwd.Some? && v.opendir
  }

  /** Whether the run gets as far as the listing: reading and closing the directory succeed. */
  predicate Lists(args: seq<string>, v: Volume)
  {
    Opens(args, v) && Collected(v.results, TargetOf(args).value.mask, []).1 != Failed && v.closedir
  }

  /** The entries the run lists: those the reading loop keeps, when the run gets that far. */
  function Kept(args: seq<string>, v: Volume): seq<Entry>
  {
    if Lists(args, v) then Collected(v.results, TargetOf(args).value.mask, []).0 else []
  }

  /**
   * Text and exit code of `main`, given the entries in the order the sort
   * leaves them: the usage text exits -1; a bad drive, `getcwd` and
   * `opendir` failures print a message and still exit 0 (they leave
   * through `cleanup`); a read or close failure exits -1 after the
   * header; otherwise the listing and its totals follow and the exit is 0.
   */
  function Run(args: seq<string>, v: Volume, listed: seq<Entry>): (r: (string, int))
    requires AllFat(listed)
    ensures r.1 == 0 || r.1 == -1
    ensures TargetOf(args).None? ==> r == ("Invalid drive\r\n", 0)
    ensures r.1 == -1 && !(|args| == 1 && args[0] == "/?") ==>
      v.cwd.Some? && v.opendir && Header(v.cwd.value) <= r.0
  {
    if |args| == 1 && args[0] == "/?" then (USAGE, -1)
    else if TargetOf(args).None? || (TargetOf(args).value.drive.Some? && !v.chdrive) then ("Invalid drive\r\n", 0)
    else if v.cwd.None? then ("getcwd failed\r\n", 0)
    else if !v.opendir then (Header(v.cwd.value) + "opendir failed\r\n", 0)
    else
      var (text, code) := Listing(v, TargetOf(args).value.mask, listed);
      (Header(v.cwd.value) + text, code)
  }

  /** From the reading loop on, after the header, lines 229-347. */
  function Listing(v: Volume, mask: string, listed: seq<Entry>): (string, int)
    requires AllFat(listed)
  {
    var stop := Collected(v.results, mask, []).1;
    var head := StopMessage(stop);
    if stop == Failed then (head, -1)
    else if !v.closedir then (head + "closedir failed\r\n", -1)
    else (head + (Lines(listed) + Summary(listed)), 0)
  }

  /**
   * `main` of `src/ext-dir.c`. `listed` is the order the sort leaves the
   * kept entries in: the same entries, settled for the mode the flags select.
   */
  method Dir(args: seq<string>, v: Volume) returns (out: string, rc: int, ghost listed: seq<Entry>)
    requires FatResults(v.results)
    ensures multiset(listed) == multiset(Kept(args, v)) && Settled(listed, ModeAfter(args, |args|), |listed|)
    ensures AllFat(listed)
    ensures (out, rc) == Run(args, v, listed)
  {
    listed := [];
    if |args| == 1 && args[0] == "/?" {
      return USAGE, -1, listed;
    }
    var target := Some(Target(None, ".", "*"));
    if |args| >= 2 {
      target := ParseTarget(args[1]);
    }
    if target.None? || (target.value.drive.Some? && !v.chdrive) {
      return "Invalid drive\r\n", 0, listed;
    }
    var mode := SortFlags(args);
    if v.cwd.None? {
      return "getcwd failed\r\n", 0, listed;
    }
    out := Header(v.cwd.value);
    if !v.opendir {
      return out + "opendir failed\r\n", 0, listed;
    }
    assert target == TargetOf(args) && Opens(args, v);
    var text;
    text, rc, listed := ReadAndList(v, target.value.mask, mode);
    assert Kept(args, v) == if Lists(args, v) then Collected(v.results, target.value.mask, []).0 else [];
    out := out + text;
  }

  /** Lines 229-347: read, close, sort and list; `listed` is the order the sort leaves. */
  method ReadAndList(v: Volume, mask: string, mode: nat) returns (out: string, rc: int, ghost listed: seq<Entry>)
    requires FatResults(v.results)
    ensures var (kept, stop) := Collected(v.results, mask, []);
      multiset(listed) == multiset(if stop != Failed && v.closedir then kept else [])
    ensures Settled(listed, mode, |listed|) && AllFat(listed)
    ensures (out, rc) == Listing(v, mask, listed)
  {
    listed := [];
    var entries := new Entry[DIR_LIST_MAX](_ => Entry([], 0, 0, 0, 0));
    var count, stop := Collect(entries, v.results, mask);
    assert Collected(v.results, mask, []).1 == stop;
    assert AllFat(entries[..count]);
    out := StopMessage(stop);
    if stop == Failed {
      assert Listing(v, mask, listed) == (out, -1);
      return out, -1, listed;
    }
    if !v.closedir {
      assert Listing(v, mask, listed) == (out + "closedir failed\r\n", -1);
      return out + "closedir failed\r\n", -1, listed;
    }
    var text;
    text, listed := SortAndList(entries, count, mode);
    out := out + text;
    rc := 0;
  }

  /** Lines 264-347: sort the kept entries in place, then list them. */
  method SortAndList(entries: array<Entry>, count: nat, mode: nat) returns (text: string, ghost listed: seq<Entry>)
    requires count <= entries.Length == DIR_LIST_MAX && AllFat(entries[..count])
    modifies entries
    ensures multiset(listed) == multiset(old(entries[..count])) && Settled(listed, mode, |listed|)
    ensures AllFat(listed)
    ensures text == Lines(listed) + Summary(listed)
  {
    ghost var kept := entries[..count];
    SortEntries(entries, count, mode);
    listed := entries[..count];
    PermutedFat(kept, listed);
    text := ListEntries(entries, count);
  }

  /** A permutation of entries FatFs handed out consists of such entries. */
  lemma PermutedFat(kept: seq<Entry>, listed: seq<Entry>)
    requires multiset(kept) == multiset(listed) && AllFat(kept)
    ensures AllFat(listed)
  {
    forall i | 0 <= i < |listed|
      ensures FatEntry(listed[i])
    {
      assert listed[i] in multiset(listed);
      assert listed[i] in kept;
    }
  }
}
