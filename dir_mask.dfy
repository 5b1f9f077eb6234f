/**
 * `match_mask` of `src/ext-dir.c`: the wildcard test that `dir` applies to
 * file names. `?` stands for one character, `*` for any run of characters,
 * and every other character for itself. The C loop is greedy: it remembers
 * the last `*` seen and, on a mismatch, lets that star swallow one more
 * character of the name and tries again.
 */
module DirMask {

  /** The meaning of a mask, stated by cases on its first character. */
  predicate Glob(name: string, mask: string)
    decreases |name| + |mask|
  {
    if mask == [] then name == []
    else if mask[0] == '*' then Glob(name, mask[1..]) || (name != [] && Glob(name[1..], mask))
    else name != [] && (mask[0] == '?' || mask[0] == name[0]) && Glob(name[1..], mask[1..])
  }

  /** Character by character, `mask` matches `name` with no star in between. */
  predicate Literal(name: string, mask: string)
  {
    |name| == |mask| &&
    forall i :: 0 <= i < |mask| ==> mask[i] != '*' && (mask[i] == '?' || mask[i] == name[i])
  }

  /**
   * `match_mask(name, mask)` for NUL-free strings: `n` and `m` are the two
   * pointers, `star` the last `*` and `from` the name position it was
   * tried at.
   */
  method MatchMask(name: string, mask: string) returns (ok: bool)
    ensures '*' !in name ==> ok == Glob(name, mask)
  {
    ghost var plain := '*' !in name;
    var n, m := 0, 0;
    var star, from := -1, 0;
    while n < |name|
      invariant 0 <= from <= n <= |name| && 0 <= m <= |mask| && star < m
      invariant plain && star < 0 ==> Glob(name, mask) == Glob(name[n..], mask[m..])
      invariant plain && star >= 0 ==> Searching(name, mask, star, from, n, m) && Glob(name, mask) == Glob(name[from..], mask[star..])
      decreases |name| - from, |name| - n, |mask| - m
    {
      if m < |mask| && (mask[m] == '?' || mask[m] == name[n]) {
        if plain {
          assert mask[m] != '*';
          if star >= 0 {
            SearchingStep(name, mask, star, from, n, m);
          } else {
            GlobStep(name[n..], mask[m..]);
          }
        }
        m, n := m + 1, n + 1;
      } else if m < |mask| && mask[m] == '*' {
        if plain && star >= 0 {
          NewStar(name, mask, star, from, n, m);
        }
        star, from := m, n;
        m := m + 1;
        assert plain ==> Searching(name, mask, star, from, n, m) by {
          assert name[from..n] == [] && mask[star + 1..m] == [];
        }
      } else if star >= 0 {
        if plain {
          Backtrack(name, mask, star, from, n, m);
        }
        m := star + 1;
        from := from + 1;
        n := from;
        assert plain ==> Searching(name, mask, star, from, n, m) by {
          assert name[from..n] == [] && mask[star + 1..m] == [];
        }
      } else {
        if plain {
          GlobStuck(name[n..], mask[m..]);
        }
        return false;
      }
    }
    if plain && star >= 0 {
      SearchEnd(name, mask, star, from, m);
    } else {
      assert name[n..] == [];
    }
    while m < |mask| && mask[m] == '*'
      invariant 0 <= m <= |mask| && (plain ==> Glob(name, mask) == Glob([], mask[m..]))
    {
      assert mask[m..][1..] == mask[m + 1..];
      m := m + 1;
    }
    ok := m == |mask|;
    if !ok {
      assert mask[m..][0] == mask[m];
    }
  }

  /**
   * The loop after a star: `mask[star]` is `*`, the star swallows
   * `name[..from]`, and `mask[star + 1..m]` matches `name[from..n]` literally.
   */
  predicate Searching(name: string, mask: string, star: int, from: int, n: int, m: int)
  {
    0 <= star < m <= |mask| && 0 <= from <= n <= |name| && mask[star] == '*' &&
    n - from == m - (star + 1) && Literal(name[from..n], mask[star + 1..m])
  }

  /** A literal match of a prefix can be set aside. */
  lemma {:induction false} LiteralPrefix(name: string, mask: string, k: nat)
    requires k <= |name| && k <= |mask| && Literal(name[..k], mask[..k])
    ensures Glob(name, mask) == Glob(name[k..], mask[k..])
    decreases k
  {
    if k > 0 {
      assert mask[0] != '*' && (mask[0] == '?' || mask[0] == name[0]);
      assert Literal(name[1..][..k - 1], mask[1..][..k - 1]);
      LiteralPrefix(name[1..], mask[1..], k - 1);
      assert name[1..][k - 1..] == name[k..] && mask[1..][k - 1..] == mask[k..];
    }
  }

  /** One more literal character. */
  lemma GlobStep(name: string, mask: string)
    requires name != [] && mask != [] && mask[0] != '*' && (mask[0] == '?' || mask[0] == name[0])
    ensures Glob(name, mask) == Glob(name[1..], mask[1..])
  {
  }

  /** A mismatch on a non-empty name with no star to fall back on. */
  lemma GlobStuck(name: string, mask: string)
    requires name != [] && (mask == [] || (mask[0] != '*' && mask[0] != '?' && mask[0] != name[0]))
    ensures !Glob(name, mask)
  {
  }

  lemma SearchingStep(name: string, mask: string, star: int, from: int, n: int, m: int)
    requires Searching(name, mask, star, from, n, m) && n < |name| && m < |mask|
    requires mask[m] != '*' && (mask[m] == '?' || mask[m] == name[n])
    ensures Searching(name, mask, star, from, n + 1, m + 1)
  {
    var x, p := name[from..n + 1], mask[star + 1..m + 1];
    forall i | 0 <= i < |p|
      ensures p[i] != '*' && (p[i] == '?' || p[i] == x[i])
    {
      if i < |p| - 1 {
        assert p[i] == mask[star + 1..m][i] && x[i] == name[from..n][i];
      }
    }
  }

  /** Where the attempt stands: the star's first try is the current pair of suffixes. */
  lemma Attempt(name: string, mask: string, star: int, from: int, n: int, m: int)
    requires Searching(name, mask, star, from, n, m)
    ensures Glob(name[from..], mask[star + 1..]) == Glob(name[n..], mask[m..])
  {
    var k := n - from;
    assert name[from..][..k] == name[from..n] && mask[star + 1..][..k] == mask[star + 1..m];
    LiteralPrefix(name[from..], mask[star + 1..], k);
    assert name[from..][k..] == name[n..] && mask[star + 1..][k..] == mask[m..];
  }

  /** A star may swallow more, never less: starting further back only helps. */
  lemma {:induction false} StarLonger(name: string, mask: string, i: nat, j: nat)
    requires i <= j <= |name| && mask != [] && mask[0] == '*'
    requires Glob(name[j..], mask)
    ensures Glob(name[i..], mask)
    decreases j - i
  {
    if i < j {
      StarLonger(name, mask, i + 1, j);
      assert name[i..][1..] == name[i + 1..];
    }
  }

  /**
   * A second star: whatever the first star could do, the second can do too,
   * since the literal part between them has already been matched.
   */
  lemma NewStar(name: string, mask: string, star: int, from: int, n: int, m: int)
    requires Searching(name, mask, star, from, n, m) && m < |mask| && mask[m] == '*'
    ensures Glob(name[from..], mask[star..]) == Glob(name[n..], mask[m..])
  {
    Attempt(name, mask, star, from, n, m);
    assert mask[star..][1..] == mask[star + 1..];
    var x, p, len := name[from..], mask[star..], m - star - 1;
    if Glob(x, p) {
      forall i | 0 < i <= len
        ensures p[i] != '*'
      {
        assert p[i] == mask[star + 1..m][i - 1];
      }
      assert p[len + 1..] == mask[m..];
      StarAll(x, p, mask[m..], len);
      assert x[len..] == name[n..];
    }
  }

  /**
   * If `*`, a star-free part of length `len`, then `rest` (itself starting
   * with `*`) matches `x`, then `rest` matches `x[len..]`: the first star
   * can hand whatever it swallowed over to the second.
   */
  lemma {:induction false} StarAll(x: string, p: string, rest: string, len: nat)
    requires |p| >= len + 1 && p[0] == '*' && p[len + 1..] == rest && rest != [] && rest[0] == '*'
    requires len <= |x|
    requires forall i :: 0 < i <= len ==> p[i] != '*'
    requires Glob(x, p)
    ensures Glob(x[len..], rest)
    decreases |x|
  {
    if Glob(x, p[1..]) {
      assert p[1..][len..] == rest;
      LiteralSkip(x, p[1..], rest, len);
      var j :| len <= j <= |x| && Glob(x[j..], rest);
      StarLonger(x, rest, len, j);
    } else {
      assert x != [] && Glob(x[1..], p);
      if len < |x| {
        StarAll(x[1..], p, rest, len);
        assert x[1..][len..] == x[len + 1..];
        StarLonger(x, rest, len, len + 1);
      } else {
        ShortStar(x[1..], p, len);
      }
    }
  }

  /** `*` then a star-free part longer than the name cannot match it. */
  lemma {:induction false} ShortStar(y: string, p: string, len: nat)
    requires |p| >= len + 1 && p[0] == '*' && |y| < len
    requires forall i :: 0 < i <= len ==> p[i] != '*'
    ensures !Glob(y, p)
    decreases |y|
  {
    ShortFails(y, p[1..], len);
    if y != [] {
      ShortStar(y[1..], p, len);
    }
  }

  /** Literal part of length `len`, then `rest`: a match continues at some `j >= len`. */
  lemma {:induction false} LiteralSkip(x: string, q: string, rest: string, len: nat)
    requires |q| >= len && q[len..] == rest
    requires forall i :: 0 <= i < len ==> q[i] != '*'
    requires Glob(x, q)
    ensures exists j :: len <= j <= |x| && Glob(x[j..], rest)
    decreases len
  {
    if len == 0 {
      assert x[0..] == x;
    } else {
      assert x != [] && Glob(x[1..], q[1..]);
      assert q[1..][len - 1..] == rest;
      LiteralSkip(x[1..], q[1..], rest, len - 1);
      var j :| len - 1 <= j <= |x[1..]| && Glob(x[1..][j..], rest);
      assert x[1..][j..] == x[j + 1..];
    }
  }

  /** A star-free prefix longer than the name cannot match. */
  lemma {:induction false} ShortFails(x: string, q: string, len: nat)
    requires |q| >= len && |x| < len
    requires forall i :: 0 <= i < len ==> q[i] != '*'
    ensures !Glob(x, q)
    decreases len
  {
    if x != [] {
      ShortFails(x[1..], q[1..], len - 1);
    }
  }

  /** The star's try at `from` has failed: it swallows one more character. */
  lemma Backtrack(name: string, mask: string, star: int, from: int, n: int, m: int)
    requires Searching(name, mask, star, from, n, m) && n < |name|
    requires m == |mask| || (mask[m] != '*' && mask[m] != '?' && mask[m] != name[n])
    ensures Glob(name[from..], mask[star..]) == Glob(name[from + 1..], mask[star..])
  {
    Attempt(name, mask, star, from, n, m);
    GlobStuck(name[n..], mask[m..]);
    assert mask[star..][1..] == mask[star + 1..];
    assert name[from..][1..] == name[from + 1..];
  }

  /** The name is used up while a star is active: the rest of the mask decides. */
  lemma SearchEnd(name: string, mask: string, star: int, from: int, m: int)
    requires Searching(name, mask, star, from, |name|, m)
    ensures Glob(name[from..], mask[star..]) == Glob([], mask[m..])
  {
    Attempt(name, mask, star, from, |name|, m);
    assert name[|name|..] == [];
    var x, p, len := name[from..], mask[star..], m - star - 1;
    assert p[1..] == mask[star + 1..];
    if x != [] {
      forall i | 0 < i <= len
        ensures p[i] != '*'
      {
        assert p[i] == mask[star + 1..m][i - 1];
      }
      ShortStar(x[1..], p, len);
    }
  }

  /** The default mask `*` matches every name. */
  lemma {:induction false} StarMatchesAll(name: string)
    ensures Glob(name, "*")
    decreases |name|
  {
    if name != [] {
      StarMatchesAll(name[1..]);
    }
  }

  /** A mask without wildcards matches exactly the name it spells. */
  lemma {:induction false} PlainMask(name: string, mask: string)
    requires '*' !in mask && '?' !in mask
    ensures Glob(name, mask) <==> name == mask
    decreases |mask|
  {
    if mask != [] && name != [] {
      PlainMask(name[1..], mask[1..]);
      if name == mask {
        assert name[1..] == mask[1..];
      }
    }
  }
}
