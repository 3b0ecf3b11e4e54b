/** The string operations the configuration and activation parsers rely on, with the
    behaviour of Go's `strings` package: white space is Unicode White_Space as
    `unicode.IsSpace` defines it, and splitting is at a single separator character.
    Strings are sequences of Unicode scalar values; the byte-level decoding of
    invalid UTF-8 is not modelled. */
module Text {
  import opened Wrappers

  /** unicode.IsSpace: the Latin-1 spaces and the rest of the White_Space property. */
  predicate IsSpace(c: char)
  {
    var n := c as int;
    || (9 <= n <= 13) || n == 32 || n == 0x85 || n == 0xA0
    || n == 0x1680 || (0x2000 <= n <= 0x200A) || n == 0x2028 || n == 0x2029
    || n == 0x202F || n == 0x205F || n == 0x3000
  }

  /** Every character of `t` is white space. */
  predicate AllSpace(t: string)
  {
    forall i :: 0 <= i < |t| ==> IsSpace(t[i])
  }

  /** `t` is empty, or neither starts nor ends with white space. */
  predicate Trimmed(t: string)
  {
    t == [] || (!IsSpace(t[0]) && !IsSpace(t[|t| - 1]))
  }

  /** Leading white space removed. */
  function TrimLeft(s: string): (r: string)
    ensures |r| <= |s|
  {
    if s != [] && IsSpace(s[0]) then TrimLeft(s[1..]) else s
  }

  /** What TrimLeft drops is all space, and what it leaves does not start with space. */
  lemma {:induction false} TrimLeftSpec(s: string)
    ensures var r := TrimLeft(s);
      && r == s[|s| - |r|..] && AllSpace(s[..|s| - |r|])
      && (r == [] || !IsSpace(r[0]))
  {
    if s != [] && IsSpace(s[0]) {
      TrimLeftSpec(s[1..]);
      var r := TrimLeft(s);
      assert s[..|s| - |r|] == [s[0]] + s[1..][..|s| - 1 - |r|];
    }
  }

  /** Trailing white space removed. */
  function TrimRight(s: string): (r: string)
    ensures |r| <= |s|
  {
    if s != [] && IsSpace(s[|s| - 1]) then TrimRight(s[..|s| - 1]) else s
  }

  /** What TrimRight drops is all space, and what it leaves does not end with space. */
  lemma {:induction false} TrimRightSpec(s: string)
    ensures var r := TrimRight(s);
      && r == s[..|r|] && AllSpace(s[|r|..])
      && (r == [] || !IsSpace(r[|r| - 1]))
  {
    if s != [] && IsSpace(s[|s| - 1]) {
      var u := s[..|s| - 1];
      TrimRightSpec(u);
      var r := TrimRight(s);
      assert s[|r|..] == u[|r|..] + [s[|s| - 1]];
    }
  }

  /** strings.TrimSpace: the part of `s` between its leading and its trailing white
      space. */
  function TrimSpace(s: string): (r: string)
    ensures |r| <= |s|
    ensures Trimmed(r)
  {
    var l := TrimLeft(s);
    TrimLeftSpec(s);
    TrimRightSpec(l);
    TrimRight(l)
  }

  /** TrimSpace keeps a contiguous part of `s` and drops only white space around it;
      it leaves nothing exactly when `s` is all space. */
  lemma TrimSpaceSpec(s: string)
    ensures var r := TrimSpace(s); var k := |s| - |TrimLeft(s)|;
      && k + |r| <= |s| && r == s[k..k + |r|]
      && AllSpace(s[..k]) && AllSpace(s[k + |r|..])
      && (r == [] <==> AllSpace(s))
  {
    var l := TrimLeft(s);
    var r := TrimSpace(s);
    var k := |s| - |l|;
    TrimLeftSpec(s);
    TrimRightSpec(l);
    assert s[k + |r|..] == l[|r|..];
    if r == [] {
      assert s == s[..k] + l;
    }
  }

  /** White space added around `x` does not change what TrimSpace keeps of it. */
  lemma TrimSpaceAbsorbs(p: string, x: string, q: string)
    requires AllSpace(p) && AllSpace(q)
    ensures TrimSpace(p + x + q) == TrimSpace(x)
  {
    var r := TrimSpace(x);
    var k := |x| - |TrimLeft(x)|;
    TrimSpaceSpec(x);
    var p' := p + x[..k];
    var q' := x[k + |r|..] + q;
    assert AllSpace(p') by {
      assert forall i :: 0 <= i < |p'| ==> p'[i] == if i < |p| then p[i] else x[..k][i - |p|];
    }
    assert AllSpace(q') by {
      assert forall i :: 0 <= i < |q'| ==> q'[i] == if i < |x| - k - |r| then x[k + |r|..][i] else q[i - (|x| - k - |r|)];
    }
    assert x == x[..k] + r + x[k + |r|..];
    assert p + x + q == p' + r + q';
    TrimSpacePadded(p', r, q');
  }

  /** A character absent from `s` is absent from its trimmed form. */
  lemma TrimSpaceWithout(s: string, c: char)
    requires c !in s
    ensures c !in TrimSpace(s)
  {
    var r := TrimSpace(s);
    var k := |s| - |TrimLeft(s)|;
    TrimSpaceSpec(s);
    forall i | 0 <= i < |r|
      ensures r[i] != c
    {
      assert r[i] == s[k + i];
    }
  }

  /** Trimming removes exactly the surrounding space: a trimmed text padded with
      white space on either side trims back to itself. */
  lemma {:induction false} TrimSpacePadded(a: string, t: string, b: string)
    requires AllSpace(a) && AllSpace(b) && Trimmed(t)
    ensures TrimSpace(a + t + b) == t
  {
    if t == [] {
      assert AllSpace(a + t + b) by {
        assert forall i :: 0 <= i < |a + t + b| ==> (a + t + b)[i] == if i < |a| then a[i] else b[i - |a|];
      }
      TrimSpaceSpec(a + t + b);
      return;
    }
    TrimLeftPadded(a, t + b);
    assert TrimLeft(a + t + b) == t + b by {
      assert a + t + b == a + (t + b);
    }
    TrimRightPadded(t, b);
  }

  lemma {:induction false} TrimLeftPadded(a: string, u: string)
    requires AllSpace(a) && (u == [] || !IsSpace(u[0]))
    ensures TrimLeft(a + u) == u
  {
    if a != [] {
      assert (a + u)[1..] == a[1..] + u;
      TrimLeftPadded(a[1..], u);
    } else {
      assert a + u == u;
    }
  }

  lemma {:induction false} TrimRightPadded(t: string, b: string)
    requires AllSpace(b) && (t == [] || !IsSpace(t[|t| - 1]))
    ensures TrimRight(t + b) == t
  {
    if b != [] {
      assert (t + b)[..|t + b| - 1] == t + b[..|b| - 1];
      TrimRightPadded(t, b[..|b| - 1]);
    } else {
      assert t + b == t;
    }
  }

  /** strings.TrimSpace is idempotent. */
  lemma TrimSpaceIdempotent(s: string)
    ensures TrimSpace(TrimSpace(s)) == TrimSpace(s)
  {
    var t := TrimSpace(s);
    TrimSpacePadded([], t, []);
    assert [] + t + [] == t;
  }

  /** strings.HasPrefix */
  predicate HasPrefix(s: string, prefix: string)
  {
    |prefix| <= |s| && s[..|prefix|] == prefix
  }

  /** strings.TrimPrefix: the rest after `prefix`, or `s` itself when it does not
      start with `prefix`. */
  function TrimPrefix(s: string, prefix: string): (r: string)
    ensures HasPrefix(s, prefix) ==> s == prefix + r
    ensures !HasPrefix(s, prefix) ==> r == s
  {
    if HasPrefix(s, prefix) then s[|prefix|..] else s
  }

  /** strings.Contains, scanning from the front. */
  predicate Contains(s: string, sub: string)
    decreases |s|
  {
    HasPrefix(s, sub) || (s != [] && Contains(s[1..], sub))
  }

  /** `sub` occurs in `s` at position `i`. */
  predicate OccursAt(s: string, sub: string, i: int)
  {
    0 <= i <= |s| - |sub| && s[i..i + |sub|] == sub
  }

  /** Contains holds exactly when `sub` occurs at some position of `s`. */
  lemma {:induction false} ContainsIffOccurs(s: string, sub: string)
    ensures Contains(s, sub) <==> exists i :: OccursAt(s, sub, i)
    decreases |s|
  {
    if HasPrefix(s, sub) {
      assert OccursAt(s, sub, 0);
    } else if s == [] {
    } else {
      ContainsIffOccurs(s[1..], sub);
      if exists i :: OccursAt(s, sub, i) {
        var i :| OccursAt(s, sub, i);
        assert i != 0;
        assert s[1..][i - 1..i - 1 + |sub|] == sub;
        assert OccursAt(s[1..], sub, i - 1);
      }
      if Contains(s[1..], sub) {
        var i :| OccursAt(s[1..], sub, i);
        assert s[i + 1..i + 1 + |sub|] == sub;
        assert OccursAt(s, sub, i + 1);
      }
    }
  }

  /** The position of the first `c` in `s`, or -1 (strings.IndexByte). */
  function IndexOf(s: string, c: char): (i: int)
    ensures -1 <= i < |s|
    ensures i == -1 <==> c !in s
    ensures i >= 0 ==> s[i] == c && c !in s[..i]
  {
    if s == [] then -1
    else if s[0] == c then 0
    else
      var j := IndexOf(s[1..], c);
      if j == -1 then -1 else j + 1
  }

  /** strings.SplitN(s, [c], 2): the parts before and after the first `c`, or
      nothing when `s` has no `c`. */
  function SplitOnce(s: string, c: char): (r: Option<(string, string)>)
    ensures r.None? <==> c !in s
    ensures r.Some? ==> s == r.value.0 + [c] + r.value.1 && c !in r.value.0
  {
    var i := IndexOf(s, c);
    if i == -1 then None else Some((s[..i], s[i + 1..]))
  }

  /** Splitting a joined pair gives the pair back when the first part has no `c`. */
  lemma SplitOnceJoined(a: string, c: char, b: string)
    requires c !in a
    ensures SplitOnce(a + [c] + b, c) == Some((a, b))
  {
    var r := SplitOnce(a + [c] + b, c);
    assert (a + [c] + b)[|a|] == c;
    var x := r.value.0;
    assert x == (a + [c] + b)[..|x|] == a;
  }

  /** strings.Split(s, [c]): the pieces between the occurrences of `c`. There is
      always at least one piece, no piece holds `c`, and joining the pieces with `c`
      gives `s` back. */
  function Split(s: string, c: char): (parts: seq<string>)
    ensures |parts| >= 1
    ensures forall k :: 0 <= k < |parts| ==> c !in parts[k]
    ensures Join(parts, c) == s
    decreases |s|
  {
    match SplitOnce(s, c)
    case None => [s]
    case Some((a, b)) =>
      var rest := Split(b, c);
      assert Join([a] + rest, c) == a + [c] + Join(rest, c) by {
        assert ([a] + rest)[1..] == rest;
      }
      [a] + rest
  }

  /** strings.Join(parts, [c]). */
  function Join(parts: seq<string>, c: char): (s: string)
    requires |parts| >= 1
  {
    if |parts| == 1 then parts[0] else parts[0] + [c] + Join(parts[1..], c)
  }

  /** The lines bufio.Scanner delivers from a text: the pieces between line feeds, a
      final line feed starting no further line. No line holds a line feed. */
  function Lines(text: string): (lines: seq<string>)
    ensures forall i :: 0 <= i < |lines| ==> '\n' !in lines[i]
  {
    var parts := Split(text, '\n');
    if parts[|parts| - 1] == [] then parts[..|parts| - 1] else parts
  }

  /** The text of lines each written with a line feed after it. */
  function Unlines(lines: seq<string>): string
  {
    Join(lines + [[]], '\n')
  }

  /** Lines written one per line feed are read back as written, provided that none of
      them holds a line feed itself. */
  lemma LinesUnlines(lines: seq<string>)
    requires forall i :: 0 <= i < |lines| ==> '\n' !in lines[i]
    ensures Lines(Unlines(lines)) == lines
  {
    var parts := lines + [[]];
    assert forall k :: 0 <= k < |parts| ==> '\n' !in parts[k] by {
      forall k | 0 <= k < |parts|
        ensures '\n' !in parts[k]
      {
        if k < |lines| {
          assert parts[k] == lines[k];
        }
      }
    }
    SplitJoin(parts, '\n');
    assert parts[..|parts| - 1] == lines;
  }

  /** Splitting is the inverse of joining pieces that hold no separator. */
  lemma {:induction false} SplitJoin(parts: seq<string>, c: char)
    requires |parts| >= 1
    requires forall k :: 0 <= k < |parts| ==> c !in parts[k]
    ensures Split(Join(parts, c), c) == parts
  {
    if |parts| == 1 {
    } else {
      SplitOnceJoined(parts[0], c, Join(parts[1..], c));
      SplitJoin(parts[1..], c);
    }
  }
}
