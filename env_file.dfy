/** The `.env` configuration format: one `KEY=value` pair per line, blank lines and
    lines starting with `#` ignored, white space around the line, the key and the
    value ignored. A file is given as the sequence of its lines, as the line scanner
    delivers them; opening and reading the file are not modelled. The lines are read
    into one of two targets: the process environment, which refuses what `os.Setenv`
    refuses, or a plain map of variables, which takes every pair. */
module EnvFile {
  import opened Wrappers
  import opened Text

  /** A pair that the line format can carry: both sides trimmed, no `=` in the key,
      and a key that does not start a comment. */
  predicate WellFormedEntry(key: string, value: string)
  {
    Trimmed(key) && Trimmed(value) && '=' !in key && !HasPrefix(key, "#")
  }

  /** A pair that one line of a file can carry: well formed, and neither side holds a
      line feed, which would end the line. */
  predicate WritableEntry(key: string, value: string)
  {
    WellFormedEntry(key, value) && '\n' !in key && '\n' !in value
  }

  /** The pair on one line, if any: the trimmed line is skipped when it is empty, a
      comment, or has no `=`; otherwise it is split at its first `=` and both sides
      are trimmed. */
  function ParseEnvLine(raw: string): (r: Option<(string, string)>)
    ensures r.None? <==> var line := TrimSpace(raw); line == [] || HasPrefix(line, "#") || '=' !in line
    ensures r.Some? ==> WellFormedEntry(r.value.0, r.value.1)
  {
    var line := TrimSpace(raw);
    if line == [] || HasPrefix(line, "#") then None
    else
      match SplitOnce(line, '=')
      case None => None
      case Some((a, b)) =>
        KeyOfLineWellFormed(line, a, b);
        Some((TrimSpace(a), TrimSpace(b)))
  }

  /** The key cut from a trimmed, non-comment line holds no `=` and starts no comment. */
  lemma KeyOfLineWellFormed(line: string, a: string, b: string)
    requires line == a + "=" + b && '=' !in a
    requires line != [] && Trimmed(line) && !HasPrefix(line, "#")
    ensures '=' !in TrimSpace(a) && !HasPrefix(TrimSpace(a), "#")
  {
    var key := TrimSpace(a);
    var k := |a| - |TrimLeft(a)|;
    TrimSpaceSpec(a);
    assert forall j :: 0 <= j < |key| ==> key[j] == a[k + j];
    if key != [] {
      assert a != [] && a[0] == line[0];
      assert key[0] == a[0];
      assert line[..1] == [line[0]];
    }
  }

  /** Which pair a line yields: a line holding `=` is read as the trimmed text before
      its first `=` and the trimmed text after it, unless that key starts a comment. */
  lemma ParseSplitLine(a: string, b: string)
    requires '=' !in a
    ensures ParseEnvLine(a + "=" + b)
         == if HasPrefix(TrimSpace(a), "#") then None else Some((TrimSpace(a), TrimSpace(b)))
  {
    var front, back := TrimSplitLine(a, b);
    var line := front + "=" + back;
    var ta := TrimSpace(a);
    SplitOnceJoined(front, '=', back);
    assert HasPrefix(line, "#") <==> HasPrefix(ta, "#") by {
      assert line[0] == (if ta == [] then '=' else ta[0]);
      assert line[..1] == [line[0]];
      if ta != [] {
        assert ta[..1] == [ta[0]];
      }
    }
  }

  /** Trimming `a`, `=`, `b` leaves `=` between the part of `a` from its first
      non-space character and the part of `b` up to its last one. */
  lemma TrimSplitLine(a: string, b: string) returns (front: string, back: string)
    requires '=' !in a
    ensures TrimSpace(a + "=" + b) == front + "=" + back && '=' !in front
    ensures TrimSpace(front) == TrimSpace(a) && TrimSpace(back) == TrimSpace(b)
    ensures TrimSpace(a) == [] ==> front == []
    ensures TrimSpace(a) != [] ==> front != [] && front[0] == TrimSpace(a)[0]
  {
    var ta, tb := TrimSpace(a), TrimSpace(b);
    var pa, qa := SplitAroundTrimmed(a, true);
    var pb, qb := SplitAroundTrimmed(b, false);
    front, back := ta + qa, pb + tb;
    assert '=' !in front by {
      assert a == pa + front;
    }
    var m := front + "=" + back;
    assert a + "=" + b == pa + m + qb by {
      Regroup(pa, ta, qa, pb, tb, qb);
    }
    JoinedTrimmed(ta, qa, pb, tb);
    TrimSpacePadded(pa, m, qb);
    assert TrimSpace(front) == ta by {
      TrimSpacePadded([], ta, qa);
      assert [] + ta + qa == front;
    }
    assert TrimSpace(back) == tb by {
      TrimSpacePadded(pb, tb, []);
      assert pb + tb + [] == back;
    }
  }

  lemma Regroup(pa: string, ta: string, qa: string, pb: string, tb: string, qb: string)
    ensures (pa + ta + qa) + "=" + (pb + tb + qb) == pa + ((ta + qa) + "=" + (pb + tb)) + qb
  {
  }

  lemma JoinedTrimmed(ta: string, qa: string, pb: string, tb: string)
    requires Trimmed(ta) && Trimmed(tb) && (ta == [] ==> qa == []) && (tb == [] ==> pb == [])
    ensures Trimmed(ta + qa + "=" + pb + tb)
  {
    var m := ta + qa + "=" + pb + tb;
    assert m[0] == (if ta == [] then '=' else ta[0]);
    assert m[|m| - 1] == (if tb == [] then '=' else tb[|tb| - 1]);
  }

  /** `s` as its trimmed part with white space before and after it; when nothing is
      left, all of `s` is put before it, or after it when `before` is false. */
  lemma SplitAroundTrimmed(s: string, before: bool) returns (p: string, q: string)
    ensures s == p + TrimSpace(s) + q && AllSpace(p) && AllSpace(q)
    ensures TrimSpace(s) == [] ==> if before then q == [] else p == []
  {
    var r := TrimSpace(s);
    var k := |s| - |TrimLeft(s)|;
    TrimSpaceSpec(s);
    if r == [] && before {
      p, q := s, [];
      assert s == p + r + q;
    } else if r == [] {
      p, q := [], s;
      assert s == p + r + q;
    } else {
      p, q := s[..k], s[k + |r|..];
      assert s == p + r + q;
    }
  }

  /** A line that yields a pair is some `a` without `=`, then `=`, then `b`, and the
      pair is the trimmed `a` and the trimmed `b`. */
  lemma ParseEnvLineSplits(raw: string)
    ensures ParseEnvLine(raw).Some? ==>
      exists a, b :: raw == a + "=" + b && '=' !in a && ParseEnvLine(raw).value == (TrimSpace(a), TrimSpace(b))
  {
    if '=' in raw {
      var parts := SplitOnce(raw, '=').value;
      ParseSplitLine(parts.0, parts.1);
    } else {
      TrimSpaceWithout(raw, '=');
    }
  }

  /** A line without a line feed yields a pair that a line can carry. */
  lemma ParsedPairWritable(raw: string)
    requires '\n' !in raw
    ensures ParseEnvLine(raw).Some? ==> WritableEntry(ParseEnvLine(raw).value.0, ParseEnvLine(raw).value.1)
  {
    var line := TrimSpace(raw);
    TrimSpaceWithout(raw, '\n');
    if ParseEnvLine(raw).Some? {
      var parts := SplitOnce(line, '=').value;
      assert '\n' !in parts.0 && '\n' !in parts.1 by {
        assert line == parts.0 + ['='] + parts.1;
      }
      TrimSpaceWithout(parts.0, '\n');
      TrimSpaceWithout(parts.1, '\n');
    }
  }

  /** The line the configuration writer emits for a pair. */
  function FormatEnvLine(key: string, value: string): string
  {
    key + "=" + value
  }

  /** Reading a written line gives its pair back, whatever white space surrounds it. */
  lemma ParseFormattedLine(key: string, value: string, before: string, after: string)
    requires WellFormedEntry(key, value) && AllSpace(before) && AllSpace(after)
    ensures ParseEnvLine(before + FormatEnvLine(key, value) + after) == Some((key, value))
  {
    var line := FormatEnvLine(key, value);
    assert line[|key|] == '=';
    if key != [] {
      assert line[0] == key[0];
      assert key[..1] != "#";
    }
    if value != [] {
      assert line[|line| - 1] == value[|value| - 1];
    }
    assert Trimmed(line);
    TrimSpacePadded(before, line, after);
    assert line[..1] != "#";
    SplitOnceJoined(key, '=', value);
    TrimSpacePadded([], key, []);
    TrimSpacePadded([], value, []);
    assert [] + key + [] == key && [] + value + [] == value;
  }

  /** os.Setenv on a Unix system refuses an empty key, a key holding `=` or NUL, and
      a value holding NUL. */
  predicate SetenvAccepts(key: string, value: string)
  {
    key != [] && '=' !in key && '\0' !in key && '\0' !in value
  }

  /** Where parsed pairs go. */
  datatype Target = ProcessEnv | VarMap

  /** Whether the target takes a pair: a refused os.Setenv is ignored by the loader. */
  predicate Takes(target: Target, key: string, value: string)
  {
    target.VarMap? || SetenvAccepts(key, value)
  }

  /** The pairs carried by the lines, one entry per line. */
  function Entries(lines: seq<string>): (es: seq<Option<(string, string)>>)
    ensures |es| == |lines|
  {
    if lines == [] then []
    else Entries(lines[..|lines| - 1]) + [ParseEnvLine(lines[|lines| - 1])]
  }

  /** Each entry is the pair its line carries. */
  lemma {:induction false} EntriesParse(lines: seq<string>)
    ensures forall j {:trigger Entries(lines)[j]} :: 0 <= j < |lines| ==> Entries(lines)[j] == ParseEnvLine(lines[j])
  {
    if lines != [] {
      var n := |lines| - 1;
      var es := Entries(lines);
      var pre := Entries(lines[..n]);
      assert es == pre + [ParseEnvLine(lines[n])];
      forall j | 0 <= j < |lines|
        ensures es[j] == ParseEnvLine(lines[j])
      {
        if j < n {
          EntriesParse(lines[..n]);
          assert es[j] == pre[j];
          assert lines[..n][j] == lines[j];
        }
      }
    }
  }

  /** The lines of two texts, one after the other, carry the pairs of both. */
  lemma {:induction false} EntriesAppend(a: seq<string>, b: seq<string>)
    ensures Entries(a + b) == Entries(a) + Entries(b)
  {
    if b != [] {
      var n := |b| - 1;
      assert (a + b)[..|a + b| - 1] == a + b[..n];
      EntriesAppend(a, b[..n]);
    } else {
      assert a + b == a;
    }
  }

  /** The target after one entry. */
  function ApplyEntry(target: Target, m: map<string, string>, entry: Option<(string, string)>): map<string, string>
  {
    match entry
    case None => m
    case Some((key, value)) => if Takes(target, key, value) then m[key := value] else m
  }

  /** The target after the entries, in order. */
  function ApplyEntries(target: Target, m: map<string, string>, es: seq<Option<(string, string)>>): map<string, string>
  {
    if es == [] then m
    else ApplyEntry(target, ApplyEntries(target, m, es[..|es| - 1]), es[|es| - 1])
  }

  /** The target after the lines, in order. */
  function ApplyLines(target: Target, m: map<string, string>, lines: seq<string>): map<string, string>
  {
    ApplyEntries(target, m, Entries(lines))
  }

  /** One more line is applied to the target reached by the earlier ones. */
  lemma ApplyLinesStep(target: Target, m: map<string, string>, lines: seq<string>, i: int)
    requires 0 <= i < |lines|
    ensures ApplyLines(target, m, lines[..i + 1])
         == ApplyEntry(target, ApplyLines(target, m, lines[..i]), ParseEnvLine(lines[i]))
  {
    assert lines[..i + 1][..i] == lines[..i];
    var es := Entries(lines[..i + 1]);
    assert es[..i] == Entries(lines[..i]);
  }

  /** Whether the entry sets `key` in the target. */
  predicate Sets(target: Target, entry: Option<(string, string)>, key: string)
  {
    entry.Some? && entry.value.0 == key && Takes(target, key, entry.value.1)
  }

  /** Whether the line sets `key` in the target. */
  predicate Assigns(target: Target, raw: string, key: string)
  {
    Sets(target, ParseEnvLine(raw), key)
  }

  /** loadEnvFile: each pair is set in the process environment, the refusals of
      os.Setenv are ignored. */
  method LoadEnvFile(env: map<string, string>, lines: seq<string>) returns (env': map<string, string>)
    ensures env' == ApplyLines(ProcessEnv, env, lines)
  {
    env' := env;
    for i := 0 to |lines|
      invariant env' == ApplyLines(ProcessEnv, env, lines[..i])
    {
      ApplyLinesStep(ProcessEnv, env, lines, i);
      var line := TrimSpace(lines[i]);
      if line == [] || HasPrefix(line, "#") {
        assert ParseEnvLine(lines[i]).None?;
        continue;
      }
      var parts := SplitOnce(line, '=');
      if parts.None? {
        assert ParseEnvLine(lines[i]).None?;
        continue;
      }
      var key := TrimSpace(parts.value.0);
      var value := TrimSpace(parts.value.1);
      assert ParseEnvLine(lines[i]) == Some((key, value));
      if SetenvAccepts(key, value) {
        env' := env'[key := value];
      }
    }
    assert lines[..|lines|] == lines;
  }

  lemma {:induction false} UnsetKeyKept(target: Target, m: map<string, string>,
                                        es: seq<Option<(string, string)>>, key: string)
    requires forall j :: 0 <= j < |es| ==> !Sets(target, es[j], key)
    ensures var r := ApplyEntries(target, m, es);
      (key in r <==> key in m) && (key in m ==> r[key] == m[key])
  {
    if es != [] {
      UnsetKeyKept(target, m, es[..|es| - 1], key);
    }
  }

  lemma {:induction false} LastSetWins(target: Target, m: map<string, string>,
                                       es: seq<Option<(string, string)>>, i: int, key: string, value: string)
    requires 0 <= i < |es| && es[i] == Some((key, value)) && Takes(target, key, value)
    requires forall j :: i < j < |es| ==> !Sets(target, es[j], key)
    ensures var r := ApplyEntries(target, m, es);
      key in r && r[key] == value
  {
    if i < |es| - 1 {
      LastSetWins(target, m, es[..|es| - 1], i, key, value);
    }
  }

  /** A key that no line sets keeps whatever the target held for it. */
  lemma UnassignedKeyKept(target: Target, m: map<string, string>, lines: seq<string>, key: string)
    requires forall j :: 0 <= j < |lines| ==> !Assigns(target, lines[j], key)
    ensures var r := ApplyLines(target, m, lines);
      (key in r <==> key in m) && (key in m ==> r[key] == m[key])
  {
    EntriesParse(lines);
    UnsetKeyKept(target, m, Entries(lines), key);
  }

  /** The last line that sets a key decides its value. */
  lemma LastAssignmentWins(target: Target, m: map<string, string>, lines: seq<string>,
                           i: int, key: string, value: string)
    requires 0 <= i < |lines| && ParseEnvLine(lines[i]) == Some((key, value)) && Takes(target, key, value)
    requires forall j :: i < j < |lines| ==> !Assigns(target, lines[j], key)
    ensures var r := ApplyLines(target, m, lines);
      key in r && r[key] == value
  {
    EntriesParse(lines);
    LastSetWins(target, m, Entries(lines), i, key, value);
  }

  lemma {:induction false} GainedFromEntries(target: Target, m: map<string, string>,
                                             es: seq<Option<(string, string)>>,
                                             good: (string, string) -> bool)
    requires forall j :: 0 <= j < |es| ==> es[j].Some? ==> good(es[j].value.0, es[j].value.1)
    ensures var r := ApplyEntries(target, m, es);
      forall k :: k in r ==> (k in m && r[k] == m[k]) || (good(k, r[k]) && Takes(target, k, r[k]))
  {
    if es != [] {
      GainedFromEntries(target, m, es[..|es| - 1], good);
    }
  }

  /** Every pair a target gained from the lines is well formed, and the process
      environment gains only pairs that os.Setenv accepts. */
  lemma GainedEntriesWellFormed(target: Target, m: map<string, string>, lines: seq<string>)
    ensures var r := ApplyLines(target, m, lines);
      forall k :: k in r ==> (k in m && r[k] == m[k]) || (WellFormedEntry(k, r[k]) && Takes(target, k, r[k]))
  {
    EntriesParse(lines);
    GainedFromEntries(target, m, Entries(lines), WellFormedEntry);
  }

  /** Lines as the scanner delivers them, holding no line feed, give only pairs that
      a line can carry again. */
  lemma GainedEntriesWritable(target: Target, m: map<string, string>, lines: seq<string>)
    requires forall j :: 0 <= j < |lines| ==> '\n' !in lines[j]
    ensures var r := ApplyLines(target, m, lines);
      forall k :: k in r ==> (k in m && r[k] == m[k]) || (WritableEntry(k, r[k]) && Takes(target, k, r[k]))
  {
    EntriesParse(lines);
    var es := Entries(lines);
    forall j | 0 <= j < |es| && es[j].Some?
      ensures WritableEntry(es[j].value.0, es[j].value.1)
    {
      ParsedPairWritable(lines[j]);
    }
    GainedFromEntries(target, m, es, WritableEntry);
  }
}
