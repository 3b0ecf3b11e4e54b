/** Saving the activation credentials to the `.env` file: the variables already in
    the file are read (when it can be opened), the account key and the data key are
    set, and the file is rewritten as a comment header followed by one `KEY=value`
    line per variable, in the map's iteration order, which is unspecified. A file's
    text is read with `Lines` and written with `Unlines`; the file system is not
    modelled. */
module Credentials {
  import opened Wrappers
  import opened Text
  import opened EnvFile
  import opened Activation

  const AccountKeyVar: string := "RESCUE_TIME_ACCOUNT_KEY"
  const DataKeyVar: string := "RESCUE_TIME_DATA_KEY"

  /** The three lines written before the variables. */
  const Header: seq<string> := ["# RescueTime API Credentials", "# Generated by active-window", ""]

  /** The variables to write: those of the existing file, if it could be read, with
      the two credentials set. */
  function UpdatedVars(existing: Option<seq<string>>, response: ActivationResponse): (vars: map<string, string>)
    ensures AccountKeyVar in vars && vars[AccountKeyVar] == response.accountKey
    ensures DataKeyVar in vars && vars[DataKeyVar] == response.dataKey
  {
    var read := if existing.Some? then ApplyLines(VarMap, map[], existing.value) else map[];
    read[AccountKeyVar := response.accountKey][DataKeyVar := response.dataKey]
  }

  /** `order` lists every key of `keys` exactly once. */
  ghost predicate Enumerates(order: seq<string>, keys: set<string>)
  {
    Distinct(order) && forall k :: k in keys <==> k in order
  }

  /** No key is listed twice. */
  ghost predicate Distinct(order: seq<string>)
  {
    forall i, j :: 0 <= i < j < |order| ==> order[i] != order[j]
  }

  lemma DistinctAppend(order: seq<string>, key: string)
    requires Distinct(order) && key !in order
    ensures Distinct(order + [key])
  {
    forall i, j | 0 <= i < j < |order| + 1
      ensures (order + [key])[i] != (order + [key])[j]
    {
      assert (order + [key])[i] == order[i];
      if j < |order| {
        assert (order + [key])[j] == order[j];
      }
    }
  }

  /** One line per listed variable, in the listed order. */
  function EntryLines(vars: map<string, string>, order: seq<string>): (lines: seq<string>)
    requires forall k :: k in order ==> k in vars
    ensures |lines| == |order|
    ensures forall q :: 0 <= q < |order| ==> lines[q] == FormatEnvLine(order[q], vars[order[q]])
  {
    if order == [] then []
    else EntryLines(vars, order[..|order| - 1]) + [FormatEnvLine(order[|order| - 1], vars[order[|order| - 1]])]
  }

  /** The scan of the existing file in saveCredentialsToEnv: every pair is kept. */
  method ReadExistingVars(lines: seq<string>) returns (vars: map<string, string>)
    ensures vars == ApplyLines(VarMap, map[], lines)
  {
    vars := map[];
    for i := 0 to |lines|
      invariant vars == ApplyLines(VarMap, map[], lines[..i])
    {
      ApplyLinesStep(VarMap, map[], lines, i);
      var line := TrimSpace(lines[i]);
      if line == [] || HasPrefix(line, "#") {
        assert ParseEnvLine(lines[i]).None?;
        continue;
      }
      var parts := SplitOnce(line, '=');
      if parts.Some? {
        vars := vars[TrimSpace(parts.value.0) := TrimSpace(parts.value.1)];
      } else {
        assert ParseEnvLine(lines[i]).None?;
      }
    }
    assert lines[..|lines|] == lines;
  }

  /** The write-out: the header, then each variable once, in an order the map picks. */
  method WriteEnvFile(vars: map<string, string>) returns (lines: seq<string>, ghost order: seq<string>)
    ensures Enumerates(order, vars.Keys)
    ensures lines == Header + EntryLines(vars, order)
    ensures lines[..|Header|] == Header
    ensures (forall k :: k in vars ==> WellFormedEntry(k, vars[k])) ==> ApplyLines(VarMap, map[], lines) == vars
    ensures (forall k :: k in vars ==> WritableEntry(k, vars[k])) ==> Lines(Unlines(lines)) == lines
  {
    lines := Header;
    order := [];
    var todo := vars.Keys;
    while todo != {}
      invariant todo <= vars.Keys
      invariant forall k :: k in vars <==> k in todo || k in order
      invariant forall k :: k in order ==> k !in todo
      invariant Distinct(order)
      invariant lines == Header + EntryLines(vars, order)
      decreases |todo|
    {
      var key :| key in todo;
      EntryLinesAppend(vars, order, key);
      DistinctAppend(order, key);
      lines := lines + [FormatEnvLine(key, vars[key])];
      order := order + [key];
      todo := todo - {key};
    }
    if forall k :: k in vars ==> WellFormedEntry(k, vars[k]) {
      SavedFileReadsBack(vars, order);
    }
    if forall k :: k in vars ==> WritableEntry(k, vars[k]) {
      SavedTextLines(vars, order);
    }
  }

  lemma EntryLinesAppend(vars: map<string, string>, order: seq<string>, key: string)
    requires forall k :: k in order ==> k in vars
    requires key in vars
    ensures Header + EntryLines(vars, order + [key]) == Header + EntryLines(vars, order) + [FormatEnvLine(key, vars[key])]
  {
    assert (order + [key])[..|order|] == order;
  }

  /** saveCredentialsToEnv: the file is rewritten with the existing variables and the
      two credentials. `existing` is the old file's lines, or nothing when it could
      not be opened. */
  method SaveCredentialsToEnv(existing: Option<seq<string>>, response: ActivationResponse)
    returns (lines: seq<string>, ghost order: seq<string>)
    ensures Enumerates(order, UpdatedVars(existing, response).Keys)
    ensures lines == Header + EntryLines(UpdatedVars(existing, response), order)
    ensures lines[..|Header|] == Header
    ensures var vars := UpdatedVars(existing, response);
      (forall k :: k in vars ==> WellFormedEntry(k, vars[k])) ==> ApplyLines(VarMap, map[], lines) == vars
    ensures var vars := UpdatedVars(existing, response);
      (forall k :: k in vars ==> WritableEntry(k, vars[k])) ==> Lines(Unlines(lines)) == lines
  {
    var vars: map<string, string> := map[];
    if existing.Some? {
      vars := ReadExistingVars(existing.value);
    }
    vars := vars[AccountKeyVar := response.accountKey];
    vars := vars[DataKeyVar := response.dataKey];
    lines, order := WriteEnvFile(vars);
  }

  /** A comment line carries no pair. */
  lemma CommentParsesToNothing(line: string)
    requires line != [] && line[0] == '#'
    ensures ParseEnvLine(line) == None
  {
    var t := TrimSpace(line);
    TrimSpaceSpec(line);
    assert !IsSpace(line[0]);
    assert t != [] && t[0] == '#';
    assert HasPrefix(t, "#");
  }

  /** The pairs the variable lines carry, one per listed variable. */
  function WrittenPairs(vars: map<string, string>, order: seq<string>): (ps: seq<Option<(string, string)>>)
    requires forall k :: k in order ==> k in vars
    ensures |ps| == |order|
    ensures forall q :: 0 <= q < |order| ==> ps[q] == Some((order[q], vars[order[q]]))
  {
    if order == [] then []
    else WrittenPairs(vars, order[..|order| - 1]) + [Some((order[|order| - 1], vars[order[|order| - 1]]))]
  }

  /** The pairs a written file carries: none on the header lines, then each listed
      variable with its value. */
  function SavedPairs(vars: map<string, string>, order: seq<string>): (es: seq<Option<(string, string)>>)
    requires forall k :: k in order ==> k in vars
    ensures |es| == |Header| + |order|
    ensures forall j :: 0 <= j < |Header| ==> es[j] == None
    ensures forall q :: 0 <= q < |order| ==> es[|Header| + q] == Some((order[q], vars[order[q]]))
  {
    [None, None, None] + WrittenPairs(vars, order)
  }

  /** Reading a written file yields exactly the pairs written, none from the header. */
  lemma SavedEntries(vars: map<string, string>, order: seq<string>)
    requires forall k :: k in order ==> k in vars
    requires forall k :: k in vars ==> WellFormedEntry(k, vars[k])
    ensures Entries(Header + EntryLines(vars, order)) == SavedPairs(vars, order)
  {
    EntriesAppend(Header, EntryLines(vars, order));
    HeaderEntries();
    WrittenEntries(vars, order);
    assert SavedPairs(vars, order) == Entries(Header) + WrittenPairs(vars, order);
  }

  /** The header carries no pair. */
  lemma HeaderEntries()
    ensures Entries(Header) == [None, None, None]
  {
    BlankOrCommentEntries(Header);
  }

  /** Blank lines and comment lines carry no pair. */
  lemma {:induction false} BlankOrCommentEntries(lines: seq<string>)
    requires forall j :: 0 <= j < |lines| ==> lines[j] == [] || lines[j][0] == '#'
    ensures forall j :: 0 <= j < |lines| ==> Entries(lines)[j] == None
  {
    if lines != [] {
      var n := |lines| - 1;
      BlankOrCommentEntries(lines[..n]);
      if lines[n] != [] {
        CommentParsesToNothing(lines[n]);
      }
    }
  }

  /** Each written variable line carries its pair. */
  lemma {:induction false} WrittenEntries(vars: map<string, string>, order: seq<string>)
    requires forall k :: k in order ==> k in vars
    requires forall k :: k in vars ==> WellFormedEntry(k, vars[k])
    ensures Entries(EntryLines(vars, order)) == WrittenPairs(vars, order)
  {
    if order != [] {
      var n := |order| - 1;
      var lines := EntryLines(vars, order);
      assert lines[..n] == EntryLines(vars, order[..n]);
      WrittenEntries(vars, order[..n]);
      var line := FormatEnvLine(order[n], vars[order[n]]);
      ParseFormattedLine(order[n], vars[order[n]], [], []);
      assert [] + line + [] == line;
    }
  }

  /** Applying the written pairs sets every written variable the target takes to its
      written value and leaves every other variable as it was. */
  lemma ReloadEntries(target: Target, m: map<string, string>, vars: map<string, string>, order: seq<string>)
    requires Enumerates(order, vars.Keys)
    ensures var r := ApplyEntries(target, m, SavedPairs(vars, order));
      && (forall k :: k in vars && Takes(target, k, vars[k]) ==> k in r && r[k] == vars[k])
      && (forall k :: !(k in vars && Takes(target, k, vars[k])) ==>
            (k in r <==> k in m) && (k in m ==> r[k] == m[k]))
  {
    forall k | k in vars && Takes(target, k, vars[k])
      ensures var r := ApplyEntries(target, m, SavedPairs(vars, order)); k in r && r[k] == vars[k]
    {
      ReloadWrittenKey(target, m, vars, order, k);
    }
    forall k | !(k in vars && Takes(target, k, vars[k]))
      ensures var r := ApplyEntries(target, m, SavedPairs(vars, order));
        (k in r <==> k in m) && (k in m ==> r[k] == m[k])
    {
      ReloadOtherKey(target, m, vars, order, k);
    }
  }

  lemma ReloadWrittenKey(target: Target, m: map<string, string>, vars: map<string, string>,
                         order: seq<string>, k: string)
    requires Enumerates(order, vars.Keys)
    requires k in vars && Takes(target, k, vars[k])
    ensures var r := ApplyEntries(target, m, SavedPairs(vars, order)); k in r && r[k] == vars[k]
  {
    var es := SavedPairs(vars, order);
    var h := |Header|;
    var p :| 0 <= p < |order| && order[p] == k;
    forall j | h + p < j < |es|
      ensures !Sets(target, es[j], k)
    {
      assert es[h + (j - h)] == Some((order[j - h], vars[order[j - h]]));
    }
    LastSetWins(target, m, es, h + p, k, vars[k]);
  }

  lemma ReloadOtherKey(target: Target, m: map<string, string>, vars: map<string, string>,
                       order: seq<string>, k: string)
    requires Enumerates(order, vars.Keys)
    requires !(k in vars && Takes(target, k, vars[k]))
    ensures var r := ApplyEntries(target, m, SavedPairs(vars, order));
      (k in r <==> k in m) && (k in m ==> r[k] == m[k])
  {
    var es := SavedPairs(vars, order);
    var h := |Header|;
    forall j | 0 <= j < |es|
      ensures !Sets(target, es[j], k)
    {
      if j >= h {
        assert es[h + (j - h)] == Some((order[j - h], vars[order[j - h]]));
      }
    }
    UnsetKeyKept(target, m, es, k);
  }

  /** The written pairs, read into an empty map, give the variables back. */
  lemma PairsReadBack(vars: map<string, string>, order: seq<string>)
    requires Enumerates(order, vars.Keys)
    ensures ApplyEntries(VarMap, map[], SavedPairs(vars, order)) == vars
  {
    ReloadEntries(VarMap, map[], vars, order);
    var r := ApplyEntries(VarMap, map[], SavedPairs(vars, order));
    assert forall k :: k in r <==> k in vars;
  }

  /** Reading a written file back sets every written variable the target takes to its
      written value and leaves every other variable as it was. */
  lemma SavedFileReloads(target: Target, m: map<string, string>, vars: map<string, string>, order: seq<string>)
    requires Enumerates(order, vars.Keys)
    requires forall k :: k in vars ==> WellFormedEntry(k, vars[k])
    ensures var r := ApplyLines(target, m, Header + EntryLines(vars, order));
      && (forall k :: k in vars && Takes(target, k, vars[k]) ==> k in r && r[k] == vars[k])
      && (forall k :: !(k in vars && Takes(target, k, vars[k])) ==>
            (k in r <==> k in m) && (k in m ==> r[k] == m[k]))
  {
    SavedEntries(vars, order);
    ReloadEntries(target, m, vars, order);
  }

  /** A saved file reads back as exactly the saved variables. */
  lemma SavedFileReadsBack(vars: map<string, string>, order: seq<string>)
    requires Enumerates(order, vars.Keys)
    requires forall k :: k in vars ==> WellFormedEntry(k, vars[k])
    ensures ApplyLines(VarMap, map[], Header + EntryLines(vars, order)) == vars
  {
    SavedEntries(vars, order);
    PairsReadBack(vars, order);
  }

  /** No header line holds a line feed. */
  lemma HeaderOneLine()
    ensures forall j :: 0 <= j < |Header| ==> '\n' !in Header[j]
  {
    var h0, h1 := Header[0], Header[1];
    assert forall i :: 0 <= i < |h0| ==> h0[i] != '\n';
    assert forall i :: 0 <= i < |h1| ==> h1[i] != '\n';
  }

  /** When every pair fits on a line, the text written holds exactly the written
      lines: reading it line by line gives them back. */
  lemma SavedTextLines(vars: map<string, string>, order: seq<string>)
    requires forall k :: k in order ==> k in vars
    requires forall k :: k in vars ==> WritableEntry(k, vars[k])
    ensures Lines(Unlines(Header + EntryLines(vars, order))) == Header + EntryLines(vars, order)
  {
    var lines := Header + EntryLines(vars, order);
    HeaderOneLine();
    forall j | 0 <= j < |lines|
      ensures '\n' !in lines[j]
    {
      if j >= |Header| {
        var q := j - |Header|;
        var k := order[q];
        assert lines[j] == FormatEnvLine(k, vars[k]);
      }
    }
    LinesUnlines(lines);
  }

  /** A saved file, written out as text and read back line by line, gives exactly
      the saved variables when each of them fits on a line. */
  lemma SavedTextReadsBack(vars: map<string, string>, order: seq<string>)
    requires Enumerates(order, vars.Keys)
    requires forall k :: k in vars ==> WritableEntry(k, vars[k])
    ensures ApplyLines(VarMap, map[], Lines(Unlines(Header + EntryLines(vars, order)))) == vars
  {
    SavedTextLines(vars, order);
    SavedFileReadsBack(vars, order);
  }

  /** The lines of the old file, when it could be opened. */
  function ScanFile(existing: Option<string>): (lines: Option<seq<string>>)
    ensures lines.Some? <==> existing.Some?
    ensures lines.Some? ==> forall j :: 0 <= j < |lines.value| ==> '\n' !in lines.value[j]
  {
    if existing.Some? then Some(Lines(existing.value)) else None
  }

  /** The variables read from an old file, with credentials from an accepted
      activation reply, all fit on a line of the new file. */
  lemma UpdatedVarsWritable(existing: Option<string>, body: string)
    requires ParseActivation(body).Ok?
    ensures var vars := UpdatedVars(ScanFile(existing), ParseActivation(body).value);
      forall k :: k in vars ==> WritableEntry(k, vars[k])
  {
    UpdatedVarsWellFormed(ScanFile(existing), body);
    ActivationAccepted(body);
    if existing.Some? {
      GainedEntriesWritable(VarMap, map[], ScanFile(existing).value);
    }
    var a := AccountKeyVar;
    var d := DataKeyVar;
    assert '\n' !in a && '\n' !in d;
  }

  /** The variables read from any file, with credentials from an accepted activation
      reply, are all writable pairs. */
  lemma UpdatedVarsWellFormed(existing: Option<seq<string>>, body: string)
    requires ParseActivation(body).Ok?
    ensures var vars := UpdatedVars(existing, ParseActivation(body).value);
      forall k :: k in vars ==> WellFormedEntry(k, vars[k])
  {
    ActivationAccepted(body);
    if existing.Some? {
      GainedEntriesWellFormed(VarMap, map[], existing.value);
    }
    var a := AccountKeyVar;
    var d := DataKeyVar;
    assert Trimmed(a) && Trimmed(d);
    assert a[..1] != "#" && d[..1] != "#";
  }

  /** After an accepted activation, the saved file, read back line by line from its
      text, gives exactly the saved variables, the credentials among them. */
  lemma SavedCredentialsReadBack(existing: Option<string>, body: string, order: seq<string>)
    requires ParseActivation(body).Ok?
    requires Enumerates(order, UpdatedVars(ScanFile(existing), ParseActivation(body).value).Keys)
    ensures var vars := UpdatedVars(ScanFile(existing), ParseActivation(body).value);
      ApplyLines(VarMap, map[], Lines(Unlines(Header + EntryLines(vars, order)))) == vars
  {
    UpdatedVarsWritable(existing, body);
    SavedTextReadsBack(UpdatedVars(ScanFile(existing), ParseActivation(body).value), order);
  }

  /** Loading a saved file into the process environment sets the credential
      variables it holds whenever os.Setenv can hold their values. */
  lemma SavedFileLoadsCredentials(env: map<string, string>, vars: map<string, string>, order: seq<string>)
    requires Enumerates(order, vars.Keys)
    requires forall k :: k in vars ==> WellFormedEntry(k, vars[k])
    ensures var loaded := ApplyLines(ProcessEnv, env, Header + EntryLines(vars, order));
      && (DataKeyVar in vars && '\0' !in vars[DataKeyVar] ==>
            DataKeyVar in loaded && loaded[DataKeyVar] == vars[DataKeyVar])
      && (AccountKeyVar in vars && '\0' !in vars[AccountKeyVar] ==>
            AccountKeyVar in loaded && loaded[AccountKeyVar] == vars[AccountKeyVar])
  {
    SavedFileReloads(ProcessEnv, env, vars, order);
    if DataKeyVar in vars {
      VarNameAccepted(DataKeyVar, vars[DataKeyVar]);
    }
    if AccountKeyVar in vars {
      VarNameAccepted(AccountKeyVar, vars[AccountKeyVar]);
    }
  }

  lemma VarNameAccepted(name: string, value: string)
    requires name == DataKeyVar || name == AccountKeyVar
    ensures '\0' !in value ==> SetenvAccepts(name, value)
  {
    assert '=' !in DataKeyVar && '\0' !in DataKeyVar;
    assert '=' !in AccountKeyVar && '\0' !in AccountKeyVar;
  }

  /** After an accepted activation, loading the saved file's text into the process
      environment sets the empty data key, and the account key when os.Setenv can
      hold it. */
  lemma SavedCredentialsLoad(existing: Option<string>, body: string, env: map<string, string>,
                             order: seq<string>)
    requires ParseActivation(body).Ok?
    requires Enumerates(order, UpdatedVars(ScanFile(existing), ParseActivation(body).value).Keys)
    ensures var resp := ParseActivation(body).value;
      var lines := Header + EntryLines(UpdatedVars(ScanFile(existing), resp), order);
      var loaded := ApplyLines(ProcessEnv, env, Lines(Unlines(lines)));
      && DataKeyVar in loaded && loaded[DataKeyVar] == ""
      && ('\0' !in resp.accountKey ==> AccountKeyVar in loaded && loaded[AccountKeyVar] == resp.accountKey)
  {
    var vars := UpdatedVars(ScanFile(existing), ParseActivation(body).value);
    UpdatedVarsWritable(existing, body);
    SavedTextLines(vars, order);
    SavedFileLoadsCredentials(env, vars, order);
  }
}
