/** The reply of the activation endpoint: a line-oriented text in which the account
    key follows `account_key:` on its own line and an error is signalled by
    `RT:error` anywhere in the text. Sending the request is not modelled; the body of
    the reply is the input. */
module Activation {
  import opened Wrappers
  import opened Text

  /** The credentials kept after a successful activation. */
  datatype ActivationResponse = ActivationResponse(
    accountKey: string,
    dataKey: string,
    apiUrl: string,
    url: string)

  /** Why an activation reply was not accepted; the body is carried along. */
  datatype ActivationError = Refused(body: string) | NoAccountKey(body: string)

  const ErrorMarker: string := "RT:error"
  const AccountKeyPrefix: string := "account_key:"
  const ApiHost: string := "api.rescuetime.com"
  const WebHost: string := "www.rescuetime.com"

  /** The account key on the first line that starts with the prefix, trimmed, or
      empty when no line does. */
  function AccountKeyIn(lines: seq<string>): (key: string)
    ensures Trimmed(key)
  {
    if lines == [] then ""
    else if HasPrefix(lines[0], AccountKeyPrefix) then TrimSpace(TrimPrefix(lines[0], AccountKeyPrefix))
    else AccountKeyIn(lines[1..])
  }

  /** The reply read as activateWithRescueTime reads it. */
  function ParseActivation(body: string): (r: Result<ActivationResponse, ActivationError>)
    ensures Contains(body, ErrorMarker) ==> r == Err(Refused(body))
    ensures r.Ok? ==> r.value.accountKey != "" && Trimmed(r.value.accountKey) && r.value.dataKey == ""
  {
    if Contains(body, ErrorMarker) then Err(Refused(body))
    else
      var key := AccountKeyIn(Split(body, '\n'));
      if key == "" then Err(NoAccountKey(body))
      else Ok(ActivationResponse(key, "", ApiHost, WebHost))
  }

  /** The reply parsing of activateWithRescueTime: an error marker refuses the reply;
      otherwise the lines are scanned up to the first one carrying the account key,
      and a missing or blank key refuses it too. */
  method ReadActivationReply(body: string) returns (r: Result<ActivationResponse, ActivationError>)
    ensures r == ParseActivation(body)
  {
    if Contains(body, ErrorMarker) {
      return Err(Refused(body));
    }
    var lines := Split(body, '\n');
    var accountKey := "";
    var i := 0;
    while i < |lines|
      invariant 0 <= i <= |lines|
      invariant accountKey == ""
      invariant AccountKeyIn(lines[i..]) == AccountKeyIn(lines)
    {
      if HasPrefix(lines[i], AccountKeyPrefix) {
        accountKey := TrimSpace(TrimPrefix(lines[i], AccountKeyPrefix));
        break;
      }
      assert lines[i..][1..] == lines[i + 1..];
      i := i + 1;
    }
    if accountKey == "" {
      return Err(NoAccountKey(body));
    }
    return Ok(ActivationResponse(accountKey, "", ApiHost, WebHost));
  }

  /** The account key belongs to the first line carrying the prefix: it is the rest of
      that line, trimmed; with no such line it is empty. */
  lemma {:induction false} AccountKeyFromFirstLine(lines: seq<string>, i: int)
    requires 0 <= i <= |lines|
    requires forall j :: 0 <= j < i ==> !HasPrefix(lines[j], AccountKeyPrefix)
    requires i < |lines| ==> HasPrefix(lines[i], AccountKeyPrefix)
    ensures i < |lines| ==> AccountKeyIn(lines) == TrimSpace(lines[i][|AccountKeyPrefix|..])
    ensures i == |lines| ==> AccountKeyIn(lines) == ""
  {
    if i > 0 {
      AccountKeyFromFirstLine(lines[1..], i - 1);
    }
  }

  /** What an accepted reply says: it holds no error marker, and the account key is
      non-empty, trimmed, and confined to one line; the data key is empty and the
      hosts are the fixed ones. A reply with the marker is refused whatever else it
      holds. */
  lemma ActivationAccepted(body: string)
    ensures Contains(body, ErrorMarker) ==> ParseActivation(body) == Err(Refused(body))
    ensures ParseActivation(body).Ok? ==>
      var resp := ParseActivation(body).value;
      && !Contains(body, ErrorMarker)
      && resp.accountKey != "" && Trimmed(resp.accountKey) && '\n' !in resp.accountKey
      && resp.dataKey == "" && resp.apiUrl == ApiHost && resp.url == WebHost
  {
    if ParseActivation(body).Ok? {
      KeyWithinOneLine(Split(body, '\n'));
    }
  }

  lemma {:induction false} KeyWithinOneLine(lines: seq<string>)
    requires forall j :: 0 <= j < |lines| ==> '\n' !in lines[j]
    ensures '\n' !in AccountKeyIn(lines)
  {
    if lines == [] {
    } else if HasPrefix(lines[0], AccountKeyPrefix) {
      var rest := TrimPrefix(lines[0], AccountKeyPrefix);
      var key := TrimSpace(rest);
      TrimSpaceSpec(rest);
      assert forall c :: c in rest ==> c in lines[0];
      assert forall c :: c in key ==> c in rest;
    } else {
      KeyWithinOneLine(lines[1..]);
    }
  }

  /** A reply built as the service sends it, with the key on its own line after a
      status block, yields that key. */
  lemma {:induction false} ActivationRoundTrip(pre: seq<string>, key: string, post: seq<string>)
    requires forall j :: 0 <= j < |pre| ==> '\n' !in pre[j] && !HasPrefix(pre[j], AccountKeyPrefix)
    requires forall j :: 0 <= j < |post| ==> '\n' !in post[j]
    requires key != "" && Trimmed(key) && '\n' !in key
    requires !Contains(Join(pre + [AccountKeyPrefix + " " + key] + post, '\n'), ErrorMarker)
    ensures ParseActivation(Join(pre + [AccountKeyPrefix + " " + key] + post, '\n'))
         == Ok(ActivationResponse(key, "", ApiHost, WebHost))
  {
    var lines := pre + [AccountKeyPrefix + " " + key] + post;
    var body := Join(lines, '\n');
    KeyLineReadBack(pre, key, post);
    SplitJoin(lines, '\n');
    assert Split(body, '\n') == lines;
  }

  lemma KeyLineReadBack(pre: seq<string>, key: string, post: seq<string>)
    requires forall j :: 0 <= j < |pre| ==> '\n' !in pre[j] && !HasPrefix(pre[j], AccountKeyPrefix)
    requires forall j :: 0 <= j < |post| ==> '\n' !in post[j]
    requires Trimmed(key) && '\n' !in key
    ensures var lines := pre + [AccountKeyPrefix + " " + key] + post;
      && (forall j :: 0 <= j < |lines| ==> '\n' !in lines[j])
      && AccountKeyIn(lines) == key
  {
    var line := AccountKeyPrefix + " " + key;
    var lines := pre + [line] + post;
    assert '\n' !in line;
    assert forall j :: 0 <= j < |lines| ==> '\n' !in lines[j] by {
      forall j | 0 <= j < |lines|
        ensures '\n' !in lines[j]
      {
        if j < |pre| {
          assert lines[j] == pre[j];
        } else if j > |pre| {
          assert lines[j] == post[j - |pre| - 1];
        }
      }
    }
    assert HasPrefix(line, AccountKeyPrefix) by {
      assert line[..|AccountKeyPrefix|] == AccountKeyPrefix;
    }
    assert forall j :: 0 <= j < |pre| ==> lines[j] == pre[j];
    AccountKeyFromFirstLine(lines, |pre|);
    assert line[|AccountKeyPrefix|..] == [' '] + key + [];
    TrimSpacePadded([' '], key, []);
  }
}
