# active-window activity tracker, modelled in Dafny

`active-window` watches the focused window of a Hyprland desktop and records usage
sessions per application. It merges short interruptions, drops sessions shorter than
ten seconds, and folds the sessions into per-application summaries. It uploads those
summaries to RescueTime, trying the native `user_client_events` endpoint first and
falling back to the legacy offline-time endpoint; each upload retries with exponential
backoff. In monitor or track mode with uploads enabled, it first loads a `.env` file
into its environment (active-window.go:912). The file also defines an activation call
(`activateWithRescueTime`, active-window.go:111) and a routine that saves the
credentials to the `.env` file (`saveCredentialsToEnv`, active-window.go:176). Nothing
in active-window.go calls either one. They are modelled as the functions they are, and
the lemmas about activating and then saving describe what a caller would get.

This project models that core and proves what it promises. The modules are:

- `Sessions`: the session record and the rule applied when a session is closed
  (discard, merge into the last stored session, or append). The invariant the stored
  sequence keeps, and the effect of closing whole runs of sessions, are proved about
  it.
- `Aggregator`: the summary fold of `GetActivitySummaries`. It is checked against an
  independent per-application description: the sum of durations, the count, the
  earliest start, and the first session with the latest end.
- `Tracker`: the `ActivityTracker` as a class whose methods update `current` and
  `sessions` in place. Each method is proved against the `Sessions` functions.
- `PollLoop`: the monitor loop's poll, submit and interrupt ticks, as a class around
  the tracker, and the line printed for a window.
- `Retry`: the legacy and native upload retry loops. Each is driven by an oracle of
  responses and proved against a recursive definition of its outcome. Lemmas cover the
  401-to-Bearer switch.
- `Payload`: the two upload formats, the one-minute filter, and the counters of one
  upload round.
- `Text`: the parts of Go's `strings` package that the parsers use.
- `EnvFile`: the `.env` line format, and loading a file into the process environment.
- `Activation`: reading the account key out of the activation reply.
- `Credentials`: rewriting the `.env` file with the new credentials. The written lines
  become the file's text, each followed by a line feed. When no variable holds a line
  feed, reading that text back line by line gives exactly the written variables.

Conventions:

- Instants and durations are unbounded integers of nanoseconds.
- The clock is a `now` parameter that never goes backwards. The tracker's ghost field
  `clock` is the latest time it was given.
- A file is its text, read into lines as `bufio.Scanner` splits them. The environment is a map.
- The merge threshold is 30 s. The comment beside it (active-window.go:545) speaks of
  gaps "less than 30s", but the code merges a gap of exactly 30 s, and zero or negative
  gaps too (active-window.go:615). The model follows the code.
- The comment at active-window.go:850 says the sessions are cleared after a
  successful submission. The code clears them whatever the upload did, and so does
  `PollLoop.Monitor.SubmitTick`.
- Clearing keeps the active session with its original start (active-window.go:702-708),
  so the time of a session still active across several submit ticks is uploaded again
  at each tick, from the same first-seen time (active-window.go:677-693).
  `PollLoop.ActiveTimeReReported` states it: the second tick's total holds all of the
  first's. Clearing therefore does not prevent re-reporting of that interval.
- A session shorter than ten seconds is dropped before the merge rule looks at the
  next one. Two sessions of one application around a short session of another
  application are therefore stored as one session, and its duration includes the
  interruption (active-window.go:581-590, 615). `Sessions.ShortInterruptionMerged`
  states it. Differing applications in a row of sessions do not always give separate
  stored sessions.
- The comment at active-window.go:305 and 366 lists backoffs of 1 s, 2 s and 4 s. With
  three attempts only the first two sleeps happen, as `Retry.SleptBackoffs` records.

## Model

| member | source | states |
|---|---|---|
| Sessions.Close | active-window.go:577-579 | closing a session makes it inactive with duration equal to end minus start, and keeps its start, application and title |
| Sessions.ShouldMerge | active-window.go:601-616 | a candidate that starts exactly 30 s after the last stored session of its application ended merges; one that starts later than that does not merge |
| Sessions.Extend | active-window.go:626-631 | the extended last session keeps its start and application, takes the closed session's end and title, and its duration is its new end minus its start |
| Sessions.Store | active-window.go:581-590 | a closed session shorter than the minimum leaves the stored sequence unchanged, even where it would merge; otherwise the sequence grows by at most one; everything but the last element is kept; a growth is an append of the session |
| Sessions.StorePreservesInvariant | active-window.go:572-591 | storing a closed session that starts after every stored one ended keeps every stored session closed and at least 10 s long, keeps them in order, and keeps same-application neighbours more than 30 s apart |
| Sessions.MergeExtendsLast | active-window.go:619-632 | a merge keeps the length and every element but the last; the last keeps start and application, takes the new end and title, and grows by the gap plus the closed session's duration |
| Sessions.RunExtendsLast | active-window.go:581-586 | a run of same-application sessions each within 30 s of the previous one collapses into the stored session it follows |
| Sessions.RunMergesToOne | active-window.go:581-586 | such a run closed on an empty tracker is stored as one session from the first start to the last end, with the last title |
| Sessions.UnmergeableSessionsAppended | active-window.go:587-589 | long-enough sessions of which no two neighbours may merge are appended one by one, in order |
| Sessions.ShortInterruptionMerged | active-window.go:581-590 | two long-enough sessions of one application around a short session of another, within 30 s, are stored as one session whose duration counts the interruption too |
| Aggregator.Matching | active-window.go:642-644 | the sessions selected for a key are exactly the stored sessions of that application |
| Aggregator.MinStart | active-window.go:660-662 | the earliest start is a lower bound of all starts and is one of them |
| Aggregator.LatestIndex | active-window.go:663-667 | the chosen session has the latest end, and every earlier session ends strictly before it, so ties keep the earlier title |
| Aggregator.Summaries | active-window.go:635-699 | with an active session, its application has a summary that ends at `now` and carries the active title |
| Aggregator.FoldStoredMatches | active-window.go:639-670 | the loop over stored sessions has a summary for exactly the applications with a stored session, and that summary equals the per-field description of those sessions |
| Aggregator.SummariesPerKey | active-window.go:635-699 | per key: a summary exists iff there is a stored session or the active session is of that application; the total, count, first-seen, last-seen and details fields are given by the per-field description plus the active contribution at `now` |
| Aggregator.StoredSummaryAtLeastMinimum | active-window.go:581-582 | a summary without an active contribution totals at least 10 s per counted session |
| Aggregator.TotalAtLeastMinimum | active-window.go:581-582 | sessions each at least the minimum long total at least the minimum times their number |
| Aggregator.SummaryWindowOrdered | active-window.go:660-667 | in a consistent tracker, every summary's first-seen is no later than its last-seen |
| Aggregator.SummariesGrowWithTime | active-window.go:677-693 | a later query reports the same applications and a total no smaller for each |
| Tracker.ActivityTracker.constructor | active-window.go:542-548 | a new tracker has no session and nothing stored |
| Tracker.ActivityTracker.StartSession | active-window.go:551-569 | the active session is closed at `now` and stored by the closing rule; the new current session is active, starts at `now` and carries the given application and title; the invariant is kept |
| Tracker.ActivityTracker.EndCurrentSessionAt | active-window.go:572-591 | without an active session nothing changes; otherwise the session becomes the closed session and the stored sequence is the closing rule's result; the invariant is kept |
| Tracker.ActivityTracker.EndCurrentSession | active-window.go:594-598 | ends the active session at `now`; a second call changes nothing |
| Tracker.ActivityTracker.ShouldMergeWithLastSession | active-window.go:601-616 | true iff there is a current session, the stored sequence is non-empty, the last stored session has the same application, and the gap is at most 30 s |
| Tracker.ActivityTracker.MergeWithLastSession | active-window.go:619-632 | only the last stored element changes, and it becomes its extension by the current session; nothing changes without a stored session or a current session |
| Tracker.ActivityTracker.GetActivitySummaries | active-window.go:635-699 | the returned map is the summary function of the stored sessions and the current session at `now`; the tracker is not changed |
| Tracker.ActivityTracker.ClearCompletedSessions | active-window.go:702-708 | the stored sequence becomes empty and the current session is kept; with no active session a following query returns no summaries |
| PollLoop.FormatWindowOutput | active-window.go:743-748 | the line starts with the fixed label and the window name; when the class is known it ends with the class in parentheses, and otherwise nothing follows the name |
| PollLoop.WindowChanged | active-window.go:861 | a sample counts as changed iff it differs from the last observed class and title pair |
| PollLoop.Monitor.constructor | active-window.go:799-808 | after a successful first sample, the first session is open at `now` and the sampled pair is the last observed one |
| PollLoop.Monitor.PollTick | active-window.go:853-872 | a new session starts iff the sample succeeded and its class or title differs from the last observed pair; only then does the observed pair change |
| PollLoop.Monitor.SubmitTick | active-window.go:845-851 | the summaries handed over are those before the tick, and the stored sessions are cleared whatever the upload did |
| PollLoop.Monitor.Shutdown | active-window.go:829-843 | the active session is closed at `now`, and the final summaries hold only stored sessions |
| PollLoop.Launch | active-window.go:799-808 | a failed first sample ends monitoring with no state; otherwise a monitor with the first session open is created |
| PollLoop.ActiveTimeReReported | active-window.go:677-708 | after clearing, a still-active session is reported at each submit tick from the same first-seen time, and the later total holds the earlier one plus the time between the ticks |
| Retry.BackoffDoubles | active-window.go:304-308 | the first backoff is one second and each later one doubles |
| Retry.LegacyFrom | active-window.go:302-353 | from an attempt below three, between that attempt plus one and three attempts are made; after three, the upload has given up with the last response |
| Retry.SubmitLegacy | active-window.go:297-354 | the loop's outcome is the recursive legacy policy's outcome, and it slept the backoffs 1 s, 2 s, … before each attempt after the first |
| Retry.LegacyFromExplained | active-window.go:302-353 | between one and three attempts are made; every attempt before the last got a retryable response; a success is a 2xx; a refusal is a 4xx on the last attempt; giving up reports the third response |
| Retry.LegacyOutcomeExplained | active-window.go:297-354 | the same, from the first attempt |
| Retry.SubmitNative | active-window.go:357-462 | the loop's outcome is the recursive native policy's outcome, with the same backoffs |
| Retry.NativeFrom | active-window.go:364-462 | from an attempt below three, between that attempt plus one and three attempts are made; after three, the upload has given up with the last response |
| Retry.NativeWithout401IsLegacy | active-window.go:449-458 | without a 401 on query-parameter auth, the native policy decides as the legacy one |
| Retry.NativeSwitchesToBearer | active-window.go:449-453 | the first 401 on query-parameter auth switches to Bearer auth from the next attempt on, and the 401 attempt counts |
| Retry.BearerIsFinal | active-window.go:449-458 | Bearer auth never switches back, and a 401 under Bearer auth stops the upload |
| Retry.BearerOnlyAfter401 | active-window.go:449-453 | a submission with Bearer auth was preceded by a 401 on query-parameter auth |
| Retry.NativeFromExplained | active-window.go:364-462 | each response read on the auth in use at its attempt: every attempt before the last got a retryable response or a 401 on query-parameter auth; a success is a 2xx on the auth reported; a refusal is a 4xx other than a 401 on query-parameter auth; giving up reports the third response, which let the policy go on |
| Retry.AuthAtSwitched | active-window.go:449-453 | starting on query-parameter auth, an attempt uses Bearer auth iff an earlier attempt got a 401 on query-parameter auth |
| Retry.BearerStays | active-window.go:449-453 | once Bearer auth is in use it stays in use |
| Payload.CeilMinutes | active-window.go:263 | the minutes are the ceiling of the duration in minutes |
| Payload.SummaryToPayload | active-window.go:261-274 | the legacy payload's minutes cover the total, by less than one minute too many; a summary of a minute or more reports at least one minute; start, application and details are carried over |
| Payload.SummaryToUserClientEvent | active-window.go:277-294 | the native event starts at first-seen, spans the total duration, and names the application twice |
| Payload.Route | active-window.go:499-530 | native credentials try the native upload first and the legacy one only after a native failure; without them only the legacy upload is tried; nothing is delivered iff every tried upload failed |
| Payload.UploadOne | active-window.go:496-530 | one upload moves the counters as its delivery route says |
| Payload.SubmitOne | active-window.go:490-531 | one pass of the loop skips a summary under one minute, and otherwise uploads and counts it |
| Payload.SubmitActivities | active-window.go:467-539 | the succeeded, failed, native and fallback counters are the sizes of the sets of applications of a minute or more that ended that way; succeeded plus failed is the number of applications of a minute or more |
| Payload.TallyOfAdd | active-window.go:490-531 | dealing with one more application changes the counters only if it is of a minute or more, and then as its route says |
| Payload.AmongAdd | active-window.go:490-531 | a delivery class grows by one exactly when the added application is eligible and ended that way |
| Payload.TallyOfAll | active-window.go:533-538 | once all applications are dealt with, the counters are the sizes of the delivery classes, and delivered and failed partition the eligible applications |
| Text.TrimLeftSpec | active-window.go:156 | TrimLeft drops a prefix that is all white space and leaves a text not starting with white space |
| Text.TrimRightSpec | active-window.go:156 | TrimRight drops a suffix that is all white space and leaves a text not ending with white space |
| Text.TrimSpace | active-window.go:156 | the trimmed text neither starts nor ends with white space |
| Text.TrimSpaceSpec | active-window.go:156 | the trimmed text is a contiguous part of the input with only white space around it, and it is empty iff the input is all white space |
| Text.TrimSpacePadded | active-window.go:156 | a trimmed text padded with white space on both sides trims back to itself |
| Text.TrimSpaceAbsorbs | active-window.go:233 | white space added around a text does not change what trimming keeps |
| Text.TrimSpaceWithout | active-window.go:233 | a character absent from a text is absent from its trimmed form |
| Text.TrimSpaceIdempotent | active-window.go:233 | trimming twice is trimming once |
| Text.TrimPrefix | active-window.go:156 | with the prefix present the input is the prefix followed by the result, and otherwise the input is returned |
| Text.ContainsIffOccurs | active-window.go:146 | the scan finds the marker iff it occurs at some position |
| Text.IndexOf | active-window.go:241 | the position found holds the character and no earlier one does; -1 iff the character is absent |
| Text.SplitOnce | active-window.go:241 | no part iff the separator is absent; otherwise the input is the first part, the separator, then the second part, and the first part has no separator |
| Text.SplitOnceJoined | active-window.go:241 | splitting a joined pair whose first part has no separator gives the pair back |
| Text.Split | active-window.go:154 | there is at least one piece, no piece holds the separator, and joining the pieces gives the input back |
| Text.SplitJoin | active-window.go:154 | splitting the join of separator-free pieces gives the pieces back |
| Text.Lines | active-window.go:231-232 | the scanner's lines hold no line feed |
| Text.LinesUnlines | active-window.go:211-217 | lines without a line feed, each written with a line feed after it, are read back as written |
| EnvFile.ParseEnvLine | active-window.go:232-251 | a line carries no pair iff it trims to empty, to a comment, or to a text without `=`; a pair it carries has trimmed sides and a key without `=` that starts no comment |
| EnvFile.ParseSplitLine | active-window.go:234-247 | a line made of a text without `=`, then `=`, then any text, yields the trimmed first text and the trimmed second text, unless that key starts a comment |
| EnvFile.ParseEnvLineSplits | active-window.go:234-247 | every line that yields a pair is a text without `=`, then `=`, then a text, and the pair is the two texts trimmed |
| EnvFile.ParsedPairWritable | active-window.go:234-247 | a line without a line feed yields only a pair that one line can carry |
| EnvFile.ParseFormattedLine | active-window.go:232-247 | a written line, with any white space around it, parses back to its pair |
| EnvFile.EntriesParse | active-window.go:232-251 | each entry is the pair carried by its line |
| EnvFile.EntriesAppend | active-window.go:232-251 | the pairs of two texts one after the other are the pairs of each, in order |
| EnvFile.ApplyLinesStep | active-window.go:232-251 | one more line updates the target reached by the earlier lines |
| EnvFile.LoadEnvFile | active-window.go:224-258 | the environment after the scan is every parsed pair set in order, where a pair `os.Setenv` refuses is ignored |
| EnvFile.UnassignedKeyKept | active-window.go:250 | a variable no line sets keeps its old value, or stays absent |
| EnvFile.LastAssignmentWins | active-window.go:250 | the last line that sets a variable decides its value |
| EnvFile.GainedEntriesWellFormed | active-window.go:244-250 | every variable gained is a well-formed pair, and one the environment gained was accepted by `os.Setenv` |
| EnvFile.GainedEntriesWritable | active-window.go:231-250 | from lines as the scanner delivers them, every variable gained fits on one line |
| EnvFile.UnsetKeyKept | active-window.go:250 | at the level of parsed pairs: a variable no pair sets keeps its old value |
| EnvFile.LastSetWins | active-window.go:250 | at the level of parsed pairs: the last pair that sets a variable decides its value |
| EnvFile.GainedFromEntries | active-window.go:244-250 | at the level of parsed pairs: every gained variable is well formed and taken by the target |
| Activation.AccountKeyIn | active-window.go:153-159 | the extracted key is trimmed |
| Activation.ParseActivation | active-window.go:145-171 | a reply with the error marker is refused; an accepted reply gives a non-empty, trimmed account key and an empty data key |
| Activation.ReadActivationReply | active-window.go:145-171 | the scan returns the activation result: a refusal when the marker occurs, a refusal when no line gives a non-blank key, otherwise the key with an empty data key and the fixed hosts |
| Activation.AccountKeyFromFirstLine | active-window.go:153-159 | the key is the trimmed rest of the first line with the prefix, and empty without one |
| Activation.ActivationAccepted | active-window.go:145-171 | a reply with the error marker is refused whatever else it holds; an accepted reply has no marker and yields a non-empty, trimmed, one-line key, an empty data key and the fixed hosts |
| Activation.KeyWithinOneLine | active-window.go:153-159 | the extracted key holds no line break |
| Activation.ActivationRoundTrip | active-window.go:145-171 | a reply with the key line after lines without the prefix, and no error marker, yields exactly that key |
| Activation.KeyLineReadBack | active-window.go:153-159 | the key line after lines without the prefix gives back the key |
| Credentials.UpdatedVars | active-window.go:198-199 | the variables to write hold the account key and the data key of the reply |
| Credentials.EntryLines | active-window.go:216-218 | one `KEY=value` line per listed variable, in the listed order |
| Credentials.ReadExistingVars | active-window.go:180-195 | the scan of the old file keeps every parsed pair, the last one for each key |
| Credentials.WriteEnvFile | active-window.go:210-218 | the file is the three header lines and then one line for each variable exactly once, in some order; when every variable is a pair the line format can carry, parsing those lines gives exactly the variables; when no variable holds a line feed either, the file's text reads back as exactly those lines |
| Credentials.SaveCredentialsToEnv | active-window.go:176-221 | the file written lists the old file's variables with the two credentials set, after the header; when they are all pairs the line format can carry, parsing the lines gives exactly those variables; when none holds a line feed, the text reads back as those lines |
| Credentials.CommentParsesToNothing | active-window.go:236-238 | a line starting with `#` carries no pair |
| Credentials.WrittenPairs | active-window.go:216-218 | the pairs written are the listed variables with their values, in order |
| Credentials.SavedPairs | active-window.go:210-218 | the written file carries no pair on its header lines and then each listed variable with its value |
| Credentials.SavedEntries | active-window.go:210-218 | parsing the written file gives exactly the written pairs |
| Credentials.HeaderEntries | active-window.go:211-213 | the header carries no pair |
| Credentials.BlankOrCommentEntries | active-window.go:236-238 | blank and comment lines carry no pair |
| Credentials.WrittenEntries | active-window.go:216-218 | the variable lines carry their pairs |
| Credentials.ReloadEntries | active-window.go:244-250 | the written pairs set every written variable the target takes and leave every other one as it was |
| Credentials.PairsReadBack | active-window.go:184-193 | the written pairs, read into an empty map, are the written variables |
| Credentials.SavedFileReloads | active-window.go:176-258 | loading a written file sets every written variable the target takes and leaves the others unchanged |
| Credentials.SavedFileReadsBack | active-window.go:176-221 | reading a written file back gives exactly the variables written |
| Credentials.SavedTextLines | active-window.go:210-218 | when no variable holds a line feed, the text written reads back as exactly the written lines |
| Credentials.SavedTextReadsBack | active-window.go:176-258 | when every variable fits on a line, the text written, read back line by line and parsed, gives exactly the variables written |
| Credentials.ScanFile | active-window.go:180-195 | the old file gives lines exactly when it could be opened, and none of them holds a line feed |
| Credentials.UpdatedVarsWellFormed | active-window.go:184-199 | every variable to write is a pair the line format can carry |
| Credentials.UpdatedVarsWritable | active-window.go:180-199 | the variables read from an old file, with credentials from an accepted activation, all fit on one line of the new file |
| Credentials.SavedCredentialsReadBack | active-window.go:145-221 | if a caller saved the credentials of an accepted activation, the text written would read back as exactly the saved variables; active-window.go has no such caller |
| Credentials.SavedFileLoadsCredentials | active-window.go:224-258 | loading a written file sets the credential variables it holds when `os.Setenv` can hold their values |
| Credentials.SavedCredentialsLoad | active-window.go:145-258 | if a caller saved the credentials of an accepted activation, loading the text written would set the empty data key, and the account key when it holds no NUL; active-window.go has no such caller |

## Left out

- HTTP requests, reading response bodies, `http.Client` timeouts and `time.Sleep` are not modelled. Each upload attempt's status, or its absence, is an oracle input. The sleeps appear only as the list of backoff durations.
- `Payload.SubmitActivities` takes whether each native and legacy upload succeeds as two oracles. It does not call the retry models; `Retry.SubmitNative` and `Retry.SubmitLegacy` state what those uploads decide.
- `json.Marshal` failures (active-window.go:312-315, 373-376) are not modelled. The payload types cannot fail to encode.
- The choice of key for the query string and for the Bearer header from the environment (active-window.go:391-407) is not modelled. The key only forms the URL.
- Opening, creating and writing files is not modelled. A file's text is a string; `Text.Lines` reads it as `bufio.Scanner` splits it at line feeds, and `Text.Unlines` writes lines each followed by a line feed. The parsers and `EnvFile.LoadEnvFile` take the lines. A scanner error, including a line over 64 KiB, is not modelled, and nor is a failed `os.Create` or `Flush`. The scanner's dropping of a carriage return before a line feed is not modelled, since trimming removes it anyway.
- Credentials.WriteEnvFile: the text read-back is promised only when no variable holds a line feed. `fmt.Fprintf` writes such a value over two lines, and the file then reads back differently. Variables read from a file and an accepted activation key never hold one (`Credentials.UpdatedVarsWritable`).
- `os.Setenv` is modelled by what it refuses on Unix: an empty key, a key with `=` or NUL, and a value with NUL. It is Go's runtime, not this repository's code.
- The iteration order of Go maps is not modelled. The write-out order is a ghost witness that lists each key once. The upload loop visits the applications in an unspecified order, and its counters do not depend on that order.
- The `hyprctl` subprocess, JSON decoding of the window, signal handling, tickers and `select` are not modelled. A sample is an input, either a window or an error.
- `sync.RWMutex` is not modelled; the tracker is single-threaded.
- `time.Since` and the two reads of `time.Now` in `GetActivitySummaries` are modelled as one `now`.
- Floating point is not modelled. `math.Ceil` of `Minutes()` is integer ceiling division by 60·10⁹ ns. `math.Pow(2, k-1)` is an integer power. Both are integer idealisations. The percentage in `printActivitySummary` is not modelled.
- Instants and durations are unbounded. The 64-bit range of `time.Duration` is not modelled.
- Time formatting (`2006-01-02 15:04:05`, RFC 3339) is not modelled. The payloads carry the instants themselves.
- The printing in `printActivitySummary`, the progress messages, the command-line flags and `main` are not modelled.
- Building the activation request is not modelled, including the form encoding of the e-mail address.
- old-linux-apps/legacy-code/perform_activate.c is not part of this model. It is decompiled request-building code with no logic of its own.
- Strings are sequences of Unicode scalar values. How Go decodes invalid UTF-8 is not modelled.
