# A verified model of tiny-ssh

tiny-ssh is a terminal SSH client. It passes every key to the remote shell as the bytes an xterm would
send, keeps a local "shadow" of the remote command line to look up suggestions in a command history, and
learns from markers in the remote's output where the prompt is and which directory the shell is in. This
project models the parts of it that are written by hand and carry state, and proves what their comments and
tests promise.

- `Utf8`, `Decimal`: Rust strings as UTF-8 bytes with the panics of their operations as preconditions;
  decimal numbers and `u16` parsing.
- `Keys`, `KeyStream`, `Mouse`: the key encoder with a decoder for whole key streams, and SGR mouse reports.
- `LineEditor`, `WordKill`, `Lockstep`, `Paste`: a reference line editor that reads the sent bytes one by one,
  and for each key exactly the lines on which the shadow follows it. The reference editor has the emacs-style
  commands of readline as bash binds them and, like the shadow's comment says, kills the whole line on
  Ctrl-U; its Ctrl-W rubs out a word delimited by spaces and tabs. It takes every character for one position,
  combining marks included, and reads unknown sequences to their end. Completion, history, yanking, undo, word
  movement, case changes, numeric arguments, expansions, the mark, macros, overwrite mode and vi mode leave it in
  a state that never counts as in step.
- `FileUrl`, `UrlGrammar`, `Osc`, `OscGrammar`, `MarkerStream`: the streaming OSC scanner, a recursive parser of whole
  strings that it equals, and a printer that it inverts (sections 8.3.89 and 8.3.143 of ECMA-48, section 2.1
  of RFC 3986).
- `Like`, `History`: SQLite's LIKE as a matcher, the history table as a growing sequence of rows, and the
  two-pass suggestion query. The query leaves the order of equally old rows open, so its answers are given
  as a relation.
- `AppSpec`, `App`, `AppRuns`: the application's handlers on values, the application object on UTF-8 strings
  that is proved to do the same, and what holds over all runs. The answers of the history and the outcome of
  insertions are part of each event, so the theorems hold for every behaviour of the database.
- `AppEffects`: what single keys, markers and events do, and when the ghost text is shown.
- `LockstepRuns`: which events keep the shadow line and the editor in step, and that all runs of them do.
- `SessionEvents`, `Transport`, `Session`, `SessionSafety`, `RemoteData`, `RemoteCalls`, `SessionProgress`: the
  driver and the user interface as two processes joined by queues of 64 inputs and 256 events; a label is one
  atomic step.
- `DriverTask`, `Client`, `EndToEnd`: both tasks as the sequential code they are, proved to take only steps of
  that system, and the account of what reaches the remote.
- `Target`: the `user@host[:port]` argument.

Some properties that one would expect do not hold of the code, and the proofs say exactly when they do:

- The shadow does not follow that editor everywhere. `Lockstep.TracksIff` says for each key on which lines it
  does, and `Lockstep.LockstepExactly` for which keys it does on all. Those are the printable characters,
  Backspace, the cursor keys, Enter and Ctrl-A, -C, -E, -K, -U among others; Delete, Ctrl-B, -D, -F, -H, -J, -M,
  -O and -T follow it on some lines only; Tab, Esc, Insert, Up, Down, the page keys, Alt with a character and
  Ctrl-I, -N, -P, -Q, -R, -S, -V, -X, -Y and -] on none.
- Ctrl-W takes Unicode white space for the end of a word and the editor only spaces and tabs. They agree exactly
  as `WordKill.RubsAgreeIff` says, which they do not on `a`, U+3000, `b` (`WordKill.IdeographicSpaceDisagrees`).
- The shadow also drifts when the prompt's end arrives while something has already been typed ahead
  (`LockstepRuns.TypeAheadDrifts`); among the session's events there are no others
  (`LockstepRuns.OutputKeepsStepIff`). Pasted text separates the two as `LockstepRuns.PasteKeepsStepIff` and
  `LockstepRuns.BracketedPasteKeepsStepIff` say.
- Right accepts a suggestion whether or not the ghost text is drawn, also with the alternate screen shown
  (`AppRuns.RightSendsUnseenIff`, `AppRuns.UnseenSuggestionIsSent`).
- Both queues can fill up with each task waiting for the other. `SessionProgress.DeadlockIsReachable` builds
  such a run, and `SessionProgress.StuckIffDeadlocked` shows that there is no other way to get stuck.
- A newest history row that differs in case from the typed prefix hides an older exact completion
  (`History.FilterLosesSuggestion`, `History.FilterKeepsAnswerIff`).
- A reported directory that is not ASCII is misread (`MarkerStream.PathFaithfulIffAscii`), and one that
  exceeds the payload buffer is cut short without notice (`MarkerStream.LongDirectoryIsCut`) or, if the cut falls
  into the host or an escape, lost (`MarkerStream.LongUrlIsCut`).
- A mouse report at coordinate 65535 wraps to zero (`Mouse.MouseRoundTrip`); a debug build would panic there.

- `SessionEvent::Error` is documented as non-fatal, yet it announces the end of the session unless it reports a
  failed resize (`SessionSafety.ErrorIsFatalIff`); after a failed write nothing but the closing events follows
  it (`SessionSafety.WriteErrorIsLast`).

The comment on `Ctrl-C | Ctrl-D` treats both alike although a non-empty line survives Ctrl-D in readline; the
model follows the code.

## Model

| member | source | states |
|---|---|---|
| Utf8.DecodeIffEncode | crates/tiny-ssh-cli/src/term.rs:216 | a byte string is accepted as text exactly if it is the UTF-8 encoding of one, and decodes to that text |
| Utf8.PrefixOfEncode | crates/tiny-ssh-cli/src/app.rs:196 | `starts_with` on strings is the prefix relation on characters, in both directions |
| Utf8.ProperPrefixOfEncode | crates/tiny-ssh-cli/src/app.rs:196-197 | the byte-length test after `starts_with` asks for at least one more character |
| Utf8.CharCountOfEncode | crates/tiny-ssh-cli/src/app.rs:225 | counting characters of the encoded line gives the number of characters |
| Utf8.BoundaryIffPrefix | crates/tiny-ssh-cli/src/app.rs:417-423 | the character boundaries of a string are exactly the ends of its encoded prefixes |
| Utf8.ByteOffsetSplits | crates/tiny-ssh-cli/src/app.rs:417-423 | `char_to_byte` always yields a boundary and splits the text at that character, or at its end for positions beyond |
| Utf8.InsertRefines | crates/tiny-ssh-cli/src/app.rs:385-390 | inserting at the byte offset inserts at the character position and cannot panic |
| Utf8.RemoveRefines | crates/tiny-ssh-cli/src/app.rs:322-328 | removing at the byte offset removes exactly that character and cannot panic |
| Utf8.TruncateRefines | crates/tiny-ssh-cli/src/app.rs:295-299 | truncating at the byte offset keeps exactly the characters before the cursor and cannot panic |
| KeyStream.KeyDecodes | crates/tiny-ssh-cli/src/keys.rs:26-49 | the first key is recovered from its code whatever bytes follow, in either cursor mode |
| KeyStream.CodesArePrefixFree | crates/tiny-ssh-cli/src/keys.rs:95-157 | no code begins the code of a different key, across cursor modes |
| KeyStream.StreamDecodes | crates/tiny-ssh-cli/src/keys.rs:26-157 | every sequence of decodable keys is recovered from its concatenated bytes |
| KeyStream.AmbiguousCodes | crates/tiny-ssh-cli/src/keys.rs:103-139 | Ctrl-I, Ctrl-M, Esc and Alt keys share or begin the codes of others |
| Keys.CtrlByteIff | crates/tiny-ssh-cli/src/keys.rs:126-139 | Ctrl with a letter or one of the characters from `@` to `_` is its code modulo 32; space, the digits 2 to 8 and `?` have their codes; nothing else has one |
| Keys.ToAsciiLowerIff | crates/tiny-ssh-cli/src/keys.rs:127 | only the ASCII capitals have a lower case, thirty-two further on |
| Keys.NoCodeIff | crates/tiny-ssh-cli/src/keys.rs:26-49 | only untranslated keys and function keys beyond F12 have no code |
| Mouse.EncodeMouse | crates/tiny-ssh-cli/src/keys.rs:55-93 | the ORed modifier bits add up with the base code; the report prints that sum and both coordinates, or is empty |
| Mouse.BitsAddUp | crates/tiny-ssh-cli/src/keys.rs:74-83 | no modifier bit collides with a base code or another modifier |
| Mouse.ReportedIff | crates/tiny-ssh-cli/src/keys.rs:55-72 | there is a report exactly if the remote asked for reports and the event is no horizontal scrolling or movement |
| Mouse.MouseRoundTrip | crates/tiny-ssh-cli/src/keys.rs:55-93 | a decoder recovers the event, but for the released button, exactly below coordinate 65535 |
| Decimal.PrintRoundTrip | crates/tiny-ssh-cli/src/keys.rs:92 | printed decimals consist of digits and have the printed value |
| Decimal.ParsePrinted | crates/tiny-ssh-cli/src/main.rs:114-119 | parsing a printed number as `u16` gives it back up to 65535 and fails above |
| Decimal.ParseU16Iff | crates/tiny-ssh-cli/src/main.rs:114-119 | exactly the decimal numbers up to 65535, with or without a plus sign, are accepted as a port |
| Target.BracketedReadsBack | crates/tiny-ssh-cli/src/main.rs:105-118 | a bracketed host is read back exactly if it has no closing bracket, the port fits, and a colon is there to be seen |
| Target.PlainWithPort | crates/tiny-ssh-cli/src/main.rs:104-120 | a plain host with a port is read back exactly if it does not look bracketed and the port fits |
| Target.LargePortIsRejected | crates/tiny-ssh-cli/src/main.rs:114-119 | a printed target whose port exceeds 65535 is refused for its port |
| Target.HostAlone | crates/tiny-ssh-cli/src/main.rs:121-123 | a host without a colon is taken as it stands |
| Target.HostAndPort | crates/tiny-ssh-cli/src/main.rs:104-120 | a host that does not look bracketed ends at its last colon, and what follows has to be a port |
| Target.Bracketed | crates/tiny-ssh-cli/src/main.rs:105-118 | a bracketed host ends at the first closing bracket; a colon right behind has to begin a port, anything else is ignored |
| Target.Unbalanced | crates/tiny-ssh-cli/src/main.rs:105-109 | an opening bracket that is not closed, with a colon somewhere, is refused as unbalanced |
| Target.ParsedParts | crates/tiny-ssh-cli/src/main.rs:96-124 | of every string: refused for a missing `@` or an empty user exactly then, and an accepted user is non-empty, without `@`, and begins the string |
| Target.TargetRoundTrip | crates/tiny-ssh-cli/src/main.rs:96-124 | parsing inverts printing exactly for non-empty users without `@` and hosts and ports of the stated forms |
| LineEditor.FeedPrintable | crates/tiny-ssh-cli/src/keys.rs:114-124 | the UTF-8 bytes of a printable character type exactly that character in a byte-level editor |
| LineEditor.FeedText | crates/tiny-ssh-cli/src/app.rs:260-265 | the bytes of an accepted suggestion type exactly its text |
| WordKill.WhiteSpaceIs | crates/tiny-ssh-cli/src/app.rs:399-402 | white space is the twenty-five characters of the Unicode property |
| WordKill.WordStartIff | crates/tiny-ssh-cli/src/app.rs:397-404 | the kill goes back exactly to the start of the last word behind its white space |
| WordKill.KillWordExact | crates/tiny-ssh-cli/src/app.rs:393-415 | Ctrl-W removes that word and white space only, keeps the rest, and always shrinks the line unless the cursor is at the start |
| WordKill.KillsToClearCount | crates/tiny-ssh-cli/src/app.rs:393-415 | clearing the text before the cursor takes one press per word, and one more if it begins with white space |
| WordKill.RubsAgreeIff | crates/tiny-ssh-cli/src/app.rs:393-415 | an editor that rubs out a word delimited by spaces and tabs removes the same exactly if that word does not begin with other white space, unless at the start, and holds none but at its end |
| WordKill.BlankLinesAgree | crates/tiny-ssh-cli/src/app.rs:393-415 | so it does as long as all white space is spaces and tabs |
| WordKill.IdeographicSpaceDisagrees | crates/tiny-ssh-cli/src/app.rs:399 | a line with an ideographic space on which it does not |
| Lockstep.FeedKey | crates/tiny-ssh-cli/src/keys.rs:26-139 | reading the bytes of any key, in either cursor mode, the editor carries out that key's one command |
| Lockstep.TracksIff | crates/tiny-ssh-cli/src/app.rs:281-415 | for every key, cursor mode and line: the editor then shows the shadow's new line and cursor exactly if the stated condition on the line holds |
| Lockstep.EditingKeysKeepLockstep | crates/tiny-ssh-cli/src/app.rs:281-383 | printable characters, Backspace, cursor keys, Enter and Ctrl-A/E/U/K/C keep lockstep on every line, Ctrl-W wherever white space is spaces and tabs |
| Lockstep.LockstepExactly | crates/tiny-ssh-cli/src/app.rs:277-383 | against the reference editor described above, shadow and editor agree on all lines exactly for the keys whose two commands are the same |
| Lockstep.MouseReportIgnored | crates/tiny-ssh-cli/src/keys.rs:55-93 | a mouse report changes nothing in the reference editor |
| FileUrl.DecodePath | crates/tiny-ssh-cli/src/term.rs:223-235 | the loop percent-decodes each byte to one character or fails on a malformed escape |
| FileUrl.ParseFileUrl | crates/tiny-ssh-cli/src/term.rs:215-241 | the URL's path is decoded from the first slash after the host; empty and malformed input yields nothing |
| Osc.RunConcat | crates/tiny-ssh-cli/src/term.rs:153-193 | scanning two pieces one after the other is scanning their concatenation |
| Osc.OscScanner.DispatchInto | crates/tiny-ssh-cli/src/term.rs:195-210 | a payload appends at most the one event it announces |
| Osc.OscScanner.ScanBytes | crates/tiny-ssh-cli/src/term.rs:153-193 | the byte loop leaves the state and appends the events that the step function gives |
| OscGrammar.ScannerIsParser | crates/tiny-ssh-cli/src/term.rs:153-193 | the state machine computes what a recursive parser of the whole string computes, events and final state |
| OscGrammar.StreamingIsParsing | crates/tiny-ssh-cli/src/term.rs:133-193 | however the input is cut into scan calls, the result is the parse of the uncut string |
| OscGrammar.BufferInvariantHolds | crates/tiny-ssh-cli/src/term.rs:150-193 | the payload stays within its bound, holds no BEL or ESC, and is empty outside an OSC |
| OscGrammar.CapRefines | crates/tiny-ssh-cli/src/term.rs:178-182 | the bounded scanner tracks an unbounded one with its payload cut, and loses no prompt marker |
| OscGrammar.CapUnnoticed | crates/tiny-ssh-cli/src/term.rs:178-182 | while payloads fit, bounded and unbounded scanner agree on everything |
| OscGrammar.BelResynchronises | crates/tiny-ssh-cli/src/term.rs:153-193 | after any garbage one BEL restores the initial state, and scanning continues as if begun there |
| UrlGrammar.UnescapeInvertsPrinting | crates/tiny-ssh-cli/src/term.rs:223-235 | percent-decoding inverts printing for any choice of escaped bytes and digit cases |
| UrlGrammar.UnescapeIff | crates/tiny-ssh-cli/src/term.rs:223-235 | whatever is decoded is a printed path and its bytes, and conversely |
| UrlGrammar.MalformedIff | crates/tiny-ssh-cli/src/term.rs:225-231 | decoding fails exactly if a percent sign is not followed by two hex digits, of either case |
| UrlGrammar.UnreadableIff | crates/tiny-ssh-cli/src/term.rs:215-241 | a URL reports no path exactly if it is empty, not UTF-8, without a slash after its host, or malformed in its path |
| UrlGrammar.Latin1At | crates/tiny-ssh-cli/src/term.rs:232-234 | each decoded byte becomes the character of that number |
| MarkerStream.OtherSequencesAreSilent | crates/tiny-ssh-cli/src/term.rs:195-210 | an OSC that begins with neither `7;` nor `133;`, such as a window title, yields no event and leaves the scanner as it began |
| MarkerStream.ItemRoundTrip | crates/tiny-ssh-cli/src/term.rs:195-241 | one printed marker, directory or text yields exactly its event; any other sequence, a marker without one of the four letters or an unreadable directory yields none |
| MarkerStream.StreamRoundTrip | crates/tiny-ssh-cli/src/term.rs:153-241 | a printed list of markers, directories, text and sequences that mean nothing is read back as exactly its events |
| MarkerStream.StreamRoundTripAfterGarbage | crates/tiny-ssh-cli/src/term.rs:153-241 | the same after any garbage and one BEL |
| MarkerStream.PathFaithfulIffAscii | crates/tiny-ssh-cli/src/term.rs:225-239 | the reported path is the printed one exactly if it is ASCII |
| MarkerStream.LongUrlIsCut | crates/tiny-ssh-cli/src/term.rs:178-241 | a `file` URL beyond the buffer is reported up to its last piece exactly if the cut falls between two pieces of the path, and lost otherwise |
| MarkerStream.LongDirectoryIsCut | crates/tiny-ssh-cli/src/term.rs:150-210 | a raw path of more than 4094 bytes is reported cut to 4094 |
| Like.LikeEscape | crates/tiny-ssh-core/src/history.rs:289-301 | the loop puts a backslash before each backslash, percent sign and underscore and changes nothing else |
| Like.EscapedPrefixMatches | crates/tiny-ssh-core/src/history.rs:183-184 | LIKE with the escaped prefix and a percent sign matches exactly the commands that begin with the prefix up to ASCII case |
| History.History.Record | crates/tiny-ssh-core/src/history.rs:146-165 | a record appends one row with the next id and a time stamp, or changes nothing and reports why, failing exactly if clock or SQLite do |
| History.History.SetExitCode | crates/tiny-ssh-core/src/history.rs:168-174 | only the exit code of the row with that id changes |
| History.ExitCodeIsSet | crates/tiny-ssh-core/src/history.rs:168-174 | the row with that id gets the exit code, and nothing else changes |
| History.History.QueryNewest | crates/tiny-ssh-core/src/history.rs:187-238 | a newest completing row of the pass, or none only if there is none |
| History.History.Suggest | crates/tiny-ssh-core/src/history.rs:179-244 | the two passes answer as Fish would: newest in this directory scored 0.9, failing any newest on this host scored 0.4 |
| History.AnswersAreSelected | crates/tiny-ssh-core/src/history.rs:183-243 | the permitted answers are the rows that the two SQL statements may return, one after the other, scored 0.9 and 0.4 |
| History.NoAnswerToNothing | crates/tiny-ssh-core/src/history.rs:180-182 | an empty prefix has no answer but none |
| History.IrrelevantRowsKeepAnswers | crates/tiny-ssh-core/src/history.rs:187-238 | rows of other hosts or not extending the prefix change no permitted answer, wherever they stand in the log |
| History.NewestRecordWins | crates/tiny-ssh-core/src/history.rs:146-244 | a completion recorded last is the only choice exactly if all other completions of its pass are older |
| History.ExitCodeIsIrrelevant | crates/tiny-ssh-core/src/history.rs:168-174 | setting an exit code changes no choice |
| History.FilterKeepsAnswerIff | crates/tiny-ssh-cli/src/app.rs:194-206 | every permitted answer survives the case-sensitive filter exactly if all newest rows of the answering pass match in case |
| History.ExactCaseIsComplete | crates/tiny-ssh-cli/src/app.rs:194-206 | if rows matching up to case match exactly, every permitted answer survives the filter exactly when some command of the host extends the line |
| History.FilterLosesSuggestion | crates/tiny-ssh-cli/src/app.rs:194-206 | a concrete history in which the filter loses an existing exact completion |
| App.Terminal.Feed | crates/tiny-ssh-cli/src/term.rs:54-57 | fed bytes go through the scanner into the pending events, in order |
| App.Terminal.TakeOscEvents | crates/tiny-ssh-cli/src/term.rs:80-82 | the pending events are handed over once |
| App.App.constructor | crates/tiny-ssh-cli/src/app.rs:91-110 | a new application is connecting, with an empty line and nothing known |
| App.App.InsertChar | crates/tiny-ssh-cli/src/app.rs:385-390 | on UTF-8, inserts the character at the cursor and ends the credit of a suggestion |
| App.App.EraseBackward | crates/tiny-ssh-cli/src/app.rs:322-330 | on UTF-8, removes the character before the cursor if there is one |
| App.App.KillToEnd | crates/tiny-ssh-cli/src/app.rs:294-299 | on UTF-8, keeps the text before the cursor |
| App.FindWordStart | crates/tiny-ssh-cli/src/app.rs:397-404 | the two loops find the start of the word behind its white space |
| App.App.KillWordBackward | crates/tiny-ssh-cli/src/app.rs:393-415 | on UTF-8, the line loses what lies between the start of that word and the cursor |
| App.App.RefreshSuggestion | crates/tiny-ssh-cli/src/app.rs:182-207 | the suggestion is the rest of a command that the history may offer; none only if there is nothing to offer, the filter drops it or the query may fail |
| App.App.CanShow | crates/tiny-ssh-cli/src/app.rs:213-229 | the ghost text is shown exactly under the five conditions |
| App.App.Submit | crates/tiny-ssh-cli/src/app.rs:331-354 | Enter records a non-empty line with its provenance unless the insertion fails, and clears the line |
| App.App.ApplyToShadow | crates/tiny-ssh-cli/src/app.rs:281-383 | each key changes the state as specified, asking the history only where the code does |
| App.App.AcceptSuggestion | crates/tiny-ssh-cli/src/app.rs:254-265 | the suggestion is appended and the cursor put behind it |
| App.App.OnKey | crates/tiny-ssh-cli/src/app.rs:233-275 | state, action and history after a key are those of the specification |
| App.App.OnOscEvent | crates/tiny-ssh-cli/src/app.rs:135-157 | markers move the prompt, clear the line or set the directory |
| App.App.HandlePromptHeuristic | crates/tiny-ssh-cli/src/app.rs:162-174 | after Enter, output with a newline sets the prompt if the cursor is past column zero |
| App.App.OnBytes | crates/tiny-ssh-cli/src/app.rs:122-128 | output is scanned, its events applied in order, and the heuristic run |
| App.App.OnSessionEvent | crates/tiny-ssh-cli/src/app.rs:119-133 | each session event changes the state as specified |
| AppEffects.ActionsAre | crates/tiny-ssh-cli/src/app.rs:233-275 | Quit exactly for Ctrl-Q, the toggles exactly for Ctrl-Shift-M and Ctrl-Shift-C, the suggestion for an accepting Right, and otherwise exactly the key's code |
| AppEffects.CapturedKeysChangeNothing | crates/tiny-ssh-cli/src/app.rs:235-251 | a key that sends nothing changes nothing |
| AppEffects.CreditAfterKey | crates/tiny-ssh-cli/src/app.rs:281-414 | which keys end the credit of an accepted suggestion |
| AppEffects.EnterFlagAfterKey | crates/tiny-ssh-cli/src/app.rs:306-372 | Enter is remembered until the line is given up |
| AppEffects.SuggestionAfterKey | crates/tiny-ssh-cli/src/app.rs:281-372 | which keys look a suggestion up, drop it or leave it, and what is kept of the answer |
| AppEffects.KeysChangeNothingElse | crates/tiny-ssh-cli/src/app.rs:233-383 | keys touch only the line, the cursor, the suggestion and the two flags |
| AppEffects.EnterRecords | crates/tiny-ssh-cli/src/app.rs:331-348 | Enter on a non-empty line with a working database appends one row: host, user, directory, line, time, and as source a suggestion exactly if credited; nothing else appends any |
| AppEffects.EnteredLineCompletes | crates/tiny-ssh-cli/src/app.rs:331-348 | a line so entered can, after any run, be completed from each of its proper prefixes |
| AppEffects.NewAppKnowsNothing | crates/tiny-ssh-cli/src/app.rs:91-110 | every modelled field of a new application |
| AppEffects.OtherEventsAre | crates/tiny-ssh-cli/src/app.rs:119-133 | states, errors and the end of the session are noted, exit statuses are not |
| AppEffects.TextOutput | crates/tiny-ssh-cli/src/app.rs:162-174 | output without sequences moves the prompt exactly if Enter was pressed, it holds a newline and the cursor is past column zero |
| AppEffects.MarkerOutput | crates/tiny-ssh-cli/src/app.rs:135-157 | of the four markers the prompt's end stores column and row and empties the line, the command's start forgets the prompt, the others do nothing |
| AppEffects.DirectoryOutput | crates/tiny-ssh-cli/src/app.rs:156 | a readable directory becomes the working directory and changes nothing else |
| AppEffects.OtherSequenceOutput | crates/tiny-ssh-cli/src/app.rs:119-157 | a window title changes nothing |
| AppEffects.ShownIff | crates/tiny-ssh-cli/src/app.rs:213-229 | ghost text is shown exactly if there is a suggestion, a prompt, no alternate screen, and the cursor is in the prompt's row as many columns past it as the line is long |
| AppEffects.GhostAfterPrompt | crates/tiny-ssh-cli/src/app.rs:213-229 | after a prompt, with characters typed and echoed in its row, the line is what was typed and the ghost text is shown exactly if there is a suggestion |
| AppRuns.StepKeepsInvariant | crates/tiny-ssh-cli/src/app.rs:119-383 | every event keeps the cursor in the line, the suggestion recorded and the credited line recorded |
| AppRuns.RunsKeepInvariant | crates/tiny-ssh-cli/src/app.rs:119-383 | the same over every run |
| AppRuns.SuggestionIsSound | crates/tiny-ssh-cli/src/app.rs:182-207 | in every reachable state a suggestion is non-empty and completes a non-empty line to a command of this host |
| AppRuns.FreshSuggestionIsComplete | crates/tiny-ssh-cli/src/app.rs:182-207 | after a key that asks a working history, under the same condition, there is a suggestion exactly when a recorded command properly extends the line |
| AppRuns.GhostIsWhatRightSends | crates/tiny-ssh-cli/src/app.rs:213-266 | Right accepts a shown ghost exactly if the terminal cursor is where the shadow's is, sends exactly it, and completes the recorded command |
| AppRuns.RightSendsUnseenIff | crates/tiny-ssh-cli/src/app.rs:254-266 | in reachable states Right changes the line by text that is not shown exactly if there is a suggestion, the cursor is at the end and the gate is closed |
| AppRuns.UnseenSuggestionIsSent | crates/tiny-ssh-cli/src/app.rs:254-266 | a run in which it does: one key typed before any prompt is known, whatever screen is shown |
| AppRuns.CreditedRowsRepeat | crates/tiny-ssh-cli/src/app.rs:331-353 | a row credited to a suggestion repeats a command already recorded on this host |
| LockstepRuns.StepKeepsStepIff | crates/tiny-ssh-cli/src/app.rs:119-383 | every possible event but a paste or mouse report keeps shadow and editor in step exactly if it is a key on a line where it tracks, harmless output, or a printable row |
| LockstepRuns.KeyKeepsStepIff | crates/tiny-ssh-cli/src/app.rs:233-383 | a key does so exactly on the lines where it tracks, captured and accepting keys included |
| LockstepRuns.StepKeepsStep | crates/tiny-ssh-cli/src/app.rs:233-383 | events that keep step, mouse reports included, do |
| LockstepRuns.OutputKeepsStepIff | crates/tiny-ssh-cli/src/app.rs:119-147 | a session event separates the two exactly if it ends a prompt while the line is not empty |
| LockstepRuns.FirstPromptKeepsStep | crates/tiny-ssh-cli/src/app.rs:142-147 | the first prompt of a session does not |
| LockstepRuns.TypeAheadDrifts | crates/tiny-ssh-cli/src/app.rs:142-147 | a character typed before it stays on the remote line and is forgotten by the shadow |
| LockstepRuns.PasteKeepsStepIff | crates/tiny-ssh-cli/src/main.rs:332-339 | an unbracketed paste of printable text and ends of line keeps step exactly if it is empty or its last line is what the shadow shows |
| LockstepRuns.PastedLineKeepsStepIff | crates/tiny-ssh-cli/src/main.rs:332-339 | a pasted line with its end keeps step exactly if nothing was on the line |
| LockstepRuns.BracketedPasteKeepsStepIff | crates/tiny-ssh-cli/src/main.rs:327-339 | a bracketed paste without ESC keeps step exactly if it is empty |
| LockstepRuns.NewClientKeepsLockstep | crates/tiny-ssh-cli/src/app.rs:277-383 | from the start of the client, over every run of events that keep step, the editor shows the shadow line and cursor |
| LockstepRuns.RunsKeepLockstep | crates/tiny-ssh-cli/src/app.rs:277-383 | over every run of such events, with suggestions accepted and cursor modes changing, the editor shows the shadow line and cursor |
| AppRuns.ChunkingIsInvisible | crates/tiny-ssh-cli/src/app.rs:119-157 | line, cursor, suggestion, directory and scanner do not depend on how output was cut or on which stream it came |
| Transport.SshSession.NextEvent | crates/tiny-ssh-core/src/transport/ssh/session.rs:51-69 | the loop skips messages without an event and returns the first event there is |
| Transport.ToldOfConsumed | crates/tiny-ssh-core/src/transport/ssh/session.rs:51-69 | the messages used up for an event tell exactly that event, and no close is skipped |
| RemoteData.NextMessageMeans | crates/tiny-ssh-core/src/transport/ssh/session.rs:51-69 | the next message that is not ignored is forwarded with its data, skipped on Eof, and ends the loop on close or when there is none |
| RemoteData.BytesAreConserved | crates/tiny-ssh-core/src/session.rs:278-299 | over every run the bytes of Output events are a beginning of those of the Data messages before the close; likewise Stderr and extended data of type 1, and exit statuses |
| SessionSafety.SendKeepsPhase | crates/tiny-ssh-core/src/session.rs:189-243 | each event sent is the one the lifecycle allows next |
| SessionSafety.EmittedIsLegal | crates/tiny-ssh-core/src/session.rs:189-301 | every trace begins a legal lifecycle, and a finished driver has emitted a whole one |
| SessionSafety.ClosedIsLast | crates/tiny-ssh-core/src/session.rs:78-79 | Closed ends a trace and occurs nowhere else |
| SessionSafety.WritesAreTyped | crates/tiny-ssh-core/src/session.rs:254-263 | successful writes are a beginning of the byte inputs before the first disconnect; whenever the driver is back in its loop they are all the byte inputs it has taken |
| SessionSafety.NothingAfterDisconnect | crates/tiny-ssh-core/src/session.rs:272-275 | nothing is written once a disconnect has been taken |
| RemoteCalls.CallsAreAskedFor | crates/tiny-ssh-core/src/session.rs:189-276 | over every run the calls of the SSH library are to connect, to open the shell, what the inputs taken ask for in order, with their data and sizes, and to disconnect |
| SessionSafety.InputsStayInOrder | crates/tiny-ssh-core/src/session.rs:114-135 | over every run, what the driver took and what still waits is what was handed over, in order, none lost or repeated |
| SessionSafety.ErrorIsFatalIff | crates/tiny-ssh-core/src/session.rs:254-270 | after an error the driver never returns to its loop, on any run, exactly if the error does not report a failed resize |
| SessionSafety.ResizeErrorIsNotFatal | crates/tiny-ssh-core/src/session.rs:264-270 | after the report of a failed resize the driver is back in its loop with nothing lost |
| SessionSafety.WriteErrorIsLast | crates/tiny-ssh-core/src/session.rs:254-263 | after a failed write nothing is taken, written or received, and its error is the last I/O event |
| SessionSafety.OutputIsConserved | crates/tiny-ssh-core/src/session.rs:278-299 | output events are a beginning of what the channel told before its close, and none is missing while somebody listens |
| SessionSafety.CompleteEndsClosedOrFailed | crates/tiny-ssh-core/src/session.rs:202-242 | a whole lifecycle leaves the state Closed or Failed |
| SessionProgress.StuckIffDeadlocked | crates/tiny-ssh-core/src/session.rs:170-171 | the only unfinished states without a next step have both tasks blocked on full queues |
| SessionProgress.EmptyQueueEndsLoopIff | crates/tiny-ssh-core/src/session.rs:253-256 | on an empty queue of inputs the loop ends exactly if the interface is gone, and waits otherwise |
| SessionProgress.AbandonedDriverGoesOn | crates/tiny-ssh-core/src/session.rs:189-302 | once the interface is gone the driver always has a next step that needs neither the remote nor an abort |
| SessionProgress.DeadlockIsReachable | crates/tiny-ssh-cli/src/main.rs:231-247 | 254 output messages and 65 key presses can reach such a state |
| SessionProgress.DeadlockTakes | crates/tiny-ssh-core/src/session.rs:170-171 | no run with fewer than 65 requests or fewer than 256 events reaches it |
| SessionProgress.StepDecreasesWork | crates/tiny-ssh-core/src/session.rs:189-301 | every step not caused by the user uses up work |
| SessionProgress.EveryScheduleReceivesClosed | crates/tiny-ssh-cli/src/main.rs:206-267 | from any state with the interface in its select!, without further user action every schedule is bounded and ends with Closed received |
| DriverTask.Shared.HandleInput | crates/tiny-ssh-core/src/session.rs:253-276 | the handling of an input takes only steps of the system; a write continues the loop exactly if it succeeded, a resize always does, a disconnect never |
| DriverTask.Shared.HandleRemote | crates/tiny-ssh-core/src/session.rs:278-299 | the handling of a remote event takes only such steps and continues the loop exactly on Eof and on output that somebody listened to |
| DriverTask.Shared.IoLoop | crates/tiny-ssh-core/src/session.rs:246-302 | the loop takes only such steps, whatever the user interface does meanwhile, and reports a user's disconnect exactly if one was taken; it stops short only parked at an await |
| DriverTask.Shared.Run | crates/tiny-ssh-core/src/session.rs:189-243 | the driver task emits a legal lifecycle, writes only what was typed and forwards only what was told |
| Client.Client.HandleKey | crates/tiny-ssh-cli/src/main.rs:281-298 | what a key makes the application send is submitted in order, a missing driver is reported, and the client leaves exactly on Ctrl-Q |
| Client.Client.HandleTerminalEvent | crates/tiny-ssh-cli/src/main.rs:270-348 | each terminal event is handled as one listed response, such as the forwarded paste or mouse report, and keeps the books of application and session together |
| Client.MouseBytesIff | crates/tiny-ssh-cli/src/main.rs:300-323 | a mouse event is sent exactly if it has a report and is not the wheel outside the alternate screen |
| Client.Client.HandleSessionEvent | crates/tiny-ssh-cli/src/main.rs:248-260 | the oldest event is delivered and reaches the application, and Closed ends the loop |
| Client.Client.Drive | crates/tiny-ssh-cli/src/main.rs:193-268 | the whole loop keeps those books and the application's invariant, and a closed application shows Closed or Failed |
| Client.Client.ClosedMeansEnded | crates/tiny-ssh-cli/src/app.rs:119-133 | an application that knows its driver has exited has state Closed or Failed |
| Client.Client.RemoteAgrees | crates/tiny-ssh-cli/src/app.rs:277-280 | in every state the loop can reach by events that keep step, the remote was sent what the first events up to some point submitted and shows the line as the shadow had it then, and as it has it now once everything has been taken |
| EndToEnd.RemoteShowsShadow | crates/tiny-ssh-core/src/session.rs:246-301 | the same for every interleaving of the two tasks and any failing write |
| EndToEnd.SubmittedAre | crates/tiny-ssh-cli/src/main.rs:281-345 | every event of the terminal hands over exactly what its action, bytes or size ask for |
| EndToEnd.VtDimsFit | crates/tiny-ssh-cli/src/main.rs:82-84 | the emulator gets the window less one row, and never less than one of either |

## Left out

- The terminal emulator: cursor, cursor-key mode and alternate screen enter as values that any output or resize may change; the mouse and paste modes as values that may differ at every event.
- The position that the prompt heuristic finds: it depends on chunk boundaries and on the emulator's grid, so only its effect on the state is stated.
- SQLite, its files and its clock: whether an insertion fails or a query may fail is decided for each event; text containing U+0000, at which SQLite's LIKE would stop reading, is treated like any other.
- A remote that stays silent for ever: a session's messages are given from the start and end with the channel, so a driver in its select! can always receive one; when it does is left open.
- Connecting, authenticating, host key checks and the channel protocol: library calls that return success or failure.
- Other programs recording into the same history: possible between any two events, one row at a time.
- `recent` and the text form of the history sources: listings that no other component uses.
- Clipboard copies, the mouse capture toggle, rendering and the status line: only the action a key returns is modelled.
- The pause and the last redraw after Closed.
- Pastes within runs: lockstep over runs is claimed without them; pastes with other control characters, or with ESC in brackets, have no condition.
- What completion, history, yanking and the other commands named above make of the remote line: keys for them never count as in step.
- Combining marks: the editor moves over them one by one, readline together with their base character.
- DriverTask.Shared.IoLoop: follows the loop for any number of rounds given in advance and may stop at any await, since a task that waits for ever has no result.
- Client.Client.Drive: follows its loop in the same way.
- Wrap-around of sizes and counters other than mouse coordinates and ports: they are unbounded here.
