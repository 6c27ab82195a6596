# ghkeys, modelled in Dafny

`ghkeys` fetches the public SSH keys GitHub publishes for a list of users
(`https://github.com/{user}.keys`), classifies each user's HTTP exchange into a
`FetchResult(user, keys, error)`, and then either prints a JSON array of all
users, or formats the keys of the successful users as text (a `# user` header
block per user, or each key line annotated with the user name) and sends that
text to exactly one sink: stdout, a new file, or an appended file (by default
`~/.ssh/authorized_keys`). Failed users are reported on stderr.

This project models the pure logic of `ghkeys.py`:

- `Text` (text.dfy): the Python string behaviour the tool leans on —
  `str.isspace` (the exact Python whitespace set), `str.strip()`,
  `str.splitlines()` (the exact Python line-boundary set, `"\r\n"` counted as
  one boundary), `"\n".join`, and `str(n)` for a status code. `TextLemmas`
  proves the round trips between `splitlines` and `"\n".join`.
- `Fetch` (fetch.dfy): the `FetchResult` record, the HTTP exchange as an
  abstract input (`TimedOut`, `Raised(str(e))`, `Responded(status, body)`),
  `fetch_keys` as the total function `FetchKeys`, and `fetch_all` as
  `FetchAll`, which stores each result in its request's slot in an arbitrary
  completion order, the way `asyncio.gather` does.
- `Formatter` (format.dfy): `format_results` — a reference definition per user
  (`Contribution`, `Combined`, `Diagnostics`, `Format`) and the loop
  `FormatResults` proved equal to it, plus the layout, error and
  normalisation properties.
- `Output` (output.dfy): the JSON entries, the sink decision of `main`
  (`Sink` for a given payload, and `Decide`, which short-circuits JSON mode
  and otherwise hands the formatted payload to `Sink`; both return one
  `Action`), the effect of the action on a file system
  of opaque paths (`Apply`, covering `confirm_overwrite`, `safe_write`,
  `safe_append`), and `Run`, which composes fetch, decision and effect.
- `Scenarios` (scenarios.dfy): the "alice" / "ghost404" example in text,
  inline and JSON mode.

The result keeps two optional fields rather than a tagged union, because
`format_results` treats an empty error string as no error (ghkeys.py:91, 95):
a user whose exception printed as "" is dropped without a diagnostic.
`format_results` is modelled as returning the pair it returns, although it is
annotated `-> str` (ghkeys.py:86, 102).

## Model

| member | source | states |
|---|---|---|
| Text.LStrip | ghkeys.py:48 | the result is the suffix of the input left after removing leading whitespace, all removed characters are whitespace, and the result does not start with whitespace |
| Text.RStrip | ghkeys.py:48 | the result is the prefix left after removing trailing whitespace, all removed characters are whitespace, and the result does not end with whitespace |
| Text.Strip | ghkeys.py:102 | `str.strip()`: the result is empty exactly when the input is blank, has no whitespace margins, and sits inside the input with only whitespace around it |
| Text.StripIdempotent | ghkeys.py:102 | stripping twice is stripping once |
| Text.LineEndSpec | ghkeys.py:98 | the first line boundary is found: nothing before it is a boundary, and the character at it is one |
| Text.SplitLines | ghkeys.py:98 | `str.splitlines()` returns no lines exactly for the empty string |
| TextLemmas.SplitLinesPlain | ghkeys.py:98 | non-empty text without a line boundary is a single line |
| TextLemmas.SplitLinesBoundary | ghkeys.py:98 | for any text, the first line is what precedes the first boundary, and the remaining lines are those of what follows it; "\r\n" is one boundary, and a lone "\r" is one only when no "\n" follows |
| TextLemmas.SplitLinesNoBreaks | ghkeys.py:98 | no line `str.splitlines()` returns contains a line boundary |
| Text.NatToString | ghkeys.py:47 | `str(status)` is a non-empty numeral of decimal digits without a leading zero |
| TextLemmas.SplitJoin | ghkeys.py:120 | splitting the "\n"-join of boundary-free lines whose last line is not empty gives the lines back |
| TextLemmas.JoinSplit | ghkeys.py:120 | for text whose only boundary is "\n", joining its split lines with "\n" gives the text back, less one final "\n" |
| TextLemmas.NonBlankHasNonBlankLine | ghkeys.py:98 | text with a non-whitespace character has a non-blank line |
| TextLemmas.BlankLines | ghkeys.py:98 | every line of blank text is blank |
| TextLemmas.DecimalRoundTrip | ghkeys.py:47 | reading back the printed status numeral gives the status |
| TextLemmas.NatToStringInjective | ghkeys.py:47 | different statuses give different "HTTP {status}" texts |
| Fetch.HttpError | ghkeys.py:46-47 | the error for an unexpected status is "HTTP " followed by a numeral without a leading zero whose value is the status |
| Fetch.FetchKeys | ghkeys.py:39-55 | the user is kept; exactly one of keys and error is present; 404 gives "User not found", other non-200 statuses "HTTP {status}", a timeout "Request timed out", any other exception its message, a blank 200 body "No keys found"; keys are present exactly for a 200 with a non-blank body, and are then the stripped body: non-empty, no whitespace margins |
| Fetch.FetchAll | ghkeys.py:58-63 | whatever order the requests complete in, there is one result per requested user and the i-th result is the classification of the i-th user's exchange, duplicates included |
| Formatter.AnnotateLinesNonBlank | ghkeys.py:98 | every annotated key line has a non-whitespace character |
| Formatter.AnnotateLinesEmptyIff | ghkeys.py:98 | no annotated line is produced exactly when every key line is blank |
| Formatter.AnnotateLinesSingle | ghkeys.py:98 | one key line is annotated as "{line} {user}" when it is not blank and dropped when it is |
| Formatter.AnnotateLinesAppend | ghkeys.py:98 | annotating consecutive runs of key lines gives each run's annotations in order, so the key lines' order and repeats are kept |
| Formatter.InlineLinesInOrder | ghkeys.py:97-98 | in inline mode the key line before the first boundary is annotated first (unless blank), followed by the annotated lines of the rest of the keys |
| Formatter.AnnotateLinesMembership | ghkeys.py:98 | the annotated lines are exactly the non-blank key lines, each followed by a space and the user name |
| Formatter.Normalize | ghkeys.py:102 | the payload is the joined text with whitespace cut from its ends only, and with no margins left, followed by a single "\n"; it is the bare "\n" exactly when the joined text is blank |
| Formatter.FormatResults | ghkeys.py:86-102 | the loop computes the per-user reference result; `had_errors` is true exactly when some result has a non-empty error; the payload is normalised, and is the bare "\n" exactly when no result contributes |
| Formatter.CombinedNonBlank | ghkeys.py:97-101 | every piece of the payload (header block or annotated line) has a non-whitespace character |
| Formatter.ContributionEmptyIff | ghkeys.py:91-101 | a result adds nothing to the payload exactly when it has an error, has no keys, or (inline) has only blank key lines |
| Formatter.CombinedEmptyIff | ghkeys.py:90-101 | the list of payload pieces is empty exactly when no result contributes |
| Formatter.NoPayloadIff | ghkeys.py:102 | the payload is the bare "\n" exactly when no result contributes |
| Formatter.CombinedAppend | ghkeys.py:90-101 | the pieces of a concatenation of result lists are the pieces of each list in order, so the payload keeps input order |
| Formatter.DiagnosticsAppend | ghkeys.py:90-94 | the diagnostics of a concatenation are those of each part in order |
| Formatter.SkippedResultInvisible | ghkeys.py:95-96 | a result with neither a non-empty error nor keys leaves payload, error flag and diagnostics as if it were absent |
| Formatter.AnyErrorSkip | ghkeys.py:91-92 | a result without a non-empty error does not change `had_errors` |
| Formatter.DiagnosticsMembership | ghkeys.py:91-94 | a diagnostic line appears exactly for each result with a non-empty error, as "{user}: {error}" |
| Formatter.HeaderLayout | ghkeys.py:100-101 | without inline comments the payload pieces are exactly the blocks "# {user}\n{keys}\n" of the contributing users |
| Formatter.InlineContribution | ghkeys.py:97-99 | one result's inline pieces are its annotated non-blank key lines, and only when it contributes |
| Formatter.InlineLayout | ghkeys.py:97-99 | with inline comments the payload pieces are exactly the non-blank key lines of contributing users followed by " {user}" |
| Formatter.PayloadIsFixpoint | ghkeys.py:102 | normalising the payload again changes nothing |
| Formatter.FetchedResultShape | ghkeys.py:44-55 | a fetched result reaches the payload exactly when it has keys, and the only fetched result that is neither reported nor shown comes from an exception with an empty message |
| Output.JsonEntries | ghkeys.py:118-122 | one entry per result in order, user and error passed through, the key list empty exactly when keys are missing or empty and otherwise the `splitlines()` of the keys, and no key line holds a boundary |
| Output.JsonKeysRoundTrip | ghkeys.py:120 | joining an entry's key list with "\n" gives back keys that have no margins and only "\n" boundaries |
| Output.Decide | ghkeys.py:118-140 | JSON mode prints every entry whatever the other flags; otherwise the formatted payload goes to `Sink`, so a payload with no contributing user gives "No keys fetched." and no file action, and every delivered payload is normalised and not blank |
| Output.Sink | ghkeys.py:126-140 | for a given payload: a blank payload gives "No keys fetched." and nothing else; append targets `--output` if given, else ~/.ssh/authorized_keys, whatever `--force` says; without append, an existing `--output` is refused unless forced, and is otherwise written; with neither, the payload goes to stdout; every delivered content is the payload itself |
| Output.NormalizedBlankIff | ghkeys.py:127 | a normalised payload is blank only when it is the bare "\n" |
| Output.ExistenceMattersOnlyForWrite | ghkeys.py:66-69 | whether the target exists matters only to a plain, unforced write |
| Output.AppendIgnoresForceAndExistence | ghkeys.py:134-136 | for any payload, append goes to the same place with the same content whatever `--force` says and whether the file exists |
| Output.ExitStatus | ghkeys.py:66-69 | only a refusal exits with a non-zero status (1), and a refusal changes no file |
| Output.NoClobberWithoutForce | ghkeys.py:66-75 | for any payload, writing to an existing `--output` without `--force` leaves every file as it was |
| Output.WriteReplacesTarget | ghkeys.py:72-76 | a write leaves the target holding exactly the payload (creating it when absent), changes no other file, exits with 0 and reports "Wrote keys to {path}" |
| Output.AppendKeepsExisting | ghkeys.py:79-83 | appending leaves the target holding its old content (empty when absent) immediately followed by the payload, changes no other file, exits with 0 and reports "Appended keys to {path}" |
| Output.Run | ghkeys.py:116-140 | the i-th result is the classification of the i-th user's exchange, the action is `Decide` on those results with the target's existence read from the file system, and the outcome is that action applied; so the JSON array has one entry per requested user in order, JSON mode changes no file, the exit status is non-zero exactly on refusal, and an unforced write to an existing file exits with 1 when there are keys and changes no file |
| Scenarios.AliceAndGhostFetched | ghkeys.py:44-51 | a 200 body "ssh-rsa AAA... \n" gives keys "ssh-rsa AAA..." and a 404 gives "User not found" |
| Scenarios.TextScenario | ghkeys.py:100-102 | the text payload is "# alice\nssh-rsa AAA...\n", with the flag set and the diagnostic "ghost404: User not found" |
| Scenarios.InlineScenario | ghkeys.py:97-99 | the inline payload is "ssh-rsa AAA... alice\n" |
| Scenarios.JsonScenario | ghkeys.py:118-124 | the JSON entries are alice with ["ssh-rsa AAA..."] and no error, and ghost404 with [] and "User not found" |

## Left out

- The HTTP request itself (URL, the User-Agent header, the 20-second timeout, aiohttp sessions): each exchange is an input `Exchange`; the HTTP status is a non-negative integer, as the client library parses it.
- `asyncio.gather` concurrency: only its contract is modelled, by a completion order over request slots.
- Argument parsing: the flags are a `Flags` value; the one-or-more users rule becomes a precondition of `Run`.
- Path handling: `expanduser`, `mkdir` of parent directories and the real file system; paths are opaque names in a map, and "exists" is membership in it.
- `json.dumps` text rendering: only the list of entries is modelled.
- Printing: the payload and JSON go into the returned `Action`; per-user diagnostics are a returned list; the sink notices are `Outcome.notice`; the extra blank stderr line after errors (ghkeys.py:131-132) is not modelled.
- `KeyboardInterrupt` handling (ghkeys.py:144-147).
- File system failures: an `OSError` from `mkdir`, `write_text` or `open("a")` (ghkeys.py:74-75, 80-82) is not caught by `main` and ends the process with a traceback and status 1; the model's file system never fails, so Output.ExitStatus and Output.Run's "non-zero exactly on refusal" hold only under that assumption.
- TextLemmas.JoinSplit: stated only for text whose sole line boundary is "\n"; with other boundaries, joining with "\n" does not give the original text back.
- Output.JsonKeysRoundTrip: stated only for keys whose sole line boundary is "\n", for the same reason.
- Formatter.AnnotateLinesMembership: states which lines appear, not their order or repeats; those are stated by Formatter.AnnotateLinesAppend and Formatter.AnnotateLinesSingle.
- Formatter.InlineContribution: states which lines appear, not their order; that is stated by Formatter.InlineLinesInOrder.
- Formatter.InlineLayout: states which lines appear, not their order; the order across users is stated by Formatter.CombinedAppend, and the order within one user by Formatter.InlineLinesInOrder.
