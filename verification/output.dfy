/**
 * The tail of `main`: the JSON entries, the choice of one output sink for
 * the payload, and the effect of that choice on the files it may touch.
 */
module Output {
  import opened Wrappers
  import opened Text
  import TextLemmas
  import opened Fetch
  import opened Formatter

  /** The command-line flags after parsing. */
  datatype Flags = Flags(
    inline: bool,            // -i / --inline-comments
    json: bool,              // -j / --json
    append: bool,            // -a / --append
    output: Option<string>,  // -o / --output FILE
    force: bool)             // -f / --force

  /** `args.output` is truthy: given and not the empty string. */
  predicate OutputGiven(flags: Flags) {
    flags.output.Some? && flags.output.value != []
  }

  /** One element of the JSON array: `{"user", "keys", "error"}`. */
  datatype JsonEntry = JsonEntry(user: string, keys: seq<string>, error: Option<string>)

  /** `r.keys.splitlines() if r.keys else []`, with user and error unchanged. */
  function ToJson(r: FetchResult): JsonEntry {
    JsonEntry(r.user, if HasKeys(r) then SplitLines(r.keys.value) else [], r.error)
  }

  /** The JSON array: one entry per result, erroring users included, in order. */
  function JsonEntries(rs: seq<FetchResult>): (es: seq<JsonEntry>)
    ensures |es| == |rs|
    ensures forall i :: 0 <= i < |rs| ==> es[i].user == rs[i].user && es[i].error == rs[i].error
    ensures forall i :: 0 <= i < |rs| ==> (es[i].keys == [] <==> !HasKeys(rs[i]))
    ensures forall i :: 0 <= i < |rs| && HasKeys(rs[i]) ==> es[i].keys == SplitLines(rs[i].keys.value)
    ensures forall i, k :: 0 <= i < |rs| && 0 <= k < |es[i].keys| ==> NoLineBreaks(es[i].keys[k])
  {
    forall i | 0 <= i < |rs| && HasKeys(rs[i]) {
      TextLemmas.SplitLinesNoBreaks(rs[i].keys.value);
    }
    seq(|rs|, i requires 0 <= i < |rs| => ToJson(rs[i]))
  }

  /** Joining an entry's key list with "\n" gives the keys back, when they
      carry no whitespace margins and use "\n" as their only line boundary. */
  lemma JsonKeysRoundTrip(r: FetchResult)
    requires r.keys.Some? && HasNoMargins(r.keys.value) && OnlyNewlineBreaks(r.keys.value)
    ensures JoinLines(ToJson(r).keys) == r.keys.value
  {
    var k := r.keys.value;
    TextLemmas.JoinSplit(k);
    if k != [] {
      LineBreakIsSpace(k[|k| - 1]);
    }
  }

  /** Where `--append` writes when no `--output` is given. */
  const DefaultAppendTarget := "~/.ssh/authorized_keys"

  /** The one thing `main` does with the results. */
  datatype Action =
    | PrintJson(entries: seq<JsonEntry>)    // print the JSON array to stdout
    | NoKeys                                 // "No keys fetched." on stderr, nothing else
    | Append(path: string, content: string)  // `safe_append`
    | Write(path: string, content: string)   // `safe_write` past `confirm_overwrite`
    | Refuse(path: string)                   // `confirm_overwrite` exits with status 1
    | PrintStdout(content: string)           // `print(combined, end="")`

  /** The text-mode branches of `main`: what happens to the payload
      `format_results` returned.  `targetExists` is whether the `--output`
      path exists; only `confirm_overwrite` consults it. */
  function Sink(flags: Flags, payload: string, targetExists: bool): (a: Action)
    ensures !a.PrintJson?
    ensures a == NoKeys <==> IsBlank(payload)
    ensures a.Append? <==> !IsBlank(payload) && flags.append
    ensures a.Refuse? <==> !IsBlank(payload) && !flags.append && OutputGiven(flags)
                           && targetExists && !flags.force
    ensures a.PrintStdout? <==> !IsBlank(payload) && !flags.append && !OutputGiven(flags)
    ensures a.Append? ==> a.path == if OutputGiven(flags) then flags.output.value else DefaultAppendTarget
    ensures a.Write? ==> OutputGiven(flags) && a.path == flags.output.value
    ensures a.Refuse? ==> a.path == flags.output.value
    ensures (a.Append? || a.Write? || a.PrintStdout?) ==> a.content == payload
  {
    if IsBlank(payload) then NoKeys
    else if flags.append then
      Append(if OutputGiven(flags) then flags.output.value else DefaultAppendTarget, payload)
    else if OutputGiven(flags) then
      if targetExists && !flags.force then Refuse(flags.output.value)
      else Write(flags.output.value, payload)
    else PrintStdout(payload)
  }

  /** The branches of `main` after the fetch: JSON short-circuits the
      formatter; otherwise the formatted payload goes to its sink. */
  function Decide(flags: Flags, results: seq<FetchResult>, targetExists: bool): (a: Action)
    ensures flags.json ==> a == PrintJson(JsonEntries(results))
    ensures !flags.json ==> a == Sink(flags, Format(results, flags.inline).payload, targetExists)
    ensures !flags.json ==>
              (a == NoKeys <==> forall i :: 0 <= i < |results| ==> !Contributes(results[i], flags.inline))
    ensures (a.Append? || a.Write? || a.PrintStdout?) ==>
              a.content == Format(results, flags.inline).payload
              && IsNormalized(a.content) && a.content != "\n"
  {
    if flags.json then PrintJson(JsonEntries(results))
    else
      var payload := Format(results, flags.inline).payload;
      NoPayloadIff(results, flags.inline);
      NormalizedBlankIff(payload);
      Sink(flags, payload, targetExists)
  }

  /** A normalised payload is blank only when it is the bare "\n". */
  lemma NormalizedBlankIff(p: string)
    requires IsNormalized(p)
    ensures IsBlank(p) <==> p == "\n"
  {
    if |p| > 1 {
      assert p[0] == p[..|p| - 1][0];
    }
  }

  /** The state `main` leaves behind: the files, the exit status and the
      notice it prints to stderr about the sink. */
  datatype Outcome = Outcome(files: map<string, string>, exitCode: int, notice: Option<string>)

  /** Carrying out an action on a file system in which paths are opaque names. */
  function Apply(files: map<string, string>, a: Action): Outcome {
    match a
    case PrintJson(_) => Outcome(files, 0, None)
    case NoKeys => Outcome(files, 0, Some("No keys fetched."))
    case Append(p, c) =>
      var before := if p in files then files[p] else "";
      Outcome(files[p := before + c], 0, Some("Appended keys to " + p))
    case Write(p, c) => Outcome(files[p := c], 0, Some("Wrote keys to " + p))
    case Refuse(p) => Outcome(files, 1, Some("File " + p + " already exists. Use --force to overwrite."))
    case PrintStdout(_) => Outcome(files, 0, None)
  }

  /** Whether the `--output` path exists matters only to a plain write:
      JSON, append, stdout and forced writes decide the same either way. */
  lemma ExistenceMattersOnlyForWrite(flags: Flags, results: seq<FetchResult>)
    requires flags.json || flags.append || !OutputGiven(flags) || flags.force
    ensures Decide(flags, results, true) == Decide(flags, results, false)
  {
    if !flags.json {
      var payload := Format(results, flags.inline).payload;
      assert Sink(flags, payload, true) == Sink(flags, payload, false);
    }
  }

  /** `--append` goes to the same place with the same content whatever
      `--force` says and whether or not the file exists. */
  lemma AppendIgnoresForceAndExistence(flags: Flags, payload: string, force: bool, e1: bool, e2: bool)
    requires flags.append
    ensures Sink(flags, payload, e1) == Sink(flags.(force := force), payload, e2)
  {
    assert OutputGiven(flags) == OutputGiven(flags.(force := force));
  }

  /** Only a refusal makes the process exit with a non-zero status, and a
      refusal changes no file. */
  lemma ExitStatus(files: map<string, string>, a: Action)
    ensures Apply(files, a).exitCode != 0 <==> a.Refuse?
    ensures a.Refuse? ==> Apply(files, a).exitCode == 1 && Apply(files, a).files == files
  {
  }

  /** Writing to an existing `--output` without `--force` leaves every file,
      that one included, as it was. */
  lemma NoClobberWithoutForce(flags: Flags, payload: string, files: map<string, string>)
    requires !flags.force && !flags.append && OutputGiven(flags) && flags.output.value in files
    ensures Apply(files, Sink(flags, payload, true)).files == files
  {
  }

  /** A write replaces the target with the payload, creating it when absent,
      and leaves every other file alone. */
  lemma WriteReplacesTarget(files: map<string, string>, a: Action)
    requires a.Write?
    ensures var o := Apply(files, a);
            && o.files.Keys == files.Keys + {a.path}
            && o.files[a.path] == a.content
            && (forall p :: p in files && p != a.path ==> o.files[p] == files[p])
            && o.exitCode == 0 && o.notice == Some("Wrote keys to " + a.path)
  {
  }

  /** Appending keeps what the target held, immediately followed by the
      payload (an absent target starts empty), and leaves every other file
      alone. */
  lemma AppendKeepsExisting(files: map<string, string>, a: Action)
    requires a.Append?
    ensures var o := Apply(files, a);
            var after := o.files;
            && after.Keys == files.Keys + {a.path}
            && (a.path in files ==> files[a.path] <= after[a.path])
            && |after[a.path]| == (if a.path in files then |files[a.path]| else 0) + |a.content|
            && after[a.path][|after[a.path]| - |a.content|..] == a.content
            && (forall p :: p in files && p != a.path ==> after[p] == files[p])
            && o.exitCode == 0 && o.notice == Some("Appended keys to " + a.path)
  {
    var before := if a.path in files then files[a.path] else "";
    var now := before + a.content;
    assert now[..|before|] == before;
    assert now[|now| - |a.content|..] == a.content;
  }

  /** The whole run after argument parsing: fetch every user, then act on
      the results.  The file system is consulted only for whether the
      `--output` path exists. */
  method Run(flags: Flags, users: seq<string>, outcomes: seq<Exchange>, completion: seq<nat>,
             files: map<string, string>)
    returns (results: seq<FetchResult>, action: Action, outcome: Outcome)
    requires |users| >= 1
    requires |outcomes| == |users|
    requires IsCompletionOrder(completion, |users|)
    ensures |results| == |users|
    ensures forall i :: 0 <= i < |users| ==> results[i] == FetchKeys(users[i], outcomes[i])
    ensures action == Decide(flags, results, OutputGiven(flags) && flags.output.value in files)
    ensures outcome == Apply(files, action)
    ensures forall i :: 0 <= i < |users| ==> results[i].user == users[i]
    ensures flags.json ==> action.PrintJson? && |action.entries| == |users|
                           && forall i :: 0 <= i < |users| ==> action.entries[i].user == users[i]
    ensures flags.json ==> outcome.files == files
    ensures outcome.exitCode != 0 <==> action.Refuse?
    ensures !flags.force && !flags.append && OutputGiven(flags) && flags.output.value in files ==>
              outcome.files == files
              && (!flags.json && action != NoKeys ==> outcome.exitCode == 1)
  {
    results := FetchAll(users, outcomes, completion);
    var targetExists := OutputGiven(flags) && flags.output.value in files;
    action := Decide(flags, results, targetExists);
    outcome := Apply(files, action);
    if !flags.json && !flags.force && !flags.append && OutputGiven(flags) && flags.output.value in files {
      NoClobberWithoutForce(flags, Format(results, flags.inline).payload, files);
    }
  }
}
