/**
 * `format_results`: turns the gathered results into the text payload, the
 * "had errors" flag and the per-user diagnostic lines sent to stderr.
 *
 * The reference definitions (`Diagnostics`, `Contribution`, `Combined`,
 * `Format`) describe the result per user; `FormatResults` is the loop the
 * tool runs, proved to agree with them.
 */
module Formatter {
  import opened Wrappers
  import opened Text
  import TextLemmas
  import opened Fetch

  /** `if result.error:` — an error that is present and not empty. */
  predicate HasError(r: FetchResult) {
    r.error.Some? && r.error.value != []
  }

  /** `result.keys` is truthy: present and not empty. */
  predicate HasKeys(r: FetchResult) {
    r.keys.Some? && r.keys.value != []
  }

  /** The stderr line for a failed user: `"{user}: {error}"`. */
  function DiagnosticLine(r: FetchResult): string
    requires r.error.Some?
  {
    r.user + ": " + r.error.value
  }

  /** The block a user gets without `--inline-comments`: `"# {user}\n{keys}\n"`. */
  function HeaderBlock(user: string, keys: string): string {
    "# " + user + "\n" + keys + "\n"
  }

  /** `[f"{line} {user}" for line in lines if line.strip()]`. */
  function AnnotateLines(lines: seq<string>, user: string): seq<string> {
    if lines == [] then []
    else
      var rest := AnnotateLines(lines[1..], user);
      if IsBlank(lines[0]) then rest else [lines[0] + " " + user] + rest
  }

  /** One line is annotated when it is not blank and dropped otherwise. */
  lemma AnnotateLinesSingle(l: string, user: string)
    ensures AnnotateLines([l], user) == if IsBlank(l) then [] else [l + " " + user]
  {
    assert [l][1..] == [];
  }

  /** The annotation of consecutive runs of lines is the annotation of each
      run, in order: the comprehension keeps the key lines' order and their
      repeats.  With `AnnotateLinesSingle` this fixes `AnnotateLines`. */
  lemma {:induction false} AnnotateLinesAppend(a: seq<string>, b: seq<string>, user: string)
    ensures AnnotateLines(a + b, user) == AnnotateLines(a, user) + AnnotateLines(b, user)
    decreases |a|
  {
    if a == [] {
      assert a + b == b;
    } else {
      assert (a + b)[0] == a[0] && (a + b)[1..] == a[1..] + b;
      AnnotateLinesAppend(a[1..], b, user);
      var head := if IsBlank(a[0]) then [] else [a[0] + " " + user];
      assert AnnotateLines(a + b, user) == head + AnnotateLines(a[1..] + b, user);
      assert AnnotateLines(a, user) == head + AnnotateLines(a[1..], user);
      assert head + (AnnotateLines(a[1..], user) + AnnotateLines(b, user))
          == (head + AnnotateLines(a[1..], user)) + AnnotateLines(b, user);
    }
  }

  /** Every annotated line has a non-whitespace character. */
  lemma {:induction false} AnnotateLinesNonBlank(lines: seq<string>, user: string)
    ensures forall k :: 0 <= k < |AnnotateLines(lines, user)| ==> !IsBlank(AnnotateLines(lines, user)[k])
  {
    if lines != [] {
      var rest := AnnotateLines(lines[1..], user);
      AnnotateLinesNonBlank(lines[1..], user);
      if !IsBlank(lines[0]) {
        var l := lines[0] + " " + user;
        NonBlankExtend(lines[0], " " + user);
        assert l == lines[0] + (" " + user);
        var out := [l] + rest;
        forall k | 0 <= k < |out|
          ensures !IsBlank(out[k])
        {
          if k > 0 { assert out[k] == rest[k - 1]; }
        }
      }
    }
  }

  /** No line survives exactly when every line is blank. */
  lemma {:induction false} AnnotateLinesEmptyIff(lines: seq<string>, user: string)
    ensures AnnotateLines(lines, user) == [] <==> forall j :: 0 <= j < |lines| ==> IsBlank(lines[j])
  {
    if lines != [] {
      AnnotateLinesEmptyIff(lines[1..], user);
      assert forall j :: 1 <= j < |lines| ==> lines[j] == lines[1..][j - 1];
    }
  }

  /** The annotated lines are exactly the non-blank lines, each followed by
      " " and the user name. */
  lemma {:induction false} AnnotateLinesMembership(lines: seq<string>, user: string, l: string)
    ensures l in AnnotateLines(lines, user) <==>
            exists j :: 0 <= j < |lines| && !IsBlank(lines[j]) && l == lines[j] + " " + user
  {
    if lines != [] {
      AnnotateLinesMembership(lines[1..], user, l);
      assert forall j :: 1 <= j < |lines| ==> lines[j] == lines[1..][j - 1];
    }
  }

  lemma NonBlankExtend(a: string, b: string)
    requires !IsBlank(a)
    ensures !IsBlank(a + b)
  {
    var j :| 0 <= j < |a| && !IsSpace(a[j]);
    assert (a + b)[j] == a[j];
  }

  /** What one result adds to the payload's list of pieces.  Erroring users
      and users without keys add nothing. */
  function Contribution(r: FetchResult, inline: bool): seq<string> {
    if HasError(r) || !HasKeys(r) then []
    else if inline then AnnotateLines(SplitLines(r.keys.value), r.user)
    else [HeaderBlock(r.user, r.keys.value)]
  }

  /** The pieces of the payload, in input order (the list `combined`). */
  function Combined(rs: seq<FetchResult>, inline: bool): seq<string> {
    if rs == [] then []
    else Combined(rs[..|rs| - 1], inline) + Contribution(rs[|rs| - 1], inline)
  }

  /** The diagnostic lines, in input order. */
  function Diagnostics(rs: seq<FetchResult>): seq<string> {
    if rs == [] then []
    else
      var last := rs[|rs| - 1];
      Diagnostics(rs[..|rs| - 1]) + (if HasError(last) then [DiagnosticLine(last)] else [])
  }

  predicate AnyError(rs: seq<FetchResult>) {
    exists i :: 0 <= i < |rs| && HasError(rs[i])
  }

  /** A finished payload: a single final "\n" preceded by text without
      whitespace margins. */
  predicate IsNormalized(p: string) {
    |p| >= 1 && p[|p| - 1] == '\n' && HasNoMargins(p[..|p| - 1])
  }

  /** `joined.strip() + "\n"`. */
  function Normalize(joined: string): (p: string)
    ensures IsNormalized(p)
    ensures p == "\n" <==> IsBlank(joined)
    ensures IsTrimOf(joined, p[..|p| - 1])
  {
    var p := Strip(joined) + "\n";
    assert p[..|p| - 1] == Strip(joined);
    p
  }

  /** What `format_results` hands back, together with what it prints to stderr. */
  datatype Formatted = Formatted(payload: string, hadErrors: bool, diagnostics: seq<string>)

  /** The reference definition of `format_results`. */
  function Format(rs: seq<FetchResult>, inline: bool): Formatted {
    Formatted(Normalize(JoinLines(Combined(rs, inline))), AnyError(rs), Diagnostics(rs))
  }

  /** A result shows up in the payload: it has no error, has keys, and in
      inline mode its keys have at least one non-blank line. */
  predicate Contributes(r: FetchResult, inline: bool) {
    !HasError(r) && HasKeys(r) && (inline ==> !IsBlank(r.keys.value))
  }

  /** `format_results`, written as the loop the tool runs. */
  method FormatResults(results: seq<FetchResult>, inline: bool) returns (f: Formatted)
    ensures f == Format(results, inline)
    ensures f.hadErrors <==> exists i :: 0 <= i < |results| && HasError(results[i])
    ensures IsNormalized(f.payload)
    ensures f.payload == "\n" <==> forall i :: 0 <= i < |results| ==> !Contributes(results[i], inline)
  {
    var combined, hadErrors, diagnostics := CollectResults(results, inline);
    f := Formatted(Normalize(JoinLines(combined)), hadErrors, diagnostics);
    NoPayloadIff(results, inline);
  }

  /** The loop of `format_results`: the pieces, the error flag and the
      diagnostic lines, gathered in one pass over the results. */
  method CollectResults(results: seq<FetchResult>, inline: bool)
    returns (combined: seq<string>, hadErrors: bool, diagnostics: seq<string>)
    ensures combined == Combined(results, inline)
    ensures hadErrors <==> exists i :: 0 <= i < |results| && HasError(results[i])
    ensures diagnostics == Diagnostics(results)
  {
    combined := [];
    hadErrors := false;
    diagnostics := [];
    for k := 0 to |results|
      invariant combined == Combined(results[..k], inline)
      invariant diagnostics == Diagnostics(results[..k])
      invariant hadErrors == AnyError(results[..k])
    {
      var r := results[k];
      assert results[..k + 1] == results[..k] + [r];
      CombinedSnoc(results[..k], r, inline);
      DiagnosticsSnoc(results[..k], r);
      AnyErrorSnoc(results[..k], r);
      if HasError(r) {
        hadErrors := true;
        diagnostics := diagnostics + [DiagnosticLine(r)];
        continue;
      }
      if !HasKeys(r) {
        continue;
      }
      if inline {
        combined := combined + AnnotateLines(SplitLines(r.keys.value), r.user);
      } else {
        combined := combined + [HeaderBlock(r.user, r.keys.value)];
      }
    }
    assert results[..|results|] == results;
  }

  /** Every piece of the payload has a non-whitespace character: a header
      block starts with '#', an annotated line with a non-blank key line. */
  lemma {:induction false} CombinedNonBlank(rs: seq<FetchResult>, inline: bool)
    ensures forall k :: 0 <= k < |Combined(rs, inline)| ==> !IsBlank(Combined(rs, inline)[k])
    decreases |rs|
  {
    if rs != [] {
      var init := rs[..|rs| - 1];
      var r := rs[|rs| - 1];
      CombinedNonBlank(init, inline);
      var c := Contribution(r, inline);
      if !HasError(r) && HasKeys(r) {
        if inline {
          AnnotateLinesNonBlank(SplitLines(r.keys.value), r.user);
        } else {
          assert HeaderBlock(r.user, r.keys.value)[0] == '#';
        }
      }
      assert forall k :: 0 <= k < |c| ==> !IsBlank(c[k]);
      var all := Combined(init, inline) + c;
      assert forall k :: |Combined(init, inline)| <= k < |all| ==> all[k] == c[k - |Combined(init, inline)|];
    }
  }

  /** A result adds nothing to the payload exactly when it does not contribute. */
  lemma ContributionEmptyIff(r: FetchResult, inline: bool)
    ensures Contribution(r, inline) == [] <==> !Contributes(r, inline)
  {
    if !HasError(r) && HasKeys(r) && inline {
      var k := r.keys.value;
      AnnotateLinesEmptyIff(SplitLines(k), r.user);
      if IsBlank(k) {
        TextLemmas.BlankLines(k);
      } else {
        var j :| 0 <= j < |k| && !IsSpace(k[j]);
        TextLemmas.NonBlankHasNonBlankLine(k, j);
      }
    }
  }

  /** The list of pieces is empty exactly when no result contributes. */
  lemma {:induction false} CombinedEmptyIff(rs: seq<FetchResult>, inline: bool)
    ensures Combined(rs, inline) == [] <==> forall i :: 0 <= i < |rs| ==> !Contributes(rs[i], inline)
    decreases |rs|
  {
    if rs != [] {
      var init := rs[..|rs| - 1];
      CombinedEmptyIff(init, inline);
      ContributionEmptyIff(rs[|rs| - 1], inline);
      assert forall i :: 0 <= i < |init| ==> init[i] == rs[i];
    }
  }

  /** The payload is the bare "\n" exactly when no result contributes: then
      the tool reports "No keys fetched." and touches no file. */
  lemma NoPayloadIff(rs: seq<FetchResult>, inline: bool)
    ensures Format(rs, inline).payload == "\n" <==>
            forall i :: 0 <= i < |rs| ==> !Contributes(rs[i], inline)
  {
    var parts := Combined(rs, inline);
    CombinedNonBlank(rs, inline);
    CombinedEmptyIff(rs, inline);
    JoinedBlankIff(parts);
    var joined := JoinLines(parts);
    assert Format(rs, inline).payload == Normalize(joined);
    assert Normalize(joined) == "\n" <==> IsBlank(joined);
  }

  /** Joining pieces that each have a non-whitespace character gives blank
      text only when there are no pieces. */
  lemma JoinedBlankIff(parts: seq<string>)
    requires forall k :: 0 <= k < |parts| ==> !IsBlank(parts[k])
    ensures IsBlank(JoinLines(parts)) <==> parts == []
  {
    if parts != [] {
      TextLemmas.JoinLinesStartsWith(parts);
      var j :| 0 <= j < |parts[0]| && !IsSpace(parts[0][j]);
      assert JoinLines(parts)[j] == parts[0][j];
    }
  }

  /** The pieces for a concatenation of result lists are the pieces of each
      list, in order: the payload follows the input order. */
  lemma {:induction false} CombinedAppend(a: seq<FetchResult>, b: seq<FetchResult>, inline: bool)
    ensures Combined(a + b, inline) == Combined(a, inline) + Combined(b, inline)
    decreases |b|
  {
    if b == [] {
      assert a + b == a;
    } else {
      var b', last := b[..|b| - 1], b[|b| - 1];
      var piece := Contribution(last, inline);
      calc {
        Combined(a + b, inline);
        == { assert a + b == (a + b') + [last]; CombinedSnoc(a + b', last, inline); }
        Combined(a + b', inline) + piece;
        == { CombinedAppend(a, b', inline); }
        (Combined(a, inline) + Combined(b', inline)) + piece;
        Combined(a, inline) + (Combined(b', inline) + piece);
        == { assert b == b' + [last]; CombinedSnoc(b', last, inline); }
        Combined(a, inline) + Combined(b, inline);
      }
    }
  }

  /** Adding one result at the end adds its contribution at the end. */
  lemma CombinedSnoc(rs: seq<FetchResult>, r: FetchResult, inline: bool)
    ensures Combined(rs + [r], inline) == Combined(rs, inline) + Contribution(r, inline)
  {
    assert (rs + [r])[..|rs|] == rs;
  }

  /** The diagnostics for a concatenation are those of each part, in order. */
  lemma {:induction false} DiagnosticsAppend(a: seq<FetchResult>, b: seq<FetchResult>)
    ensures Diagnostics(a + b) == Diagnostics(a) + Diagnostics(b)
    decreases |b|
  {
    if b == [] {
      assert a + b == a;
    } else {
      var b', last := b[..|b| - 1], b[|b| - 1];
      calc {
        Diagnostics(a + b);
        == { assert a + b == (a + b') + [last]; DiagnosticsSnoc(a + b', last); }
        Diagnostics(a + b') + Diagnostics([last]);
        == { DiagnosticsAppend(a, b'); }
        (Diagnostics(a) + Diagnostics(b')) + Diagnostics([last]);
        Diagnostics(a) + (Diagnostics(b') + Diagnostics([last]));
        == { assert b == b' + [last]; DiagnosticsSnoc(b', last); }
        Diagnostics(a) + Diagnostics(b);
      }
    }
  }

  /** Adding one result at the end adds its diagnostic, if any, at the end. */
  lemma DiagnosticsSnoc(rs: seq<FetchResult>, r: FetchResult)
    ensures Diagnostics(rs + [r]) == Diagnostics(rs) + Diagnostics([r])
    ensures Diagnostics([r]) == if HasError(r) then [DiagnosticLine(r)] else []
  {
    assert (rs + [r])[..|rs|] == rs;
    assert [r][..0] == [];
  }

  /** A result with neither a (non-empty) error nor keys — for instance an
      exception whose message is empty — vanishes without trace: the
      payload, the error flag and the diagnostics are as if it were absent. */
  lemma SkippedResultInvisible(a: seq<FetchResult>, r: FetchResult, b: seq<FetchResult>, inline: bool)
    requires !HasError(r) && !HasKeys(r)
    ensures Format(a + [r] + b, inline) == Format(a + b, inline)
  {
    CombinedSkip(a, r, b, inline);
    DiagnosticsSkip(a, r, b);
    AnyErrorSkip(a, r, b);
  }

  lemma CombinedSkip(a: seq<FetchResult>, r: FetchResult, b: seq<FetchResult>, inline: bool)
    requires !HasError(r) && !HasKeys(r)
    ensures Combined(a + [r] + b, inline) == Combined(a + b, inline)
  {
    CombinedAppend(a + [r], b, inline);
    CombinedAppend(a, [r], inline);
    CombinedAppend(a, b, inline);
    assert Combined([r], inline) == [] by { assert [r][..0] == []; }
  }

  lemma DiagnosticsSkip(a: seq<FetchResult>, r: FetchResult, b: seq<FetchResult>)
    requires !HasError(r)
    ensures Diagnostics(a + [r] + b) == Diagnostics(a + b)
  {
    DiagnosticsAppend(a + [r], b);
    DiagnosticsAppend(a, [r]);
    DiagnosticsAppend(a, b);
    assert Diagnostics([r]) == [] by { assert [r][..0] == []; }
  }

  /** Adding one result sets the error flag exactly when it has an error. */
  lemma AnyErrorSnoc(rs: seq<FetchResult>, r: FetchResult)
    ensures AnyError(rs + [r]) <==> AnyError(rs) || HasError(r)
  {
    if AnyError(rs) {
      var i :| 0 <= i < |rs| && HasError(rs[i]);
      assert (rs + [r])[i] == rs[i];
    }
    assert (rs + [r])[|rs|] == r;
    if AnyError(rs + [r]) {
      var i :| 0 <= i < |rs + [r]| && HasError((rs + [r])[i]);
      if i < |rs| { assert rs[i] == (rs + [r])[i]; }
    }
  }

  lemma AnyErrorSkip(a: seq<FetchResult>, r: FetchResult, b: seq<FetchResult>)
    requires !HasError(r)
    ensures AnyError(a + [r] + b) == AnyError(a + b)
  {
    var s := a + [r] + b;
    if AnyError(s) {
      var i :| 0 <= i < |s| && HasError(s[i]);
      if i < |a| { assert (a + b)[i] == s[i]; } else { assert i > |a| && (a + b)[i - 1] == s[i]; }
    }
    if AnyError(a + b) {
      var i :| 0 <= i < |a + b| && HasError((a + b)[i]);
      if i < |a| { assert s[i] == (a + b)[i]; } else { assert s[i + 1] == (a + b)[i]; }
    }
  }

  /** Exactly the failed users get a diagnostic line, `"{user}: {error}"`. */
  lemma {:induction false} DiagnosticsMembership(rs: seq<FetchResult>, d: string)
    ensures d in Diagnostics(rs) <==>
            exists i :: 0 <= i < |rs| && HasError(rs[i]) && d == DiagnosticLine(rs[i])
    decreases |rs|
  {
    if rs != [] {
      var init := rs[..|rs| - 1];
      DiagnosticsMembership(init, d);
      assert forall i :: 0 <= i < |init| ==> init[i] == rs[i];
    }
  }

  /** Without `--inline-comments` the payload pieces are exactly the blocks
      `"# {user}\n{keys}\n"` of the contributing users. */
  lemma {:induction false} HeaderLayout(rs: seq<FetchResult>, b: string)
    ensures b in Combined(rs, false) <==>
            exists i :: 0 <= i < |rs| && Contributes(rs[i], false)
                        && b == HeaderBlock(rs[i].user, rs[i].keys.value)
    decreases |rs|
  {
    if rs != [] {
      var init := rs[..|rs| - 1];
      HeaderLayout(init, b);
      assert forall i :: 0 <= i < |init| ==> init[i] == rs[i];
    }
  }

  /** `l` is one of `r`'s non-blank key lines followed by " " and the user. */
  predicate AnnotatesKeyLineOf(l: string, r: FetchResult)
    requires r.keys.Some?
  {
    var lines := SplitLines(r.keys.value);
    exists j :: 0 <= j < |lines| && !IsBlank(lines[j]) && l == lines[j] + " " + r.user
  }

  /** One result's inline pieces are its annotated non-blank key lines. */
  lemma InlineContribution(r: FetchResult, l: string)
    ensures l in Contribution(r, true) <==> Contributes(r, true) && AnnotatesKeyLineOf(l, r)
  {
    ContributionEmptyIff(r, true);
    if !HasError(r) && HasKeys(r) {
      AnnotateLinesMembership(SplitLines(r.keys.value), r.user, l);
    }
  }

  /** Inline mode annotates a user's key lines in the order they appear: the
      line before the first boundary comes first (when it is not blank),
      followed by the annotated lines of the rest of the keys. */
  lemma InlineLinesInOrder(a: string, b: string, t: string, user: string)
    requires NoLineBreaks(a) && IsBoundary(b)
    requires b == "\r" ==> t == [] || t[0] != '\n'
    ensures AnnotateLines(SplitLines(a + b + t), user)
         == (if IsBlank(a) then [] else [a + " " + user]) + AnnotateLines(SplitLines(t), user)
  {
    TextLemmas.SplitLinesBoundary(a, b, t);
    AnnotateLinesAppend([a], SplitLines(t), user);
    AnnotateLinesSingle(a, user);
  }

  /** With `--inline-comments` the payload pieces are exactly the non-blank
      key lines of the contributing users, each followed by " " and the user
      name; no header is emitted. */
  lemma {:induction false} InlineLayout(rs: seq<FetchResult>, l: string)
    ensures l in Combined(rs, true) <==>
            exists i :: 0 <= i < |rs| && Contributes(rs[i], true) && AnnotatesKeyLineOf(l, rs[i])
    decreases |rs|
  {
    if rs != [] {
      var init := rs[..|rs| - 1];
      var r := rs[|rs| - 1];
      InlineLayout(init, l);
      InlineContribution(r, l);
      assert Combined(rs, true) == Combined(init, true) + Contribution(r, true);
      assert forall i :: 0 <= i < |init| ==> init[i] == rs[i];
    }
  }

  /** The payload is already normalised: stripping it and adding a newline
      again changes nothing. */
  lemma PayloadIsFixpoint(rs: seq<FetchResult>, inline: bool)
    ensures Normalize(Format(rs, inline).payload) == Format(rs, inline).payload
  {
    var p := Format(rs, inline).payload;
    var q := p[..|p| - 1];
    assert p == q + "\n";
    NormalizeTrimmed(q);
  }

  /** Text without whitespace margins normalises to itself plus "\n", and so
      does that text with its "\n" already added. */
  lemma NormalizeTrimmed(q: string)
    requires HasNoMargins(q)
    ensures Normalize(q) == q + "\n"
    ensures Normalize(q + "\n") == q + "\n"
  {
    StripTrimmed(q);
    StripNewlineAfter(q);
  }

  lemma StripNewlineAfter(q: string)
    requires HasNoMargins(q)
    ensures Strip(q + "\n") == q
  {
    var s := q + "\n";
    if q == [] {
      assert IsSpace(s[0]);
    } else {
      assert s[0] == q[0];
      assert LStrip(s) == s;
      assert s[..|s| - 1] == q;
      assert RStrip(s) == RStrip(q);
    }
  }

  /** How fetched results look to the formatter: a fetched result reaches the
      payload exactly when it carries keys (in either mode, since fetched keys
      are never blank), and the only fetched result that is neither an error
      nor in the payload comes from an exception whose message is empty. */
  lemma FetchedResultShape(user: string, x: Exchange, inline: bool)
    ensures Contributes(FetchKeys(user, x), inline) <==> FetchKeys(user, x).keys.Some?
    ensures !HasError(FetchKeys(user, x)) && !Contributes(FetchKeys(user, x), inline) <==> x == Raised([])
  {
    var r := FetchKeys(user, x);
    match x
    case TimedOut =>
    case Raised(_) =>
    case Responded(status, body) =>
      if r.keys.Some? {
        assert !IsSpace(r.keys.value[0]);
      } else if status != 404 && status != 200 {
        assert |HttpError(status)| > 5;
      }
  }
}
