/**
 * Worked examples: "alice" publishes one key, "ghost404" does not exist.
 */
module Scenarios {
  import opened Wrappers
  import opened Text
  import TextLemmas
  import opened Fetch
  import opened Formatter
  import opened Output

  /** What the fetcher makes of the two exchanges. */
  function AliceAndGhost(): seq<FetchResult> {
    [FetchKeys("alice", Responded(200, "ssh-rsa AAA... \n")), FetchKeys("ghost404", Responded(404, ""))]
  }

  /** The fetched results: alice's key with its margins stripped, and the
      not-found error for ghost404. */
  lemma AliceAndGhostFetched()
    ensures AliceAndGhost() == Fetched()
  {
    var b := "ssh-rsa AAA... \n";
    assert !IsSpace(b[0]);
    assert LStrip(b) == b;
    assert IsSpace(b[15]) && b[..15] == "ssh-rsa AAA... ";
    assert RStrip(b) == RStrip(b[..15]);
    var b1 := b[..15];
    assert IsSpace(b1[14]) && b1[..14] == "ssh-rsa AAA...";
    assert RStrip(b1) == RStrip(b1[..14]);
    var b2 := b1[..14];
    assert !IsSpace(b2[13]);
    assert RStrip(b2) == b2;
    assert Strip(b) == "ssh-rsa AAA...";
  }

  /** A user whose keys are one line contributes that line, annotated. */
  lemma SingleLineContribution(r: FetchResult)
    requires r.keys.Some? && r.keys.value != [] && r.error.None?
    requires NoLineBreaks(r.keys.value) && !IsSpace(r.keys.value[0])
    ensures Contribution(r, true) == [r.keys.value + " " + r.user]
    ensures ToJson(r).keys == [r.keys.value]
  {
    var k := r.keys.value;
    TextLemmas.SplitLinesPlain(k);
    assert !IsBlank(k);
    assert [k][1..] == [];
    assert AnnotateLines([k], r.user) == [k + " " + r.user];
  }

  lemma OfTwo(r0: FetchResult, r1: FetchResult, inline: bool)
    ensures Combined([r0, r1], inline) == Contribution(r0, inline) + Contribution(r1, inline)
    ensures Diagnostics([r0, r1]) == Diagnostics([r0]) + Diagnostics([r1])
  {
    assert [r0, r1] == [r0] + [r1] && [r0] == [] + [r0];
    CombinedSnoc([r0], r1, inline);
    CombinedSnoc([], r0, inline);
    DiagnosticsSnoc([r0], r1);
  }

  /** The results as fetched. */
  function Fetched(): seq<FetchResult> {
    [FetchResult("alice", Some("ssh-rsa AAA..."), None),
     FetchResult("ghost404", None, Some("User not found"))]
  }

  lemma TextPieces()
    ensures Combined(Fetched(), false) == ["# alice\nssh-rsa AAA...\n"]
  {
    var alice := FetchResult("alice", Some("ssh-rsa AAA..."), None);
    var missing := FetchResult("ghost404", None, Some("User not found"));
    assert Fetched() == [alice, missing];
    HeaderPieces(alice, missing);
  }

  lemma HeaderPieces(alice: FetchResult, missing: FetchResult)
    requires alice == FetchResult("alice", Some("ssh-rsa AAA..."), None)
    requires missing == FetchResult("ghost404", None, Some("User not found"))
    ensures Combined([alice, missing], false) == ["# alice\nssh-rsa AAA...\n"]
  {
    AliceHeader(alice);
    OfTwo(alice, missing, false);
    assert HasError(missing);
  }

  lemma AliceHeader(alice: FetchResult)
    requires alice == FetchResult("alice", Some("ssh-rsa AAA..."), None)
    ensures Contribution(alice, false) == ["# alice\nssh-rsa AAA...\n"]
  {
    assert !HasError(alice) && HasKeys(alice);
    assert HeaderBlock(alice.user, alice.keys.value) == "# alice\nssh-rsa AAA...\n";
  }

  lemma AliceLine(alice: FetchResult)
    requires alice == FetchResult("alice", Some("ssh-rsa AAA..."), None)
    ensures Contribution(alice, true) == ["ssh-rsa AAA... alice"]
    ensures ToJson(alice) == JsonEntry("alice", ["ssh-rsa AAA..."], None)
  {
    assert alice.keys.value + " " + alice.user == "ssh-rsa AAA... alice";
    assert NoLineBreaks(alice.keys.value) && !IsSpace(alice.keys.value[0]);
    SingleLineContribution(alice);
  }

  lemma InlinePieces(alice: FetchResult, missing: FetchResult)
    requires alice == FetchResult("alice", Some("ssh-rsa AAA..."), None)
    requires missing == FetchResult("ghost404", None, Some("User not found"))
    ensures Combined([alice, missing], true) == ["ssh-rsa AAA... alice"]
  {
    AliceLine(alice);
    OfTwo(alice, missing, true);
    assert HasError(missing);
  }

  lemma DiagnosticPieces()
    ensures Diagnostics(Fetched()) == ["ghost404: User not found"]
    ensures AnyError(Fetched())
  {
    var alice := FetchResult("alice", Some("ssh-rsa AAA..."), None);
    var missing := FetchResult("ghost404", None, Some("User not found"));
    assert Fetched() == [alice, missing];
    OfTwo(alice, missing, false);
    assert Diagnostics([alice]) == [] by { assert [alice][..0] == []; }
    assert Diagnostics([missing]) == ["ghost404: User not found"] by {
      assert [missing][..0] == [];
      assert HasError(missing);
      assert DiagnosticLine(missing) == "ghost404: User not found";
    }
    assert HasError(Fetched()[1]);
  }

  /** Text mode: one header block for alice, a diagnostic for ghost404. */
  lemma TextScenario()
    ensures Format(Fetched(), false)
         == Formatted("# alice\nssh-rsa AAA...\n", true, ["ghost404: User not found"])
  {
    TextPieces();
    DiagnosticPieces();
    var x := "# alice\nssh-rsa AAA...\n";
    HeaderPayload(x);
    assert Format(Fetched(), false).payload == Normalize(JoinLines([x]));
  }

  lemma HeaderPayload(x: string)
    requires x == "# alice\nssh-rsa AAA...\n"
    ensures JoinLines([x]) == x && Normalize(x) == x
  {
    var q := x[..|x| - 1];
    assert x == q + "\n";
    assert !IsSpace(q[0]) && !IsSpace(q[|q| - 1]);
    NormalizeTrimmed(q);
  }

  /** Inline mode: alice's key line annotated with the user name, no header. */
  lemma InlineScenario()
    ensures Format(Fetched(), true).payload == "ssh-rsa AAA... alice\n"
  {
    InlinePieces(FetchResult("alice", Some("ssh-rsa AAA..."), None),
                 FetchResult("ghost404", None, Some("User not found")));
    InlinePayload("ssh-rsa AAA... alice");
  }

  lemma InlinePayload(q: string)
    requires q == "ssh-rsa AAA... alice"
    ensures JoinLines([q]) == q && Normalize(q) == q + "\n"
  {
    assert !IsSpace(q[0]) && !IsSpace(q[|q| - 1]);
    NormalizeTrimmed(q);
  }

  /** JSON mode: both users, alice with the key list, ghost404 with the error. */
  lemma JsonScenario(flags: Flags, targetExists: bool)
    requires flags.json
    ensures Decide(flags, Fetched(), targetExists)
         == PrintJson([JsonEntry("alice", ["ssh-rsa AAA..."], None),
                       JsonEntry("ghost404", [], Some("User not found"))])
  {
    JsonPieces(FetchResult("alice", Some("ssh-rsa AAA..."), None),
               FetchResult("ghost404", None, Some("User not found")));
  }

  lemma JsonOfTwo(r0: FetchResult, r1: FetchResult)
    ensures JsonEntries([r0, r1]) == [ToJson(r0), ToJson(r1)]
  {
  }

  lemma JsonPieces(alice: FetchResult, missing: FetchResult)
    requires alice == FetchResult("alice", Some("ssh-rsa AAA..."), None)
    requires missing == FetchResult("ghost404", None, Some("User not found"))
    ensures JsonEntries([alice, missing]) == [JsonEntry("alice", ["ssh-rsa AAA..."], None),
                                              JsonEntry("ghost404", [], Some("User not found"))]
  {
    AliceLine(alice);
    JsonOfTwo(alice, missing);
    assert !HasKeys(missing);
  }
}
