/** The whole text transformation applied to one script: add `import os`,
    apply the substitution rules in order, insert the validation block. */
module Rewriter {
  import opened Text
  import opened Patterns
  import opened CredentialRules
  import opened ImportStep
  import opened Validation
  import opened RuleNames

  /** The new text of a script, computed in memory from what was read. */
  function Transform(s: string): string {
    InsertValidation(ApplyRules(Rules, AddImport(s)))
  }

  /** A text that already imports `os`, has no hard-coded credential any
      rule matches, and needs no validation block is left alone. */
  lemma {:induction false} TransformIdentity(s: string)
    requires Contains(s, ImportOs)
    requires forall r :: r in Rules ==> NoMatch(r, s)
    requires !Contains(s, SurveyctoPasswordLookup) || Contains(s, ValidationCode)
    ensures Transform(s) == s
  {
    AddImportUnchangedIff(s);
    ApplyRulesIdentity(Rules, s);
  }

  /** A text that lacks `import os` is changed, and so backed up and
      rewritten, also when it holds no credential at all: the only
      precondition is that no rule matches once `import os` is added. */
  lemma {:induction false} TransformChangesWithoutImport(s: string)
    requires !Contains(s, ImportOs)
    requires forall r :: r in Rules ==> NoMatch(r, AddImport(s))
    ensures Contains(Transform(s), ImportOs) && Transform(s) != s
  {
    AddImportContains(s);
    ApplyRulesIdentity(Rules, AddImport(s));
    ImportOsOneLine();
    InsertBlockKeepsOneLineText(AddImport(s), SurveyctoPasswordLookup, SharepointPasswordLookup, ValidationCode, ImportOs);
  }

  /** The validation stage run again on a transform's output changes
      nothing, so no second block is ever spliced in by that stage. */
  lemma {:induction false} ValidationStageOnce(s: string)
    ensures InsertValidation(Transform(s)) == Transform(s)
  {
    InsertValidationProperties(ApplyRules(Rules, AddImport(s)));
  }

  /** The HK password rule's replacement holds the SurveyCTO password
      lookup, so a script whose only credential was an HK password (even
      one assigned to `sharepoint_password`) gets the validation block. */
  lemma {:induction false} HkReplacementWantsBlock()
    ensures Contains(Replacement(HkPasswordRule), SurveyctoPasswordLookup)
  {
    var w := Replacement(HkPasswordRule);
    assert w[11..] == SurveyctoPasswordLookup;
    assert OccursAt(w, SurveyctoPasswordLookup, 11);
    ContainsAt(w, SurveyctoPasswordLookup, 11);
  }

  // ---------------------------------------------------------------------
  // Running the rewriter twice

  /** A script whose only `import os` is inside a password literal. */
  const ImportInLiteral := "SURVEYCTO_PASSWORD = \"import os\""

  /** Running the rewriter on its own output can change it again. On
      `ImportInLiteral` the `import os` guard is met by the literal, the
      password rule then deletes the literal, and without a newline no
      block is inserted: the output lacks `import os`, so a second run adds
      it. */
  lemma {:induction false} TransformNotIdempotent()
    ensures var once := Transform(ImportInLiteral);
      && !Contains(once, ImportOs)
      && Contains(Transform(once), ImportOs)
      && Transform(once) != once
  {
    FirstPassDropsImport();
    SecondPassAddsImport();
  }

  /** The first run leaves only the password rule's replacement text, which
      does not contain `import os`. */
  lemma {:induction false} FirstPassDropsImport()
    ensures Transform(ImportInLiteral) == Replacement(SurveyctoPassword)
    ensures !Contains(Replacement(SurveyctoPassword), ImportOs)
  {
    var w := ImportInLiteral;
    var once := Replacement(SurveyctoPassword);
    ContainsAt(w, ImportOs, 22);
    RulesOnImportInLiteral();
    PasswordReplacementChars();
    InsertionNeedsNewline(once, SurveyctoPasswordLookup, SharepointPasswordLookup, ValidationCode);
    ContainedChars(once, ImportOs, 'm');
  }

  /** The second run adds `import os` in front and changes nothing else. */
  lemma {:induction false} SecondPassAddsImport()
    ensures var once := Replacement(SurveyctoPassword);
      Transform(once) == ImportOs + "\n" + once
  {
    var once := Replacement(SurveyctoPassword);
    var a := ImportOs + "\n" + once;
    RulesOnSecondPass();
    SecondPassImport();
    SecondPassNoSplice(a);
  }

  /** On `import os`, a newline and the first output, the lookup comes
      after the only newline, so no block is spliced in. */
  lemma {:induction false} SecondPassNoSplice(a: string)
    requires a == ImportOs + "\n" + Replacement(SurveyctoPassword)
    ensures InsertValidation(a) == a
  {
    var once := Replacement(SurveyctoPassword);
    PasswordReplacementChars();
    assert a[10..] == once;
    forall k | 10 <= k < |a| ensures a[k] != '\n' {
      assert a[k] == once[k - 10];
    }
    assert once[21..] == SurveyctoPasswordLookup;
    assert a[31..] == SurveyctoPasswordLookup;
    assert OccursAt(a, SurveyctoPasswordLookup, 31);
    NoNewlineAfterLookup(a, SurveyctoPasswordLookup, SharepointPasswordLookup, ValidationCode, 10);
  }

  /** On the second run `import os` is put in front, as there is no import
      line, and then no rule matches. */
  lemma {:induction false} RulesOnSecondPass()
    ensures var once := Replacement(SurveyctoPassword);
      && |AddImport(once)| > |once|
      && ApplyRules(Rules, AddImport(once)) == AddImport(once)
  {
    var once := Replacement(SurveyctoPassword);
    SecondPassImport();
    NoRuleMatchesSecondPass(AddImport(once));
  }

  lemma {:induction false} SecondPassImport()
    ensures AddImport(Replacement(SurveyctoPassword)) == ImportOs + "\n" + Replacement(SurveyctoPassword)
  {
    var once := Replacement(SurveyctoPassword);
    PasswordReplacementChars();
    ContainedChars(once, ImportOs, 'm');
    ContainedChars(once, "import ", 'm');
    ImportLineNeedsKeyword(once);
  }

  /** Letters the added line lacks. */
  lemma {:induction false} ImportLineLetters()
    ensures var front := ImportOs + "\n";
      && 'N' !in front && 'u' !in front && 'w' !in front && 'H' !in front && 'h' !in front
      && 'S' !in front
  {
  }

  lemma {:induction false} ImportOsOneLine()
    ensures '\n' !in ImportOs
  {
  }

  lemma {:induction false} NoRuleMatchesSecondPass(a: string)
    requires a == ImportOs + "\n" + Replacement(SurveyctoPassword)
    ensures ApplyRules(Rules, a) == a
  {
    var once := Replacement(SurveyctoPassword);
    var front := ImportOs + "\n";
    PasswordReplacementChars();
    assert a == front + once;
    ImportLineLetters();
    OtherRulesNoMatch(a);
    PasswordRuleWellFormed();
    ReplacementHasNoMatch(SurveyctoPassword);
    NoMatchAfterPrefix(SurveyctoPassword, front, once);
    SubIdentity(SurveyctoUsername, a);
    SubIdentity(SurveyctoPassword, a);
    ApplyRulesAfterTwo(a);
    ApplyRulesIdentity(Rules[2..], a);
  }

  /** The password rule matches the whole script, and no other rule matches
      the script or the replacement. */
  lemma {:induction false} RulesOnImportInLiteral()
    ensures ApplyRules(Rules, ImportInLiteral) == Replacement(SurveyctoPassword)
  {
    var once := Replacement(SurveyctoPassword);
    UsernameRuleSkipsLiteral();
    PasswordRuleTakesLiteral();
    ApplyRulesAfterTwo(ImportInLiteral);
    PasswordReplacementChars();
    OtherRulesNoMatch(once);
    ApplyRulesIdentity(Rules[2..], once);
  }

  lemma {:induction false} UsernameRuleSkipsLiteral()
    ensures Sub(SurveyctoUsername, ImportInLiteral) == ImportInLiteral
  {
    MissingLetterNoMatch(SurveyctoUsername, ImportInLiteral, 14);
    SubIdentity(SurveyctoUsername, ImportInLiteral);
  }

  lemma {:induction false} PasswordRuleTakesLiteral()
    ensures Sub(SurveyctoPassword, ImportInLiteral) == Replacement(SurveyctoPassword)
  {
    var w := ImportInLiteral;
    ImportInLiteralMatched();
    SubLeftmost(SurveyctoPassword, w, 0, |w|);
    assert w[|w|..] == [];
    assert w[..0] == [];
  }

  /** The first two rules are the SurveyCTO ones. */
  lemma {:induction false} ApplyRulesAfterTwo(s: string)
    ensures ApplyRules(Rules, s) == ApplyRules(Rules[2..], Sub(SurveyctoPassword, Sub(SurveyctoUsername, s)))
  {
    assert Rules[0] == SurveyctoUsername;
    assert Rules[1..][0] == SurveyctoPassword;
    assert Rules[1..][1..] == Rules[2..];
  }

  /** The password rule matches the whole of `ImportInLiteral`. */
  lemma {:induction false} ImportInLiteralMatched()
    ensures MatchLen(SurveyctoPassword, ImportInLiteral) == Some(|ImportInLiteral|)
  {
    ImportInLiteralOpens();
    ImportInLiteralCloses();
    MatchLenOfStages(SurveyctoPassword, ImportInLiteral, 21, 31);
  }

  lemma {:induction false} ImportInLiteralOpens()
    ensures OpenQuote(SurveyctoPassword, ImportInLiteral) == Some(21)
  {
    var w := ImportInLiteral;
    assert w[..18] == SurveyctoPasswordVar;
    assert SkipWs(w, 18) == 19;
    assert SkipWs(w, 20) == 21;
    OpenQuoteAt(SurveyctoPassword, w, 19, 21);
  }

  lemma {:induction false} ImportInLiteralCloses()
    ensures BodyClose(AnyText, ImportInLiteral, 22) == Some(31)
  {
    var w := ImportInLiteral;
    assert w[22..31] == ImportOs;
    FirstQuoteAfter(w, 22, 31);
  }

  /** Letters the password rule's replacement text does not hold: one
      letter of every other rule's name, `m`, and a newline. */
  lemma {:induction false} PasswordReplacementChars()
    ensures var once := Replacement(SurveyctoPassword);
      && 'N' !in once && 'u' !in once && 'w' !in once && 'H' !in once && 'h' !in once
      && 'm' !in once && '\n' !in once
  {
    forall c | c in "NuwHhm\n" ensures c !in Replacement(SurveyctoPassword) {
      PasswordReplacementLacks(c);
    }
  }

  lemma {:induction false} PasswordReplacementLacks(c: char)
    requires c in "NuwHhm\n"
    ensures c !in Replacement(SurveyctoPassword)
  {
    PasswordVarLacks(c);
    LookupTextLacks(c);
    assert Replacement(SurveyctoPassword)
      == SurveyctoPasswordVar + " = " + ("os.environ.get(\"" + SurveyctoPasswordVar + "\")");
  }

  lemma {:induction false} PasswordVarLacks(c: char)
    requires c in "NuwHhm\n"
    ensures c !in SurveyctoPasswordVar
  {
  }

  lemma {:induction false} LookupTextLacks(c: char)
    requires c in "NuwHhm\n"
    ensures c !in "os.environ.get(\"" && c !in " = " && c !in "\")"
  {
  }

  lemma {:induction false} PasswordRuleWellFormed()
    ensures WellFormed(SurveyctoPassword)
  {
    SurveyctoVarsPlain();
    LookupPlain(SurveyctoPasswordVar, "");
  }

  /** In a text without these letters only the SurveyCTO password rule can
      match: every other rule's name holds one of them. */
  lemma {:induction false} OtherRulesNoMatch(t: string)
    requires 'N' !in t && 'u' !in t && 'w' !in t && 'H' !in t && 'h' !in t
    ensures NoMatch(SurveyctoUsername, t)
    ensures forall r :: r in Rules[2..] ==> NoMatch(r, t)
  {
    assert Rules[2..] == [EmailUsername, HkPasswordRule, SharepointUsername, SharepointPassword,
      SharepointUsernameLower, SharepointPasswordLower, SiteUrlUpper, SiteUrlLower];
    MissingLetterNoMatch(SurveyctoUsername, t, 14);
    MissingLetterNoMatch(EmailUsername, t, 0);
    MissingLetterNoMatch(HkPasswordRule, t, 4);
    MissingLetterNoMatch(SharepointUsername, t, 1);
    MissingLetterNoMatch(SharepointPassword, t, 1);
    MissingLetterNoMatch(SharepointUsernameLower, t, 1);
    MissingLetterNoMatch(SharepointPasswordLower, t, 1);
    MissingLetterNoMatch(SiteUrlUpper, t, 1);
    MissingLetterNoMatch(SiteUrlLower, t, 1);
  }
}
