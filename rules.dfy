/** The substitution rules of the credential rewriter, applied in order,
    and what each of them can and cannot match. */
module CredentialRules {
  import opened Text
  import opened Patterns
  import opened RuleNames

  /** `os.environ.get("v")`. */
  function Lookup(v: string): string {
    "os.environ.get(\"" + v + "\")"
  }

  /** `os.environ.get("v", "d")`. */
  function LookupOr(v: string, d: string): string {
    "os.environ.get(\"" + v + "\", \"" + d + "\")"
  }

  const SiteUrlDefault := SiteUrlHost + SiteUrlPath

  const SurveyctoUsername := Rule(SurveyctoUsernameVar, AnyText, Lookup(SurveyctoUsernameVar))
  const SurveyctoPassword := Rule(SurveyctoPasswordVar, AnyText, Lookup(SurveyctoPasswordVar))
  /** `username = "...@..."`: an e-mail shaped literal. */
  const EmailUsername := Rule(UsernameName, Email, Lookup(SurveyctoUsernameVar))
  /** `password = "HELENKELLERdddd"` with an optional `!`. */
  const HkPasswordRule := Rule(PasswordName, HkPassword, Lookup(SurveyctoPasswordVar))
  const SharepointUsername := Rule(SharepointUsernameVar, AnyText, Lookup(SharepointUsernameVar))
  const SharepointPassword := Rule(SharepointPasswordVar, AnyText, Lookup(SharepointPasswordVar))
  const SharepointUsernameLower := Rule(SharepointUsernameName, AnyText, Lookup(SharepointUsernameVar))
  const SharepointPasswordLower := Rule(SharepointPasswordName, AnyText, Lookup(SharepointPasswordVar))
  /** The site URL lookups keep a literal fallback. */
  const SiteUrlUpper := Rule(SharepointSiteUrlVar, SiteUrl, LookupOr(SharepointSiteUrlVar, SiteUrlDefault))
  const SiteUrlLower := Rule(SharepointSiteUrlName, SiteUrl, LookupOr(SharepointSiteUrlVar, SiteUrlDefault))

  /** The rules in the order the rewriter applies them. */
  const Rules: seq<Rule> := [
    SurveyctoUsername, SurveyctoPassword, EmailUsername, HkPasswordRule,
    SharepointUsername, SharepointPassword,
    SharepointUsernameLower, SharepointPasswordLower,
    SiteUrlUpper, SiteUrlLower
  ]

  lemma {:induction false} LookupPlain(v: string, d: string)
    requires Plain(v) && Plain(d)
    ensures Lookup(v)[0] == 'o' && '=' !in Lookup(v) && '"' in Lookup(v) && '\n' !in Lookup(v)
    ensures LookupOr(v, d)[0] == 'o' && '=' !in LookupOr(v, d) && '"' in LookupOr(v, d)
    ensures '\n' !in LookupOr(v, d)
  {
  }

  /** Every rule has a non-empty plain name and an `os.environ` call with a
      quote and no `=` or newline in it. */
  lemma {:induction false} RulesWellFormed()
    ensures |Rules| == 10
    ensures forall r :: r in Rules ==>
      && WellFormed(r) && |r.name| > 0 && Plain(r.name)
      && '"' in r.call && '\n' !in r.call
  {
    SurveyctoVarsPlain();
    SharepointVarsPlain();
    SiteUrlVarPlain();
    SiteUrlNamePlain();
    LowerNamesPlain();
    SiteUrlDefaultPlain();
    LookupPlain(SurveyctoUsernameVar, SiteUrlDefault);
    LookupPlain(SurveyctoPasswordVar, SiteUrlDefault);
    LookupPlain(SharepointUsernameVar, SiteUrlDefault);
    LookupPlain(SharepointPasswordVar, SiteUrlDefault);
    LookupPlain(SharepointSiteUrlVar, SiteUrlDefault);
  }

  /** Each rule rewrites the output of the rules before it. */
  function ApplyRules(rs: seq<Rule>, s: string): string
    decreases |rs|
  {
    if rs == [] then s else ApplyRules(rs[1..], Sub(rs[0], s))
  }

  /** When no rule matches, the rule sequence leaves the text alone. */
  lemma {:induction false} ApplyRulesIdentity(rs: seq<Rule>, s: string)
    requires forall r :: r in rs ==> NoMatch(r, s)
    ensures ApplyRules(rs, s) == s
    decreases |rs|
  {
    if rs != [] {
      SubIdentity(rs[0], s);
      assert forall r :: r in rs[1..] ==> r in rs;
      ApplyRulesIdentity(rs[1..], s);
    }
  }

  /** Every rule's replacement text is left alone by that rule. */
  lemma {:induction false} ReplacementsAreFixedPoints()
    ensures forall r :: r in Rules ==> NoMatch(r, Replacement(r)) && Sub(r, Replacement(r)) == Replacement(r)
  {
    RulesWellFormed();
    forall r | r in Rules
      ensures NoMatch(r, Replacement(r)) && Sub(r, Replacement(r)) == Replacement(r)
    {
      ReplacementHasNoMatch(r);
    }
  }

  /** `t[..e]` is `password`, whitespace, `=` at `a`, whitespace, a quote
      at `b`, `HELENKELLER`, four digits, an optional `!` and a closing
      quote. */
  ghost predicate HkPasswordAssignment(r: Rule, t: string, a: nat, b: nat, e: nat) {
    && e <= |t| && |r.name| <= a < b < e && t[..|r.name|] == r.name
    && AllWs(t, |r.name|, a) && t[a] == '=' && AllWs(t, a + 1, b)
    && b + 16 < |t| && IsQuote(t[b])
    && t[b + 1..b + 12] == "HELENKELLER"
    && (forall j :: b + 12 <= j < b + 16 ==> IsDigit(t[j]))
    && 0 < e && IsQuote(t[e - 1]) && (e == b + 17 || (e == b + 18 && t[b + 16] == '!'))
  }

  /** The password rule fires only on such an assignment; `a` is the index
      of its `=` and `b` that of its opening quote. */
  lemma {:induction false} HkPasswordMatchShape(r: Rule, t: string) returns (a: nat, b: nat)
    requires r.body == HkPassword && MatchLen(r, t).Some?
    ensures HkPasswordAssignment(r, t, a, b, MatchLen(r, t).value)
  {
    var e := MatchLen(r, t).value;
    MatchLenSound(r, t);
    a, b := HkPasswordLayout(r, t, e);
  }

  lemma {:induction false} HkPasswordLayout(r: Rule, t: string, e: nat) returns (a: nat, b: nat)
    requires r.body == HkPassword && e <= |t| && Matches(r, t[..e])
    ensures HkPasswordAssignment(r, t, a, b, e)
  {
    var a', b' := MatchLayout(r, t, e);
    a, b := a', b';
    var body := t[b + 1..e - 1];
    assert body[..11] == t[b + 1..b + 12];
    forall j | b + 12 <= j < b + 16 ensures IsDigit(t[j]) {
      assert t[j] == body[j - b - 1];
    }
    if e == b + 18 {
      assert t[b + 16] == body[15];
    }
  }

  /** `t[..e]` is the rule's name, whitespace, `=` at `a`, whitespace, a
      quote at `b`, then a one-line value that starts with `https://` and
      contains `sharepoint.com` after that, and a closing quote. */
  ghost predicate SiteUrlAssignment(r: Rule, t: string, a: nat, b: nat, e: nat) {
    && e <= |t| && |r.name| <= a < b < e && t[..|r.name|] == r.name
    && AllWs(t, |r.name|, a) && t[a] == '=' && AllWs(t, a + 1, b)
    && b + 9 < e && IsQuote(t[b]) && IsQuote(t[e - 1])
    && t[b + 1..b + 9] == "https://"
    && Contains(t[b + 9..e - 1], "sharepoint.com")
    && NoNewline(t[b + 1..e - 1])
  }

  /** The two site-URL rules fire only on such an assignment; `a` is the
      index of its `=` and `b` that of its opening quote. */
  lemma {:induction false} SiteUrlMatchShape(r: Rule, t: string) returns (a: nat, b: nat)
    requires r.body == SiteUrl && MatchLen(r, t).Some?
    ensures SiteUrlAssignment(r, t, a, b, MatchLen(r, t).value)
  {
    var e := MatchLen(r, t).value;
    MatchLenSound(r, t);
    a, b := SiteUrlLayout(r, t, e);
  }

  lemma {:induction false} SiteUrlLayout(r: Rule, t: string, e: nat) returns (a: nat, b: nat)
    requires r.body == SiteUrl && e <= |t| && Matches(r, t[..e])
    ensures SiteUrlAssignment(r, t, a, b, e)
  {
    var a', b' := MatchLayout(r, t, e);
    a, b := a', b';
    SiteUrlBodyOnText(t, b, e);
  }

  lemma {:induction false} SiteUrlBodyOnText(t: string, b: nat, e: nat)
    requires b + 1 <= e - 1 <= |t| && BodyOk(SiteUrl, t[b + 1..e - 1])
    ensures b + 9 < e && t[b + 1..b + 9] == "https://"
    ensures Contains(t[b + 9..e - 1], "sharepoint.com")
  {
    var body := t[b + 1..e - 1];
    assert body[..8] == t[b + 1..b + 9];
    var k :| 8 <= k && OccursAt(body, "sharepoint.com", k);
    var rest := t[b + 9..e - 1];
    assert body[8..] == rest;
    assert rest[k - 8..k - 8 + 14] == body[k..k + 14];
    ContainsAt(rest, "sharepoint.com", k - 8);
  }

  // ---------------------------------------------------------------------
  // Two consequences of the rules as written

  /** The lower-case `username` rule has no word boundary, so it also
      rewrites an e-mail valued `sharepoint_username` assignment, to the
      SurveyCTO lookup; it runs before the `sharepoint_username` rule, which
      then finds nothing of that assignment left to rewrite. */
  lemma {:induction false} EmailRuleRewritesSharepointUsername(u: string)
    requires |u| >= 8 && u[..8] == UsernameName
    requires MatchLen(EmailUsername, u) == Some(|u|)
    ensures Sub(EmailUsername, "sharepoint_" + u)
      == "sharepoint_" + Replacement(EmailUsername)
  {
    var t := "sharepoint_" + u;
    SharepointUsernameSplit();
    forall j | 0 <= j < 11 ensures MatchLen(EmailUsername, t[j..]).None? {
      assert t[j..][0] == "sharepoint_"[j];
    }
    assert t[11..] == u;
    SubLeftmost(EmailUsername, t, 11, |u|);
    assert t[11 + |u|..] == [];
    assert t[..11] == "sharepoint_";
  }

  /** An e-mail valued `username` assignment is matched in whole. */
  lemma {:induction false} EmailUsernameExample()
    ensures MatchLen(EmailUsername, "username = \"a@b.org\"") == Some(20)
  {
    var u := "username = \"a@b.org\"";
    assert u[..8] == UsernameName;
    assert SkipWs(u, 8) == 9;
    assert SkipWs(u, 10) == 11;
    OpenQuoteAt(EmailUsername, u, 9, 11);
    assert OccursAt(u, "@", 13);
    assert FindOnLine(u, "@", 12) == Some(13);
    assert FirstQuote(u, 14) == Some(19);
    MatchLenOfStages(EmailUsername, u, 11, 19);
  }

  /** So `sharepoint_username = "a@b.org"` is rewritten by the `username`
      rule into `sharepoint_` followed by that rule's replacement,
      `username = os.environ.get("SURVEYCTO_USERNAME")`. */
  lemma {:induction false} SharepointUsernameExample()
    ensures Sub(EmailUsername, "sharepoint_" + "username = \"a@b.org\"")
      == "sharepoint_" + Replacement(EmailUsername)
  {
    var u := "username = \"a@b.org\"";
    EmailUsernameExample();
    assert u[..8] == UsernameName;
    EmailRuleRewritesSharepointUsername(u);
  }

  /** The HK password rule has no word boundary either: it rewrites a
      `sharepoint_password` assignment of an HK password to the SurveyCTO
      password lookup, before the `sharepoint_password` rule runs. */
  lemma {:induction false} HkRuleRewritesSharepointPassword(u: string)
    requires |u| >= 8 && u[..8] == PasswordName
    requires MatchLen(HkPasswordRule, u) == Some(|u|)
    ensures Sub(HkPasswordRule, "sharepoint_" + u)
      == "sharepoint_" + Replacement(HkPasswordRule)
  {
    var t := "sharepoint_" + u;
    assert t[..11] == "sharepoint_";
    forall j | 0 <= j < 11 ensures MatchLen(HkPasswordRule, t[j..]).None? {
      NoHkMatchInPrefix(t, j);
    }
    assert t[11..] == u;
    SubLeftmost(HkPasswordRule, t, 11, |u|);
    assert t[11 + |u|..] == [];
    assert t[..11] == "sharepoint_";
  }

  /** No match of the HK password rule starts inside `sharepoint_`. */
  lemma {:induction false} NoHkMatchInPrefix(t: string, j: nat)
    requires |t| >= 11 && t[..11] == "sharepoint_" && j < 11
    ensures MatchLen(HkPasswordRule, t[j..]).None?
  {
    MatchStartsWithName(HkPasswordRule, t[j..]);
    SharepointPrefixLetters(j);
    if j == 5 {
      assert t[j..][1] == t[6];
    } else {
      assert t[j..][0] == t[j];
    }
  }

  /** The only `p` of `sharepoint_` is followed by an `o`, not an `a`. */
  lemma {:induction false} SharepointPrefixLetters(j: nat)
    requires j < 11
    ensures j != 5 ==> "sharepoint_"[j] != PasswordName[0]
    ensures "sharepoint_"[6] != PasswordName[1]
  {
  }

  /** An HK password assignment is matched in whole. */
  lemma {:induction false} HkPasswordExample()
    ensures MatchLen(HkPasswordRule, "password = \"HELENKELLER1234\"") == Some(28)
  {
    var u := "password = \"HELENKELLER1234\"";
    assert u[..8] == PasswordName;
    assert u[8] == ' ' && u[9] == '=' && u[10] == ' ' && u[11] == '"';
    assert SkipWs(u, 9) == 9 && SkipWs(u, 11) == 11;
    OpenQuoteAt(HkPasswordRule, u, 9, 11);
    assert u[12..23] == "HELENKELLER";
    assert BodyClose(HkPassword, u, 12) == Some(27);
    MatchLenOfStages(HkPasswordRule, u, 11, 27);
  }

  /** So `sharepoint_password = "HELENKELLER1234"` becomes `sharepoint_`
      followed by `password = os.environ.get("SURVEYCTO_PASSWORD")`. */
  lemma {:induction false} SharepointPasswordExample()
    ensures Sub(HkPasswordRule, "sharepoint_" + "password = \"HELENKELLER1234\"")
      == "sharepoint_" + Replacement(HkPasswordRule)
  {
    var u := "password = \"HELENKELLER1234\"";
    HkPasswordExample();
    assert u[..8] == PasswordName;
    HkRuleRewritesSharepointPassword(u);
  }

  /** `re.sub` with one of the plain-literal rules is not idempotent: a
      candidate match that broke at a newline may complete across the
      quote inside an inserted replacement. This is the input that shows
      it. */
  function TwicePassWitness(r: Rule): string {
    r.name + "=\"" + r.name + "=\n\"\""
  }

  /** The witness is the first, broken assignment followed by the second. */
  lemma {:induction false} WitnessSplit(r: Rule)
    ensures |TwicePassWitness(r)| == 2 * |r.name| + 6
    ensures TwicePassWitness(r)[..|r.name| + 2] == r.name + "=\""
    ensures TwicePassWitness(r)[|r.name| + 2..] == r.name + "=\n\"\""
  {
    var p := r.name + "=\"";
    var q := r.name + "=\n\"\"";
    assert TwicePassWitness(r) == p + q;
  }

  lemma {:induction false} SubNotIdempotent(r: Rule)
    requires WellFormed(r) && r.body == AnyText && |r.name| > 0 && Plain(r.name)
    requires '"' in r.call && '\n' !in r.call
    ensures Sub(r, TwicePassWitness(r)) == r.name + "=\"" + Replacement(r)
    ensures Sub(r, Sub(r, TwicePassWitness(r))) != Sub(r, TwicePassWitness(r))
  {
    var n := |r.name|;
    var s := TwicePassWitness(r);
    forall j | 0 <= j < n + 2 ensures MatchLen(r, s[j..]).None? {
      if j == 0 {
        WitnessNoMatchAtStart(r);
      } else {
        WitnessNoMatchInside(r, j);
      }
    }
    WitnessSplit(r);
    WitnessTailMatch(r);
    SubLeftmost(r, s, n + 2, n + 4);
    assert s[2 * n + 6..] == [];
    var u := r.name + "=\"" + Replacement(r);
    WitnessOutputMatches(r);
    SubChangesAtStart(r, u);
  }

  /** At the start of the witness the lazy body reaches the newline before
      any closing quote. */
  lemma {:induction false} WitnessNoMatchAtStart(r: Rule)
    requires r.body == AnyText && Plain(r.name)
    ensures MatchLen(r, TwicePassWitness(r)).None?
  {
    var n := |r.name|;
    var s := TwicePassWitness(r);
    assert s[..n] == r.name;
    assert SkipWs(s, n) == n;
    assert SkipWs(s, n + 1) == n + 1;
    OpenQuoteAt(r, s, n, n + 1);
    assert s[2 * n + 3] == '\n';
    forall k | n + 2 <= k < 2 * n + 3 ensures s[k] != '\n' && !IsQuote(s[k]) {
      if k < 2 * n + 2 {
        assert s[k] == r.name[k - n - 2];
        assert r.name[k - n - 2] in r.name;
      } else {
        assert s[k] == '=';
      }
    }
    assert LineEnd(s, n + 2) == 2 * n + 3;
    assert FirstQuote(s, n + 2).None?;
  }

  /** Inside the first assignment of the witness the name does not start. */
  lemma {:induction false} WitnessNoMatchInside(r: Rule, j: nat)
    requires |r.name| > 0 && Plain(r.name)
    requires 0 < j < |r.name| + 2
    ensures MatchLen(r, TwicePassWitness(r)[j..]).None?
  {
    var n := |r.name|;
    var s := TwicePassWitness(r);
    var t := s[j..];
    if j <= n {
      assert t[n - j] == s[n] == '=';
      assert r.name[n - j] in r.name;
      assert t[..n][n - j] == t[n - j];
    } else {
      assert t[0] == '"';
      assert r.name[0] in r.name;
      assert t[..n][0] == t[0];
    }
  }

  lemma {:induction false} WitnessTailMatch(r: Rule)
    requires r.body == AnyText && '=' !in r.name
    ensures |TwicePassWitness(r)| == 2 * |r.name| + 6
    ensures MatchLen(r, TwicePassWitness(r)[|r.name| + 2..]) == Some(|r.name| + 4)
  {
    var n := |r.name|;
    WitnessSplit(r);
    var t := TwicePassWitness(r)[n + 2..];
    assert t[..n] == r.name;
    assert SkipWs(t, n) == n;
    assert SkipWs(t, n + 1) == n + 2;
    OpenQuoteAt(r, t, n, n + 2);
    assert FirstQuote(t, n + 3) == Some(n + 3);
    MatchLenOfStages(r, t, n + 2, n + 3);
  }

  lemma {:induction false} WitnessOutputMatches(r: Rule)
    requires WellFormed(r) && r.body == AnyText
    requires '\n' !in r.name && '"' in r.call && '\n' !in r.call
    ensures MatchLen(r, r.name + "=\"" + Replacement(r)).Some?
  {
    var n := |r.name|;
    var rep := Replacement(r);
    var u := r.name + "=\"" + rep;
    assert u[..n] == r.name;
    assert SkipWs(u, n) == n;
    assert SkipWs(u, n + 1) == n + 1;
    OpenQuoteAt(r, u, n, n + 1);
    var j :| 0 <= j < |r.call| && r.call[j] == '"';
    var q := n + 2 + n + 3 + j;
    assert u[q] == '"';
    assert '\n' !in rep by {
      assert rep == r.name + " = " + r.call;
    }
    forall k | n + 2 <= k < |u| ensures u[k] != '\n' {
      assert u[k] == rep[k - n - 2];
    }
    assert LineEnd(u, n + 2) == |u|;
    assert FirstQuote(u, n + 2).Some?;
    MatchLenOfStages(r, u, n + 1, FirstQuote(u, n + 2).value);
  }

  /** Every plain-literal rule of the rewriter has such a witness. */
  lemma {:induction false} PlainRulesNotIdempotent()
    ensures forall r :: r in Rules && r.body == AnyText ==>
      Sub(r, Sub(r, TwicePassWitness(r))) != Sub(r, TwicePassWitness(r))
  {
    RulesWellFormed();
    forall r | r in Rules && r.body == AnyText
      ensures Sub(r, Sub(r, TwicePassWitness(r))) != Sub(r, TwicePassWitness(r))
    {
      SubNotIdempotent(r);
    }
  }
}
