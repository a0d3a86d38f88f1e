/** The identifiers and the fallback URL the substitution rules are built
    from, and the character facts about them the rule proofs need. */
module RuleNames {

  /** A string with no `=`, quote character or newline in it. */
  predicate Plain(s: string) {
    '=' !in s && '"' !in s && '\'' !in s && '\n' !in s
  }

  // Environment variables, which are also the upper-case variable names.
  const SurveyctoUsernameVar := "SURVEYCTO_USERNAME"
  const SurveyctoPasswordVar := "SURVEYCTO_PASSWORD"
  const SharepointUsernameVar := "SHAREPOINT_USERNAME"
  const SharepointPasswordVar := "SHAREPOINT_PASSWORD"
  const SharepointSiteUrlVar := "SHAREPOINT_SITE_URL"

  // Lower-case variable names the rules also rewrite.
  const UsernameName := "username"
  const PasswordName := "password"
  const SharepointUsernameName := "sharepoint_username"
  const SharepointPasswordName := "sharepoint_password"
  const SharepointSiteUrlName := "sharepoint_site_url"

  /** The fallback site URL `https://hkw.sharepoint.com/teams/PBI_MER_Data`,
      declared in two pieces only so that the proof that it holds no `=`,
      quote or newline checks the shorter literals one at a time;
      `CredentialRules.SiteUrlDefault` joins them. */
  const SiteUrlHost := "https://hkw.sharepoint.com"
  const SiteUrlPath := "/teams/PBI_MER_Data"

  lemma {:induction false} SurveyctoVarsPlain()
    ensures Plain(SurveyctoUsernameVar) && Plain(SurveyctoPasswordVar)
  {
  }

  lemma {:induction false} SharepointVarsPlain()
    ensures Plain(SharepointUsernameVar) && Plain(SharepointPasswordVar)
  {
  }

  lemma {:induction false} SiteUrlVarPlain()
    ensures Plain(SharepointSiteUrlVar)
  {
  }

  lemma {:induction false} SiteUrlNamePlain()
    ensures Plain(SharepointSiteUrlName)
  {
  }

  lemma {:induction false} LowerNamesPlain()
    ensures Plain(UsernameName) && Plain(PasswordName)
    ensures Plain(SharepointUsernameName) && Plain(SharepointPasswordName)
  {
    SharepointUsernameSplit();
    assert Plain("sharepoint_");
    assert SharepointPasswordName == "sharepoint_" + PasswordName;
  }

  lemma {:induction false} SiteUrlDefaultPlain()
    ensures Plain(SiteUrlHost + SiteUrlPath)
  {
    assert Plain(SiteUrlHost);
    assert Plain(SiteUrlPath);
  }

  /** `sharepoint_username` is `sharepoint_` followed by `username`, and no
      character of `sharepoint_` is a `u`. */
  lemma {:induction false} SharepointUsernameSplit()
    ensures SharepointUsernameName == "sharepoint_" + UsernameName
    ensures forall j :: 0 <= j < 11 ==> "sharepoint_"[j] != UsernameName[0]
  {
  }
}
