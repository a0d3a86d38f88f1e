/** The last stage of the rewriter: a block that stops the script when the
    credentials are not set is spliced in after the line of the last
    password lookup.

    The stage is stated for any trigger lookup `pw`, second lookup `sp` and
    block; the rewriter uses it with the SurveyCTO and SharePoint password
    lookups and the fixed block below. */
module Validation {
  import opened Text
  import opened RuleNames
  import opened CredentialRules

  const SurveyctoPasswordLookup := Lookup(SurveyctoPasswordVar)
  const SharepointPasswordLookup := Lookup(SharepointPasswordVar)

  /** The inserted block. It begins and ends with a newline. */
  const ValidationCode :=
    "\n# Validate credentials are loaded\n"
    + "if not all([SURVEYCTO_USERNAME, SURVEYCTO_PASSWORD, SHAREPOINT_USERNAME, SHAREPOINT_PASSWORD]):\n"
    + "    print(\"\U{274C} Error: Missing required environment variables\")\n"
    + "    print(\"Please set: SURVEYCTO_USERNAME, SURVEYCTO_PASSWORD, SHAREPOINT_USERNAME, SHAREPOINT_PASSWORD\")\n"
    + "    import sys\n"
    + "    sys.exit(1)\n"

  /** `max(s.rfind(pw), s.rfind(sp))`. */
  function LastLookup(s: string, pw: string, sp: string): int {
    var a := RFind(s, pw);
    var b := RFind(s, sp);
    if a >= b then a else b
  }

  /** The block is wanted only when `pw` is present and the block is not. */
  predicate WantsBlock(s: string, pw: string, block: string) {
    Contains(s, pw) && !Contains(s, block)
  }

  /** Where the block goes: just after the first newline at or after the
      last lookup. With no such newline nothing is inserted. */
  function InsertionPoint(s: string, pw: string, sp: string, block: string): (r: Option<nat>)
    ensures r.Some? ==> 0 < r.value <= |s|
  {
    if WantsBlock(s, pw, block) then
      match Find(s, "\n", LastLookup(s, pw, sp))
      case Some(n) => Some(n + 1)
      case None => None
    else None
  }

  function InsertBlock(s: string, pw: string, sp: string, block: string): string {
    match InsertionPoint(s, pw, sp, block)
    case None => s
    case Some(i) => s[..i] + block + s[i..]
  }

  /** The stage as the rewriter runs it. */
  function InsertValidation(s: string): string {
    InsertBlock(s, SurveyctoPasswordLookup, SharepointPasswordLookup, ValidationCode)
  }

  /** Both lookups are one-line strings. */
  lemma {:induction false} LookupsPlain()
    ensures '\n' !in SurveyctoPasswordLookup && '\n' !in SharepointPasswordLookup
    ensures |SurveyctoPasswordLookup| > 0 && |SharepointPasswordLookup| > 0
  {
    SurveyctoVarsPlain();
    SharepointVarsPlain();
    SiteUrlDefaultPlain();
    LookupPlain(SurveyctoPasswordVar, SiteUrlHost + SiteUrlPath);
    LookupPlain(SharepointPasswordVar, SiteUrlHost + SiteUrlPath);
  }

  /** A block is inserted exactly when `pw` is present, the block is absent
      and a newline follows the last lookup; `sp` on its own never triggers
      it. */
  lemma {:induction false} InsertionPointIff(s: string, pw: string, sp: string, block: string)
    ensures InsertionPoint(s, pw, sp, block).Some? <==>
      && WantsBlock(s, pw, block) && LastLookup(s, pw, sp) >= 0
      && Contains(s[LastLookup(s, pw, sp)..], "\n")
  {
    if WantsBlock(s, pw, block) {
      var last := LastLookup(s, pw, sp);
      assert last >= 0;
      FindFromIsSuffix(s, "\n", last);
    }
  }

  /** The insertion point is just past the first newline at or after the
      last lookup. */
  lemma {:induction false} InsertionAfterFirstNewline(s: string, pw: string, sp: string, block: string)
    requires InsertionPoint(s, pw, sp, block).Some?
    ensures var i := InsertionPoint(s, pw, sp, block).value;
      var last := LastLookup(s, pw, sp);
      && 0 <= last <= i - 1 && s[i - 1] == '\n'
      && forall k :: last <= k < i - 1 ==> s[k] != '\n'
  {
    var i := InsertionPoint(s, pw, sp, block).value;
    var last := LastLookup(s, pw, sp);
    assert Find(s, "\n", last) == Some(i - 1);
    assert s[i - 1..i] == "\n";
    forall k | last <= k < i - 1 ensures s[k] != '\n' {
      assert !OccursAt(s, "\n", k);
      assert s[k..k + 1] == [s[k]];
    }
  }

  /** The block goes after the end of the line holding the last lookup:
      every occurrence of either one-line lookup ends before the insertion
      point, which follows a newline. */
  lemma {:induction false} InsertionAfterAllLookups(s: string, pw: string, sp: string, block: string)
    requires '\n' !in pw && '\n' !in sp
    requires InsertionPoint(s, pw, sp, block).Some?
    ensures var i := InsertionPoint(s, pw, sp, block).value;
      && s[i - 1] == '\n'
      && (forall k :: OccursAt(s, pw, k) ==> k + |pw| < i)
      && (forall k :: OccursAt(s, sp, k) ==> k + |sp| < i)
  {
    var i := InsertionPoint(s, pw, sp, block).value;
    var last := LastLookup(s, pw, sp);
    assert Find(s, "\n", last) == Some(i - 1);
    OccurrencesEndBefore(s, pw, last, i - 1);
    OccurrencesEndBefore(s, sp, last, i - 1);
  }

  /** Occurrences of a one-line pattern that start at or before `last` end
      before the first newline after `last`. */
  lemma {:induction false} OccurrencesEndBefore(s: string, p: string, last: nat, n: nat)
    requires '\n' !in p && RFind(s, p) <= last
    requires Find(s, "\n", last) == Some(n)
    ensures s[n] == '\n'
    ensures forall k :: OccursAt(s, p, k) ==> k + |p| <= n
  {
    assert s[n..n + 1] == "\n";
    forall k | OccursAt(s, p, k) ensures k + |p| <= n {
      OccurrenceBeforeNewline(s, p, k, last, n);
    }
  }

  lemma {:induction false} OccurrenceBeforeNewline(s: string, p: string, k: nat, last: int, n: nat)
    requires '\n' !in p && OccursAt(s, p, k) && k <= last <= n < |s| && s[n] == '\n'
    ensures k + |p| <= n
  {
  }

  /** Inserting the block keeps the text around it: removing the block gives
      back the original. */
  lemma {:induction false} InsertBlockSplice(s: string, pw: string, sp: string, block: string)
    requires InsertionPoint(s, pw, sp, block).Some?
    ensures var i := InsertionPoint(s, pw, sp, block).value;
      var v := InsertBlock(s, pw, sp, block);
      && |v| == |s| + |block|
      && v[..i] + v[i + |block|..] == s
      && v[i..i + |block|] == block
  {
    var i := InsertionPoint(s, pw, sp, block).value;
    var v := InsertBlock(s, pw, sp, block);
    assert v[..i] == s[..i];
    assert v[i + |block|..] == s[i..];
  }

  /** Running the stage a second time changes nothing: the block it inserted
      switches it off. */
  lemma {:induction false} InsertBlockIdempotent(s: string, pw: string, sp: string, block: string)
    ensures InsertBlock(InsertBlock(s, pw, sp, block), pw, sp, block) == InsertBlock(s, pw, sp, block)
  {
    if InsertionPoint(s, pw, sp, block).Some? {
      InsertBlockSplice(s, pw, sp, block);
      var i := InsertionPoint(s, pw, sp, block).value;
      ContainsAt(InsertBlock(s, pw, sp, block), block, i);
    }
  }

  /** Text without a newline that occurs before the stage still occurs
      after it: the block goes right after a newline, so it never cuts such
      an occurrence in two. */
  lemma {:induction false} InsertBlockKeepsOneLineText(s: string, pw: string, sp: string, block: string, w: string)
    requires '\n' !in w && Contains(s, w)
    ensures Contains(InsertBlock(s, pw, sp, block), w)
  {
    if InsertionPoint(s, pw, sp, block).Some? {
      var i := InsertionPoint(s, pw, sp, block).value;
      var k := Find(s, w, 0).value;
      InsertionFollowsNewline(s, pw, sp, block);
      OneLineOccurrenceNotCut(s, w, k, i);
      SpliceKeepsOccurrence(s, block, w, k, i);
    }
  }

  /** A block is only ever inserted into a text holding a newline, and it
      never shortens the text. */
  lemma {:induction false} InsertionNeedsNewline(s: string, pw: string, sp: string, block: string)
    ensures InsertionPoint(s, pw, sp, block).Some? ==> '\n' in s
    ensures |InsertBlock(s, pw, sp, block)| >= |s|
  {
    if InsertionPoint(s, pw, sp, block).Some? {
      InsertionFollowsNewline(s, pw, sp, block);
    }
  }

  /** With no newline from index `m` on, and a lookup at or after `m`,
      the stage leaves the text alone. */
  lemma {:induction false} NoNewlineAfterLookup(s: string, pw: string, sp: string, block: string, m: nat)
    requires forall k :: m <= k < |s| ==> s[k] != '\n'
    requires LastLookup(s, pw, sp) >= m
    ensures InsertBlock(s, pw, sp, block) == s
  {
    forall r | m <= r < |s| ensures !OccursAt(s, "\n", r) {
      assert r + 1 <= |s| ==> s[r..r + 1][0] == s[r];
    }
  }

  lemma {:induction false} InsertionFollowsNewline(s: string, pw: string, sp: string, block: string)
    requires InsertionPoint(s, pw, sp, block).Some?
    ensures s[InsertionPoint(s, pw, sp, block).value - 1] == '\n'
  {
    var i := InsertionPoint(s, pw, sp, block).value;
    assert Find(s, "\n", LastLookup(s, pw, sp)) == Some(i - 1);
    assert s[i - 1..i] == "\n";
  }

  lemma {:induction false} OneLineOccurrenceNotCut(s: string, w: string, k: nat, i: nat)
    requires '\n' !in w && OccursAt(s, w, k) && 0 < i <= |s| && s[i - 1] == '\n'
    ensures k + |w| <= i || i <= k
  {
  }

  /** An occurrence that lies wholly on one side of the cut survives the
      splice. */
  lemma {:induction false} SpliceKeepsOccurrence(s: string, block: string, w: string, k: nat, i: nat)
    requires OccursAt(s, w, k) && i <= |s| && (k + |w| <= i || i <= k)
    ensures Contains(s[..i] + block + s[i..], w)
  {
    var v := s[..i] + block + s[i..];
    if k + |w| <= i {
      assert v[k..k + |w|] == s[k..k + |w|];
      ContainsAt(v, w, k);
    } else {
      var j := k + |block|;
      assert v[j..j + |w|] == s[k..k + |w|];
      ContainsAt(v, w, j);
    }
  }

  /** The rewriter's validation stage: it changes the text exactly as
      above, always after the last password lookup, and only once. */
  lemma {:induction false} InsertValidationProperties(s: string)
    ensures InsertValidation(s) != s ==>
      var i := InsertionPoint(s, SurveyctoPasswordLookup, SharepointPasswordLookup, ValidationCode).value;
      && s[i - 1] == '\n'
      && (forall k :: OccursAt(s, SurveyctoPasswordLookup, k) ==> k + |SurveyctoPasswordLookup| < i)
      && (forall k :: OccursAt(s, SharepointPasswordLookup, k) ==> k + |SharepointPasswordLookup| < i)
      && InsertValidation(s) == s[..i] + ValidationCode + s[i..]
    ensures !Contains(s, SurveyctoPasswordLookup) ==> InsertValidation(s) == s
    ensures InsertValidation(InsertValidation(s)) == InsertValidation(s)
  {
    LookupsPlain();
    if InsertValidation(s) != s {
      InsertionAfterAllLookups(s, SurveyctoPasswordLookup, SharepointPasswordLookup, ValidationCode);
    }
    InsertBlockIdempotent(s, SurveyctoPasswordLookup, SharepointPasswordLookup, ValidationCode);
  }
}
