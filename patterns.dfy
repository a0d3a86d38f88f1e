/** The shape shared by the ten substitution patterns of the rewriter,
        NAME\s*=\s*["']BODY["']
    where BODY is one of four fixed sub-patterns; a hand-written matcher for
    it; and `re.sub` as a left-to-right scan over the text.

    `\s` is the ASCII whitespace class, `\d` the ASCII digits, and `.` any
    character except a newline. */
module Patterns {
  import opened Text

  predicate IsWs(c: char) {
    c == ' ' || c == '\t' || c == '\n' || c == '\r' || c == '\U{0B}' || c == '\U{0C}'
  }

  predicate IsQuote(c: char) {
    c == '"' || c == '\''
  }

  predicate IsDigit(c: char) {
    '0' <= c <= '9'
  }

  /** The text between the two quotes of a pattern. */
  datatype Body =
    | AnyText     // .*?
    | Email       // .*?@.*?
    | HkPassword  // HELENKELLER\d{4}!?
    | SiteUrl     // https://.*?sharepoint\.com.*?

  /** One substitution rule: the variable name the pattern starts with, the
      body sub-pattern, and the expression the assignment is rewritten to. */
  datatype Rule = Rule(name: string, body: Body, call: string)

  /** The fixed replacement text of a rule: `NAME = <call>`. */
  function Replacement(r: Rule): string {
    r.name + " = " + r.call
  }

  /** What the verification of the rewriter needs of a rule's constants: the
      call starts with `o` (the `os.environ` lookup) and neither the name nor
      the call contains `=`. */
  predicate WellFormed(r: Rule) {
    |r.call| > 0 && r.call[0] == 'o' && '=' !in r.name && '=' !in r.call
  }

  // ---------------------------------------------------------------------
  // The language of a pattern, stated declaratively

  predicate NoNewline(s: string) {
    '\n' !in s
  }

  predicate AllWs(w: string, i: int, j: int) {
    0 <= i && j <= |w| && forall k :: i <= k < j ==> IsWs(w[k])
  }

  /** `body` belongs to the language of the body sub-pattern `b`. */
  ghost predicate BodyOk(b: Body, body: string) {
    match b
    case AnyText => NoNewline(body)
    case Email => NoNewline(body) && '@' in body
    case HkPassword =>
      && (|body| == 15 || (|body| == 16 && body[15] == '!'))
      && body[..11] == "HELENKELLER"
      && forall k :: 11 <= k < 15 ==> IsDigit(body[k])
    case SiteUrl =>
      && NoNewline(body)
      && |body| >= 8 && body[..8] == "https://"
      && exists k :: 8 <= k && OccursAt(body, "sharepoint.com", k)
  }

  /** `w` is NAME, whitespace, `=` at index `a`, whitespace, a quote at
      index `b`, a body, and a closing quote as its last character. */
  ghost predicate Shape(r: Rule, w: string, a: int, b: int) {
    var n := |r.name|;
    && n <= a < b < |w| - 1
    && w[..n] == r.name
    && AllWs(w, n, a) && w[a] == '='
    && AllWs(w, a + 1, b) && IsQuote(w[b])
    && IsQuote(w[|w| - 1])
    && BodyOk(r.body, w[b + 1..|w| - 1])
  }

  /** `w` belongs to the language of the rule's regular expression. */
  ghost predicate Matches(r: Rule, w: string) {
    exists a, b :: Shape(r, w, a, b)
  }

  // ---------------------------------------------------------------------
  // Scanning helpers

  /** The index of the first newline at or after `i`, or `|s|`. */
  function LineEnd(s: string, i: nat): (r: nat)
    requires i <= |s|
    ensures i <= r <= |s|
    ensures r < |s| ==> s[r] == '\n'
    ensures forall k :: i <= k < r ==> s[k] != '\n'
    decreases |s| - i
  {
    if i == |s| || s[i] == '\n' then i else LineEnd(s, i + 1)
  }

  /** The end of the run of whitespace starting at `i` (greedy `\s*`). */
  function SkipWs(s: string, i: nat): (r: nat)
    requires i <= |s|
    ensures i <= r <= |s|
    ensures r < |s| ==> !IsWs(s[r])
    ensures forall k :: i <= k < r ==> IsWs(s[k])
    decreases |s| - i
  {
    if i < |s| && IsWs(s[i]) then SkipWs(s, i + 1) else i
  }

  /** The first quote at or after `i` on the same line (lazy `.*?["']`). */
  function FirstQuote(s: string, i: nat): (r: Option<nat>)
    requires i <= |s|
    ensures r.Some? ==> i <= r.value < LineEnd(s, i) && IsQuote(s[r.value])
    ensures r.Some? ==> forall k :: i <= k < r.value ==> !IsQuote(s[k])
    ensures r.None? ==> forall k :: i <= k < LineEnd(s, i) ==> !IsQuote(s[k])
    decreases |s| - i
  {
    if i == |s| || s[i] == '\n' then None
    else if IsQuote(s[i]) then Some(i)
    else FirstQuote(s, i + 1)
  }

  /** `FirstQuote` from `i` is the quote at `j` when every character
      before it, from `i` on, is neither a quote nor a newline. */
  lemma {:induction false} FirstQuoteAfter(s: string, i: nat, j: nat)
    requires i <= j < |s| && IsQuote(s[j])
    requires forall k :: i <= k < j ==> !IsQuote(s[k]) && s[k] != '\n'
    ensures FirstQuote(s, i) == Some(j)
    decreases j - i
  {
    if i < j {
      FirstQuoteAfter(s, i + 1, j);
    }
  }

  /** The first occurrence of `p` at or after `i` that starts on the same
      line (lazy `.*?p`). */
  function FindOnLine(s: string, p: string, i: nat): (r: Option<nat>)
    requires i <= |s|
    ensures r.Some? ==> i <= r.value < LineEnd(s, i) && OccursAt(s, p, r.value)
    ensures r.Some? ==> forall k :: i <= k < r.value ==> !OccursAt(s, p, k)
    ensures r.None? ==> forall k :: i <= k < LineEnd(s, i) ==> !OccursAt(s, p, k)
  {
    match Find(s, p, i)
    case None => None
    case Some(j) => if j < LineEnd(s, i) then Some(j) else None
  }

  // ---------------------------------------------------------------------
  // The matcher

  /** The index of the closing quote when the body sub-pattern `b` is
      matched from index `i`, the character after the opening quote. */
  function BodyClose(b: Body, s: string, i: nat): (r: Option<nat>)
    requires i <= |s|
    ensures r.Some? ==> i <= r.value < |s| && IsQuote(s[r.value])
  {
    match b
    case AnyText => FirstQuote(s, i)
    case Email =>
      (match FindOnLine(s, "@", i)
       case None => None
       case Some(a) => FirstQuote(s, a + 1))
    case SiteUrl =>
      if i + 8 <= |s| && s[i..i + 8] == "https://" then
        (match FindOnLine(s, "sharepoint.com", i + 8)
         case None => None
         case Some(a) => FirstQuote(s, a + 14))
      else None
    case HkPassword =>
      if i + 15 < |s| && s[i..i + 11] == "HELENKELLER"
         && (forall k :: i + 11 <= k < i + 15 ==> IsDigit(s[k]))
      then
        if IsQuote(s[i + 15]) then Some(i + 15)
        else if s[i + 15] == '!' && i + 16 < |s| && IsQuote(s[i + 16]) then Some(i + 16)
        else None
      else None
  }

  /** The index of the opening quote when `t` starts with the rule's name,
      whitespace, `=` and whitespace (greedy `\s*` on both sides). */
  function OpenQuote(r: Rule, t: string): (b: Option<nat>)
    ensures b.Some? ==> |r.name| + 1 <= b.value < |t| && IsQuote(t[b.value])
  {
    var n := |r.name|;
    if n <= |t| && t[..n] == r.name then
      var a := SkipWs(t, n);
      if a < |t| && t[a] == '=' then
        var b := SkipWs(t, a + 1);
        if b < |t| && IsQuote(t[b]) then Some(b) else None
      else None
    else None
  }

  /** The length of the match of rule `r` at the start of `t`, if any. */
  function MatchLen(r: Rule, t: string): (m: Option<nat>)
    ensures m.Some? ==> |r.name| + 3 <= m.value <= |t|
  {
    match OpenQuote(r, t)
    case None => None
    case Some(b) =>
      match BodyClose(r.body, t, b + 1)
      case None => None
      case Some(c) => Some(c + 1)
  }

  // ---------------------------------------------------------------------
  // The matcher against the language

  lemma {:induction false} NoNewlineSlice(s: string, i: nat, c: nat)
    requires i <= c <= |s|
    ensures NoNewline(s[i..c]) <==> c <= LineEnd(s, i)
  {
    var le := LineEnd(s, i);
    if c <= le {
      forall k | 0 <= k < c - i ensures s[i..c][k] != '\n' {
        assert s[i..c][k] == s[i + k];
      }
    } else {
      assert s[i..c][le - i] == '\n';
    }
  }

  lemma {:induction false} LineEndStable(s: string, i: nat, j: nat)
    requires i <= |s| && i <= j <= LineEnd(s, i)
    ensures LineEnd(s, j) == LineEnd(s, i)
    decreases j - i
  {
    if i < j {
      assert s[i] != '\n';
      assert LineEnd(s, i) == LineEnd(s, i + 1);
      LineEndStable(s, i + 1, j);
    }
  }

  lemma {:induction false} OccursInSlice(s: string, p: string, i: nat, c: nat, k: nat)
    requires i <= c <= |s|
    ensures OccursAt(s[i..c], p, k) <==> (OccursAt(s, p, i + k) && i + k + |p| <= c)
  {
    if k + |p| <= c - i {
      var v := s[i..c][k..k + |p|];
      var w := s[i + k..i + k + |p|];
      forall j | 0 <= j < |v| ensures v[j] == w[j] {
      }
      assert v == w;
    }
  }

  lemma {:induction false} BodyCloseSoundAnyText(s: string, i: nat)
    requires i <= |s| && BodyClose(AnyText, s, i).Some?
    ensures BodyOk(AnyText, s[i..BodyClose(AnyText, s, i).value])
  {
    NoNewlineSlice(s, i, BodyClose(AnyText, s, i).value);
  }

  lemma {:induction false} BodyCloseLeastAnyText(s: string, i: nat, c: nat)
    requires i <= c < |s| && IsQuote(s[c]) && BodyOk(AnyText, s[i..c])
    ensures BodyClose(AnyText, s, i).Some? && BodyClose(AnyText, s, i).value <= c
  {
    NoNewlineSlice(s, i, c);
    assert c < LineEnd(s, i);
  }

  lemma {:induction false} BodyCloseSoundEmail(s: string, i: nat)
    requires i <= |s| && BodyClose(Email, s, i).Some?
    ensures BodyOk(Email, s[i..BodyClose(Email, s, i).value])
  {
    var found := FindOnLine(s, "@", i);
    assert found.Some?;
    var a := found.value;
    var c := BodyClose(Email, s, i).value;
    assert c == FirstQuote(s, a + 1).value;
    assert s[a] == '@' by { assert s[a..a + 1] == "@"; }
    LineEndStable(s, i, a + 1);
    NoNewlineSlice(s, i, c);
    assert s[i..c][a - i] == '@';
  }

  lemma {:induction false} BodyCloseLeastEmail(s: string, i: nat, c: nat)
    requires i <= c < |s| && IsQuote(s[c]) && BodyOk(Email, s[i..c])
    ensures BodyClose(Email, s, i).Some? && BodyClose(Email, s, i).value <= c
  {
    NoNewlineSlice(s, i, c);
    assert c < LineEnd(s, i);
    var k :| 0 <= k < c - i && s[i..c][k] == '@';
    assert s[i + k] == '@';
    assert OccursAt(s, "@", i + k) by { assert s[i + k..i + k + 1] == "@"; }
    var found := FindOnLine(s, "@", i);
    assert found.Some?;
    var a := found.value;
    LineEndStable(s, i, a + 1);
  }

  lemma {:induction false} BodyCloseSoundSiteUrl(s: string, i: nat)
    requires i <= |s| && BodyClose(SiteUrl, s, i).Some?
    ensures BodyOk(SiteUrl, s[i..BodyClose(SiteUrl, s, i).value])
  {
    assert i + 8 <= |s| && s[i..i + 8] == "https://";
    var found := FindOnLine(s, "sharepoint.com", i + 8);
    assert found.Some?;
    var a := found.value;
    var c := BodyClose(SiteUrl, s, i).value;
    assert FirstQuote(s, a + 14) == Some(c);
    SiteUrlBody(s, i, a, c);
  }

  lemma {:induction false} SiteUrlBody(s: string, i: nat, a: nat, c: nat)
    requires i + 8 <= |s| && s[i..i + 8] == "https://"
    requires i + 8 <= a < LineEnd(s, i + 8) && OccursAt(s, "sharepoint.com", a)
    requires a + 14 <= c < LineEnd(s, a + 14)
    ensures BodyOk(SiteUrl, s[i..c])
  {
    SiteUrlLine(s, i, a);
    NoNewlineSlice(s, i, c);
    OccursInSlice(s, "sharepoint.com", i, c, a - i);
    assert s[i..c][..8] == s[i..i + 8];
  }

  /** A `sharepoint.com` found on the line of the URL leaves that line. */
  lemma {:induction false} SiteUrlLine(s: string, i: nat, a: nat)
    requires i + 8 <= |s| && s[i..i + 8] == "https://"
    requires i + 8 <= a < LineEnd(s, i + 8) && OccursAt(s, "sharepoint.com", a)
    ensures a + 14 <= LineEnd(s, i) && LineEnd(s, a + 14) == LineEnd(s, i)
  {
    NoNewlineSlice(s, i, i + 8);
    LineEndStable(s, i, i + 8);
    assert s[a..a + 14] == "sharepoint.com";
    NoNewlineSlice(s, a, a + 14);
    LineEndStable(s, i, a);
    LineEndStable(s, i, a + 14);
  }

  lemma {:induction false} BodyCloseLeastSiteUrl(s: string, i: nat, c: nat)
    requires i <= c < |s| && IsQuote(s[c]) && BodyOk(SiteUrl, s[i..c])
    ensures BodyClose(SiteUrl, s, i).Some? && BodyClose(SiteUrl, s, i).value <= c
  {
    var body := s[i..c];
    assert s[i..i + 8] == body[..8];
    var k :| 8 <= k && OccursAt(body, "sharepoint.com", k);
    OccursInSlice(s, "sharepoint.com", i, c, k);
    NoNewlineSlice(s, i, c);
    assert c < LineEnd(s, i);
    LineEndStable(s, i, i + 8);
    var found := FindOnLine(s, "sharepoint.com", i + 8);
    assert found.Some?;
    var a := found.value;
    LineEndStable(s, i, a + 14);
  }

  lemma {:induction false} BodyCloseSoundHk(s: string, i: nat)
    requires i <= |s| && BodyClose(HkPassword, s, i).Some?
    ensures BodyOk(HkPassword, s[i..BodyClose(HkPassword, s, i).value])
  {
    assert i + 15 < |s| && s[i..i + 11] == "HELENKELLER";
    assert forall k :: i + 11 <= k < i + 15 ==> IsDigit(s[k]);
    var c := BodyClose(HkPassword, s, i).value;
    var body := s[i..c];
    assert c == i + 15 || (c == i + 16 && s[i + 15] == '!');
    assert body[..11] == s[i..i + 11];
    forall k | 11 <= k < 15 ensures IsDigit(body[k]) {
      assert body[k] == s[i + k];
    }
    if c == i + 16 {
      assert body[15] == s[i + 15];
    }
  }

  lemma {:induction false} BodyCloseLeastHk(s: string, i: nat, c: nat)
    requires i <= c < |s| && IsQuote(s[c]) && BodyOk(HkPassword, s[i..c])
    ensures BodyClose(HkPassword, s, i).Some? && BodyClose(HkPassword, s, i).value <= c
  {
    var body := s[i..c];
    assert s[i..i + 11] == body[..11];
    forall k | i + 11 <= k < i + 15 ensures IsDigit(s[k]) {
      assert s[k] == body[k - i];
    }
    if c == i + 16 {
      assert s[i + 15] == body[15];
    }
  }

  /** A closing quote the body matcher reports ends a body in the language. */
  lemma {:induction false} BodyCloseSound(b: Body, s: string, i: nat)
    requires i <= |s| && BodyClose(b, s, i).Some?
    ensures BodyOk(b, s[i..BodyClose(b, s, i).value])
  {
    match b
    case AnyText => BodyCloseSoundAnyText(s, i);
    case Email => BodyCloseSoundEmail(s, i);
    case SiteUrl => BodyCloseSoundSiteUrl(s, i);
    case HkPassword => BodyCloseSoundHk(s, i);
  }

  /** No closing quote that ends a body in the language comes before the one
      the body matcher reports. */
  lemma {:induction false} BodyCloseLeast(b: Body, s: string, i: nat, c: nat)
    requires i <= c < |s| && IsQuote(s[c]) && BodyOk(b, s[i..c])
    ensures BodyClose(b, s, i).Some? && BodyClose(b, s, i).value <= c
  {
    match b
    case AnyText => BodyCloseLeastAnyText(s, i, c);
    case Email => BodyCloseLeastEmail(s, i, c);
    case SiteUrl => BodyCloseLeastSiteUrl(s, i, c);
    case HkPassword => BodyCloseLeastHk(s, i, c);
  }

  lemma {:induction false} SkipWsForced(s: string, i: nat, a: nat)
    requires i <= a < |s| && AllWs(s, i, a) && !IsWs(s[a])
    ensures SkipWs(s, i) == a
  {
  }

  lemma {:induction false} ShapeOnText(r: Rule, t: string, e: nat, a: int, b: int)
    requires e <= |t| && Shape(r, t[..e], a, b)
    ensures |r.name| <= a < b < e - 1
    ensures t[..|r.name|] == r.name
    ensures AllWs(t, |r.name|, a) && t[a] == '='
    ensures AllWs(t, a + 1, b) && IsQuote(t[b])
    ensures IsQuote(t[e - 1]) && BodyOk(r.body, t[b + 1..e - 1])
  {
    var w := t[..e];
    assert w[..|r.name|] == t[..|r.name|];
    assert w[b + 1..e - 1] == t[b + 1..e - 1];
  }

  /** A reported match is in the pattern's language. */
  lemma {:induction false} MatchLenSound(r: Rule, t: string)
    requires MatchLen(r, t).Some?
    ensures Matches(r, t[..MatchLen(r, t).value])
  {
    var b, c := MatchLenStages(r, t);
    MatchesAfterStages(r, t, b, c);
  }

  lemma {:induction false} MatchesAfterStages(r: Rule, t: string, b: nat, c: nat)
    requires OpenQuote(r, t) == Some(b) && b + 1 <= |t| && BodyClose(r.body, t, b + 1) == Some(c)
    ensures Matches(r, t[..c + 1])
  {
    BodyCloseSoundAt(r.body, t, b + 1, c);
    MatchesFromStages(r, t, b, c);
  }

  /** The two stages behind a reported match. */
  lemma {:induction false} MatchLenStages(r: Rule, t: string) returns (b: nat, c: nat)
    requires MatchLen(r, t).Some?
    ensures OpenQuote(r, t) == Some(b) && b + 1 <= |t|
    ensures BodyClose(r.body, t, b + 1) == Some(c) && MatchLen(r, t).value == c + 1
  {
    b := OpenQuote(r, t).value;
    c := BodyClose(r.body, t, b + 1).value;
  }

  lemma {:induction false} MatchesFromStages(r: Rule, t: string, b: nat, c: nat)
    requires OpenQuote(r, t) == Some(b) && b < c < |t| && IsQuote(t[c]) && BodyOk(r.body, t[b + 1..c])
    ensures Matches(r, t[..c + 1])
  {
    var a := OpenQuoteStages(r, t);
    MatchesFromText(r, t, c, a, b);
  }

  lemma {:induction false} BodyCloseSoundAt(b: Body, s: string, i: nat, c: nat)
    requires i <= |s| && BodyClose(b, s, i) == Some(c)
    ensures i <= c < |s| && IsQuote(s[c])
    ensures BodyOk(b, s[i..c])
  {
    BodyCloseSound(b, s, i);
  }

  /** The text up to and including the closing quote at `c`, laid out as
      the pattern demands, is in the language. */
  lemma {:induction false} MatchesFromText(r: Rule, t: string, c: nat, a: int, b: int)
    requires c < |t| && |r.name| <= a < b < c
    requires t[..|r.name|] == r.name
    requires AllWs(t, |r.name|, a) && t[a] == '='
    requires AllWs(t, a + 1, b) && IsQuote(t[b])
    requires IsQuote(t[c]) && BodyOk(r.body, t[b + 1..c])
    ensures Matches(r, t[..c + 1])
  {
    var w := t[..c + 1];
    assert w[..|r.name|] == t[..|r.name|];
    assert w[b + 1..c] == t[b + 1..c];
    assert Shape(r, w, a, b);
  }

  /** The stages behind a successful opening-quote stage. */
  lemma {:induction false} OpenQuoteStages(r: Rule, t: string) returns (a: nat)
    requires OpenQuote(r, t).Some?
    ensures |r.name| <= |t| && t[..|r.name|] == r.name
    ensures a == SkipWs(t, |r.name|) && a < |t| && t[a] == '='
    ensures OpenQuote(r, t).value == SkipWs(t, a + 1)
    ensures AllWs(t, |r.name|, a) && AllWs(t, a + 1, OpenQuote(r, t).value)
  {
    a := SkipWs(t, |r.name|);
  }

  /** How the text under a match is laid out: the name, `=` at `a`, the
      opening quote at `b`, the body and the closing quote at `e - 1`. */
  lemma {:induction false} MatchLayout(r: Rule, t: string, e: nat) returns (a: int, b: int)
    requires e <= |t| && Matches(r, t[..e])
    ensures |r.name| <= a < b < e - 1
    ensures t[..|r.name|] == r.name
    ensures AllWs(t, |r.name|, a) && t[a] == '='
    ensures AllWs(t, a + 1, b) && IsQuote(t[b])
    ensures IsQuote(t[e - 1]) && BodyOk(r.body, t[b + 1..e - 1])
  {
    a, b :| Shape(r, t[..e], a, b);
    ShapeOnText(r, t, e, a, b);
  }

  /** Any prefix of `t` in the pattern's language forces the matcher to
      succeed with a match no longer than that prefix. */
  lemma {:induction false} MatchesForcesMatch(r: Rule, t: string, e: nat)
    requires e <= |t| && Matches(r, t[..e])
    ensures MatchLen(r, t).Some? && MatchLen(r, t).value <= e
  {
    var b, c := ShapeForcesStages(r, t, e);
    MatchLenOfStages(r, t, b, c);
  }

  /** A prefix in the language forces both stages of the matcher to
      succeed, the body stage no later than the prefix's closing quote. */
  lemma {:induction false} ShapeForcesStages(r: Rule, t: string, e: nat) returns (b: nat, c: nat)
    requires e <= |t| && Matches(r, t[..e])
    ensures OpenQuote(r, t) == Some(b) && b + 1 <= |t|
    ensures BodyClose(r.body, t, b + 1) == Some(c) && c <= e - 1
  {
    b := ShapeForcesOpenQuote(r, t, e);
    c := BodyCloseLeastAt(r.body, t, b + 1, e - 1);
  }

  /** The opening-quote stage succeeds at the quote of the prefix, which
      leaves the body and its closing quote for the body stage. */
  lemma {:induction false} ShapeForcesOpenQuote(r: Rule, t: string, e: nat) returns (b: nat)
    requires e <= |t| && Matches(r, t[..e])
    ensures OpenQuote(r, t) == Some(b) && b + 1 <= e - 1 < |t|
    ensures IsQuote(t[e - 1]) && BodyOk(r.body, t[b + 1..e - 1])
  {
    var a, b' := MatchLayout(r, t, e);
    b := b';
    OpenQuoteForced(r, t, a, b);
  }

  lemma {:induction false} OpenQuoteForced(r: Rule, t: string, a: nat, b: nat)
    requires |r.name| <= a < b < |t|
    requires t[..|r.name|] == r.name
    requires AllWs(t, |r.name|, a) && t[a] == '='
    requires AllWs(t, a + 1, b) && IsQuote(t[b])
    ensures OpenQuote(r, t) == Some(b)
  {
    SkipWsForced(t, |r.name|, a);
    SkipWsForced(t, a + 1, b);
    OpenQuoteAt(r, t, a, b);
  }

  lemma {:induction false} BodyCloseLeastAt(b: Body, s: string, i: nat, c: nat) returns (c': nat)
    requires i <= c < |s| && IsQuote(s[c]) && BodyOk(b, s[i..c])
    ensures BodyClose(b, s, i) == Some(c') && c' <= c
  {
    BodyCloseLeast(b, s, i, c);
    c' := BodyClose(b, s, i).value;
  }

  lemma {:induction false} MatchLenOfStages(r: Rule, t: string, b: nat, c: nat)
    requires OpenQuote(r, t) == Some(b) && BodyClose(r.body, t, b + 1) == Some(c)
    ensures MatchLen(r, t) == Some(c + 1)
  {
  }

  /** The opening-quote stage once the positions of `=` and the quote are known. */
  lemma {:induction false} OpenQuoteAt(r: Rule, t: string, a: nat, b: nat)
    requires |r.name| <= |t| && t[..|r.name|] == r.name
    requires SkipWs(t, |r.name|) == a && a < |t| && t[a] == '='
    requires SkipWs(t, a + 1) == b && b < |t| && IsQuote(t[b])
    ensures OpenQuote(r, t) == Some(b)
  {
  }

  /** The match the matcher reports at the start of `t` is the shortest
      prefix of `t` in the pattern's language, and it reports none exactly
      when no prefix is in the language. */
  lemma {:induction false} MatchLenSpec(r: Rule, t: string)
    ensures MatchLen(r, t).Some? ==>
      Matches(r, t[..MatchLen(r, t).value]) &&
      forall e :: 0 <= e < MatchLen(r, t).value ==> !Matches(r, t[..e])
    ensures MatchLen(r, t).None? ==> forall e :: 0 <= e <= |t| ==> !Matches(r, t[..e])
  {
    if MatchLen(r, t).Some? {
      MatchLenSound(r, t);
    }
    forall e | 0 <= e <= |t| && Matches(r, t[..e])
      ensures MatchLen(r, t).Some? && MatchLen(r, t).value <= e
    {
      MatchesForcesMatch(r, t, e);
    }
  }

  // ---------------------------------------------------------------------
  // re.sub

  /** `re.sub(pattern, Replacement(r), t)`: scanning left to right, each
      leftmost match is replaced and the scan resumes after it; every other
      character is copied. */
  function Sub(r: Rule, t: string): string
    decreases |t|
  {
    if t == [] then []
    else match MatchLen(r, t)
      case Some(e) => Replacement(r) + Sub(r, t[e..])
      case None => [t[0]] + Sub(r, t[1..])
  }

  /** The pattern matches nowhere in `t`. */
  predicate NoMatch(r: Rule, t: string) {
    forall i :: 0 <= i <= |t| ==> MatchLen(r, t[i..]).None?
  }

  /** A match starts with the rule's name. */
  lemma {:induction false} MatchStartsWithName(r: Rule, t: string)
    ensures MatchLen(r, t).Some? ==> |r.name| <= |t| && t[..|r.name|] == r.name
  {
    if MatchLen(r, t).Some? {
      assert OpenQuote(r, t).Some?;
    }
  }

  /** A rule matches nowhere in a text where its name does not occur. */
  lemma {:induction false} NameAbsentNoMatch(r: Rule, t: string)
    requires !Contains(t, r.name)
    ensures NoMatch(r, t)
  {
    forall i | 0 <= i <= |t| ensures MatchLen(r, t[i..]).None? {
      MatchNeedsName(r, t, i);
    }
  }

  /** A rule matches nowhere in a text lacking one of its name's letters. */
  lemma {:induction false} MissingLetterNoMatch(r: Rule, t: string, j: nat)
    requires j < |r.name| && r.name[j] !in t
    ensures NoMatch(r, t)
  {
    ContainedChars(t, r.name, r.name[j]);
    NameAbsentNoMatch(r, t);
  }

  lemma {:induction false} MatchNeedsName(r: Rule, t: string, i: nat)
    requires i <= |t|
    ensures MatchLen(r, t[i..]).Some? ==> Contains(t, r.name)
  {
    MatchStartsWithName(r, t[i..]);
    if MatchLen(r, t[i..]).Some? {
      assert t[i..][..|r.name|] == t[i..i + |r.name|];
      ContainsAt(t, r.name, i);
    }
  }

  /** Putting text that lacks the first letter of the rule's name in front
      of a text the rule does not match gives a text it does not match. */
  lemma {:induction false} NoMatchAfterPrefix(r: Rule, p: string, t: string)
    requires |r.name| > 0 && r.name[0] !in p && NoMatch(r, t)
    ensures NoMatch(r, p + t)
  {
    var u := p + t;
    forall i | 0 <= i <= |u| ensures MatchLen(r, u[i..]).None? {
      if i < |p| {
        assert u[i..][0] == p[i];
        MatchStartsWithName(r, u[i..]);
      } else {
        assert u[i..] == t[i - |p|..];
      }
    }
  }

  /** Characters before the first match are copied unchanged. */
  lemma {:induction false} SubCopiesPrefix(r: Rule, t: string, i: nat)
    requires i <= |t|
    requires forall j :: 0 <= j < i ==> MatchLen(r, t[j..]).None?
    ensures Sub(r, t) == t[..i] + Sub(r, t[i..])
    decreases i
  {
    if i > 0 {
      assert t[0..] == t;
      var u := t[1..];
      forall j | 0 <= j < i - 1 ensures MatchLen(r, u[j..]).None? {
        assert u[j..] == t[j + 1..];
      }
      SubCopiesPrefix(r, u, i - 1);
      SubStepCopy(r, t);
      PrefixJoin(t, i, Sub(r, t), Sub(r, u), Sub(r, u[i - 1..]));
      assert u[i - 1..] == t[i..];
    }
  }

  lemma {:induction false} PrefixJoin(t: string, i: nat, whole: string, rest: string, tail: string)
    requires 0 < i <= |t|
    requires whole == [t[0]] + rest && rest == t[1..][..i - 1] + tail
    ensures whole == t[..i] + tail
  {
    assert [t[0]] + t[1..][..i - 1] == t[..i];
  }

  /** The leftmost match is replaced by the rule's replacement text, the
      text before it is copied, and the scan resumes right after it. */
  lemma {:induction false} SubLeftmost(r: Rule, t: string, i: nat, e: nat)
    requires i <= |t|
    requires forall j :: 0 <= j < i ==> MatchLen(r, t[j..]).None?
    requires MatchLen(r, t[i..]) == Some(e)
    ensures Sub(r, t) == t[..i] + Replacement(r) + Sub(r, t[i + e..])
  {
    SubCopiesPrefix(r, t, i);
    assert t[i..][e..] == t[i + e..];
  }

  /** With no match, `re.sub` returns its input. */
  lemma {:induction false} SubIdentity(r: Rule, t: string)
    requires NoMatch(r, t)
    ensures Sub(r, t) == t
  {
    SubCopiesPrefix(r, t, |t|);
    assert t[|t|..] == [];
    assert t[..|t|] == t;
  }

  /** The matched text always differs from the replacement text within the
      first characters after the name: a match has a quote right after
      `=` and optional whitespace, the replacement has ` = o`. */
  lemma {:induction false} ReplacementDiffers(r: Rule, t: string)
    requires WellFormed(r) && MatchLen(r, t).Some?
    ensures exists k :: 0 <= k < |t| && k < |Replacement(r)| && t[k] != Replacement(r)[k]
  {
    var n := |r.name|;
    var rep := Replacement(r);
    var a := SkipWs(t, n);
    var b := SkipWs(t, a + 1);
    assert rep[n] == ' ' && rep[n + 1] == '=' && rep[n + 2] == ' ' && rep[n + 3] == 'o';
    if a == n {
      assert t[n] != rep[n];
    } else if a >= n + 2 {
      assert IsWs(t[n + 1]);
      assert t[n + 1] != rep[n + 1];
    } else if b == n + 2 {
      assert t[n + 2] != rep[n + 2];
    } else {
      assert IsWs(t[n + 3]) || IsQuote(t[n + 3]);
      assert t[n + 3] != rep[n + 3];
    }
  }

  /** A match anywhere makes `re.sub` change the text. */
  lemma {:induction false} SubChangesAt(r: Rule, t: string, i: nat)
    requires WellFormed(r) && i <= |t| && MatchLen(r, t[i..]).Some?
    ensures Sub(r, t) != t
    decreases i
  {
    if MatchLen(r, t).Some? {
      SubChangesAtStart(r, t);
    } else {
      assert i > 0 by { assert t[0..] == t; }
      assert t[1..][i - 1..] == t[i..];
      SubChangesAt(r, t[1..], i - 1);
      SubChangesAfterCopy(r, t);
    }
  }

  lemma {:induction false} SubChangesAfterCopy(r: Rule, t: string)
    requires t != [] && MatchLen(r, t).None? && Sub(r, t[1..]) != t[1..]
    ensures Sub(r, t) != t
  {
    SubStepCopy(r, t);
    ConsDiffers(t[0], Sub(r, t[1..]), t[1..]);
    assert t == [t[0]] + t[1..];
  }

  lemma {:induction false} ConsDiffers(c: char, x: string, y: string)
    requires x != y
    ensures [c] + x != [c] + y
  {
    assert ([c] + x)[1..] == x;
    assert ([c] + y)[1..] == y;
  }

  /** Where no match starts, `re.sub` copies one character and moves on. */
  lemma {:induction false} SubStepCopy(r: Rule, t: string)
    requires t != [] && MatchLen(r, t).None?
    ensures Sub(r, t) == [t[0]] + Sub(r, t[1..])
  {
  }

  lemma {:induction false} SubChangesAtStart(r: Rule, t: string)
    requires WellFormed(r) && MatchLen(r, t).Some?
    ensures Sub(r, t) != t
  {
    ReplacementDiffers(r, t);
    var k :| 0 <= k < |t| && k < |Replacement(r)| && t[k] != Replacement(r)[k];
    var e := MatchLen(r, t).value;
    assert Sub(r, t) == Replacement(r) + Sub(r, t[e..]);
    assert Sub(r, t)[k] == Replacement(r)[k];
  }

  /** `re.sub` with a rule changes the text exactly when its pattern matches
      somewhere in it. */
  lemma {:induction false} SubChangesIff(r: Rule, t: string)
    requires WellFormed(r)
    ensures Sub(r, t) != t <==> !NoMatch(r, t)
  {
    if NoMatch(r, t) {
      SubIdentity(r, t);
    } else {
      var i :| 0 <= i <= |t| && MatchLen(r, t[i..]).Some?;
      SubChangesAt(r, t, i);
    }
  }

  lemma {:induction false} ReplacementSuffixNoMatch(r: Rule, i: nat)
    requires WellFormed(r) && i <= |Replacement(r)|
    requires forall k :: 0 <= k < |Replacement(r)| && k != |r.name| + 1 ==> Replacement(r)[k] != '='
    ensures MatchLen(r, Replacement(r)[i..]).None?
  {
    var rep := Replacement(r);
    var t := rep[i..];
    var n := |r.name|;
    assert rep[n + 2] == ' ' && rep[n + 3] == 'o';
    if n <= |t| && t[..n] == r.name {
      var a := SkipWs(t, n);
      if a < |t| && t[a] == '=' {
        assert t[a] == rep[i + a];
        assert i + a == n + 1;
        assert t[a + 1] == rep[n + 2];
        assert t[a + 2] == rep[n + 3];
        assert SkipWs(t, a + 1) == a + 2;
      }
    }
  }

  /** The replacement text contains no match of its own rule's pattern:
      its only `=` is followed by ` o`, never by a quote. */
  lemma {:induction false} ReplacementHasNoMatch(r: Rule)
    requires WellFormed(r)
    ensures NoMatch(r, Replacement(r))
    ensures Sub(r, Replacement(r)) == Replacement(r)
  {
    var rep := Replacement(r);
    var n := |r.name|;
    forall k | 0 <= k < |rep| && k != n + 1 ensures rep[k] != '=' {
      if k < n {
        assert rep[k] == r.name[k];
      } else if k >= n + 3 {
        assert rep[k] == r.call[k - n - 3];
      }
    }
    forall i | 0 <= i <= |rep| ensures MatchLen(r, rep[i..]).None? {
      ReplacementSuffixNoMatch(r, i);
    }
    SubIdentity(r, rep);
  }
}
