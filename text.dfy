/** Python `str` operations the rewriter relies on: `in`, `find`, `rfind`
    and `replace`, over strings of Unicode code points. */
module Text {

  datatype Option<T> = None | Some(value: T)

  /** `p` occurs in `s` starting at index `k`. */
  predicate OccursAt(s: string, p: string, k: int) {
    0 <= k && k + |p| <= |s| && s[k..k + |p|] == p
  }

  /** `s.find(p, i)`: the least index at or after `i` where `p` occurs. */
  function Find(s: string, p: string, i: nat): (r: Option<nat>)
    ensures r.Some? ==> i <= r.value && OccursAt(s, p, r.value)
    ensures r.Some? ==> forall k :: i <= k < r.value ==> !OccursAt(s, p, k)
    ensures r.None? ==> forall k :: i <= k ==> !OccursAt(s, p, k)
    decreases |s| - i
  {
    if i + |p| > |s| then None
    else if s[i..i + |p|] == p then Some(i)
    else Find(s, p, i + 1)
  }

  /** `p in s`. */
  predicate Contains(s: string, p: string) {
    Find(s, p, 0).Some?
  }

  lemma {:induction false} ContainsIff(s: string, p: string)
    ensures Contains(s, p) <==> exists k :: OccursAt(s, p, k)
  {
    if Contains(s, p) {
      assert OccursAt(s, p, Find(s, p, 0).value);
    }
  }

  lemma {:induction false} ContainsAt(s: string, p: string, k: int)
    requires OccursAt(s, p, k)
    ensures Contains(s, p)
  {
    ContainsIff(s, p);
  }

  /** An occurrence in the suffix from `i` is an occurrence in `s`, shifted
      by `i`. */
  lemma {:induction false} SuffixOccurrence(s: string, p: string, i: nat, j: nat)
    requires i <= |s|
    ensures OccursAt(s[i..], p, j) <==> OccursAt(s, p, i + j)
  {
    if i + j + |p| <= |s| {
      assert s[i..][j..j + |p|] == s[i + j..i + j + |p|];
    }
  }

  /** `s.find(p, i)` succeeds exactly when the suffix from `i` contains
      `p`. */
  lemma {:induction false} FindFromIsSuffix(s: string, p: string, i: nat)
    requires i <= |s|
    ensures Find(s, p, i).Some? <==> Contains(s[i..], p)
  {
    ContainsIff(s[i..], p);
    if Find(s, p, i).Some? {
      var k := Find(s, p, i).value;
      SuffixOccurrence(s, p, i, k - i);
    } else {
      forall j: nat | OccursAt(s[i..], p, j) ensures false {
        SuffixOccurrence(s, p, i, j);
      }
    }
  }

  /** The greatest index at or below `k` where `p` occurs, or -1. */
  function RFindFrom(s: string, p: string, k: int): (r: int)
    ensures r == -1 || (0 <= r <= k && OccursAt(s, p, r))
    ensures forall j :: r < j <= k ==> !OccursAt(s, p, j)
    decreases k + 1
  {
    if k < 0 then -1
    else if OccursAt(s, p, k) then k
    else RFindFrom(s, p, k - 1)
  }

  /** `s.rfind(p)`: the greatest index where `p` occurs, or -1 when it does not. */
  function RFind(s: string, p: string): (r: int)
    ensures r == -1 || OccursAt(s, p, r)
    ensures forall j :: r < j ==> !OccursAt(s, p, j)
    ensures r == -1 <==> !Contains(s, p)
  {
    ContainsIff(s, p);
    RFindFrom(s, p, |s| - |p|)
  }

  /** `s.replace(p, q)`: the first occurrence of `p` is replaced by `q` and
      the search resumes right after it, so occurrences are replaced left to
      right and never overlap. The rewriter only ever replaces a non-empty
      pattern. */
  function Replace(s: string, p: string, q: string): string
    requires |p| > 0
    decreases |s|
  {
    match Find(s, p, 0)
    case None => s
    case Some(k) => s[..k] + q + Replace(s[k + |p|..], p, q)
  }

  /** Text before the first occurrence is copied, that occurrence becomes
      `q`, and the search resumes right after it. */
  lemma {:induction false} ReplaceFirst(s: string, p: string, q: string, k: nat)
    requires |p| > 0 && Find(s, p, 0) == Some(k)
    ensures Replace(s, p, q) == s[..k] + q + Replace(s[k + |p|..], p, q)
  {
  }

  /** If `p` occurs in `s` then `q` occurs in `s.replace(p, q)`, at the
      first occurrence of `p`; the text before that occurrence is kept. */
  lemma {:induction false} ReplaceInserts(s: string, p: string, q: string, k: int)
    requires |p| > 0 && OccursAt(s, p, k)
    ensures Contains(Replace(s, p, q), q)
    ensures var f := Find(s, p, 0).value; Replace(s, p, q)[..f] == s[..f]
  {
    var f := Find(s, p, 0).value;
    var r := Replace(s, p, q);
    assert r[f..f + |q|] == q;
    ContainsAt(r, q, f);
  }

  /** A character of `p` is a character of every string containing `p`. */
  lemma {:induction false} ContainedChars(s: string, p: string, c: char)
    requires c in p
    ensures Contains(s, p) ==> c in s
  {
    if Contains(s, p) {
      var k := Find(s, p, 0).value;
      var j :| 0 <= j < |p| && p[j] == c;
      assert s[k + j] == s[k..k + |p|][j];
    }
  }

  /** `replace` by a text at least as long as the pattern never shortens
      the text, and lengthens it when the pattern occurs and the
      replacement is longer. */
  lemma {:induction false} ReplaceLength(s: string, p: string, q: string)
    requires 0 < |p| <= |q|
    ensures |Replace(s, p, q)| >= |s|
    ensures Contains(s, p) && |p| < |q| ==> |Replace(s, p, q)| > |s|
    decreases |s|
  {
    match Find(s, p, 0)
    case None =>
    case Some(k) =>
      ReplaceLength(s[k + |p|..], p, q);
  }

  /** A string containing `a + b` contains `a` and `b`. */
  lemma {:induction false} ContainsParts(s: string, a: string, b: string)
    requires Contains(s, a + b)
    ensures Contains(s, a) && Contains(s, b)
  {
    var k := Find(s, a + b, 0).value;
    assert s[k..k + |a|] == (a + b)[..|a|] == a;
    assert s[k + |a|..k + |a| + |b|] == (a + b)[|a|..] == b;
    ContainsAt(s, a, k);
    ContainsAt(s, b, k + |a|);
  }
}
