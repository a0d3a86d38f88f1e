/** The first stage of the rewriter: make sure the file imports `os`. */
module ImportStep {
  import opened Text
  import opened Patterns

  const ImportOs := "import os"

  /** `p` is where a line begins: the start of the text or just after a
      newline (`^` under `re.MULTILINE`). */
  predicate LineStart(s: string, p: nat) {
    p <= |s| && (p == 0 || s[p - 1] == '\n')
  }

  /** `^(import .+)$` matches at `p`: a line that starts with `import ` and
      has at least one more character on it. The greedy `.+` then runs to
      the end of the line, where `$` matches. */
  predicate ImportLineAt(s: string, p: nat) {
    LineStart(s, p) && p + 7 < LineEnd(s, p) && s[p..p + 7] == "import "
  }

  /** `re.search(r'^(import .+)$', s, re.MULTILINE)` from index `p`: the
      first line at or after `p` that is an import line. */
  function FirstImportLine(s: string, p: nat): (r: Option<nat>)
    ensures r.Some? ==> p <= r.value && ImportLineAt(s, r.value)
    ensures r.Some? ==> forall q :: p <= q < r.value ==> !ImportLineAt(s, q)
    ensures r.None? ==> forall q :: p <= q ==> !ImportLineAt(s, q)
    decreases |s| - p
  {
    if p >= |s| then None
    else if ImportLineAt(s, p) then Some(p)
    else FirstImportLine(s, p + 1)
  }

  /** The text of the import line found at `p` (`group(0)`). */
  function ImportLine(s: string, p: nat): (l: string)
    requires ImportLineAt(s, p)
    ensures |l| >= 8 && l[..7] == "import " && NoNewline(l)
  {
    NoNewlineSlice(s, p, LineEnd(s, p));
    s[p..LineEnd(s, p)]
  }

  /** When the text lacks `import os`: every occurrence of the first import
      line gets `\nimport os` appended (`str.replace` rewrites them all), or
      with no import line `import os` becomes the first line. */
  function AddImport(s: string): string {
    if Contains(s, ImportOs) then s
    else match FirstImportLine(s, 0)
      case None => ImportOs + "\n" + s
      case Some(p) =>
        var l := ImportLine(s, p);
        Replace(s, l, l + "\n" + ImportOs)
  }

  /** Afterwards the text always contains `import os`. */
  lemma {:induction false} AddImportContains(s: string)
    ensures Contains(AddImport(s), ImportOs)
  {
    if !Contains(s, ImportOs) {
      match FirstImportLine(s, 0)
      case None =>
        ContainsAt(AddImport(s), ImportOs, 0);
      case Some(p) =>
        var l := ImportLine(s, p);
        assert OccursAt(s, l, p);
        ReplaceInserts(s, l, l + "\n" + ImportOs, p);
        ContainsParts(AddImport(s), l + "\n", ImportOs);
    }
  }

  /** The stage changes the text exactly when `import os` is missing.
      Any text containing `import os`, also as part of `import osmnx` or
      of a comment, counts as present. */
  lemma {:induction false} AddImportUnchangedIff(s: string)
    ensures AddImport(s) == s <==> Contains(s, ImportOs)
  {
    AddImportContains(s);
  }

  /** A second pass adds no second `import os`. */
  lemma {:induction false} AddImportIdempotent(s: string)
    ensures AddImport(AddImport(s)) == AddImport(s)
  {
    AddImportContains(s);
  }

  /** An import line needs `import ` in the text. */
  lemma {:induction false} ImportLineNeedsKeyword(s: string)
    ensures FirstImportLine(s, 0).Some? ==> Contains(s, "import ")
  {
    if FirstImportLine(s, 0).Some? {
      ContainsAt(s, "import ", FirstImportLine(s, 0).value);
    }
  }

  /** When `import os` is missing the stage lengthens the text: it never
      drops anything, it only adds. */
  lemma {:induction false} AddImportLengthens(s: string)
    requires !Contains(s, ImportOs)
    ensures |AddImport(s)| > |s|
  {
    match FirstImportLine(s, 0)
    case None =>
    case Some(p) =>
      var l := ImportLine(s, p);
      assert OccursAt(s, l, p);
      ContainsAt(s, l, p);
      ReplaceLength(s, l, l + "\n" + ImportOs);
  }

  /** With an import line `l`, the text up to the first occurrence of `l`
      (which is never after that line) is kept, `l` is followed by a new
      line holding `import os`, and the rest is rewritten the same way. */
  lemma {:induction false} AddImportAfterFirstImport(s: string) returns (k: nat, l: string)
    requires !Contains(s, ImportOs) && FirstImportLine(s, 0).Some?
    ensures l == ImportLine(s, FirstImportLine(s, 0).value)
    ensures Find(s, l, 0) == Some(k) && k <= FirstImportLine(s, 0).value
    ensures AddImport(s) == s[..k] + (l + "\n" + ImportOs) + Replace(s[k + |l|..], l, l + "\n" + ImportOs)
  {
    var p := FirstImportLine(s, 0).value;
    l := ImportLine(s, p);
    assert OccursAt(s, l, p);
    k := Find(s, l, 0).value;
    ReplaceFirst(s, l, l + "\n" + ImportOs, k);
  }
}
