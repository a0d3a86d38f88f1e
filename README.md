# Credential rewriter, modelled in Dafny

`update_credentials.py` is a maintenance script. It rewrites hard-coded
credential assignments in two data-harmonization scripts into
`os.environ.get(...)` lookups. The core is the function
`update_credentials_in_file` and the counting loop in `main` that calls it.
This project models that core and proves properties of the model.

For one file the script does the following:

1. When the text lacks `import os`, it adds that line. It goes after every
   copy of the first `import …` line, or at the top of the text when there
   is no import line.
2. It applies ten `re.sub` rules in order. Each rule matches an assignment
   of the shape `NAME\s*=\s*["']BODY["']` and replaces it with
   `NAME = os.environ.get(...)`.
3. When the SurveyCTO password lookup is present and the validation block
   is not, it splices that block in. The block goes just after the first
   newline at or after the last SurveyCTO or SharePoint password lookup.
4. When the text changed, it writes the original to `<file>.backup` and
   the new text to the file. It returns whether it wrote.

`main` runs this over a fixed list of two scripts and counts the updated
files. It prints the next-steps hint only when that count is non-zero.

Modules, in dependency order:

- `Text` (text.dfy): the Python `str` operations used.
  - `find` and `rfind` are defined with contracts. `in` is `find` from 0,
    characterised by `ContainsIff`.
  - `replace` is defined through `find`: leftmost occurrences, replaced
    left to right, never overlapping. Its properties are lemmas.
- `Patterns` (patterns.dfy): regular expressions and `re.sub`.
  - The shared regular-expression shape is described as data (`Rule`,
    `Body`).
  - Its language is stated declaratively (`Matches`).
  - A hand-written matcher (`MatchLen`) is proved to return the shortest
    matching prefix, and none exactly when no prefix matches. For these
    patterns that is the match Python's backtracking engine picks, because
    every quantifier in them is either lazy or stopped by a character it
    cannot consume.
  - `re.sub` is a left-to-right scan, `Sub`.
- `RuleNames` (names.dfy): the variable names and the default site URL.
- `CredentialRules` (rules.dfy): the ten rules and their composition.
- `ImportStep` (imports.dfy): the `import os` stage.
- `Validation` (validation.dfy): the validation splice.
- `Rewriter` (rewriter.dfy): the three stages composed into `Transform`,
  and a text on which running the script twice differs from running it
  once.
- `CredentialFiles` (files.dfy): the file system and the script's actions
  on it.
  - The file system is a class over a map from path to contents.
  - `UpdateCredentialsInFile` performs the backup-and-write decision.
  - `UpdateAll` and `UpdateHarmonizationScripts` are `main`'s loop.
  - Each method is proved against a function on the map (`UpdatedFiles`,
    `RunScripts`, `CountUpdated`).

Four behaviours of the code worth knowing:

- **Ten rules.** The code has ten substitution rules, applied in the order
  above.
- **A missing `import os` is a change.** The import stage runs before any
  rule. So a file that lacks `import os` is backed up and rewritten even
  when it holds no credential at all (`Rewriter.TransformChangesWithoutImport`).
- **The `username` rule also hits `sharepoint_username`.** The lower-case
  `username` rule has no word boundary, so it also rewrites an e-mail
  valued `sharepoint_username` assignment, to the SurveyCTO lookup
  (`CredentialRules.EmailRuleRewritesSharepointUsername`,
  `CredentialRules.SharepointUsernameExample`).
  The HK password rule has no word boundary either. So
  `sharepoint_password = "HELENKELLER1234"` becomes the SurveyCTO password
  lookup before the `sharepoint_password` rule runs
  (`CredentialRules.HkRuleRewritesSharepointPassword`,
  `CredentialRules.SharepointPasswordExample`). That lookup is what turns
  on the validation block (`Rewriter.HkReplacementWantsBlock`).
- **Running the script twice is not the same as running it once.**
  - The `import os` guard is a plain substring test. It can be met by text
    that a rule then deletes, for instance a password literal `"import os"`.
    The first run then emits `os.environ.get` lookups without `import os`,
    and a second run adds it (`Rewriter.TransformNotIdempotent`).
  - A single plain-literal rule is not idempotent either: a second pass can
    find a match that now runs across a quote the first pass inserted
    (`CredentialRules.PlainRulesNotIdempotent`).
  - The validation stage does stay idempotent on its own
    (`Validation.InsertBlockIdempotent`, `Rewriter.ValidationStageOnce`),
    and so does the import stage (`ImportStep.AddImportIdempotent`).
  - When a second run adds `import os` after an import line such as
    `import sys`, `replace` also rewrites the indented `import sys` inside
    an earlier validation block. The block then no longer occurs whole, so
    a second block can be spliced in. This second block is described
    here but not proved.

## Model

| member | source | states |
|---|---|---|
| Text.Find | update_credentials.py:112 | `find` returns the least index at or after the start where the pattern occurs, and none exactly when it does not occur there |
| Text.Contains | update_credentials.py:23 | `p in s`, the test at :23 and :105: `find` from 0 succeeds |
| Text.ContainsIff | update_credentials.py:23 | `p in s` holds exactly when `p` occurs at some index of `s` |
| Text.RFind | update_credentials.py:107-110 | `rfind` returns an occurrence with no later one, and -1 exactly when the pattern is absent |
| Text.FindFromIsSuffix | update_credentials.py:112 | `find(p, i)` succeeds exactly when the suffix from `i` contains `p` |
| Text.Replace | update_credentials.py:27-30 | `s.replace(p, q)`: find the leftmost occurrence, put `q` in its place and go on right after it, so occurrences are replaced left to right without overlap |
| Text.ReplaceLength | update_credentials.py:27-30 | `replace` by a text at least as long never shortens the text, and lengthens it when the pattern occurs and the replacement is longer |
| Text.ReplaceInserts | update_credentials.py:27-30 | after `replace` of an occurring pattern the replacement occurs, and the text before the first occurrence is kept |
| Patterns.Replacement | update_credentials.py:37 | a rule's replacement text `NAME = <call>`, as at :37, :42, :49, :54, :61, :66, :73, :78, :85 and :90 |
| Patterns.LineEnd | update_credentials.py:36 | the first newline at or after an index, or the end: where `.` stops |
| Patterns.SkipWs | update_credentials.py:36 | greedy `\s*` consumes exactly the run of whitespace |
| Patterns.FirstQuote | update_credentials.py:36 | lazy `.*?["']` stops at the first quote on the line, and fails when the line has none |
| Patterns.FindOnLine | update_credentials.py:48 | lazy `.*?@` (and `.*?sharepoint\.com`) stops at the first occurrence on the same line |
| Patterns.BodyClose | update_credentials.py:36-89 | the index of the closing quote for each body sub-pattern: `.*?` (:36), `.*?@.*?` (:48), `HELENKELLER\d{4}!?` (:53) and `https://.*?sharepoint\.com.*?` (:84, :89) |
| Patterns.OpenQuote | update_credentials.py:36 | the name, greedy `\s*`, `=`, greedy `\s*` and an opening quote, at the start of the text |
| Patterns.MatchLen | update_credentials.py:35-92 | the length of a rule's match at the start of the text: its opening part, then its body up to the closing quote |
| Patterns.BodyCloseSound | update_credentials.py:36-90 | a closing quote the body matcher reports encloses a body in that sub-pattern's language |
| Patterns.BodyCloseLeast | update_credentials.py:36-90 | the body matcher succeeds whenever some body in the language is closed by a quote, and no later than that quote |
| Patterns.MatchLenSound | update_credentials.py:36-90 | a match the matcher reports is in the pattern's language |
| Patterns.MatchesForcesMatch | update_credentials.py:36-90 | every prefix in the pattern's language makes the matcher succeed, with a match no longer than it |
| Patterns.MatchLenSpec | update_credentials.py:36-90 | the matcher returns the shortest prefix in the pattern's language, and nothing exactly when no prefix is in it |
| Patterns.NameAbsentNoMatch | update_credentials.py:35-92 | a rule matches nowhere in a text where its variable name does not occur |
| Patterns.Sub | update_credentials.py:35-39 | `re.sub`: scan left to right; where a match starts, emit the rule's replacement and go on after the match; otherwise copy one character |
| Patterns.SubCopiesPrefix | update_credentials.py:35-39 | `re.sub` copies every character before the first position where a match starts |
| Patterns.SubLeftmost | update_credentials.py:35-39 | `re.sub` replaces the leftmost match by the replacement text and continues after that match |
| Patterns.SubIdentity | update_credentials.py:35-39 | `re.sub` with no match anywhere leaves the text unchanged |
| Patterns.SubChangesAt | update_credentials.py:35-39 | a match starting anywhere makes `re.sub` change the text |
| Patterns.SubChangesIff | update_credentials.py:35-39 | a rule changes the text exactly when its pattern matches somewhere in it |
| Patterns.ReplacementHasNoMatch | update_credentials.py:35-92 | a rule's own replacement text holds no match of that rule, so the rule leaves it alone |
| CredentialRules.Lookup | update_credentials.py:37 | the replacement call `os.environ.get("V")` |
| CredentialRules.LookupOr | update_credentials.py:85 | the replacement call with a fallback, `os.environ.get("V", "D")` |
| CredentialRules.Rules | update_credentials.py:35-92 | the ten rules in source order, each with its variable name, body sub-pattern and replacement call; the site-URL rules fall back to `https://hkw.sharepoint.com/teams/PBI_MER_Data` |
| CredentialRules.ApplyRules | update_credentials.py:35-92 | each rule rewrites the output of the rules before it |
| CredentialRules.RulesWellFormed | update_credentials.py:35-92 | there are ten rules; each has a non-empty name and an `os.environ` call with a quote and no `=` or newline |
| CredentialRules.ApplyRulesIdentity | update_credentials.py:35-92 | when no rule matches, the rule sequence leaves the text unchanged |
| CredentialRules.ReplacementsAreFixedPoints | update_credentials.py:35-92 | each rule leaves its own replacement text unchanged |
| CredentialRules.HkPasswordMatchShape | update_credentials.py:52-56 | the HK password rule fires only on `password`, whitespace, `=`, whitespace, a quote, `HELENKELLER`, four digits, an optional `!` and a closing quote |
| CredentialRules.SiteUrlMatchShape | update_credentials.py:83-92 | the site-URL rules fire only on the name, whitespace, `=`, whitespace and a quoted one-line `https://` value that contains `sharepoint.com` |
| CredentialRules.EmailUsernameExample | update_credentials.py:47-51 | `username = "a@b.org"` is matched whole |
| CredentialRules.EmailRuleRewritesSharepointUsername | update_credentials.py:47-75 | the lower-case `username` rule rewrites an e-mail valued `sharepoint_username` assignment to the SurveyCTO lookup |
| CredentialRules.SharepointUsernameExample | update_credentials.py:47-51 | `sharepoint_username = "a@b.org"` becomes `sharepoint_` followed by the `username` rule's replacement, the SurveyCTO lookup |
| CredentialRules.HkRuleRewritesSharepointPassword | update_credentials.py:52-80 | the HK password rule rewrites any HK-password valued `sharepoint_password` assignment to the SurveyCTO password lookup |
| CredentialRules.HkPasswordExample | update_credentials.py:52-56 | `password = "HELENKELLER1234"` is matched whole |
| CredentialRules.SharepointPasswordExample | update_credentials.py:52-56 | `sharepoint_password = "HELENKELLER1234"` becomes `sharepoint_` followed by the HK rule's replacement |
| CredentialRules.SubNotIdempotent | update_credentials.py:35-44 | for a plain-literal rule there is a text that a second `re.sub` changes again |
| CredentialRules.PlainRulesNotIdempotent | update_credentials.py:35-80 | every plain-literal rule of the ten has such a text |
| ImportStep.FirstImportLine | update_credentials.py:25 | `re.search(r'^(import .+)$', …, re.MULTILINE)` finds the first line that begins with `import ` and has more on it, and none exactly when there is none |
| ImportStep.ImportLine | update_credentials.py:28 | the matched import line begins with `import `, has more than seven characters and no newline |
| ImportStep.AddImport | update_credentials.py:23-32 | with `import os` present the text is kept; otherwise every copy of the first import line gets `\nimport os` after it, or with no import line `import os\n` goes in front |
| ImportStep.AddImportContains | update_credentials.py:23-32 | after the import stage the text contains `import os` |
| ImportStep.AddImportUnchangedIff | update_credentials.py:23 | the import stage changes the text exactly when `import os` is not in it |
| ImportStep.AddImportIdempotent | update_credentials.py:23-32 | a second import stage changes nothing |
| ImportStep.AddImportLengthens | update_credentials.py:23-32 | when `import os` is missing the stage lengthens the text |
| ImportStep.AddImportAfterFirstImport | update_credentials.py:25-30 | with an import line, the text up to its first copy is kept, that copy is followed by a line `import os`, and later copies are treated the same way |
| Validation.ValidationCode | update_credentials.py:95-102 | the inserted block, character for character, with its leading and trailing newline |
| Validation.LastLookup | update_credentials.py:107-110 | the larger of the two `rfind` results |
| Validation.InsertBlock | update_credentials.py:105-114 | the block spliced in at the insertion point, or the text unchanged when there is none |
| Validation.InsertValidation | update_credentials.py:105-114 | the splice with the SurveyCTO and SharePoint password lookups and the block above |
| Validation.WantsBlock | update_credentials.py:105 | the guard: the SurveyCTO password lookup is in the text and the block is not |
| Validation.InsertionPoint | update_credentials.py:105-113 | an insertion point lies inside the text, after its first character |
| Validation.InsertionNeedsNewline | update_credentials.py:112-114 | a block is only inserted into a text holding a newline, and the stage never shortens the text |
| Validation.InsertionPointIff | update_credentials.py:105-113 | a block is inserted exactly when the SurveyCTO lookup is present, the block is absent and a newline follows the last lookup |
| Validation.InsertionAfterFirstNewline | update_credentials.py:107-114 | the block goes just past the first newline at or after the later of the two `rfind` results |
| Validation.InsertionAfterAllLookups | update_credentials.py:107-114 | every occurrence of either lookup ends before the insertion point, which follows a newline |
| Validation.InsertBlockSplice | update_credentials.py:114 | the result is the block spliced in: removing it gives back the original text |
| Validation.InsertBlockIdempotent | update_credentials.py:105 | a second validation stage changes nothing |
| Validation.InsertBlockKeepsOneLineText | update_credentials.py:114 | any one-line text present before the splice is present after it |
| Validation.InsertValidationProperties | update_credentials.py:95-114 | the validation stage splices the block after all lookups or leaves the text alone, never fires without the SurveyCTO lookup, and runs once |
| Rewriter.Transform | update_credentials.py:20-114 | the new text: the import stage, then the ten rules in source order, then the splice |
| Rewriter.HkReplacementWantsBlock | update_credentials.py:54 | the HK rule's replacement holds the SurveyCTO password lookup, the one the test at :105 looks for before inserting the block |
| Rewriter.TransformIdentity | update_credentials.py:23-116 | a text with `import os`, no matching credential and no pending block is left unchanged |
| Rewriter.TransformChangesWithoutImport | update_credentials.py:23-116 | a text without `import os` is changed and then contains it, even with no credential in it |
| Rewriter.TransformNotIdempotent | update_credentials.py:23-114 | on a script whose only `import os` is a password literal, the output lacks `import os`, and a second run adds it and so changes the output |
| Rewriter.FirstPassDropsImport | update_credentials.py:23-44 | on that script the guard at the import stage is met, the password rule replaces the literal, and no block is inserted, so the output is the rule's replacement alone |
| Rewriter.SecondPassAddsImport | update_credentials.py:23-114 | on that output a second run returns exactly `import os`, a newline and the first output: the import goes in front, no rule matches and no block is spliced in |
| Rewriter.ValidationStageOnce | update_credentials.py:105 | the validation stage changes nothing on a transform's output |
| CredentialFiles.FileSystem.Write | update_credentials.py:119-125 | writing a file replaces that path's contents and touches no other path |
| CredentialFiles.Changes | update_credentials.py:13-116 | the file exists and its transform differs from what was read |
| CredentialFiles.UpdatedFiles | update_credentials.py:13-131 | the disk after one update: a changed file's original goes to `<file>.backup` and its new text to the file; otherwise nothing changes |
| CredentialFiles.RunScripts | update_credentials.py:142-145 | the disk after updating each script in turn |
| CredentialFiles.CountUpdated | update_credentials.py:142-145 | how many of those updates rewrote their file |
| CredentialFiles.BackupName | update_credentials.py:118 | the backup path `<file>.backup` |
| CredentialFiles.BackupIsAnotherFile | update_credentials.py:118 | the backup path differs from the file's own path |
| CredentialFiles.UpdatedFilesSpec | update_credentials.py:13-131 | a missing file changes nothing; otherwise the file holds its rewrite, a changed file has its original in the backup, and no other path is touched |
| CredentialFiles.UpdateCredentialsInFile | update_credentials.py:10-131 | returns whether the file existed and its transform differs, and leaves exactly the disk `UpdatedFiles` describes |
| CredentialFiles.LoopStep | update_credentials.py:143-145 | one turn of the loop keeps the disk and the count in step with the whole run |
| CredentialFiles.UpdateNext | update_credentials.py:143-145 | one turn of the loop: update the next script and add one to the count when it was rewritten, keeping disk and count in step with the whole run |
| CredentialFiles.UpdateAll | update_credentials.py:142-149 | the count is the number of scripts whose update rewrote them, the disk is every script updated in turn, and the hint is shown exactly when the count is positive |
| CredentialFiles.HarmonizationScripts | update_credentials.py:137-140 | the two scripts `main` updates, in order |
| CredentialFiles.UpdateHarmonizationScripts | update_credentials.py:137-149 | `main` over its two scripts: the same, with a count of at most two |
| CredentialFiles.CountBound | update_credentials.py:142-145 | at most one update is counted per script |
| CredentialFiles.CountZeroUnchanged | update_credentials.py:142-149 | a count of zero means no file on disk was changed |
| CredentialFiles.MissingScriptsSkipped | update_credentials.py:13-15 | scripts that do not exist count nothing and change nothing |
| CredentialFiles.RunTwo | update_credentials.py:143-145 | two distinct scripts that are not each other's backup are updated independently |
| CredentialFiles.HarmonizationScriptsIndependent | update_credentials.py:137-145 | each of the two harmonization scripts ends up holding its own transform |

## Left out

- The map holds each file's text as Python reads it in text mode. That
  read turns CRLF and lone CR line ends into `\n`, so the stored texts never
  hold a `\r`. The backup written at update_credentials.py:119-120 is that
  normalised text, not the original bytes. The model's backup is the stored
  text, so the model does not describe files whose bytes hold a `\r`.
- File I/O is a map from path to contents. Missing permissions, failed
  writes, a crash between the backup and the rewrite, and encodings are not
  modelled.
- `os.path.exists` is modelled as membership in the map. A directory with
  the script's name is not distinguished from a file.
- Every `print`, the emoji in the messages, and the hint text in `main` are
  left out. Only the decision to show the hint is modelled.
- `\s` and `\d` are taken as their ASCII classes. Python's `str` patterns
  also accept Unicode whitespace and Unicode decimal digits.
- What the generated code does when it runs, including the inserted
  validation block, is not modelled. The block is a constant string.
- Text.Replace: modelled only for a non-empty pattern. The rewriter never
  passes an empty one, because an import line always has more than seven
  characters.
- Rewriter.TransformChangesWithoutImport: proved only when no rule matches
  after `import os` is added. That `import os` always survives the later
  stages is not proved.
- Rewriter.TransformIdentity: states a sufficient condition for leaving a
  text alone, not a characterisation of it.
- Rewriter.TransformNotIdempotent: proves one input on which a second run
  changes the output. It states no bound on how many runs it takes to reach
  a fixed point, and it does not prove the second validation block
  described above.
