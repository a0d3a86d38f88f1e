/** Rewriting scripts on disk: the backup-and-write decision for one file,
    and the driver that runs it over a list of scripts and counts the files
    it updated. The disk is a map from path to contents.

    The disk-level functions and lemmas are stated for any text rewrite
    `rw`; the methods use the rewriter's `Transform`. */
module CredentialFiles {
  import opened Rewriter

  /** The files the script can see, by path. */
  class FileSystem {
    var files: map<string, string>

    constructor (initial: map<string, string>)
      ensures files == initial
    {
      files := initial;
    }

    /** `open(path, 'w').write(data)`: creates or overwrites one file. */
    method Write(path: string, data: string)
      modifies this
      ensures files == old(files)[path := data]
    {
      files := files[path := data];
    }
  }

  function BackupName(f: string): string {
    f + ".backup"
  }

  /** The file exists and the rewrite changes it. */
  predicate Changes(files: map<string, string>, f: string, rw: string -> string) {
    f in files && rw(files[f]) != files[f]
  }

  /** The disk after updating file `f`: when the rewrite changes it, the
      original goes to the backup and the rewritten text to the file. */
  function UpdatedFiles(files: map<string, string>, f: string, rw: string -> string): map<string, string> {
    if Changes(files, f, rw) then files[BackupName(f) := files[f]][f := rw(files[f])]
    else files
  }

  /** What one update leaves on disk: the file holds its rewrite whether
      or not it was written; a rewritten file has its original in the
      backup; no other path is touched, and a missing file changes nothing. */
  lemma {:induction false} UpdatedFilesSpec(files: map<string, string>, f: string, rw: string -> string)
    ensures f !in files ==> UpdatedFiles(files, f, rw) == files
    ensures f in files ==> f in UpdatedFiles(files, f, rw) && UpdatedFiles(files, f, rw)[f] == rw(files[f])
    ensures Changes(files, f, rw) ==>
      && BackupName(f) in UpdatedFiles(files, f, rw)
      && UpdatedFiles(files, f, rw)[BackupName(f)] == files[f]
      && UpdatedFiles(files, f, rw).Keys == files.Keys + {f, BackupName(f)}
    ensures !Changes(files, f, rw) ==> UpdatedFiles(files, f, rw) == files
    ensures forall g :: g != f && g != BackupName(f) && g in files ==>
      g in UpdatedFiles(files, f, rw) && UpdatedFiles(files, f, rw)[g] == files[g]
  {
    if Changes(files, f, rw) {
      BackupIsAnotherFile(f);
    }
  }

  lemma {:induction false} BackupIsAnotherFile(f: string)
    ensures BackupName(f) != f
  {
    assert |BackupName(f)| == |f| + 7;
  }

  /** `update_credentials_in_file`: returns whether the file was rewritten. */
  method UpdateCredentialsInFile(fs: FileSystem, filename: string) returns (updated: bool)
    modifies fs
    ensures updated == Changes(old(fs.files), filename, Transform)
    ensures fs.files == UpdatedFiles(old(fs.files), filename, Transform)
  {
    if filename !in fs.files {
      return false;
    }
    var content := fs.files[filename];
    var original := content;
    content := ImportStep.AddImport(content);
    content := CredentialRules.ApplyRules(CredentialRules.Rules, content);
    content := Validation.InsertValidation(content);
    if content != original {
      fs.Write(BackupName(filename), original);
      fs.Write(filename, content);
      updated := true;
    } else {
      updated := false;
    }
  }

  /** The disk after updating each script in turn. */
  function RunScripts(files: map<string, string>, scripts: seq<string>, rw: string -> string): map<string, string>
    decreases |scripts|
  {
    if scripts == [] then files
    else RunScripts(UpdatedFiles(files, scripts[0], rw), scripts[1..], rw)
  }

  /** How many of the updates rewrote their file. */
  function CountUpdated(files: map<string, string>, scripts: seq<string>, rw: string -> string): nat
    decreases |scripts|
  {
    if scripts == [] then 0
    else if Changes(files, scripts[0], rw) then 1 + CountUpdated(UpdatedFiles(files, scripts[0], rw), scripts[1..], rw)
    else CountUpdated(files, scripts[1..], rw)
  }

  /** The disk `cur` and the count so far account for the whole run once
      scripts `i..` are still to come. */
  predicate Accounts(files: map<string, string>, scripts: seq<string>, i: nat, rw: string -> string,
                     cur: map<string, string>, count: nat)
    requires i <= |scripts|
  {
    && RunScripts(cur, scripts[i..], rw) == RunScripts(files, scripts, rw)
    && count + CountUpdated(cur, scripts[i..], rw) == CountUpdated(files, scripts, rw)
  }

  /** One turn of `main`'s loop keeps what is still to come in step: if
      the disk `before` and the count so far account for the whole run,
      then after updating script `i` the new disk and count account for it
      from `i + 1` on. */
  lemma {:induction false} LoopStep(files: map<string, string>, scripts: seq<string>, i: nat, rw: string -> string,
                                    before: map<string, string>, count: nat, updated: bool)
    requires i < |scripts|
    requires RunScripts(before, scripts[i..], rw) == RunScripts(files, scripts, rw)
    requires count + CountUpdated(before, scripts[i..], rw) == CountUpdated(files, scripts, rw)
    requires updated == Changes(before, scripts[i], rw)
    ensures RunScripts(UpdatedFiles(before, scripts[i], rw), scripts[i + 1..], rw) == RunScripts(files, scripts, rw)
    ensures (if updated then count + 1 else count) + CountUpdated(UpdatedFiles(before, scripts[i], rw), scripts[i + 1..], rw)
      == CountUpdated(files, scripts, rw)
  {
    assert scripts[i..][0] == scripts[i];
    assert scripts[i..][1..] == scripts[i + 1..];
  }

  /** One turn of the loop, on the disk: update script `i` and keep the
      account of the run. */
  method UpdateNext(fs: FileSystem, scripts: seq<string>, i: nat, count: nat, ghost files: map<string, string>)
    returns (count': nat)
    requires i < |scripts| && Accounts(files, scripts, i, Transform, fs.files, count)
    modifies fs
    ensures Accounts(files, scripts, i + 1, Transform, fs.files, count')
  {
    ghost var before := fs.files;
    var updated := UpdateCredentialsInFile(fs, scripts[i]);
    LoopStep(files, scripts, i, Transform, before, count, updated);
    count' := if updated then count + 1 else count;
  }

  /** The loop of `main`: update each script and count the updated ones;
      the closing hint is shown exactly when some file was updated. */
  method UpdateAll(fs: FileSystem, scripts: seq<string>) returns (updatedCount: nat, nextSteps: bool)
    modifies fs
    ensures updatedCount == CountUpdated(old(fs.files), scripts, Transform)
    ensures fs.files == RunScripts(old(fs.files), scripts, Transform)
    ensures nextSteps <==> updatedCount > 0
  {
    updatedCount := 0;
    var i := 0;
    while i < |scripts|
      invariant 0 <= i <= |scripts|
      invariant Accounts(old(fs.files), scripts, i, Transform, fs.files, updatedCount)
      decreases |scripts| - i
    {
      updatedCount := UpdateNext(fs, scripts, i, updatedCount, old(fs.files));
      i := i + 1;
    }
    assert scripts[i..] == [];
    nextSteps := updatedCount > 0;
  }

  /** The two harmonization scripts `main` updates. */
  const HarmonizationScripts := ["IM_Data_Harmonization.py", "IM_Supervision_Harmonization.py"]

  /** `main`. */
  method UpdateHarmonizationScripts(fs: FileSystem) returns (updatedCount: nat, nextSteps: bool)
    modifies fs
    ensures updatedCount == CountUpdated(old(fs.files), HarmonizationScripts, Transform)
    ensures fs.files == RunScripts(old(fs.files), HarmonizationScripts, Transform)
    ensures updatedCount <= 2 && (nextSteps <==> updatedCount > 0)
  {
    updatedCount, nextSteps := UpdateAll(fs, HarmonizationScripts);
    CountBound(old(fs.files), HarmonizationScripts, Transform);
  }

  /** At most one update per script is counted. */
  lemma {:induction false} CountBound(files: map<string, string>, scripts: seq<string>, rw: string -> string)
    ensures CountUpdated(files, scripts, rw) <= |scripts|
    decreases |scripts|
  {
    if scripts != [] {
      CountBound(UpdatedFiles(files, scripts[0], rw), scripts[1..], rw);
    }
  }

  /** A count of zero means the disk was left exactly as it was. */
  lemma {:induction false} CountZeroUnchanged(files: map<string, string>, scripts: seq<string>, rw: string -> string)
    requires CountUpdated(files, scripts, rw) == 0
    ensures RunScripts(files, scripts, rw) == files
    decreases |scripts|
  {
    if scripts != [] {
      assert !Changes(files, scripts[0], rw);
      CountZeroUnchanged(UpdatedFiles(files, scripts[0], rw), scripts[1..], rw);
    }
  }

  /** Scripts that do not exist are reported and skipped. */
  lemma {:induction false} MissingScriptsSkipped(files: map<string, string>, scripts: seq<string>, rw: string -> string)
    requires forall i :: 0 <= i < |scripts| ==> scripts[i] !in files
    ensures CountUpdated(files, scripts, rw) == 0 && RunScripts(files, scripts, rw) == files
    decreases |scripts|
  {
    if scripts != [] {
      assert UpdatedFiles(files, scripts[0], rw) == files;
      MissingScriptsSkipped(files, scripts[1..], rw);
    }
  }

  /** Two scripts that are neither the same file nor each other's backup
      are updated independently: each ends up holding its own rewrite,
      and the number counted is the number of them the rewrite changes. */
  lemma {:induction false} RunTwo(files: map<string, string>, a: string, b: string, rw: string -> string)
    requires a != b && a != BackupName(b) && b != BackupName(a)
    ensures var out := RunScripts(files, [a, b], rw);
      && (a in files ==> a in out && out[a] == rw(files[a]))
      && (b in files ==> b in out && out[b] == rw(files[b]))
      && CountUpdated(files, [a, b], rw) == (if Changes(files, a, rw) then 1 else 0) + (if Changes(files, b, rw) then 1 else 0)
  {
    var mid := UpdatedFiles(files, a, rw);
    var out := UpdatedFiles(mid, b, rw);
    assert [a, b][1..] == [b];
    assert [b][1..] == [];
    assert RunScripts(files, [a, b], rw) == RunScripts(mid, [b], rw);
    assert RunScripts(mid, [b], rw) == RunScripts(out, [], rw) == out;
    UpdatedFilesSpec(files, a, rw);
    UpdatedFilesSpec(mid, b, rw);
    assert b in mid <==> b in files;
    assert b in files ==> mid[b] == files[b];
    assert Changes(mid, b, rw) == Changes(files, b, rw);
    assert CountUpdated(files, [a, b], rw) == (if Changes(files, a, rw) then 1 else 0) + CountUpdated(mid, [b], rw);
    assert CountUpdated(mid, [b], rw) == (if Changes(mid, b, rw) then 1 else 0) + CountUpdated(out, [], rw);
  }

  /** The two harmonization scripts are updated independently. */
  lemma {:induction false} HarmonizationScriptsIndependent(files: map<string, string>)
    ensures var a := HarmonizationScripts[0]; var b := HarmonizationScripts[1];
      var out := RunScripts(files, HarmonizationScripts, Transform);
      && (a in files ==> a in out && out[a] == Transform(files[a]))
      && (b in files ==> b in out && out[b] == Transform(files[b]))
  {
    var a := HarmonizationScripts[0];
    var b := HarmonizationScripts[1];
    assert a[3] != b[3] && |a| != |b| && |BackupName(a)| != |a|;
    assert BackupName(a)[3] != b[3];
    assert HarmonizationScripts == [a, b];
    RunTwo(files, a, b, Transform);
  }
}
