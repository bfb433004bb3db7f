/**
 * The working tree as sanitize_diff and main change it: each changed file
 * is renamed to "<path>.orig" and written anew, line by line, with the
 * recorded changes merged in; a run stops at the first change that raises.
 */
module Workspace {
  import opened Wrappers
  import opened Text
  import D = Diff
  import C = Config
  import P = Pipeline

  /** A file of the working tree: its bytes and its `st_mode` (file type and permission bits). */
  datatype File = File(content: string, mode: bv32)

  /**
   * The permission bits of the file `os.open(path, O_CREAT | O_WRONLY |
   * O_TRUNC, mode)` creates: the file type bits of `mode` are ignored,
   * the bits of the process umask are cleared, and every other permission
   * bit of `mode` is kept.
   */
  function CreatedMode(mode: bv32, umask: bv32): (m: bv32)
    ensures m & !0xFFF == 0
    ensures m & umask == 0
    ensures m & !mode == 0
    ensures mode & 0xFFF & !umask & !m == 0
  {
    mode & 0xFFF & !umask
  }

  /** With no umask, the file gets exactly the permission bits of `mode`. */
  lemma CreatedModeWithoutUmask(mode: bv32)
    ensures CreatedMode(mode, 0) == mode & 0xFFF
  {
  }

  /** `S_IFREG`: the file type bits of a regular file, the kind `os.open` with `O_CREAT` makes. */
  const RegularFile: bv32 := 0x8000

  /**
   * The `st_mode` of the rewritten file: a regular file, whatever the
   * original was, with the permission bits CreatedMode gives.
   */
  function CreatedStat(mode: bv32, umask: bv32): (st: bv32)
    ensures st & !0xFFF == RegularFile
    ensures st & 0xFFF == CreatedMode(mode, umask)
  {
    RegularFile | CreatedMode(mode, umask)
  }

  /** Where the original is kept: `'%s.orig' % file_path`. */
  function BackupPath(path: string): (b: string)
    ensures b != path && path <= b
  {
    path + ".orig"
  }

  /** The bytes written back: the original's lines with the recorded changes merged in. */
  function Rewritten(content: string, changes: map<int, string>): string {
    Concat(D.Merge(SplitLines(content), changes))
  }

  /**
   * sanitize_diff on one change, as a function of the tree before it: the
   * outcome, and the tree after it.
   */
  function ApplyChange(files: map<string, File>, change: D.FileChange, rules: seq<P.Rule>, tw: int, umask: bv32)
    : (r: (map<string, File>, D.Outcome))
    ensures var parsed := D.ParseDiff(change, rules, tw);
      r.1 == if parsed.Rewrite? && parsed.path !in files then D.Crashed(D.MissingFile) else parsed
    ensures !r.1.Rewrite? ==> r.0 == files
    ensures r.1.Rewrite? ==>
      var path := r.1.path;
      && path in files
      && r.0.Keys == files.Keys + {BackupPath(path)}
      && r.0[BackupPath(path)] == files[path]
      && r.0[path] == File(Rewritten(files[path].content, r.1.changes), CreatedStat(files[path].mode, umask))
      && (forall q :: q in files && q != path && q != BackupPath(path) ==> r.0[q] == files[q])
  {
    match D.ParseDiff(change, rules, tw)
    case Rewrite(path, changes) =>
      if path !in files then (files, D.Crashed(D.MissingFile))
      else
        var original := files[path];
        ((files - {path})[BackupPath(path) := original][path := File(Rewritten(original.content, changes), CreatedStat(original.mode, umask))],
         D.Rewrite(path, changes))
    case o => (files, o)
  }

  /**
   * The `map` over the changes: each applied in turn, stopping at the first
   * crash. No file of the tree is ever removed: a rewritten file's original
   * is kept under its backup name.
   */
  function RunChanges(files: map<string, File>, changes: seq<D.FileChange>, rules: seq<P.Rule>, tw: int, umask: bv32)
    : (r: (map<string, File>, Option<D.Crash>))
    ensures files.Keys <= r.0.Keys
    ensures r.1.Some? ==> |changes| > 0
    decreases |changes|
  {
    if changes == [] then (files, None)
    else
      var step := ApplyChange(files, changes[0], rules, tw, umask);
      if step.1.Crashed? then (step.0, Some(step.1.what))
      else RunChanges(step.0, changes[1..], rules, tw, umask)
  }

  /** One step of the run at position i. */
  lemma RunChangesUnfold(files: map<string, File>, changes: seq<D.FileChange>, i: nat, rules: seq<P.Rule>, tw: int, umask: bv32)
    requires i < |changes|
    ensures var step := ApplyChange(files, changes[i], rules, tw, umask);
      RunChanges(files, changes[i..], rules, tw, umask)
        == if step.1.Crashed? then (step.0, Some(step.1.what)) else RunChanges(step.0, changes[i + 1..], rules, tw, umask)
  {
    assert changes[i..][0] == changes[i] && changes[i..][1..] == changes[i + 1..];
  }

  /** How a run ends. */
  datatype RunResult = Refused(error: C.ConfigError) | Finished | Aborted(crash: D.Crash)

  /**
   * main after the repository is found: configure, and when that succeeds
   * sanitize the added and then the modified files.
   */
  function Run(files: map<string, File>, setting: Option<string>, cli: C.CliArgs, changes: seq<D.FileChange>, umask: bv32)
    : (r: (map<string, File>, RunResult))
    ensures r.1.Refused? <==> C.Conflicting(C.ResolveWhitespace(setting).flags)
    ensures r.1.Refused? ==> r.0 == files
  {
    match C.Configure(setting, cli)
    case Failure(e) => (files, Refused(e))
    case Success(setup) =>
      var run := RunChanges(files, changes, setup.rules, setup.tabWidth, umask);
      (run.0, if run.1.Some? then Aborted(run.1.value) else Finished)
  }

  /** Changes that do not crash compose: running over a concatenation runs over each part in turn. */
  lemma {:induction false} RunChangesAppend(files: map<string, File>, a: seq<D.FileChange>, b: seq<D.FileChange>,
                                            rules: seq<P.Rule>, tw: int, umask: bv32)
    requires RunChanges(files, a, rules, tw, umask).1.None?
    ensures RunChanges(files, a + b, rules, tw, umask) == RunChanges(RunChanges(files, a, rules, tw, umask).0, b, rules, tw, umask)
    decreases |a|
  {
    if a == [] {
      assert a + b == b;
    } else {
      assert (a + b)[0] == a[0] && (a + b)[1..] == a[1..] + b;
      var step := ApplyChange(files, a[0], rules, tw, umask);
      RunChangesAppend(step.0, a[1..], b, rules, tw, umask);
    }
  }

  /** A change that raises ends the run: the changes after it are never looked at. */
  lemma RunChangesStopsAtCrash(files: map<string, File>, a: seq<D.FileChange>, c: D.FileChange, b: seq<D.FileChange>,
                               rules: seq<P.Rule>, tw: int, umask: bv32)
    requires RunChanges(files, a, rules, tw, umask).1.None?
    requires ApplyChange(RunChanges(files, a, rules, tw, umask).0, c, rules, tw, umask).1.Crashed?
    ensures RunChanges(files, a + [c] + b, rules, tw, umask) == RunChanges(files, a + [c], rules, tw, umask)
  {
    var mid := RunChanges(files, a, rules, tw, umask).0;
    assert a + [c] + b == a + ([c] + b);
    assert RunChanges(files, a + ([c] + b), rules, tw, umask) == RunChanges(mid, [c] + b, rules, tw, umask) by {
      RunChangesAppend(files, a, [c] + b, rules, tw, umask);
    }
    assert RunChanges(files, a + [c], rules, tw, umask) == RunChanges(mid, [c], rules, tw, umask) by {
      RunChangesAppend(files, a, [c], rules, tw, umask);
    }
    CrashFirst(mid, c, b, rules, tw, umask);
  }

  lemma CrashFirst(files: map<string, File>, c: D.FileChange, b: seq<D.FileChange>, rules: seq<P.Rule>, tw: int, umask: bv32)
    requires ApplyChange(files, c, rules, tw, umask).1.Crashed?
    ensures RunChanges(files, [c] + b, rules, tw, umask) == RunChanges(files, [c], rules, tw, umask)
  {
    assert ([c] + b)[0] == c;
  }

  /** A diff that records no line changes writes the file back byte for byte. */
  lemma RewriteWithoutChanges(files: map<string, File>, change: D.FileChange, rules: seq<P.Rule>, tw: int, umask: bv32)
    requires ApplyChange(files, change, rules, tw, umask).1.Rewrite?
    requires ApplyChange(files, change, rules, tw, umask).1.changes == map[]
    ensures var r := ApplyChange(files, change, rules, tw, umask);
      r.0[r.1.path].content == files[r.1.path].content
  {
    var r := ApplyChange(files, change, rules, tw, umask);
    D.RewriteWithoutChangesKeepsBytes(files[r.1.path].content);
  }

  /**
   * When every recorded change repeats the line already on disk, the file
   * is written back byte for byte (a clean file stays as it was).
   */
  lemma RewriteOfCleanFile(content: string, changes: map<int, string>)
    requires var lines := SplitLines(content);
      forall k :: k in changes && 1 <= k <= |lines| ==> changes[k] == lines[k - 1]
    ensures Rewritten(content, changes) == content
  {
    D.MergeAgreeing(SplitLines(content), changes);
    ConcatSplitLines(content);
  }

  /**
   * A context line always records its text with '\n', so a last line
   * that had no terminator gains one when the hunk reaches it.
   */
  lemma RewriteAddsFinalNewline()
    ensures Rewritten("abc", map[1 := "abc\n"]) == "abc\n"
  {
    assert SplitLines("abc") == ["abc"];
    assert D.Merge(["abc"], map[1 := "abc\n"]) == ["abc\n"];
    assert Concat(["abc\n"]) == "abc\n" + Concat([]);
  }

  /** The working tree of the repository, changed in place by a run. */
  class WorkingTree {
    var files: map<string, File>
    const umask: bv32

    constructor (files: map<string, File>, umask: bv32)
      ensures this.files == files && this.umask == umask
    {
      this.files := files;
      this.umask := umask;
    }

    /**
     * sanitize_diff: read the change, then rename the file to its backup
     * and write the file anew from the backup's lines.
     */
    method SanitizeDiff(change: D.FileChange, rules: seq<P.Rule>, tw: int) returns (outcome: D.Outcome)
      modifies this
      ensures (files, outcome) == ApplyChange(old(files), change, rules, tw, umask)
    {
      if change.deletedFile || change.renamed {
        return D.Skipped(D.DeletedOrRenamed);
      }
      var patch := SplitOn(change.diff, '\n');
      if |patch| < 2 {
        return D.Crashed(D.ShortDiff);
      }
      var m := D.PathInfo(patch[1]);
      if m.None? {
        return D.Skipped(D.NoPath);
      }
      var path := m.value;
      var scan := D.CollectLineChanges(patch[2..], rules, tw);
      if scan.Stopped? {
        D.ScanNeverShort(patch[2..], rules, tw);
        return scan.outcome;
      }
      if path !in files {
        return D.Crashed(D.MissingFile);
      }
      var original := files[path];
      files := (files - {path})[BackupPath(path) := original];
      var written := D.RewriteLines(SplitLines(original.content), scan.changes);
      files := files[path := File(Concat(written), CreatedStat(original.mode, umask))];
      return D.Rewrite(path, scan.changes);
    }

    /**
     * main: read the configuration, refuse the conflicting pair, build the
     * sanitizers, then sanitize each change until one raises.
     */
    method FixWhitespace(setting: Option<string>, cli: C.CliArgs, changes: seq<D.FileChange>) returns (result: RunResult)
      modifies this
      ensures (files, result) == Run(old(files), setting, cli, changes, umask)
    {
      var cfg := C.ReadWhitespaceSetting(setting);
      var finalized := C.Finalize(cfg);
      C.ConfigureUnfolds(setting, cli);
      if finalized.Failure? {
        return Refused(finalized.error);
      }
      var rules := C.BuildSanitizers(C.ApplyOverrides(finalized.value.flags, cli));
      var tw := C.EffectiveTabWidth(cfg, cli);
      assert C.Configure(setting, cli) == Success(C.Setup(tw, rules));
      for i := 0 to |changes|
        invariant RunChanges(files, changes[i..], rules, tw, umask) == RunChanges(old(files), changes, rules, tw, umask)
      {
        RunChangesUnfold(files, changes, i, rules, tw, umask);
        var outcome := SanitizeDiff(changes[i], rules, tw);
        if outcome.Crashed? {
          return Aborted(outcome.what);
        }
      }
      assert changes[|changes|..] == [];
      return Finished;
    }
  }
}
