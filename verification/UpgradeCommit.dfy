/** Replacing a binary with backup and rollback: commitBinary of upgrade/helper.go. */
module UpgradeCommit {
  import opened Machine
  import opened Sequences

  datatype File = File(data: seq<byte>, mode: nat)

  type Files = map<string, File>

  datatype IoError = NotExist | OtherIo

  /** `Rollback` is *ErrRollback: the failed installation and the failed way back. */
  datatype Error = Plain(io: IoError) | Rollback(err: IoError, rollback: IoError)

  /** Which system calls fail, whether or not what they act on is there. */
  datatype Faults = Faults(chmod: bool, stat: bool, clear: bool, aside: bool, install: bool, back: bool, cleanup: bool)

  // ------------------------------------------------------------ system calls

  function Chmod(fs: Files, path: string, mode: nat, fails: bool): (Files, Option<IoError>) {
    if fails then (fs, Some(OtherIo))
    else if path !in fs then (fs, Some(NotExist))
    else (fs[path := fs[path].(mode := mode)], None)
  }

  function Stat(fs: Files, path: string, fails: bool): Option<IoError> {
    if fails then Some(OtherIo) else if path in fs then None else Some(NotExist)
  }

  function Remove(fs: Files, path: string, fails: bool): (Files, Option<IoError>) {
    if fails then (fs, Some(OtherIo)) else if path !in fs then (fs, Some(NotExist)) else (fs - {path}, None)
  }

  /** Atomic, and over an existing file. */
  function Rename(fs: Files, from: string, to: string, fails: bool): (Files, Option<IoError>) {
    if fails then (fs, Some(OtherIo))
    else if from !in fs then (fs, Some(NotExist))
    else if from == to then (fs, None)
    else (fs[to := fs[from]] - {from}, None)
  }

  function BackupPath(target: string, oldVersion: string): string {
    target + "-" + oldVersion
  }

  /** The error of the commit, and the files after each of its system calls. */
  datatype Commit = Commit(err: Option<Error>, states: seq<Files>)

  /** Making room at the target: whether an existing target was moved to the backup path. */
  function AsideSpec(a: Files, target: string, backup: string, x: Faults): (bool, Commit) {
    var statErr := Stat(a, target, x.stat);
    if statErr == Some(OtherIo) then (false, Commit(Some(Plain(OtherIo)), []))
    else if statErr == Some(NotExist) then (false, Commit(None, []))
    else
      var (b, clearErr) := Remove(a, backup, x.clear);
      if clearErr == Some(OtherIo) then (false, Commit(Some(Plain(OtherIo)), [b]))
      else
        var (c, asideErr) := Rename(b, target, backup, x.aside);
        if asideErr.Some? then (false, Commit(Some(Plain(asideErr.value)), [b, c])) else (true, Commit(None, [b, c]))
  }

  /** Putting the new binary in place, or the old one back. */
  function InstallSpec(c: Files, newBinary: string, target: string, backup: string, moved: bool, x: Faults): (r: Commit)
    ensures r.states != []
  {
    var (d, installErr) := Rename(c, newBinary, target, x.install);
    if installErr.Some? then
      if !moved then Commit(Some(Plain(installErr.value)), [d])
      else
        var (e, backErr) := Rename(d, backup, target, x.back);
        var err := if backErr.Some? then Rollback(installErr.value, backErr.value) else Plain(installErr.value);
        Commit(Some(err), [d, e])
    else if moved then Commit(None, [d, Remove(d, backup, x.cleanup).0])
    else Commit(None, [d])
  }

  function Last(a: Files, states: seq<Files>): Files {
    if states == [] then a else states[|states| - 1]
  }

  /** The commit as a function: the same calls in the same order. */
  function CommitSpec(fs: Files, newBinary: string, target: string, mode: nat, oldVersion: string,
                      x: Faults): (r: Commit)
    ensures r.states != []
  {
    var backup := BackupPath(target, oldVersion);
    var (a, chmodErr) := Chmod(fs, newBinary, mode, x.chmod);
    if chmodErr.Some? then Commit(Some(Plain(chmodErr.value)), [a])
    else
      var (moved, aside) := AsideSpec(a, target, backup, x);
      if aside.err.Some? then Commit(aside.err, [a] + aside.states)
      else
        var done := InstallSpec(Last(a, aside.states), newBinary, target, backup, moved, x);
        Commit(done.err, [a] + aside.states + done.states)
  }

  /** The new binary is there and is not the target, and no call that matters fails. */
  predicate CanCommit(fs: Files, newBinary: string, target: string, x: Faults) {
    && newBinary in fs && newBinary != target
    && !x.chmod && !x.stat && !x.install && (target in fs ==> !x.clear && !x.aside)
  }

  function Final(r: Commit): Files
    requires r.states != []
  {
    r.states[|r.states| - 1]
  }

  class FileSystem {
    var files: Files
    ghost var history: seq<Files>

    constructor (files: Files)
      ensures this.files == files && history == []
    {
      this.files, history := files, [];
    }

    method ChmodFile(path: string, mode: nat, fails: bool) returns (err: Option<IoError>)
      modifies this
      ensures (files, err) == Chmod(old(files), path, mode, fails) && history == old(history) + [files]
    {
      if fails {
        err := Some(OtherIo);
      } else if path !in files {
        err := Some(NotExist);
      } else {
        files, err := files[path := files[path].(mode := mode)], None;
      }
      history := history + [files];
    }

    method RemoveFile(path: string, fails: bool) returns (err: Option<IoError>)
      modifies this
      ensures (files, err) == Remove(old(files), path, fails) && history == old(history) + [files]
    {
      if fails {
        err := Some(OtherIo);
      } else if path !in files {
        err := Some(NotExist);
      } else {
        files, err := files - {path}, None;
      }
      history := history + [files];
    }

    method RenameFile(from: string, to: string, fails: bool) returns (err: Option<IoError>)
      modifies this
      ensures (files, err) == Rename(old(files), from, to, fails) && history == old(history) + [files]
    {
      if fails {
        err := Some(OtherIo);
      } else if from !in files {
        err := Some(NotExist);
      } else {
        files, err := if from == to then files else files[to := files[from]] - {from}, None;
      }
      history := history + [files];
    }

    method CommitBinary(newBinary: string, targetPath: string, targetMode: nat, oldVersion: string, x: Faults)
      returns (err: Option<Error>)
      modifies this
      ensures var r := CommitSpec(old(files), newBinary, targetPath, targetMode, oldVersion, x);
              err == r.err && files == Final(r) && history == old(history) + r.states
      ensures err.None? <==>
                && newBinary in old(files) && newBinary != targetPath && !x.chmod && !x.stat && !x.install
                && (targetPath in old(files) ==> !x.clear && !x.aside)
    {
      CommitOutcome(files, newBinary, targetPath, targetMode, oldVersion, x);
      var e := ChmodFile(newBinary, targetMode, x.chmod);
      if e.Some? {
        return Some(Plain(e.value));
      }
      var backupPath := targetPath + "-" + oldVersion;
      var targetMoved;
      err, targetMoved := MoveAside(targetPath, backupPath, x);
      if err.Some? {
        return;
      }
      err := Install(newBinary, targetPath, backupPath, targetMoved, x);
    }

    method MoveAside(targetPath: string, backupPath: string, x: Faults) returns (err: Option<Error>, targetMoved: bool)
      modifies this
      ensures var (moved, r) := AsideSpec(old(files), targetPath, backupPath, x);
              err == r.err && targetMoved == moved && files == Last(old(files), r.states)
                  && history == old(history) + r.states
    {
      targetMoved := false;
      var e := Stat(files, targetPath, x.stat);
      if e.None? {
        e := RemoveFile(backupPath, x.clear);
        if e.Some? && e.value != NotExist {
          return Some(Plain(e.value)), false;
        }
        e := RenameFile(targetPath, backupPath, x.aside);
        if e.Some? {
          return Some(Plain(e.value)), false;
        }
        targetMoved := true;
      } else if e.value != NotExist {
        return Some(Plain(e.value)), false;
      }
      return None, targetMoved;
    }

    method Install(newBinary: string, targetPath: string, backupPath: string, targetMoved: bool, x: Faults)
      returns (err: Option<Error>)
      modifies this
      ensures var r := InstallSpec(old(files), newBinary, targetPath, backupPath, targetMoved, x);
              err == r.err && files == Last(old(files), r.states) && history == old(history) + r.states
    {
      var e := RenameFile(newBinary, targetPath, x.install);
      if e.Some? {
        if targetMoved {
          var rollbackErr := RenameFile(backupPath, targetPath, x.back);
          if rollbackErr.Some? {
            return Some(Rollback(e.value, rollbackErr.value));
          }
        }
        return Some(Plain(e.value));
      }
      if targetMoved {
        e := RemoveFile(backupPath, x.cleanup);
      }
      return None;
    }
  }

  // ------------------------------------------------------------- every exit

  /** The new binary with its new mode is at the target. */
  predicate Installed(before: Files, after: Files, newBinary: string, target: string, mode: nat) {
    newBinary in before && target in after && after[target] == File(before[newBinary].data, mode)
  }

  predicate SameAt(before: Files, after: Files, path: string) {
    (path in before <==> path in after) && (path in before ==> after[path] == before[path])
  }

  lemma BackupIsElsewhere(target: string, oldVersion: string)
    ensures BackupPath(target, oldVersion) != target
  {
    assert |BackupPath(target, oldVersion)| > |target|;
  }

  /**
   * When a commit succeeds, and which error it gives otherwise. A missing backup is no error, and neither is
   * a backup that cannot be removed in the end.
   */
  lemma CommitOutcome(fs: Files, newBinary: string, target: string, mode: nat, oldVersion: string, x: Faults)
    ensures var err := CommitSpec(fs, newBinary, target, mode, oldVersion, x).err;
            var ready := newBinary in fs && !x.chmod && !x.stat && (target in fs ==> !x.clear && !x.aside);
            && (err.None? <==> CanCommit(fs, newBinary, target, x))
            && (err.None? <==> ready && newBinary != target && !x.install)
            && (err.Some? && err.value.Rollback? <==>
                ready && target in fs && (newBinary == target || x.install) && x.back)
            && (err == Some(Plain(NotExist)) <==>
                (newBinary !in fs && !x.chmod) || (ready && newBinary == target && !x.install && !x.back))
            && (err.Some? && err.value.Rollback? ==>
                err.value == Rollback(if x.install then OtherIo else NotExist, OtherIo))
  {
    BackupIsElsewhere(target, oldVersion);
  }

  /** When no call fails, an upgrade goes through: with an old backup, without one, and without an old binary. */
  lemma OrdinaryCommit(fs: Files, newBinary: string, target: string, mode: nat, oldVersion: string)
    requires newBinary in fs && newBinary != target && newBinary != target + "-" + oldVersion
    ensures var r := CommitSpec(fs, newBinary, target, mode, oldVersion, CALM);
            && r.err == None
            && Final(r) == if target in fs then
                             fs[target := File(fs[newBinary].data, mode)] - {newBinary, target + "-" + oldVersion}
                           else fs[target := File(fs[newBinary].data, mode)] - {newBinary}
  {
    BackupIsElsewhere(target, oldVersion);
  }

  /** Whatever the paths and faults: on *ErrRollback the old bytes are at the backup path. */
  lemma RollbackKeepsBackup(fs: Files, newBinary: string, target: string, mode: nat, oldVersion: string, x: Faults)
    requires var r := CommitSpec(fs, newBinary, target, mode, oldVersion, x); r.err.Some? && r.err.value.Rollback?
    ensures var after := Final(CommitSpec(fs, newBinary, target, mode, oldVersion, x));
            var backup := BackupPath(target, oldVersion);
            target in fs && backup in after && after[backup].data == fs[target].data
  {
    BackupIsElsewhere(target, oldVersion);
  }

  /**
   * Success means the new binary is installed, for every outcome of every call, exactly when the new
   * binary does not lie at the backup path of an existing target (or is what the target already holds).
   */
  lemma SuccessMeansInstalled(fs: Files, newBinary: string, target: string, mode: nat, oldVersion: string)
    ensures (forall x :: CommitSpec(fs, newBinary, target, mode, oldVersion, x).err.None? ==>
                           Installed(fs, Final(CommitSpec(fs, newBinary, target, mode, oldVersion, x)),
                                     newBinary, target, mode))
       <==> newBinary != BackupPath(target, oldVersion) || target !in fs || newBinary !in fs
            || fs[target] == File(fs[newBinary].data, mode)
  {
    BackupIsElsewhere(target, oldVersion);
    if newBinary == BackupPath(target, oldVersion) && target in fs && newBinary in fs {
      var r := CommitSpec(fs, newBinary, target, mode, oldVersion, CALM);
      assert r.err.None? && Final(r)[target] == fs[target];
    }
  }

  /** A plain error means the target is as it was, unless the new binary is the target and its mode was changed. */
  lemma PlainErrorKeepsTarget(fs: Files, newBinary: string, target: string, mode: nat, oldVersion: string)
    ensures (forall x :: var r := CommitSpec(fs, newBinary, target, mode, oldVersion, x);
                         r.err.Some? && r.err.value.Plain? ==> SameAt(fs, Final(r), target))
       <==> newBinary != target || target !in fs || fs[target].mode == mode
  {
    BackupIsElsewhere(target, oldVersion);
    if newBinary == target && target in fs && fs[target].mode != mode {
      var r := CommitSpec(fs, newBinary, target, mode, oldVersion, CALM);
      assert r.err.Some? && r.err.value.Plain? && !SameAt(fs, Final(r), target);
    }
  }

  const CALM := Faults(false, false, false, false, false, false, false)

  /** A new binary that lies at the backup path is lost: the commit succeeds, and the old binary is at the target. */
  lemma NewBinaryLost()
    ensures var fs := map["t" := File([1], 0), "t-old" := File([2], 0)];
            var r := CommitSpec(fs, "t-old", "t", 0, "old", CALM);
            r.err.None? && "t" in Final(r) && Final(r)["t"].data == [1]
  {
    assert BackupPath("t", "old") == "t-old";
  }

  /** Committing the target over itself fails, and leaves its mode changed. */
  lemma TargetModeChanged()
    ensures var fs := map["t" := File([1], 0)];
            var r := CommitSpec(fs, "t", "t", 1, "old", CALM);
            r.err == Some(Plain(NotExist)) && "t" in Final(r) && Final(r)["t"] == File([1], 1)
  {
    assert BackupPath("t", "old") == "t-old" && |"t-old"| != |"t"|;
  }

  /** Success uses up the new binary's path, and leaves a backup only if its removal failed or it was there before. */
  lemma SuccessCleansUp(fs: Files, newBinary: string, target: string, mode: nat, oldVersion: string, x: Faults)
    requires CommitSpec(fs, newBinary, target, mode, oldVersion, x).err.None?
    ensures var after := Final(CommitSpec(fs, newBinary, target, mode, oldVersion, x));
            var backup := BackupPath(target, oldVersion);
            && newBinary != target && newBinary !in after
            && (backup in after <==> newBinary != backup && if target in fs then x.cleanup else backup in fs)
  {
    BackupIsElsewhere(target, oldVersion);
  }

  /** No exit touches any other file. */
  lemma OthersUntouched(fs: Files, newBinary: string, target: string, mode: nat, oldVersion: string, x: Faults,
                        path: string)
    requires path != newBinary && path != target && path != BackupPath(target, oldVersion)
    ensures SameAt(fs, Final(CommitSpec(fs, newBinary, target, mode, oldVersion, x)), path)
  {
    var backup := BackupPath(target, oldVersion);
    var a := Chmod(fs, newBinary, mode, x.chmod).0;
    var (moved, aside) := AsideSpec(a, target, backup, x);
    AsideElsewhere(a, target, backup, x, path);
    InstallElsewhere(Last(a, aside.states), newBinary, target, backup, moved, x, path);
  }

  lemma AsideElsewhere(a: Files, target: string, backup: string, x: Faults, path: string)
    requires path != target && path != backup
    ensures SameAt(a, Last(a, AsideSpec(a, target, backup, x).1.states), path)
  {
  }

  lemma InstallElsewhere(c: Files, newBinary: string, target: string, backup: string, moved: bool, x: Faults,
                         path: string)
    requires path != newBinary && path != target && path != backup
    ensures SameAt(c, Last(c, InstallSpec(c, newBinary, target, backup, moved, x).states), path)
  {
  }

  // ------------------------------------------------------- every moment

  predicate OldBytesSafe(before: Files, now: Files, newBinary: string, target: string, backup: string) {
    target in before ==>
      || (target in now && now[target].data == before[target].data)
      || (backup in now && now[backup].data == before[target].data)
      || (newBinary in before && target in now && now[target].data == before[newBinary].data)
  }

  lemma AsideSafe(fs: Files, a: Files, newBinary: string, target: string, backup: string, x: Faults)
    requires backup != target && (target in fs <==> target in a) && (target in fs ==> a[target].data == fs[target].data)
    ensures var (moved, r) := AsideSpec(a, target, backup, x);
            && (forall i | 0 <= i < |r.states| :: OldBytesSafe(fs, r.states[i], newBinary, target, backup))
            && (r.err.None? && target in fs ==>
                backup in Last(a, r.states) && Last(a, r.states)[backup].data == fs[target].data)
            && (moved <==> r.err.None? && target in fs)
            && (newBinary != backup && newBinary in Last(a, r.states) ==>
                newBinary in a && Last(a, r.states)[newBinary] == a[newBinary])
  {
  }

  lemma InstallSafe(fs: Files, c: Files, newBinary: string, target: string, backup: string, moved: bool, x: Faults)
    requires backup != target && (moved <==> target in fs)
    requires moved ==> backup in c && c[backup].data == fs[target].data
    requires newBinary != backup && newBinary in c ==> newBinary in fs && c[newBinary].data == fs[newBinary].data
    ensures var r := InstallSpec(c, newBinary, target, backup, moved, x);
            forall i | 0 <= i < |r.states| :: OldBytesSafe(fs, r.states[i], newBinary, target, backup)
  {
  }

  /**
   * After every single system call a target that existed has its old bytes at the target or the backup, until
   * the new ones are at the target.
   */
  lemma AlwaysRecoverable(fs: Files, newBinary: string, target: string, mode: nat, oldVersion: string, x: Faults,
                          i: nat)
    requires i < |CommitSpec(fs, newBinary, target, mode, oldVersion, x).states|
    ensures OldBytesSafe(fs, CommitSpec(fs, newBinary, target, mode, oldVersion, x).states[i], newBinary, target,
                         BackupPath(target, oldVersion))
  {
    var backup := BackupPath(target, oldVersion);
    BackupIsElsewhere(target, oldVersion);
    var (a, chmodErr) := Chmod(fs, newBinary, mode, x.chmod);
    var (moved, aside) := AsideSpec(a, target, backup, x);
    AsideSafe(fs, a, newBinary, target, backup, x);
    if aside.err.None? {
      InstallSafe(fs, Last(a, aside.states), newBinary, target, backup, moved, x);
    }
  }
}
