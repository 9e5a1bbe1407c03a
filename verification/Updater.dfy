/** The update from check to commit: upgrade/upgrade.go, upgrade/updater.go and the checksum helpers. */
module Updater {
  import opened Machine
  import opened Sequences
  import opened UpgradeCommit

  // --------------------------------------------------------------- checksums

  const SHA256_SIZE: nat := 32

  function HexValue(c: char): Option<byte> {
    if '0' <= c <= '9' then Some((c as int - '0' as int) as byte)
    else if 'a' <= c <= 'f' then Some((c as int - 'a' as int + 10) as byte)
    else if 'A' <= c <= 'F' then Some((c as int - 'A' as int + 10) as byte)
    else None
  }

  /** hex.DecodeString: `None` for an odd length or a character that is no hex digit. */
  function DecodeHex(s: string): Option<seq<byte>> {
    if s == [] then Some([])
    else if |s| == 1 || HexValue(s[0]).None? || HexValue(s[1]).None? then None
    else
      var hi, lo := HexValue(s[0]).value, HexValue(s[1]).value;
      match DecodeHex(s[2..])
      case Some(rest) =>
        assert 0 <= hi < 16 && 0 <= lo < 16;
        Some([hi * 16 + lo] + rest)
      case None => None
  }

  datatype Checksum = Good(sum: seq<byte>) | BadFormat

  /** parseChecksum: no value means no checksum. */
  function ParseChecksum(value: string): Checksum {
    if value == "" then Good([])
    else match DecodeHex(value)
      case Some(sum) => if |sum| == SHA256_SIZE then Good(sum) else BadFormat
      case None => BadFormat
  }

  function HexDigit(n: byte): (c: char)
    requires n < 16
    ensures HexValue(c) == Some(n)
  {
    if n < 10 then '0' + n as char else 'a' + (n - 10) as char
  }

  function EncodeHex(b: seq<byte>): string {
    if b == [] then "" else [HexDigit(b[0] / 16), HexDigit(b[0] % 16)] + EncodeHex(b[1..])
  }

  lemma {:induction false} HexRoundTrip(b: seq<byte>)
    ensures DecodeHex(EncodeHex(b)) == Some(b)
    ensures |EncodeHex(b)| == 2 * |b|
  {
    if b != [] {
      HexRoundTrip(b[1..]);
      assert EncodeHex(b)[2..] == EncodeHex(b[1..]);
      assert b[0] / 16 * 16 + b[0] % 16 == b[0];
      assert [b[0]] + b[1..] == b;
    }
  }

  lemma {:induction false} DecodedHexLength(s: string)
    ensures DecodeHex(s).Some? ==> |s| == 2 * |DecodeHex(s).value|
  {
    if |s| >= 2 {
      DecodedHexLength(s[2..]);
    }
  }

  predicate IsHexDigit(c: char) {
    '0' <= c <= '9' || 'a' <= c <= 'f' || 'A' <= c <= 'F'
  }

  /** A text in lower case, as far as hex digits are concerned. */
  function Lower(s: string): (r: string)
    ensures |r| == |s|
  {
    seq(|s|, i requires 0 <= i < |s| => if 'A' <= s[i] <= 'F' then s[i] - 'A' + 'a' else s[i])
  }

  lemma EncodePair(hi: byte, lo: byte, rest: seq<byte>)
    requires hi < 16 && lo < 16
    ensures EncodeHex([hi * 16 + lo] + rest) == [HexDigit(hi), HexDigit(lo)] + EncodeHex(rest)
  {
    var b := [hi * 16 + lo] + rest;
    assert b[0] / 16 == hi && b[0] % 16 == lo && b[1..] == rest;
  }

  lemma LowerDigit(c: char)
    requires HexValue(c).Some?
    ensures HexValue(c).value < 16 && Lower([c]) == [HexDigit(HexValue(c).value)]
  {
  }

  lemma LowerAppend(a: string, b: string)
    ensures Lower(a + b) == Lower(a) + Lower(b)
  {
  }

  /** A text decodes exactly when it is pairs of hex digits, in either case. */
  lemma {:induction false} DecodableHex(s: string)
    ensures DecodeHex(s).Some? <==> |s| % 2 == 0 && forall c <- s :: IsHexDigit(c)
  {
    if |s| >= 2 {
      DecodableHex(s[2..]);
      assert s == [s[0], s[1]] + s[2..];
      assert (forall c <- s :: IsHexDigit(c)) <==>
        IsHexDigit(s[0]) && IsHexDigit(s[1]) && forall c <- s[2..] :: IsHexDigit(c);
    }
  }

  /** What it decodes to is what it spells. */
  lemma {:induction false} DecodedSpells(s: string)
    requires DecodeHex(s).Some?
    ensures EncodeHex(DecodeHex(s).value) == Lower(s)
  {
    if s == [] {
    } else {
      var rest := DecodeHex(s[2..]).value;
      DecodedSpells(s[2..]);
      LowerDigit(s[0]);
      LowerDigit(s[1]);
      EncodePair(HexValue(s[0]).value, HexValue(s[1]).value, rest);
      LowerAppend([s[0]], [s[1]]);
      LowerAppend([s[0]] + [s[1]], s[2..]);
      assert s == [s[0]] + [s[1]] + s[2..];
    }
  }

  lemma HexDigits(n: byte)
    requires n < 16
    ensures HexDigit(n) == "0123456789abcdef"[n]
  {
  }

  /** A checksum is accepted exactly when it is empty, which asks for nothing, or 64 hex digits in either case. */
  lemma ChecksumFormat(value: string)
    ensures ParseChecksum(value).Good? <==> value == "" || (|value| == 64 && forall c <- value :: IsHexDigit(c))
    ensures ParseChecksum(value).Good? ==> EncodeHex(ParseChecksum(value).sum) == Lower(value)
    ensures ParseChecksum(value) == Good([]) <==> value == ""
  {
    DecodableHex(value);
    DecodedHexLength(value);
    if DecodeHex(value).Some? {
      DecodedSpells(value);
    }
  }

  /** Every digest has a value that parses to it. */
  lemma ChecksumRoundTrip(sum: seq<byte>)
    requires |sum| == SHA256_SIZE
    ensures ParseChecksum(EncodeHex(sum)) == Good(sum)
  {
    HexRoundTrip(sum);
    assert |EncodeHex(sum)| == 64;
  }

  /** SHA-256, of which nothing is assumed. */
  type Hash = seq<byte> -> seq<byte>

  /** verifyChecksum; `canRead` is whether the file can be read if it exists. */
  predicate ChecksumOk(sha: Hash, fs: Files, path: string, checksum: seq<byte>, canRead: bool) {
    checksum == [] || (canRead && path in fs && sha(fs[path].data) == checksum)
  }

  // ----------------------------------------------------------- BinaryUpdater

  /** The mode the new binary gets: the configured one, else the permissions of the old one, else 0755. */
  function NewMode(configured: nat, fs: Files, target: string, canStat: bool): nat {
    if configured != 0 then configured
    else if canStat && target in fs then fs[target].mode % 0x200
    else 0x1ED
  }

  /** Where the new binary is downloaded to unless its path is given. */
  function DefaultPath(target: string, newVersion: string): string {
    target + "-" + newVersion + ".tmp"
  }

  class BinaryUpdater {
    var newVersion: string
    var oldVersion: string
    var targetPath: string
    var targetMode: nat
    var newBinary: string
    var checksum: seq<byte>

    constructor (newVersion: string, oldVersion: string, targetPath: string, targetMode: nat, checksum: seq<byte>)
      ensures this.newVersion == newVersion && this.oldVersion == oldVersion && this.targetPath == targetPath
      ensures this.targetMode == targetMode && this.newBinary == "" && this.checksum == checksum
    {
      this.newVersion, this.oldVersion, this.targetPath := newVersion, oldVersion, targetPath;
      this.targetMode, this.newBinary, this.checksum := targetMode, "", checksum;
    }

    /** `executable` is the running program's path, if the system tells it; `canStat` whether stat works. */
    method Init(fs: Files, executable: Option<string>, canStat: bool) returns (ok: bool)
      modifies this
      ensures ok <==> old(targetPath) != "" || executable.Some?
      ensures checksum == old(checksum)
      ensures newVersion == (if old(newVersion) == "" then "new" else old(newVersion))
      ensures oldVersion == (if old(oldVersion) == "" then "old" else old(oldVersion))
      ensures ok ==> targetPath == if old(targetPath) == "" then executable.value else old(targetPath)
      ensures ok ==> targetMode == NewMode(old(targetMode), fs, targetPath, canStat)
      ensures ok && old(targetMode) != 0 ==> targetMode == old(targetMode)
      ensures ok && old(targetMode) == 0 ==>
                targetMode == if canStat && targetPath in fs then fs[targetPath].mode % 512 else 493
      ensures ok ==>
                newBinary == if old(newBinary) != "" then old(newBinary) else targetPath + "-" + newVersion + ".tmp"
    {
      if newVersion == "" {
        newVersion := "new";
      }
      if oldVersion == "" {
        oldVersion := "old";
      }
      if targetPath == "" {
        if executable.None? {
          return false;
        }
        targetPath := executable.value;
      }
      if targetMode == 0 {
        if canStat && targetPath in fs {
          targetMode := fs[targetPath].mode % 0x200;
        } else {
          targetMode := 0x1ED;
        }
      }
      if newBinary == "" {
        newBinary := targetPath + "-" + newVersion + ".tmp";
      }
      return true;
    }
  }

  /** The default path of the new binary is the backup path for one odd choice of versions only. */
  lemma DefaultPathsDistinct(target: string, newVersion: string, oldVersion: string)
    ensures DefaultPath(target, newVersion) == BackupPath(target, oldVersion) <==> oldVersion == newVersion + ".tmp"
    ensures DefaultPath(target, newVersion) != target
  {
    var a, b := DefaultPath(target, newVersion), BackupPath(target, oldVersion);
    assert a[|target| + 1..] == newVersion + ".tmp" && b[|target| + 1..] == oldVersion;
    assert a[..|target| + 1] == target + "-" == b[..|target| + 1];
  }

  // ------------------------------------------------------------------- Apply

  /** The server's answer to the check, as far as it is used. */
  datatype Info = Info(package: string, version: string, checksum: string)
  datatype Check = CheckFailed | NoPackage | Available(info: Info)

  datatype Outcome = Applied | NoUpdate | CheckError | BadChecksum | InitError | DownloadError | WrongChecksum
                   | CommitError(err: Error)

  const HTTPS := "https://"

  predicate Secure(url: string) {
    |HTTPS| <= |url| && url[..|HTTPS|] == HTTPS
  }

  /** A package is offered, and over https. */
  predicate Offered(check: Check) {
    check.Available? && Secure(check.info.package)
  }

  function ValueOr(path: Option<string>): string {
    match path case Some(p) => p case None => ""
  }

  /** What a download handler leaves behind: the files, and the path it reports (possibly empty). */
  datatype Download = Downloaded(files: Files, output: string) | DownloadFailed(files: Files)

  class Updater {
    const version: string
    const targetPath: string
    const targetMode: nat

    constructor (version: string, targetPath: string, targetMode: nat)
      ensures this.version == version && this.targetPath == targetPath && this.targetMode == targetMode
    {
      this.version, this.targetPath, this.targetMode := version, targetPath, targetMode;
    }

    /** The last two calls: VerifyChecksum, then CommitBinary. */
    method VerifyAndCommit(fs: FileSystem, u: BinaryUpdater, sha: Hash, canRead: bool, x: Faults) returns (r: Outcome)
      modifies fs
      ensures r.WrongChecksum? || r.Applied? || r.CommitError?
      ensures r.Applied? <==>
                && ChecksumOk(sha, old(fs.files), u.newBinary, u.checksum, canRead)
                && CanCommit(old(fs.files), u.newBinary, u.targetPath, x)
      ensures r.WrongChecksum? <==> !ChecksumOk(sha, old(fs.files), u.newBinary, u.checksum, canRead)
      ensures r.WrongChecksum? <==>
                && u.checksum != []
                && !(canRead && u.newBinary in old(fs.files) && sha(old(fs.files)[u.newBinary].data) == u.checksum)
      ensures r.WrongChecksum? ==> fs.files == old(fs.files)
      ensures r.Applied? ==>
                || (u.newBinary == BackupPath(u.targetPath, u.oldVersion) && u.targetPath in old(fs.files))
                || Installed(old(fs.files), fs.files, u.newBinary, u.targetPath, u.targetMode)
      ensures r.CommitError? && r.err.Plain? && u.newBinary != u.targetPath ==>
              SameAt(old(fs.files), fs.files, u.targetPath)
      ensures r.CommitError? && r.err.Rollback? ==>
                var backup := BackupPath(u.targetPath, u.oldVersion);
                && u.targetPath in old(fs.files) && backup in fs.files
                && fs.files[backup].data == old(fs.files)[u.targetPath].data
    {
      if !ChecksumOk(sha, fs.files, u.newBinary, u.checksum, canRead) {
        return WrongChecksum;
      }
      ghost var before := fs.files;
      SuccessMeansInstalled(before, u.newBinary, u.targetPath, u.targetMode, u.oldVersion);
      PlainErrorKeepsTarget(before, u.newBinary, u.targetPath, u.targetMode, u.oldVersion);
      var err := fs.CommitBinary(u.newBinary, u.targetPath, u.targetMode, u.oldVersion, x);
      if err.Some? {
        if err.value.Rollback? {
          RollbackKeepsBackup(before, u.newBinary, u.targetPath, u.targetMode, u.oldVersion, x);
        }
        return CommitError(err.value);
      }
      return Applied;
    }

    /** The updater for a package that is offered, as far as it can be prepared. */
    method Prepare(fs: Files, info: Info, executable: Option<string>, canStat: bool)
      returns (bad: Option<Outcome>, u: BinaryUpdater)
      ensures fresh(u)
      ensures bad == if ParseChecksum(info.checksum).BadFormat? then Some(BadChecksum)
                     else if targetPath == "" && executable.None? then Some(InitError)
                     else None
      ensures bad.None? ==>
                && u.targetPath == (if targetPath == "" then executable.value else targetPath)
                && u.oldVersion == (if version == "" then "old" else version)
                && u.newBinary == DefaultPath(u.targetPath, if info.version == "" then "new" else info.version)
                && u.targetMode == NewMode(targetMode, fs, u.targetPath, canStat)
                && u.checksum == ParseChecksum(info.checksum).sum
    {
      u := new BinaryUpdater(info.version, version, targetPath, targetMode, []);
      if info.checksum != "" {
        var parsed := ParseChecksum(info.checksum);
        if parsed.BadFormat? {
          return Some(BadChecksum), u;
        }
        u.checksum := parsed.sum;
      }
      var ok := u.Init(fs, executable, canStat);
      bad := if ok then None else Some(InitError);
    }

    /**
     * From check to commit. `handler` is the download handler as a function of the output path it is
     * given. `target`, `source` and `backup` report the paths the commit used, `fetched` what the download left.
     */
    method Apply(fs: FileSystem, check: Check, executable: Option<string>, canStat: bool, handler: string -> Download,
                 sha: Hash, canRead: bool, x: Faults)
      returns (r: Outcome, ghost target: string, ghost source: string, ghost backup: string, ghost fetched: Files)
      modifies fs
      // nothing is touched unless a package offered over https has a well-formed checksum
      ensures r.CheckError? <==> check.CheckFailed?
      ensures r.NoUpdate? <==> check.NoPackage? || (check.Available? && !("https://" <= check.info.package))
      ensures r.BadChecksum? <==> Offered(check) && ParseChecksum(check.info.checksum).BadFormat?
      ensures r.InitError? <==>
                Offered(check) && ParseChecksum(check.info.checksum).Good? && targetPath == "" && executable.None?
      ensures r.NoUpdate? || r.CheckError? || r.BadChecksum? || r.InitError? ==> fs.files == old(fs.files)
      // what is downloaded, and where to; a download that fails or does not match is left as it is
      ensures r.DownloadError? || r.WrongChecksum? || r.CommitError? || r.Applied? ==>
                && Offered(check) && target == (if targetPath == "" then ValueOr(executable) else targetPath)
                && backup == BackupPath(target, if version == "" then "old" else version)
                && var given := DefaultPath(target, if check.info.version == "" then "new" else check.info.version);
                   var d := handler(given);
                   && fetched == d.files && (r.DownloadError? <==> d.DownloadFailed?)
                   && source == if d.Downloaded? && d.output != "" then d.output else given
      ensures r.DownloadError? || r.WrongChecksum? ==> fs.files == fetched
      ensures r.WrongChecksum? || r.CommitError? || r.Applied? ==>
                && ParseChecksum(check.info.checksum).Good?
                && (r.WrongChecksum? <==>
                    && check.info.checksum != ""
                    && !(canRead && source in fetched &&
                         sha(fetched[source].data) == ParseChecksum(check.info.checksum).sum))
      ensures r.CommitError? || r.Applied? ==> (r.Applied? <==> CanCommit(fetched, source, target, x))
      // success means the verified download is what is at the target
      ensures r.Applied? && (source != backup || target !in fetched) ==>
                && source in fetched && target in fs.files
                && fs.files[target] == File(fetched[source].data, NewMode(targetMode, old(fs.files), target, canStat))
                && (check.info.checksum != "" ==> sha(fs.files[target].data) == ParseChecksum(check.info.checksum).sum)
      // a failed commit leaves the old target in place or at the backup path
      ensures r.CommitError? && r.err.Plain? && source != target ==> SameAt(fetched, fs.files, target)
      ensures r.CommitError? && r.err.Rollback? ==>
                target in fetched && backup in fs.files && fs.files[backup].data == fetched[target].data
    {
      target, source, backup, fetched := "", "", "", fs.files;
      match check
      case CheckFailed => return CheckError, target, source, backup, fetched;
      case NoPackage => return NoUpdate, target, source, backup, fetched;
      case Available(info) =>
        if !Secure(info.package) {
          return NoUpdate, target, source, backup, fetched;
        }
        var bad, u := Prepare(fs.files, info, executable, canStat);
        if bad.Some? {
          return bad.value, target, source, backup, fetched;
        }
        target, source, backup := u.targetPath, u.newBinary, BackupPath(u.targetPath, u.oldVersion);
        var d := handler(u.newBinary);
        fs.files := d.files;
        fetched := d.files;
        if d.DownloadFailed? {
          return DownloadError, target, source, backup, fetched;
        }
        if d.output != "" {
          u.newBinary := d.output;
          source := d.output;
        }
        r := VerifyAndCommit(fs, u, sha, canRead, x);
    }
  }
}
