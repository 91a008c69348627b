/** The file-level churn of FullStack.Crypto/ChurnExtensions.cs: resolve the
    direction and the target path, skip or churn, commit or roll back, then
    delete the source unless asked to keep it. Files are a map from full path
    to contents; opening a file is creating a stream over its contents, and
    disposing a written stream stores its contents back. */
module FileChurn {
  import opened Common
  import opened Streams
  import opened Aead
  import opened ChurnEngine
  import opened Assertions
  import ChurnProperties

  /** The `FileChurnParams` flags the code tests. */
  datatype FileChurnParams = FileChurnParams(
    isDecrypt: bool,
    keepSource: bool,
    redoTarget: bool,
    subjectAuthentication: bool,
    isCcm: bool)

  const Defaults: FileChurnParams := FileChurnParams(false, false, false, false, false)

  const EncSuffix: string := ".enc"
  const MacSuffix: string := ".gmac"

  /** The message of the `IOException` raised when a file is opened while
      another open stream's sharing mode forbids it. */
  const FileInUse: string := "The process cannot access the file because it is being used by another process."

  /** The outcome of a file operation and the files afterwards. */
  datatype FileResult = FileResult(outcome: Outcome, files: map<string, seq<byte>>)

  function DirectionOf(flags: FileChurnParams): Direction
  {
    if flags.isDecrypt then Decrypt else Encrypt
  }

  predicate EndsWith(s: string, suffix: string)
  {
    |suffix| <= |s| && s[|s| - |suffix|..] == suffix
  }

  /** `Regex(@"\.enc$").Replace(path, "")`: `$` matches at the very end and
      also just before a final line feed, so ".enc" is removed in either
      place; nothing else changes. */
  function StripEnc(path: string): (r: string)
    ensures EndsWith(path, EncSuffix) ==> r + EncSuffix == path
    ensures !EndsWith(path, EncSuffix) && !EndsWith(path, EncSuffix + "\n") ==> r == path
  {
    if EndsWith(path, EncSuffix) then path[..|path| - |EncSuffix|]
    else if EndsWith(path, EncSuffix + "\n") then path[..|path| - |EncSuffix| - 1] + "\n"
    else path
  }

  /** The target path: an override name joined to the source directory, or
      the source path with ".enc" appended (encrypt) or removed (decrypt). */
  function TargetPath(source: string, direction: Direction, targetName: Option<string>): string
  {
    match targetName
    case Some(name) => Combine(DirectoryName(source), name)
    case None => if direction == Encrypt then source + EncSuffix else StripEnc(source)
  }

  /** The tag side file sits next to the encrypted file: the target when
      encrypting, the source when decrypting. */
  function MacPath(source: string, target: string, direction: Direction): string
  {
    (if direction == Encrypt then target else source) + MacSuffix
  }

  /** The skip test: churn when the target is missing, when asked to redo it,
      or when an authenticated encryption has no tag file yet. */
  predicate Churns(files: map<string, seq<byte>>, target: string, macPath: string, flags: FileChurnParams)
  {
    target !in files || flags.redoTarget
    || (flags.subjectAuthentication && !flags.isDecrypt && macPath !in files)
  }

  /** The exception, if any, raised while opening the streams in the order
      target (write, exclusive), source (read, shared for reading), tag file
      (write on encrypt, read on decrypt). */
  function OpenConflict(files: map<string, seq<byte>>, source: string, target: string, macPath: string,
                        direction: Direction, useMac: bool): Option<Error>
  {
    if source == target then Some(IoError(FileInUse))
    else if !useMac then None
    else if macPath == target || (direction == Encrypt && macPath == source) then Some(IoError(FileInUse))
    else if direction == Decrypt && macPath !in files then Some(FileNotFound(macPath))
    else None
  }

  /** The contents the tag stream starts from: `File.OpenWrite` neither
      truncates an existing file nor fails on a missing one. */
  function MacData(files: map<string, seq<byte>>, macPath: string, useMac: bool): seq<byte>
  {
    if useMac && macPath in files then files[macPath] else []
  }

  /** The files once the streams are disposed: the tag file (when written)
      and then the target hold what the churn left in them. */
  function Flushed(files: map<string, seq<byte>>, target: string, macPath: string, writesMac: bool,
                   r: ChurnState): map<string, seq<byte>>
  {
    (if writesMac then files[macPath := r.mac] else files)[target := r.output]
  }

  /** The body of the `try`: open the three files and churn. `files` no
      longer holds the target. */
  function Tried(p: Primitives, files: map<string, seq<byte>>, source: string, target: string, macPath: string,
                 direction: Direction, useMac: bool, isGcm: bool, salt: seq<byte>, pass: seq<byte>, le: bool): FileResult
    requires source != target ==> source in files
  {
    var openFiles := files[target := []];
    match OpenConflict(openFiles, source, target, macPath, direction, useMac)
    case Some(e) => FileResult(Fail(e), openFiles)
    case None =>
      var r := Churned(GetChurner(p, UniqueKey(salt, pass), isGcm), direction, useMac, le, openFiles[source],
                       MacData(openFiles, macPath, useMac), 0);
      FileResult(if r.error.None? then Pass else Fail(r.error.value),
                 Flushed(openFiles, target, macPath, useMac && direction == Encrypt, r))
  }

  /** Delete the stale target, run the `try`, and delete the target again
      when it threw. */
  function Attempt(p: Primitives, files: map<string, seq<byte>>, source: string, target: string, macPath: string,
                   direction: Direction, useMac: bool, isGcm: bool, salt: seq<byte>, pass: seq<byte>, le: bool): FileResult
    requires source in files
  {
    var t := Tried(p, files - {target}, source, target, macPath, direction, useMac, isGcm, salt, pass, le);
    if t.outcome.Fail? then FileResult(t.outcome, t.files - {target}) else t
  }

  /** `Churn(this FileInfo sourceInfo, salt, pass, params, targetName)`:
      the outcome and the files afterwards. */
  function FileChurned(p: Primitives, files: map<string, seq<byte>>, source: string, flags: FileChurnParams,
                       targetName: Option<string>, salt: seq<byte>, pass: seq<byte>, le: bool): FileResult
  {
    if source !in files then FileResult(Fail(ArgumentError("File not found: " + source)), files)
    else
      var direction := DirectionOf(flags);
      var target := TargetPath(source, direction, targetName);
      var macPath := MacPath(source, target, direction);
      var t := if Churns(files, target, macPath, flags)
               then Attempt(p, files, source, target, macPath, direction, flags.subjectAuthentication,
                            !flags.isCcm, salt, pass, le)
               else FileResult(Pass, files);
      if t.outcome.Fail? then t else FileResult(Pass, Kept(t.files, source, flags.keepSource))
  }

  /** The files after the final step: the source is deleted unless kept. */
  function Kept(files: map<string, seq<byte>>, source: string, keepSource: bool): map<string, seq<byte>>
  {
    if keepSource then files else files - {source}
  }

  // -----------------------------------------------------------------------
  // The methods

  /** The file-level churn. The new files and the outcome are `FileChurned`'s. */
  method Churn(fs: FileSystem, p: Primitives, source: string, salt: seq<byte>, pass: seq<byte>,
               flags: FileChurnParams, targetName: Option<string>, platformLittleEndian: bool)
    returns (outcome: Outcome)
    modifies fs
    ensures FileResult(outcome, fs.files)
            == FileChurned(p, old(fs.files), source, flags, targetName, salt, pass, platformLittleEndian)
  {
    outcome := AssertExists(fs, source);
    if outcome.Fail? {
      return;
    }

    var direction := DirectionOf(flags);
    var targetPath := TargetPath(source, direction, targetName);
    var useMac := flags.subjectAuthentication;
    var isGcm := !flags.isCcm;
    var macFilePath := MacPath(source, targetPath, direction);

    if targetPath !in fs.files || flags.redoTarget
       || (useMac && direction == Encrypt && macFilePath !in fs.files)
    {
      fs.Delete(targetPath);
      outcome := OpenAndChurn(fs, p, source, targetPath, macFilePath, direction, useMac, isGcm, salt, pass,
                              platformLittleEndian);
      if outcome.Fail? {
        fs.Delete(targetPath);
        return;
      }
    }

    if !flags.keepSource {
      fs.Delete(source);
    }
  }

  /** The `try` block: open the target for writing, the source for reading
      and the tag file as the direction demands, churn, and dispose of the
      streams. The new files and the outcome are `Tried`'s. */
  method OpenAndChurn(fs: FileSystem, p: Primitives, source: string, target: string, macPath: string,
                      direction: Direction, useMac: bool, isGcm: bool, salt: seq<byte>, pass: seq<byte>,
                      platformLittleEndian: bool)
    returns (outcome: Outcome)
    requires source != target ==> source in fs.files
    modifies fs
    ensures FileResult(outcome, fs.files)
            == Tried(p, old(fs.files), source, target, macPath, direction, useMac, isGcm, salt, pass,
                     platformLittleEndian)
  {
    fs.Store(target, []);
    var outstr := new MemStream([], false, true, true);
    var conflict := OpenConflict(fs.files, source, target, macPath, direction, useMac);
    if conflict.Some? {
      return Fail(conflict.value);
    }
    var instr := new MemStream(fs.files[source], true, false, true);
    var gmac: MemStream? := null;
    if useMac {
      gmac := new MemStream(MacData(fs.files, macPath, useMac), direction == Decrypt, direction == Encrypt, true);
    }
    outcome := ChurnEngine.Churn(p, instr, outstr, direction, isGcm, salt, pass, gmac, platformLittleEndian);
    if gmac != null && direction == Encrypt {
      fs.Store(macPath, gmac.data);
    }
    fs.Store(target, outstr.data);
  }

  // -----------------------------------------------------------------------
  // Properties

  /** The target path rules: an override name (without a separator) becomes
      the file name of the target in the source's directory; otherwise
      encryption appends ".enc", and decryption removes one final ".enc" and
      leaves a name without it unchanged. */
  lemma TargetPathRules(source: string, direction: Direction, targetName: Option<string>)
    ensures targetName.Some? && Separator !in targetName.value && DirectoryName(source) != [] ==>
              FileName(TargetPath(source, direction, targetName)) == targetName.value
    ensures targetName.None? && direction == Encrypt ==>
              TargetPath(source, direction, targetName) == source + EncSuffix
    ensures targetName.None? && direction == Decrypt && EndsWith(source, EncSuffix) ==>
              TargetPath(source, direction, targetName) + EncSuffix == source
    ensures targetName.None? && direction == Decrypt && !EndsWith(source, EncSuffix)
            && !EndsWith(source, EncSuffix + "\n") ==>
              TargetPath(source, direction, targetName) == source
  {
    if targetName.Some? && Separator !in targetName.value && DirectoryName(source) != [] {
      CombineFileName(DirectoryName(source), targetName.value);
    }
  }

  /** Decrypting the name encryption chose gives back the source name. */
  lemma TargetPathRoundTrip(source: string)
    ensures TargetPath(TargetPath(source, Encrypt, None), Decrypt, None) == source
  {
    var enc := source + EncSuffix;
    assert enc[..|enc| - |EncSuffix|] == source;
  }

  /** A churn that opens its files cleanly and does not throw reports
      success; the target (and, when encrypting with authentication, the tag
      file) holds what the stream churn left in it, every other file is as it
      was, and the source is gone unless kept. */
  lemma ChurnedFile(p: Primitives, files: map<string, seq<byte>>, source: string, flags: FileChurnParams,
                    targetName: Option<string>, salt: seq<byte>, pass: seq<byte>, le: bool)
    returns (target: string, macPath: string, e: ChurnState)
    requires source in files
    ensures target == TargetPath(source, DirectionOf(flags), targetName)
    ensures macPath == MacPath(source, target, DirectionOf(flags))
    ensures e == Churned(GetChurner(p, UniqueKey(salt, pass), !flags.isCcm), DirectionOf(flags),
                         flags.subjectAuthentication, le, files[source],
                         MacData(files, macPath, flags.subjectAuthentication), 0)
    ensures Churns(files, target, macPath, flags) && target != source && e.error.None?
            && OpenConflict(files, source, target, macPath, DirectionOf(flags), flags.subjectAuthentication).None?
            ==> FileChurned(p, files, source, flags, targetName, salt, pass, le)
                == FileResult(Pass, Kept(Flushed(files, target, macPath,
                                                 flags.subjectAuthentication && !flags.isDecrypt, e),
                                         source, flags.keepSource))
  {
    var direction := DirectionOf(flags);
    var useMac := flags.subjectAuthentication;
    target := TargetPath(source, direction, targetName);
    macPath := MacPath(source, target, direction);
    e := Churned(GetChurner(p, UniqueKey(salt, pass), !flags.isCcm), direction, useMac, le, files[source],
                 MacData(files, macPath, useMac), 0);
    if Churns(files, target, macPath, flags) && target != source && e.error.None?
       && OpenConflict(files, source, target, macPath, direction, useMac).None?
    {
      var openFiles := (files - {target})[target := []];
      assert OpenConflict(openFiles, source, target, macPath, direction, useMac).None?;
      assert openFiles[source] == files[source];
      assert MacData(openFiles, macPath, useMac) == MacData(files, macPath, useMac);
      assert Flushed(openFiles, target, macPath, useMac && direction == Encrypt, e)
             == Flushed(files, target, macPath, useMac && direction == Encrypt, e);
    }
  }

  /** A churn that throws leaves the files as they were, except that the
      target is gone: the rollback deletes it, and nothing else was written. */
  lemma FailureRollsBack(p: Primitives, files: map<string, seq<byte>>, source: string, flags: FileChurnParams,
                         targetName: Option<string>, salt: seq<byte>, pass: seq<byte>, le: bool)
    ensures var r := FileChurned(p, files, source, flags, targetName, salt, pass, le);
            r.outcome.Fail? ==>
              r.files == (if source in files then files - {TargetPath(source, DirectionOf(flags), targetName)}
                          else files)
  {
    if source in files {
      var direction := DirectionOf(flags);
      var target := TargetPath(source, direction, targetName);
      var macPath := MacPath(source, target, direction);
      if Churns(files, target, macPath, flags) {
        AttemptRollsBack(p, files, source, target, macPath, direction, flags.subjectAuthentication,
                         !flags.isCcm, salt, pass, le);
      }
    }
  }

  /** An attempt that throws leaves the files as they were without the target. */
  lemma AttemptRollsBack(p: Primitives, files: map<string, seq<byte>>, source: string, target: string, macPath: string,
                         direction: Direction, useMac: bool, isGcm: bool, salt: seq<byte>, pass: seq<byte>, le: bool)
    requires source in files
    ensures var t := Attempt(p, files, source, target, macPath, direction, useMac, isGcm, salt, pass, le);
            t.outcome.Fail? ==> t.files == files - {target}
  {
    var openFiles := (files - {target})[target := []];
    if OpenConflict(openFiles, source, target, macPath, direction, useMac).None? {
      var c := GetChurner(p, UniqueKey(salt, pass), isGcm);
      var e := Churned(c, direction, useMac, le, openFiles[source], MacData(openFiles, macPath, useMac), 0);
      ChurnProperties.ChurnFailures(c, direction, useMac, le, openFiles[source], MacData(openFiles, macPath, useMac), 0);
      if e.error.Some? {
        assert Flushed(openFiles, target, macPath, useMac && direction == Encrypt, e) - {target}
               == files - {target};
      }
    } else {
      assert openFiles - {target} == files - {target};
    }
  }

  /** Whatever happens, no file other than the source, the target and the
      tag file is created, changed or deleted. */
  lemma ChurnFrame(p: Primitives, files: map<string, seq<byte>>, source: string, flags: FileChurnParams,
                   targetName: Option<string>, salt: seq<byte>, pass: seq<byte>, le: bool, other: string)
    requires other != source
    requires other != TargetPath(source, DirectionOf(flags), targetName)
    requires other != MacPath(source, TargetPath(source, DirectionOf(flags), targetName), DirectionOf(flags))
    ensures var r := FileChurned(p, files, source, flags, targetName, salt, pass, le);
            (other in r.files <==> other in files) && (other in files ==> r.files[other] == files[other])
  {
    if source in files {
      var direction := DirectionOf(flags);
      var target := TargetPath(source, direction, targetName);
      AttemptFrame(p, files, source, target, MacPath(source, target, direction), direction,
                   flags.subjectAuthentication, !flags.isCcm, salt, pass, le, other);
    }
  }

  lemma AttemptFrame(p: Primitives, files: map<string, seq<byte>>, source: string, target: string, macPath: string,
                     direction: Direction, useMac: bool, isGcm: bool, salt: seq<byte>, pass: seq<byte>, le: bool,
                     other: string)
    requires source in files && other != target && other != macPath
    ensures var t := Attempt(p, files, source, target, macPath, direction, useMac, isGcm, salt, pass, le);
            (other in t.files <==> other in files) && (other in files ==> t.files[other] == files[other])
  {
    var openFiles := (files - {target})[target := []];
    if OpenConflict(openFiles, source, target, macPath, direction, useMac).None? {
      var e := Churned(GetChurner(p, UniqueKey(salt, pass), isGcm), direction, useMac, le,
                       openFiles[source], MacData(openFiles, macPath, useMac), 0);
      var w := Flushed(openFiles, target, macPath, useMac && direction == Encrypt, e);
      assert (other in w <==> other in files) && (other in files ==> w[other] == files[other]);
    }
  }

  /** The source is never modified: after a normal return it is gone when
      not kept and unchanged when kept. */
  lemma SourceKeptOrDeleted(p: Primitives, files: map<string, seq<byte>>, source: string, flags: FileChurnParams,
                            targetName: Option<string>, salt: seq<byte>, pass: seq<byte>, le: bool)
    ensures var r := FileChurned(p, files, source, flags, targetName, salt, pass, le);
            r.outcome.Pass? ==>
              (source in r.files <==> flags.keepSource)
              && (flags.keepSource ==> r.files[source] == files[source])
  {
  }

  /** A skipped churn leaves an existing target as it was. */
  lemma SkipKeepsTarget(p: Primitives, files: map<string, seq<byte>>, source: string, flags: FileChurnParams,
                        targetName: Option<string>, salt: seq<byte>, pass: seq<byte>, le: bool)
    requires source in files
    requires var target := TargetPath(source, DirectionOf(flags), targetName);
             target != source && !Churns(files, target, MacPath(source, target, DirectionOf(flags)), flags)
    ensures var target := TargetPath(source, DirectionOf(flags), targetName);
            var r := FileChurned(p, files, source, flags, targetName, salt, pass, le);
            r.outcome == Pass && target in files && target in r.files && r.files[target] == files[target]
  {
  }

  /** Encrypting a file and then decrypting the file it produced, with the
      same key material and flags, gives the original contents back under
      the original name, with and without authentication. */
  lemma FileRoundTrip(p: Primitives, files: map<string, seq<byte>>, source: string, flags: FileChurnParams,
                      salt: seq<byte>, pass: seq<byte>, le: bool)
    requires source in files
    requires !flags.isDecrypt && !flags.keepSource
    requires Churns(files, source + EncSuffix, source + EncSuffix + MacSuffix, flags)
    ensures var r1 := FileChurned(p, files, source, flags, None, salt, pass, le);
            var r2 := FileChurned(p, r1.files, source + EncSuffix, flags.(isDecrypt := true), None, salt, pass, le);
            r1.outcome == Pass && r2.outcome == Pass
            && source in r2.files && r2.files[source] == files[source]
            && source + EncSuffix !in r2.files
  {
    var c := GetChurner(p, UniqueKey(salt, pass), !flags.isCcm);
    var useMac := flags.subjectAuthentication;
    var data := files[source];
    var target, macPath, e := ChurnedFile(p, files, source, flags, None, salt, pass, le);
    assert target == source + EncSuffix;
    assert macPath == source + EncSuffix + MacSuffix;
    ChurnProperties.EncryptChurn(c, useMac, le, data, MacData(files, macPath, useMac), 0);
    var r1 := FileChurned(p, files, source, flags, None, salt, pass, le);
    assert r1.files == Flushed(files, target, macPath, useMac, e) - {source};

    var dec := flags.(isDecrypt := true);
    TargetPathRoundTrip(source);
    var target2, macPath2, d := ChurnedFile(p, r1.files, target, dec, None, salt, pass, le);
    assert target2 == source && macPath2 == macPath;
    assert r1.files[target] == e.output;
    if useMac {
      assert MacData(r1.files, macPath, useMac) == e.mac;
      ChurnProperties.RoundTripAuthenticated(c, le, data, MacData(files, macPath, useMac), 0);
    } else {
      ChurnProperties.RoundTripAuthless(c, false, le, data, MacData(files, macPath, useMac), 0, [], 0);
      ChurnProperties.AuthlessDecryptChurn(c, le, e.output, [], 0);
    }
  }

  // -----------------------------------------------------------------------
  // When the target path is the source path

  /** As written, decrypting a file whose name does not end in ".enc" picks
      the source itself as the target. The target then exists, so the churn
      is skipped, and the source is deleted: the call returns normally and
      the file is gone. With `RedoTarget` the target (the source) is deleted
      first and the churn then fails to open it: the exception propagates and
      the file is gone as well. */
  lemma SameTargetLosesSource(p: Primitives, files: map<string, seq<byte>>, source: string, flags: FileChurnParams,
                              salt: seq<byte>, pass: seq<byte>, le: bool)
    requires source in files && flags.isDecrypt
    requires !EndsWith(source, EncSuffix) && !EndsWith(source, EncSuffix + "\n")
    ensures TargetPath(source, Decrypt, None) == source
    ensures var r := FileChurned(p, files, source, flags, None, salt, pass, le);
            && (!flags.redoTarget && !flags.keepSource ==> r.outcome == Pass && r.files == files - {source})
            && (flags.redoTarget ==> r.outcome == Fail(IoError(FileInUse)) && r.files == files - {source})
  {
  }

  /** The message of the refusal in `FileChurnedGuarded`. */
  const SameTarget: string := "Target is the source"

  /** The churn with a guard against a target path equal to the source path:
      such a call is refused before anything is touched. */
  function FileChurnedGuarded(p: Primitives, files: map<string, seq<byte>>, source: string, flags: FileChurnParams,
                              targetName: Option<string>, salt: seq<byte>, pass: seq<byte>, le: bool): FileResult
  {
    if source in files && TargetPath(source, DirectionOf(flags), targetName) == source
    then FileResult(Fail(ArgumentError(SameTarget)), files)
    else FileChurned(p, files, source, flags, targetName, salt, pass, le)
  }

  /** With the guard, the contents are never lost: a normal return leaves a
      target, and an exception leaves an existing source as it was. */
  lemma GuardedKeepsData(p: Primitives, files: map<string, seq<byte>>, source: string, flags: FileChurnParams,
                         targetName: Option<string>, salt: seq<byte>, pass: seq<byte>, le: bool)
    ensures var r := FileChurnedGuarded(p, files, source, flags, targetName, salt, pass, le);
            && (r.outcome.Pass? ==> TargetPath(source, DirectionOf(flags), targetName) in r.files)
            && (r.outcome.Fail? && source in files ==> source in r.files && r.files[source] == files[source])
  {
    FailureRollsBack(p, files, source, flags, targetName, salt, pass, le);
  }
}
