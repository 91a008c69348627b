/** FullStack.Crypto.Extensions/Core/CryptoExtensions.cs: the stream churn
    through AES-CBC with PKCS7 padding under a PBKDF2 key, and the file churn
    around it. The file churn makes the same decisions as the one in
    FullStack.Crypto/ChurnExtensions.cs without a tag file; its path rules are
    shared with that model. */
module CryptoCore {
  import opened Common
  import opened Streams
  import opened Assertions
  import opened ChurnEngine
  import FileChurn

  /** `CryptoMode`: the same two values as the churn direction. */
  type CryptoMode = Direction

  /** The flags of this assembly's `FileChurnParams`. */
  datatype FileChurnParams = FileChurnParams(isDecrypt: bool, keepSource: bool, redoTarget: bool)

  /** The IV and key read from `Rfc2898DeriveBytes`: its first 16 bytes, then
      the next 32. */
  datatype KeyIv = KeyIv(iv: seq<byte>, key: seq<byte>)

  /** What the decrypting `CryptoStream` left in the target, and the
      exception (bad padding, a length that is not a whole number of blocks)
      it threw at the end of the input, if any. */
  datatype Transformed = Transformed(output: seq<byte>, error: Option<Error>)

  /** The library calls: PBKDF2 (section 5.2 of RFC 8018) with HMAC-SHA1,
      and AES-CBC with PKCS7 padding in each direction. */
  datatype Cbc = Cbc(
    derive: (seq<byte>, seq<byte>, nat) -> KeyIv,
    encrypt: (KeyIv, seq<byte>) -> seq<byte>,
    decrypt: (KeyIv, seq<byte>) -> Transformed)

  /** What the model assumes of the cipher where a property needs it: PKCS7
      padding makes every ciphertext at least one block long, and decryption
      under the same key and IV gives the plaintext back. */
  ghost predicate Sound(cbc: Cbc)
  {
    forall k: KeyIv, data: seq<byte> {:trigger cbc.encrypt(k, data)} ::
      |cbc.encrypt(k, data)| > 0 && cbc.decrypt(k, cbc.encrypt(k, data)) == Transformed(data, None)
  }

  /** The least salt length `Rfc2898DeriveBytes` accepts. */
  const MinSaltLength: nat := 8

  const SaltTooShort: string := "Salt is not at least eight bytes."
  const NeedPositive: string := "Positive number required."

  /** `new Rfc2898DeriveBytes(pass, salt, keyIterations)` and the two
      `GetBytes` calls: the salt is checked first, then the iteration count. */
  function Cryptor(cbc: Cbc, salt: seq<byte>, pass: seq<byte>, keyIterations: int): (r: Result<KeyIv>)
    ensures r.Failure? <==> |salt| < MinSaltLength || keyIterations <= 0
    ensures |salt| < MinSaltLength ==> r == Failure(ArgumentError(SaltTooShort))
  {
    if |salt| < MinSaltLength then Failure(ArgumentError(SaltTooShort))
    else if keyIterations <= 0 then Failure(ArgumentOutOfRange(NeedPositive))
    else Success(cbc.derive(pass, salt, keyIterations))
  }

  /** Copying a `CryptoStream` over `input` to the target. */
  function Transform(cbc: Cbc, mode: CryptoMode, k: KeyIv, input: seq<byte>): Transformed
  {
    if mode == Encrypt then Transformed(cbc.encrypt(k, input), None) else cbc.decrypt(k, input)
  }

  /** The bytes a stream delivers from `position` to its end. */
  function Remaining(data: seq<byte>, position: nat): (r: seq<byte>)
    ensures position <= |data| ==> r == data[position..]
    ensures position >= |data| ==> r == []
  {
    if position >= |data| then [] else data[position..]
  }

  // -----------------------------------------------------------------------
  // The stream churn

  /** Neither stream (where there is one) changed. */
  twostate predicate Untouched(source: MemStream?, target: MemStream?)
    reads source, target
  {
    (source != null ==> unchanged(source)) && (target != null ==> unchanged(target))
  }

  /** `Churn(this Stream source, Stream target, mode, salt, pass,
      keyIterations)`. The checks come first and change nothing. Then the
      target is emptied and receives the transform of what the source holds
      from its current position on (the source is not rewound); the source
      is read to its end; on success the target is rewound. */
  method StreamChurn(cbc: Cbc, source: MemStream?, target: MemStream?, mode: CryptoMode,
                     salt: seq<byte>, pass: seq<byte>, keyIterations: int)
    returns (outcome: Outcome)
    requires source != null && target != null ==> source != target
    modifies source, target
    ensures old(AssertReadable(source)).Fail? ==>
              outcome == old(AssertReadable(source)) && Untouched(source, target)
    ensures old(AssertReadable(source)).Pass? && old(AssertWriteable(target)).Fail? ==>
              outcome == old(AssertWriteable(target)) && Untouched(source, target)
    ensures old(AssertReadable(source)).Pass? && old(AssertWriteable(target)).Pass? ==>
              match Cryptor(cbc, salt, pass, keyIterations)
              case Failure(e) => outcome == Fail(e) && unchanged(source) && unchanged(target)
              case Success(k) =>
                var t := Transform(cbc, mode, k, Remaining(old(source.data), old(source.position)));
                && source.data == old(source.data) && source.position == Max(old(source.position), |source.data|)
                && target.data == t.output
                && target.position == (if t.error.None? then 0 else |t.output|)
                && outcome == (if t.error.None? then Pass else Fail(t.error.value))
  {
    outcome := AssertReadable(source);
    if outcome.Fail? {
      return;
    }
    outcome := AssertWriteable(target);
    if outcome.Fail? {
      return;
    }

    var cryptor := Cryptor(cbc, salt, pass, keyIterations);
    if cryptor.Failure? {
      return Fail(cryptor.error);
    }

    target.SetLength(0);
    var input := Remaining(source.data, source.position);
    source.Seek(Max(source.position, |source.data|));
    var t := Transform(cbc, mode, cryptor.value, input);
    target.Write(t.output);
    if t.error.Some? {
      return Fail(t.error.value);
    }

    target.Seek(0);
    outcome := Pass;
  }

  // -----------------------------------------------------------------------
  // The file churn

  function DirectionOf(flags: FileChurnParams): CryptoMode
  {
    if flags.isDecrypt then Decrypt else Encrypt
  }

  /** The body of the `try`: open the target for writing and the source for
      reading, and churn. `files` no longer holds the target. */
  function Tried(cbc: Cbc, files: map<string, seq<byte>>, source: string, target: string, mode: CryptoMode,
                 salt: seq<byte>, pass: seq<byte>, keyIterations: int): FileChurn.FileResult
    requires source != target ==> source in files
  {
    var openFiles := files[target := []];
    if source == target then FileChurn.FileResult(Fail(IoError(FileChurn.FileInUse)), openFiles)
    else if openFiles[source] == [] then FileChurn.FileResult(Fail(ArgumentError(NotReadable)), openFiles)
    else match Cryptor(cbc, salt, pass, keyIterations)
      case Failure(e) => FileChurn.FileResult(Fail(e), openFiles)
      case Success(k) =>
        var t := Transform(cbc, mode, k, openFiles[source]);
        FileChurn.FileResult(if t.error.None? then Pass else Fail(t.error.value), openFiles[target := t.output])
  }

  /** `Churn(this FileInfo fi, salt, pass, keyIterations, params,
      targetName)`: the outcome and the files afterwards. */
  function FileChurned(cbc: Cbc, files: map<string, seq<byte>>, source: string, flags: FileChurnParams,
                       targetName: Option<string>, salt: seq<byte>, pass: seq<byte>, keyIterations: int)
    : FileChurn.FileResult
  {
    if source !in files then FileChurn.FileResult(Fail(ArgumentError("File not found: " + source)), files)
    else
      var target := FileChurn.TargetPath(source, DirectionOf(flags), targetName);
      var t := if target !in files || flags.redoTarget
               then Tried(cbc, files - {target}, source, target, DirectionOf(flags), salt, pass, keyIterations)
               else FileChurn.FileResult(Pass, files);
      if t.outcome.Fail? then FileChurn.FileResult(t.outcome, t.files - {target})
      else FileChurn.FileResult(Pass, FileChurn.Kept(t.files, source, flags.keepSource))
  }

  /** The file churn. The new files and the outcome are `FileChurned`'s. */
  method Churn(fs: FileSystem, cbc: Cbc, source: string, salt: seq<byte>, pass: seq<byte>, keyIterations: int,
               flags: FileChurnParams, targetName: Option<string>)
    returns (outcome: Outcome)
    modifies fs
    ensures FileChurn.FileResult(outcome, fs.files)
            == FileChurned(cbc, old(fs.files), source, flags, targetName, salt, pass, keyIterations)
  {
    outcome := AssertExists(fs, source);
    if outcome.Fail? {
      return;
    }

    var mode := DirectionOf(flags);
    var targetPath := FileChurn.TargetPath(source, mode, targetName);
    if targetPath !in fs.files || flags.redoTarget {
      fs.Delete(targetPath);
      outcome := OpenAndChurn(fs, cbc, source, targetPath, mode, salt, pass, keyIterations);
      if outcome.Fail? {
        fs.Delete(targetPath);
        return;
      }
    }

    if !flags.keepSource {
      fs.Delete(source);
    }
  }

  /** The `try` block: `targetInfo.OpenWrite()`, `fi.OpenRead()` and the
      stream churn; disposing the target stream stores what it holds. */
  method OpenAndChurn(fs: FileSystem, cbc: Cbc, source: string, target: string, mode: CryptoMode,
                      salt: seq<byte>, pass: seq<byte>, keyIterations: int)
    returns (outcome: Outcome)
    requires source != target ==> source in fs.files
    modifies fs
    ensures FileChurn.FileResult(outcome, fs.files)
            == Tried(cbc, old(fs.files), source, target, mode, salt, pass, keyIterations)
  {
    fs.Store(target, []);
    var outstr := new MemStream([], false, true, true);
    if source == target {
      return Fail(IoError(FileChurn.FileInUse));
    }
    var instr := new MemStream(fs.files[source], true, false, true);
    outcome := StreamChurn(cbc, instr, outstr, mode, salt, pass, keyIterations);
    fs.Store(target, outstr.data);
  }

  // -----------------------------------------------------------------------
  // Properties

  /** An empty source is refused by the readability check: the call throws
      an `ArgumentException`, no target is left behind and the source stays. */
  lemma EmptySourceRefused(cbc: Cbc, files: map<string, seq<byte>>, source: string, flags: FileChurnParams,
                           targetName: Option<string>, salt: seq<byte>, pass: seq<byte>, keyIterations: int)
    requires source in files && files[source] == []
    requires var target := FileChurn.TargetPath(source, DirectionOf(flags), targetName);
             target != source && (target !in files || flags.redoTarget)
    ensures var r := FileChurned(cbc, files, source, flags, targetName, salt, pass, keyIterations);
            r.outcome == Fail(ArgumentError(NotReadable))
            && r.files == files - {FileChurn.TargetPath(source, DirectionOf(flags), targetName)}
  {
    var target := FileChurn.TargetPath(source, DirectionOf(flags), targetName);
    assert ((files - {target})[target := []])[source] == [];
  }

  /** A churn that throws leaves the files as they were, except that the
      target is gone. */
  lemma FailureRollsBack(cbc: Cbc, files: map<string, seq<byte>>, source: string, flags: FileChurnParams,
                         targetName: Option<string>, salt: seq<byte>, pass: seq<byte>, keyIterations: int)
    ensures var r := FileChurned(cbc, files, source, flags, targetName, salt, pass, keyIterations);
            r.outcome.Fail? ==>
              r.files == (if source in files
                          then files - {FileChurn.TargetPath(source, DirectionOf(flags), targetName)}
                          else files)
  {
    if source in files {
      var target := FileChurn.TargetPath(source, DirectionOf(flags), targetName);
      var openFiles := (files - {target})[target := []];
      assert openFiles - {target} == files - {target};
      if source != target && files[source] != [] && Cryptor(cbc, salt, pass, keyIterations).Success? {
        var t := Transform(cbc, DirectionOf(flags), Cryptor(cbc, salt, pass, keyIterations).value, files[source]);
        assert openFiles[target := t.output] - {target} == files - {target};
      }
    }
  }

  /** A churn that does not throw leaves the transform of the source in the
      target, every other file as it was, and the source gone unless kept. */
  lemma ChurnedFile(cbc: Cbc, files: map<string, seq<byte>>, source: string, flags: FileChurnParams,
                    targetName: Option<string>, salt: seq<byte>, pass: seq<byte>, keyIterations: int)
    returns (target: string, t: Transformed)
    requires source in files && files[source] != []
    requires |salt| >= MinSaltLength && keyIterations > 0
    ensures target == FileChurn.TargetPath(source, DirectionOf(flags), targetName)
    ensures t == Transform(cbc, DirectionOf(flags), cbc.derive(pass, salt, keyIterations), files[source])
    ensures target != source && (target !in files || flags.redoTarget) && t.error.None? ==>
              FileChurned(cbc, files, source, flags, targetName, salt, pass, keyIterations)
              == FileChurn.FileResult(Pass, FileChurn.Kept(files[target := t.output], source, flags.keepSource))
  {
    target := FileChurn.TargetPath(source, DirectionOf(flags), targetName);
    t := Transform(cbc, DirectionOf(flags), cbc.derive(pass, salt, keyIterations), files[source]);
    if target != source && (target !in files || flags.redoTarget) && t.error.None? {
      var openFiles := (files - {target})[target := []];
      assert openFiles[source] == files[source];
      assert openFiles[target := t.output] == files[target := t.output];
    }
  }

  /** Under a sound cipher, encrypting a non-empty file and decrypting the
      file it produced, with the same salt, pass and iteration count, gives
      the original contents back under the original name. */
  lemma FileRoundTrip(cbc: Cbc, files: map<string, seq<byte>>, source: string, flags: FileChurnParams,
                      salt: seq<byte>, pass: seq<byte>, keyIterations: int)
    requires Sound(cbc)
    requires source in files && files[source] != []
    requires |salt| >= MinSaltLength && keyIterations > 0
    requires !flags.isDecrypt && !flags.keepSource
    requires source + FileChurn.EncSuffix !in files || flags.redoTarget
    ensures var r1 := FileChurned(cbc, files, source, flags, None, salt, pass, keyIterations);
            var r2 := FileChurned(cbc, r1.files, source + FileChurn.EncSuffix, flags.(isDecrypt := true), None,
                                  salt, pass, keyIterations);
            r1.outcome == Pass && r2.outcome == Pass
            && source in r2.files && r2.files[source] == files[source]
            && source + FileChurn.EncSuffix !in r2.files
  {
    var k := cbc.derive(pass, salt, keyIterations);
    var target, e := ChurnedFile(cbc, files, source, flags, None, salt, pass, keyIterations);
    assert target == source + FileChurn.EncSuffix;
    assert e.output == cbc.encrypt(k, files[source]);
    var r1 := FileChurned(cbc, files, source, flags, None, salt, pass, keyIterations);
    assert r1.files == files[target := e.output] - {source};

    var dec := flags.(isDecrypt := true);
    FileChurn.TargetPathRoundTrip(source);
    var target2, d := ChurnedFile(cbc, r1.files, target, dec, None, salt, pass, keyIterations);
    assert target2 == source;
  }

  // -----------------------------------------------------------------------
  // When the target path is the source path

  /** As written, decrypting a file whose name does not end in ".enc" picks
      the source itself as the target: by default the churn is skipped and the
      source deleted, and with `RedoTarget` the source is deleted before the
      churn fails to open it. Either way the file is gone. */
  lemma SameTargetLosesSource(cbc: Cbc, files: map<string, seq<byte>>, source: string, flags: FileChurnParams,
                              salt: seq<byte>, pass: seq<byte>, keyIterations: int)
    requires source in files && flags.isDecrypt
    requires !FileChurn.EndsWith(source, FileChurn.EncSuffix)
    requires !FileChurn.EndsWith(source, FileChurn.EncSuffix + "\n")
    ensures FileChurn.TargetPath(source, Decrypt, None) == source
    ensures var r := FileChurned(cbc, files, source, flags, None, salt, pass, keyIterations);
            && (!flags.redoTarget && !flags.keepSource ==> r.outcome == Pass && r.files == files - {source})
            && (flags.redoTarget ==> r.outcome == Fail(IoError(FileChurn.FileInUse)) && r.files == files - {source})
  {
  }

  /** The churn with a guard against a target path equal to the source path. */
  function FileChurnedGuarded(cbc: Cbc, files: map<string, seq<byte>>, source: string, flags: FileChurnParams,
                              targetName: Option<string>, salt: seq<byte>, pass: seq<byte>, keyIterations: int)
    : FileChurn.FileResult
  {
    if source in files && FileChurn.TargetPath(source, DirectionOf(flags), targetName) == source
    then FileChurn.FileResult(Fail(ArgumentError(FileChurn.SameTarget)), files)
    else FileChurned(cbc, files, source, flags, targetName, salt, pass, keyIterations)
  }

  /** With the guard, a normal return leaves a target, and an exception
      leaves an existing source as it was. */
  lemma GuardedKeepsData(cbc: Cbc, files: map<string, seq<byte>>, source: string, flags: FileChurnParams,
                         targetName: Option<string>, salt: seq<byte>, pass: seq<byte>, keyIterations: int)
    ensures var r := FileChurnedGuarded(cbc, files, source, flags, targetName, salt, pass, keyIterations);
            && (r.outcome.Pass? ==> FileChurn.TargetPath(source, DirectionOf(flags), targetName) in r.files)
            && (r.outcome.Fail? && source in files ==> source in r.files && r.files[source] == files[source])
  {
    FailureRollsBack(cbc, files, source, flags, targetName, salt, pass, keyIterations);
  }
}
