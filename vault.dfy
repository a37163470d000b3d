/**
 * internal/store/vault.go: where the vault lives, and loading and saving it.
 *
 * The vault file is `<home>/.atlas/compass.enc`. Load reads the container, decrypts it and
 * decodes the JSON; a missing file is the first-run case and gives an empty vault. Save
 * creates the directory, encodes, encrypts with fresh random salt and nonce, and
 * overwrites the file. Errors are passed through unchanged, except a decode failure,
 * which is wrapped as "corrupted vault data".
 */
module Store {
  import opened Wrappers
  import opened Os
  import Crypto
  import Model

  const DirName := ".atlas"
  const FileName := "compass.enc"
  /** 0700: owner-only access to the directory. */
  const DirMode: Mode := 448
  /** 0600: owner-only read and write for the file. */
  const FileMode: Mode := 384

  datatype StoreError =
    | Os(os: OsError)                   // home, directory, read or write failure, as is
    | Cipher(cipher: Crypto.CryptoError) // crypto.Encrypt or crypto.Decrypt failure, as is
    | Corrupted(cause: Model.JsonError)  // json.Unmarshal failed after a successful decryption
    | Encoding(cause: Model.JsonError)   // json.Marshal failed

  /** The wrapping Load adds to a decode failure. */
  const CorruptedPrefix := "corrupted vault data: "

  /**
   * A stand-in for the text `err.Error()` gives. Crypto's own messages and Load's wrapping
   * of a decode failure are kept; the texts of the os and json libraries are opaque: the
   * "open <path>: " prefix of a path error and the JSON error's own text are not reproduced.
   */
  function Message(e: StoreError): (text: string)
    ensures e.Cipher? ==> text == Crypto.Message(e.cipher)
    ensures e.Corrupted? ==> CorruptedPrefix <= text
    ensures e.Os? && e.os.Failed? ==> text == e.os.reason
  {
    match e
    case Os(NoHome) => "$HOME is not defined"
    case Os(NotExist(_)) => "no such file or directory"
    case Os(Failed(_, reason)) => reason
    case Cipher(c) => Crypto.Message(c)
    case Corrupted(_) => CorruptedPrefix + "invalid JSON"
    case Encoding(_) => "json: error calling MarshalJSON for type time.Time"
  }

  /** The vault directory under a home directory. */
  function VaultDir(home: Path): Path { home + [DirName] }

  /** The vault file under a home directory. */
  function VaultFile(home: Path): (p: Path)
    ensures |p| >= 2 && p[..|p| - 1] == VaultDir(home)
  {
    VaultDir(home) + [FileName]
  }

  /** GetVaultPath: `home/.atlas/compass.enc`, or the error from resolving home. */
  function GetVaultPath(fs: FileSystem): (r: Result<Path, OsError>)
    reads fs
    ensures r.Failure? <==> fs.home.None?
    ensures r.Failure? ==> r.error == NoHome
    ensures r.Success? ==> r.value == fs.home.value + [".atlas", "compass.enc"]
  {
    var home :- fs.UserHomeDir();
    Success(VaultFile(home))
  }

  /** The vault directory is already in place, so EnsureDir has nothing to do and succeeds. */
  predicate DirReady(fs: FileSystem)
    reads fs
  {
    fs.home.Some? && VaultDir(fs.home.value) in fs.dirs && VaultDir(fs.home.value) !in fs.faults
  }

  /** EnsureDir will succeed: the home directory resolves and MkdirAll can make the vault directory. */
  predicate DirCreatable(fs: FileSystem)
    reads fs
  {
    fs.home.Some? && fs.MkdirAllError(VaultDir(fs.home.value)).None?
  }

  /** Nothing at all is at the vault path: this is the first run. */
  predicate Missing(fs: FileSystem)
    reads fs
  {
    fs.home.Some? &&
    var p := VaultFile(fs.home.value); p !in fs.faults && !fs.UnderFile(p) && p !in fs.dirs && p !in fs.files
  }

  /** EnsureDir: MkdirAll(home/.atlas, 0700). */
  method EnsureDir(fs: FileSystem) returns (r: Outcome<OsError>)
    modifies fs
    ensures fs.home == old(fs.home) && fs.files == old(fs.files) && fs.faults == old(fs.faults)
    ensures fs.home.None? ==> r == Fail(NoHome)
    ensures fs.home.Some? ==>
              var dir := VaultDir(fs.home.value);
              (r.Pass? <==> dir !in old(fs.faults) &&
                            (dir in old(fs.dirs) || forall q :: q in Prefixes(dir) ==> q !in old(fs.files)))
    ensures r.Pass? <==> old(DirCreatable(fs))
    ensures fs.home.Some? && r.Fail? ==> old(fs.MkdirAllError(VaultDir(fs.home.value))) == Some(r.error)
    ensures r.Fail? ==> fs.dirs == old(fs.dirs)
    ensures old(DirReady(fs)) ==> r.Pass? && fs.dirs == old(fs.dirs)
    ensures r.Pass? ==> fs.home.Some? && VaultDir(fs.home.value) in fs.dirs
    ensures r.Pass? ==> forall q :: q in old(fs.dirs) ==> q in fs.dirs && fs.dirs[q] == old(fs.dirs[q])
    ensures r.Pass? ==> forall q :: q in fs.dirs && q !in old(fs.dirs) ==>
                          q in Prefixes(VaultDir(fs.home.value)) && fs.dirs[q] == DirMode
  {
    var home := fs.UserHomeDir();
    if home.Failure? {
      return Fail(home.error);
    }
    r := fs.MkdirAll(VaultDir(home.value), DirMode);
  }

  /**
   * Load: the empty vault for a missing file; otherwise read, decrypt and decode. Read and
   * decryption errors pass through unchanged, and a decode failure is wrapped as Corrupted.
   */
  function Load(fs: FileSystem, password: string, prims: Crypto.Primitives, codec: Model.JsonCodec)
    : (r: Result<Model.Vault, StoreError>)
    reads fs
    ensures fs.home.None? ==> r == Failure(Os(NoHome))
    ensures Missing(fs) ==> r == Success(Model.Vault([]))
    ensures fs.home.Some? && !Missing(fs) && fs.ReadFile(VaultFile(fs.home.value)).Failure? ==>
              r == Failure(Os(fs.ReadFile(VaultFile(fs.home.value)).error))
    ensures fs.home.Some? && fs.ReadFile(VaultFile(fs.home.value)).Success? ==>
              var data := fs.files[VaultFile(fs.home.value)].data;
              && (Crypto.Decrypt(prims, data, password).Failure? ==>
                    r == Failure(Cipher(Crypto.Decrypt(prims, data, password).error)))
              && (Crypto.Decrypt(prims, data, password).Success? ==>
                    && (Model.Decode(codec, Crypto.Decrypt(prims, data, password).value).Failure? ==>
                          r == Failure(Corrupted(Model.Decode(codec, Crypto.Decrypt(prims, data, password).value).error)))
                    && (Model.Decode(codec, Crypto.Decrypt(prims, data, password).value).Success? ==>
                          r == Success(Model.Decode(codec, Crypto.Decrypt(prims, data, password).value).value)))
    ensures r.Failure? && r.error.Os? ==> r.error.os.NoHome? || r.error.os.Failed?
    ensures r.Failure? ==> !r.error.Encoding?
    ensures prims.Sound() && r.Failure? && r.error.Cipher? ==>
              r.error.cipher == Crypto.InvalidDataLength || r.error.cipher == Crypto.DecryptionFailed
    ensures r.Success? && !Missing(fs) ==>
              && fs.home.Some? && VaultFile(fs.home.value) in fs.files
              && var data := fs.files[VaultFile(fs.home.value)].data;
                 && Crypto.Decrypt(prims, data, password).Success?
                 && Model.Decode(codec, Crypto.Decrypt(prims, data, password).value) == Success(r.value)
  {
    match GetVaultPath(fs)
    case Failure(e) => Failure(Os(e))
    case Success(path) =>
      match fs.ReadFile(path)
      case Failure(NotExist(_)) => Success(Model.Vault([]))
      case Failure(e) => Failure(Os(e))
      case Success(data) =>
        match Crypto.Decrypt(prims, data, password)
        case Failure(e) => Failure(Cipher(e))
        case Success(plaintext) =>
          match Model.Decode(codec, plaintext)
          case Failure(e) => Failure(Corrupted(e))
          case Success(v) => Success(v)
  }

  /**
   * What Save returns from a given state when the random source's draws are `saltDraw` and
   * `nonceDraw`: the error of the first step that fails (home, MkdirAll, Marshal, the salt,
   * the nonce, WriteFile), or Pass.
   */
  function SaveOutcome(fs: FileSystem, v: Model.Vault, codec: Model.JsonCodec,
                       saltDraw: Result<seq<byte>, string>, nonceDraw: Result<seq<byte>, string>)
    : (r: Outcome<StoreError>)
    reads fs
    ensures r.Pass? <==>
              && DirCreatable(fs) && Model.Encode(codec, v).Success? && saltDraw.Success? && nonceDraw.Success?
              && var path := VaultFile(fs.home.value);
                 path !in fs.faults && !fs.UnderFile(path) && path !in fs.dirs
    ensures fs.home.None? ==> r == Fail(Os(NoHome))
    ensures r.Fail? && r.error.Os? && fs.home.Some? && DirCreatable(fs) ==>
              && Model.Encode(codec, v).Success? && saltDraw.Success? && nonceDraw.Success?
              && r.error == Os(fs.WriteFileError(VaultFile(fs.home.value)).value)
  {
    if fs.home.None? then Fail(Os(NoHome))
    else if !DirCreatable(fs) then Fail(Os(fs.MkdirAllError(VaultDir(fs.home.value)).value))
    else if Model.Encode(codec, v).Failure? then Fail(Encoding(Model.Encode(codec, v).error))
    else if saltDraw.Failure? then Fail(Cipher(Crypto.RandomSourceFailed(saltDraw.error)))
    else if nonceDraw.Failure? then Fail(Cipher(Crypto.RandomSourceFailed(nonceDraw.error)))
    else
      var path := VaultFile(fs.home.value);
      if path in fs.faults then Fail(Os(Failed(path, fs.faults[path])))
      else if fs.UnderFile(path) then Fail(Os(Failed(path, NotADirectory)))
      else if path in fs.dirs then Fail(Os(Failed(path, IsADirectory)))
      else Pass
  }

  /**
   * Save: EnsureDir, GetVaultPath, Marshal, Encrypt, then WriteFile(path, container, 0600).
   * The first step that fails decides the error, which is returned as is.
   */
  method Save(fs: FileSystem, v: Model.Vault, password: string, prims: Crypto.Primitives,
              codec: Model.JsonCodec, saltDraw: Result<seq<byte>, string>, nonceDraw: Result<seq<byte>, string>)
    returns (r: Outcome<StoreError>)
    requires saltDraw.Success? ==> |saltDraw.value| == Crypto.SaltSize
    requires nonceDraw.Success? ==> |nonceDraw.value| == Crypto.NonceSize
    modifies fs
    ensures fs.home == old(fs.home) && fs.faults == old(fs.faults)
    ensures fs.home.None? ==> r == Fail(Os(NoHome)) && fs.dirs == old(fs.dirs)
    ensures r.Fail? ==> fs.files == old(fs.files)
    ensures forall q :: q in old(fs.dirs) ==> q in fs.dirs && fs.dirs[q] == old(fs.dirs[q])
    ensures forall q :: q in fs.dirs && q !in old(fs.dirs) ==> fs.dirs[q] == DirMode
    // the steps in order: the first failure is the result
    ensures fs.home.Some? && !old(DirCreatable(fs)) ==>
              r == Fail(Os(old(fs.MkdirAllError(VaultDir(fs.home.value))).value))
    ensures old(DirCreatable(fs)) && Model.Encode(codec, v).Failure? ==>
              r == Fail(Encoding(Model.Encode(codec, v).error))
    ensures old(DirCreatable(fs)) && Model.Encode(codec, v).Success? && saltDraw.Failure? ==>
              r == Fail(Cipher(Crypto.RandomSourceFailed(saltDraw.error)))
    ensures prims.Sound() && old(DirCreatable(fs)) && Model.Encode(codec, v).Success? && saltDraw.Success? &&
            nonceDraw.Failure? ==>
              r == Fail(Cipher(Crypto.RandomSourceFailed(nonceDraw.error)))
    ensures prims.Sound() && old(DirCreatable(fs)) && Model.Encode(codec, v).Success? && saltDraw.Success? &&
            nonceDraw.Success? ==>
              var path := VaultFile(fs.home.value);
              r == if path in old(fs.faults) then Fail(Os(Failed(path, old(fs.faults[path]))))
                   else if old(fs.UnderFile(path)) then Fail(Os(Failed(path, NotADirectory)))
                   else if path in old(fs.dirs) then Fail(Os(Failed(path, IsADirectory)))
                   else Pass
    // hence, with sound primitives, when it succeeds
    ensures prims.Sound() ==>
              (r.Pass? <==> && old(DirCreatable(fs)) && Model.Encode(codec, v).Success?
                            && saltDraw.Success? && nonceDraw.Success?
                            && var path := VaultFile(fs.home.value);
                               path !in old(fs.faults) && !old(fs.UnderFile(path)) && path !in old(fs.dirs))
    ensures r.Pass? ==>
              && fs.home.Some? && Model.Encode(codec, v).Success?
              && saltDraw.Success? && nonceDraw.Success?
              && var path := VaultFile(fs.home.value);
                 && path !in fs.faults && path !in fs.dirs && VaultDir(fs.home.value) in fs.dirs
                 && fs.files == old(fs.files)[path := File(
                      Crypto.Container(prims, Model.Encode(codec, v).value, password, saltDraw.value, nonceDraw.value),
                      if path in old(fs.files) then old(fs.files[path].mode) else FileMode)]
    ensures r.Pass? ==> Exists(fs)
    ensures r.Pass? && prims.Sound() && codec.Sound() ==> Load(fs, password, prims, codec) == Success(v)
    ensures prims.Sound() ==> r == old(SaveOutcome(fs, v, codec, saltDraw, nonceDraw))
  {
    var dir := EnsureDir(fs);
    if dir.Fail? {
      return Fail(Os(dir.error));
    }
    var path := GetVaultPath(fs);
    if path.Failure? {
      // EnsureDir has just resolved the home directory, so this second lookup cannot fail.
      assert false;
    }
    // EnsureDir made only prefixes of the directory, so the file's own path kept its kind.
    assert forall q :: q in Prefixes(VaultDir(fs.home.value)) ==> |q| < |path.value|;
    r := WriteVault(fs, v, password, prims, codec, saltDraw, nonceDraw);
  }

  /**
   * The rest of Save once the directory is in place: Marshal, Encrypt, then
   * WriteFile(path, container, 0600), the first failure deciding the error.
   */
  method WriteVault(fs: FileSystem, v: Model.Vault, password: string, prims: Crypto.Primitives,
                    codec: Model.JsonCodec, saltDraw: Result<seq<byte>, string>, nonceDraw: Result<seq<byte>, string>)
    returns (r: Outcome<StoreError>)
    requires saltDraw.Success? ==> |saltDraw.value| == Crypto.SaltSize
    requires nonceDraw.Success? ==> |nonceDraw.value| == Crypto.NonceSize
    requires fs.home.Some? && VaultDir(fs.home.value) in fs.dirs
    modifies fs
    ensures fs.home == old(fs.home) && fs.dirs == old(fs.dirs) && fs.faults == old(fs.faults)
    ensures r.Fail? ==> fs.files == old(fs.files)
    ensures Model.Encode(codec, v).Failure? ==> r == Fail(Encoding(Model.Encode(codec, v).error))
    ensures Model.Encode(codec, v).Success? && saltDraw.Failure? ==>
              r == Fail(Cipher(Crypto.RandomSourceFailed(saltDraw.error)))
    ensures prims.Sound() && Model.Encode(codec, v).Success? && saltDraw.Success? && nonceDraw.Failure? ==>
              r == Fail(Cipher(Crypto.RandomSourceFailed(nonceDraw.error)))
    ensures prims.Sound() && Model.Encode(codec, v).Success? && saltDraw.Success? && nonceDraw.Success? ==>
              var path := VaultFile(fs.home.value);
              r == if path in old(fs.faults) then Fail(Os(Failed(path, old(fs.faults[path]))))
                   else if old(fs.UnderFile(path)) then Fail(Os(Failed(path, NotADirectory)))
                   else if path in old(fs.dirs) then Fail(Os(Failed(path, IsADirectory)))
                   else Pass
    ensures r.Pass? ==>
              && Model.Encode(codec, v).Success? && saltDraw.Success? && nonceDraw.Success?
              && var path := VaultFile(fs.home.value);
                 && path !in fs.faults && path !in fs.dirs
                 && fs.files == old(fs.files)[path := File(
                      Crypto.Container(prims, Model.Encode(codec, v).value, password, saltDraw.value, nonceDraw.value),
                      if path in old(fs.files) then old(fs.files[path].mode) else FileMode)]
    ensures r.Pass? ==> Exists(fs)
    ensures r.Pass? && prims.Sound() && codec.Sound() ==> Load(fs, password, prims, codec) == Success(v)
  {
    var path := VaultFile(fs.home.value);
    var json := Model.Encode(codec, v);
    if json.Failure? {
      return Fail(Encoding(json.error));
    }
    var container := Crypto.Encrypt(prims, json.value, password, saltDraw, nonceDraw);
    if container.Failure? {
      return Fail(Cipher(container.error));
    }
    var written := fs.WriteFile(path, container.value, FileMode);
    if written.Fail? {
      return Fail(Os(written.error));
    }
    if prims.Sound() && codec.Sound() {
      LoadAfterSave(fs, v, password, prims, codec, saltDraw.value, nonceDraw.value);
    }
    return Pass;
  }

  /**
   * What Save writes, Load gives back: with sound primitives and codec, a vault file holding
   * the container of the encoded vault decrypts and decodes to the same vault.
   */
  lemma LoadAfterSave(fs: FileSystem, v: Model.Vault, password: string, prims: Crypto.Primitives,
                      codec: Model.JsonCodec, salt: seq<byte>, nonce: seq<byte>)
    requires prims.Sound() && codec.Sound()
    requires |salt| == Crypto.SaltSize && |nonce| == Crypto.NonceSize
    requires Model.Encode(codec, v).Success?
    requires fs.home.Some?
    requires var p := VaultFile(fs.home.value);
               && p !in fs.faults && !fs.UnderFile(p) && p !in fs.dirs && p in fs.files
               && fs.files[p].data == Crypto.Container(prims, Model.Encode(codec, v).value, password, salt, nonce)
    ensures Load(fs, password, prims, codec) == Success(v)
  {
    var plaintext := Model.Encode(codec, v).value;
    Crypto.DecryptEncrypt(prims, plaintext, password, salt, nonce);
    Model.VaultRoundTrip(codec, v);
  }

  /**
   * A regular file where the vault directory belongs: the vault path lies below it, so
   * reading it fails with "not a directory", which is not the first-run case, and Exists
   * holds.
   */
  lemma FileInPlaceOfDir(fs: FileSystem, password: string, prims: Crypto.Primitives, codec: Model.JsonCodec)
    requires fs.home.Some? && VaultDir(fs.home.value) in fs.files && VaultFile(fs.home.value) !in fs.faults
    ensures Exists(fs)
    ensures Load(fs, password, prims, codec) == Failure(Os(Failed(VaultFile(fs.home.value), NotADirectory)))
  {
    var p := VaultFile(fs.home.value);
    assert p[..|p| - 1] == VaultDir(fs.home.value);
  }

  /** Exists: false exactly when home is unknown or Stat says not-exist; other errors count as present. */
  function Exists(fs: FileSystem): (b: bool)
    reads fs
    ensures !b <==> fs.home.None? || Missing(fs)
  {
    match GetVaultPath(fs)
    case Failure(_) => false
    case Success(path) => !(fs.Stat(path).Fail? && IsNotExist(fs.Stat(path).error))
  }
}
