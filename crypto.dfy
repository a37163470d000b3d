/**
 * The container codec and cipher orchestration of internal/crypto/crypto.go.
 *
 * A container is `salt (16 bytes) || nonce (12 bytes) || ciphertext || tag (16 bytes)`.
 * The key is derived with Argon2id (RFC 9106) from the password and the salt, and the
 * plaintext is sealed with AES-256-GCM (NIST SP 800-38D) under that key and the nonce,
 * with no additional authenticated data.
 *
 * Argon2id, AES-GCM and the random source are foreign library code. They enter the model
 * as a `Primitives` value holding the three library functions, and the laws the model
 * relies on are collected in `Primitives.Sound()`; `SoundIsSatisfiable` shows that those
 * laws can all hold at once.
 */
module Crypto {
  import opened Wrappers

  const SaltSize: nat := 16
  const NonceSize: nat := 12
  /** AES-256 key length. */
  const KeySize: nat := 32
  /** Length of the GCM authentication tag that Seal appends. */
  const TagSize: nat := 16
  const ArgonTime: nat := 1
  /** Argon2 memory cost in KiB (64 MiB). */
  const ArgonMem: nat := 64 * 1024
  const ArgonThreads: nat := 4
  /** The fixed-size prefix of a container: salt then nonce. */
  const HeaderSize: nat := SaltSize + NonceSize

  /** The library functions the orchestration calls. */
  datatype Primitives = Primitives(
    // argon2.IDKey(password, salt, time, memory, threads, keyLen)
    idKey: (string, seq<byte>, nat, nat, nat, nat) -> seq<byte>,
    // AES-GCM Seal(key, nonce, plaintext) with no additional data: ciphertext || tag
    seal: (seq<byte>, seq<byte>, seq<byte>) -> seq<byte>,
    // AES-GCM Open(key, nonce, ciphertext || tag): the plaintext, or None when authentication fails
    open: (seq<byte>, seq<byte>, seq<byte>) -> Option<seq<byte>>)
  {
    /**
     * The laws assumed of the libraries:
     * IDKey returns exactly keyLen bytes; Seal appends a TagSize-byte tag; Open inverts Seal;
     * and, since GCM is deterministic for a fixed key and nonce, the only input that Open
     * accepts as the sealing of m is Seal's own output for m.
     */
    ghost predicate Sound() {
      && (forall w, s, t, m, th, n :: |idKey(w, s, t, m, th, n)| == n)
      && (forall k, n, p :: |seal(k, n, p)| == |p| + TagSize)
      && (forall k, n, p :: open(k, n, seal(k, n, p)) == Some(p))
      && (forall k, n, c :: open(k, n, c).Some? ==> seal(k, n, open(k, n, c).value) == c)
    }
  }

  datatype CryptoError =
    | RandomSourceFailed(reason: string)  // io.ReadFull on crypto/rand failed; its error is returned as is
    | InvalidKeySize(size: nat)           // aes.NewCipher refused the key
    | InvalidDataLength                   // the input is shorter than the header
    | DecryptionFailed                    // GCM Open failed, whatever the cause

  const KeySizePrefix := "crypto/aes: invalid key size "

  /**
   * The text of each error, as `err.Error()` returns it: the random source's own text, or
   * the fixed message, which for a refused key carries the key's size in decimal.
   */
  function Message(e: CryptoError): (text: string)
    ensures e.RandomSourceFailed? ==> text == e.reason
    ensures e.InvalidKeySize? ==>
              && KeySizePrefix <= text && |text| > |KeySizePrefix|
              && IsDecimal(text[|KeySizePrefix|..]) && DigitsValue(text[|KeySizePrefix|..]) == e.size
  {
    match e
    case RandomSourceFailed(reason) => reason
    case InvalidKeySize(size) => KeySizePrefix + Decimal(size)
    case InvalidDataLength => "invalid data length"
    case DecryptionFailed => "decryption failed: invalid password or corrupted data"
  }

  /** Apart from the random source's text, which is the library's, distinct errors read differently. */
  lemma MessageInjective(e: CryptoError, e': CryptoError)
    requires !e.RandomSourceFailed? && !e'.RandomSourceFailed?
    requires Message(e) == Message(e')
    ensures e == e'
  {
    if e.InvalidKeySize? && e'.InvalidKeySize? {
      assert Message(e)[|KeySizePrefix|..] == Message(e')[|KeySizePrefix|..];
    }
  }

  /** Non-empty, all decimal digits and, as strconv.Itoa writes it, no leading zero. */
  predicate IsDecimal(s: string) {
    && |s| > 0
    && (forall i :: 0 <= i < |s| ==> '0' <= s[i] <= '9')
    && (|s| > 1 ==> s[0] != '0')
  }

  /** The number a string of decimal digits stands for. */
  function DigitsValue(s: string): nat
    requires forall i :: 0 <= i < |s| ==> '0' <= s[i] <= '9'
  {
    if s == [] then 0 else DigitsValue(s[..|s| - 1]) * 10 + (s[|s| - 1] as int - '0' as int)
  }

  /** Decimal digits of n, as strconv.Itoa writes them: the digits read back as n. */
  function Decimal(n: nat): (s: string)
    ensures IsDecimal(s)
    ensures DigitsValue(s) == n
  {
    var d := ['0', '1', '2', '3', '4', '5', '6', '7', '8', '9'][n % 10];
    if n < 10 then [d]
    else
      var init := Decimal(n / 10);
      assert (init + [d])[..|init + [d]| - 1] == init;
      init + [d]
  }

  /** DeriveKey: Argon2id with the fixed cost parameters; deterministic in (password, salt). */
  function DeriveKey(prims: Primitives, password: string, salt: seq<byte>): (key: seq<byte>)
    ensures prims.Sound() ==> |key| == KeySize
  {
    prims.idKey(password, salt, ArgonTime, ArgonMem, ArgonThreads, KeySize)
  }

  /** The container layout: salt, then nonce, then the sealed bytes. */
  function Pack(salt: seq<byte>, nonce: seq<byte>, sealed: seq<byte>): (data: seq<byte>)
    requires |salt| == SaltSize && |nonce| == NonceSize
    ensures |data| == SaltSize + NonceSize + |sealed|
    ensures data[..SaltSize] == salt
    ensures data[SaltSize..HeaderSize] == nonce
    ensures data[HeaderSize..] == sealed
  {
    salt + nonce + sealed
  }

  datatype Parts = Parts(salt: seq<byte>, nonce: seq<byte>, sealed: seq<byte>)

  /** Decrypt's split of a container at the fixed offsets 16 and 28: the parts make up the input. */
  function Split(data: seq<byte>): (parts: Parts)
    requires |data| >= HeaderSize
    ensures |parts.salt| == SaltSize && |parts.nonce| == NonceSize && |parts.sealed| == |data| - HeaderSize
    ensures parts.salt + parts.nonce + parts.sealed == data
  {
    assert data[..SaltSize] + data[SaltSize..HeaderSize] + data[HeaderSize..] == data by {
      assert data[..SaltSize] + data[SaltSize..HeaderSize] == data[..HeaderSize];
    }
    Parts(data[..SaltSize], data[SaltSize..HeaderSize], data[HeaderSize..])
  }

  /** Split inverts Pack. */
  lemma SplitPack(salt: seq<byte>, nonce: seq<byte>, sealed: seq<byte>)
    requires |salt| == SaltSize && |nonce| == NonceSize
    ensures Split(Pack(salt, nonce, sealed)) == Parts(salt, nonce, sealed)
  {
  }

  /** Pack inverts Split: every input at least a header long is a container of its own parts. */
  lemma PackSplit(data: seq<byte>)
    requires |data| >= HeaderSize
    ensures |Split(data).salt| == SaltSize && |Split(data).nonce| == NonceSize
    ensures Pack(Split(data).salt, Split(data).nonce, Split(data).sealed) == data
  {
    var p := Split(data);
    assert p.salt + p.nonce + p.sealed == data[..SaltSize] + data[SaltSize..HeaderSize] + data[HeaderSize..];
    assert data[..SaltSize] + data[SaltSize..HeaderSize] == data[..HeaderSize];
    assert data[..HeaderSize] + data[HeaderSize..] == data;
  }

  /**
   * The container Encrypt builds from a plaintext, a password and the two random draws: it
   * starts with the salt and the nonce, and the sealed part follows.
   */
  function Container(prims: Primitives, plaintext: seq<byte>, password: string,
                     salt: seq<byte>, nonce: seq<byte>): (data: seq<byte>)
    requires |salt| == SaltSize && |nonce| == NonceSize
    ensures |data| >= HeaderSize && data[..SaltSize] == salt && data[SaltSize..HeaderSize] == nonce
    ensures prims.Sound() ==> |data| == HeaderSize + |plaintext| + TagSize
  {
    Pack(salt, nonce, prims.seal(DeriveKey(prims, password, salt), nonce, plaintext))
  }

  /** Go's builtin `copy(dst[start:], src)` when the destination range fits exactly. */
  method CopyInto(dst: array<byte>, start: nat, src: seq<byte>)
    requires start + |src| <= dst.Length
    modifies dst
    ensures forall i :: 0 <= i < |src| ==> dst[start + i] == src[i]
    ensures forall i :: 0 <= i < dst.Length && !(start <= i < start + |src|) ==> dst[i] == old(dst[i])
  {
    var j := 0;
    while j < |src|
      invariant 0 <= j <= |src|
      invariant forall i :: 0 <= i < j ==> dst[start + i] == src[i]
      invariant forall i :: 0 <= i < dst.Length && !(start <= i < start + j) ==> dst[i] == old(dst[i])
    {
      dst[start + j] := src[j];
      j := j + 1;
    }
  }

  /**
   * Encrypt: draw the salt, derive the key, build the cipher, draw the nonce, seal, and
   * pack salt || nonce || sealed into a freshly allocated buffer. The draws are the bytes
   * crypto/rand delivers, or the error io.ReadFull returned.
   */
  method Encrypt(prims: Primitives, plaintext: seq<byte>, password: string,
                 saltDraw: Result<seq<byte>, string>, nonceDraw: Result<seq<byte>, string>)
    returns (r: Result<seq<byte>, CryptoError>)
    requires saltDraw.Success? ==> |saltDraw.value| == SaltSize
    requires nonceDraw.Success? ==> |nonceDraw.value| == NonceSize
    ensures saltDraw.Failure? ==> r == Failure(RandomSourceFailed(saltDraw.error))
    ensures prims.Sound() && saltDraw.Success? && nonceDraw.Failure? ==>
              r == Failure(RandomSourceFailed(nonceDraw.error))
    ensures prims.Sound() ==> (r.Success? <==> saltDraw.Success? && nonceDraw.Success?)
    ensures r.Success? ==>
              && saltDraw.Success? && nonceDraw.Success?
              && r.value == Container(prims, plaintext, password, saltDraw.value, nonceDraw.value)
    ensures prims.Sound() && r.Success? ==> |r.value| == HeaderSize + |plaintext| + TagSize
  {
    if saltDraw.Failure? {
      return Failure(RandomSourceFailed(saltDraw.error));
    }
    var salt := saltDraw.value;
    var key := DeriveKey(prims, password, salt);
    if |key| != KeySize {
      return Failure(InvalidKeySize(|key|));
    }
    if nonceDraw.Failure? {
      return Failure(RandomSourceFailed(nonceDraw.error));
    }
    var nonce := nonceDraw.value;
    var ciphertext := prims.seal(key, nonce, plaintext);
    var result := new byte[SaltSize + NonceSize + |ciphertext|];
    CopyInto(result, 0, salt);
    CopyInto(result, SaltSize, nonce);
    CopyInto(result, HeaderSize, ciphertext);
    assert result[..] == Pack(salt, nonce, ciphertext) by {
      forall i | 0 <= i < result.Length
        ensures result[i] == (salt + nonce + ciphertext)[i]
      {
        if i < SaltSize {
        } else if i < HeaderSize {
          assert result[SaltSize + (i - SaltSize)] == nonce[i - SaltSize];
        } else {
          assert result[HeaderSize + (i - HeaderSize)] == ciphertext[i - HeaderSize];
        }
      }
    }
    return Success(result[..]);
  }

  /**
   * Decrypt: refuse inputs shorter than the header, split, re-derive the key from the
   * stored salt, and open. Every authentication failure gives the one DecryptionFailed.
   */
  function Decrypt(prims: Primitives, data: seq<byte>, password: string): (r: Result<seq<byte>, CryptoError>)
    ensures r == Failure(InvalidDataLength) <==> |data| < HeaderSize
    ensures prims.Sound() && r.Failure? ==> r.error == InvalidDataLength || r.error == DecryptionFailed
    ensures prims.Sound() && |data| >= HeaderSize ==>
              (r == Failure(DecryptionFailed) <==>
               prims.open(DeriveKey(prims, password, data[..SaltSize]), data[SaltSize..HeaderSize], data[HeaderSize..]).None?)
    ensures r.Success? ==>
              && |data| >= HeaderSize
              && prims.open(DeriveKey(prims, password, data[..SaltSize]), data[SaltSize..HeaderSize], data[HeaderSize..])
                   == Some(r.value)
  {
    if |data| < HeaderSize then
      Failure(InvalidDataLength)
    else
      var parts := Split(data);
      var key := DeriveKey(prims, password, parts.salt);
      if |key| != KeySize then
        Failure(InvalidKeySize(|key|))
      else
        match prims.open(key, parts.nonce, parts.sealed)
        case None => Failure(DecryptionFailed)
        case Some(plaintext) => Success(plaintext)
  }

  /** Decrypt short-circuits on short input: the outcome does not depend on password or libraries. */
  lemma ShortInputRejected(prims: Primitives, prims': Primitives, data: seq<byte>, password: string, password': string)
    requires |data| < HeaderSize
    ensures Decrypt(prims, data, password) == Decrypt(prims', data, password') == Failure(InvalidDataLength)
  {
  }

  /** A container is 44 bytes longer than its plaintext. */
  lemma ContainerLength(prims: Primitives, plaintext: seq<byte>, password: string, salt: seq<byte>, nonce: seq<byte>)
    requires prims.Sound() && |salt| == SaltSize && |nonce| == NonceSize
    ensures |Container(prims, plaintext, password, salt, nonce)| == HeaderSize + TagSize + |plaintext|
  {
  }

  /** Round trip: decrypting what Encrypt builds with the same password gives back the plaintext. */
  lemma {:induction false} DecryptEncrypt(prims: Primitives, plaintext: seq<byte>, password: string,
                                          salt: seq<byte>, nonce: seq<byte>)
    requires prims.Sound() && |salt| == SaltSize && |nonce| == NonceSize
    ensures Decrypt(prims, Container(prims, plaintext, password, salt, nonce), password) == Success(plaintext)
  {
    var key := DeriveKey(prims, password, salt);
    var sealed := prims.seal(key, nonce, plaintext);
    SplitPack(salt, nonce, sealed);
    assert prims.open(key, nonce, sealed) == Some(plaintext);
  }

  /**
   * Integrity: the only input that decrypts to a plaintext p is exactly the container Encrypt
   * would build for p from the salt and nonce it carries. An altered container therefore either
   * fails or decrypts to something other than p.
   */
  lemma {:induction false} DecryptedIsAuthentic(prims: Primitives, data: seq<byte>, password: string, plaintext: seq<byte>)
    requires prims.Sound() && Decrypt(prims, data, password) == Success(plaintext)
    ensures |data| >= HeaderSize
    ensures data == Container(prims, plaintext, password, data[..SaltSize], data[SaltSize..HeaderSize])
  {
    PackSplit(data);
    var parts := Split(data);
    var key := DeriveKey(prims, password, parts.salt);
    assert prims.open(key, parts.nonce, parts.sealed) == Some(plaintext);
    assert prims.seal(key, parts.nonce, plaintext) == parts.sealed;
  }

  /** Tampering with the container of p never yields p again. */
  lemma {:induction false} TamperedNeverDecryptsToOriginal(prims: Primitives, plaintext: seq<byte>, password: string,
                                                          salt: seq<byte>, nonce: seq<byte>, tampered: seq<byte>)
    requires prims.Sound() && |salt| == SaltSize && |nonce| == NonceSize
    requires |tampered| >= HeaderSize && tampered[..HeaderSize] == salt + nonce
    requires tampered != Container(prims, plaintext, password, salt, nonce)
    ensures Decrypt(prims, tampered, password) != Success(plaintext)
  {
    assert tampered[..SaltSize] == (salt + nonce)[..SaltSize] == salt;
    assert tampered[SaltSize..HeaderSize] == (salt + nonce)[SaltSize..HeaderSize] == nonce;
    if Decrypt(prims, tampered, password) == Success(plaintext) {
      DecryptedIsAuthentic(prims, tampered, password, plaintext);
    }
  }

  /** The laws of Sound are consistent: a trivial (insecure) instance satisfies all of them. */
  lemma SoundIsSatisfiable()
    ensures exists prims: Primitives :: prims.Sound()
  {
    var tag: seq<byte> := seq(TagSize, _ => 0);
    var toy := Primitives(
      (w: string, s: seq<byte>, t: nat, m: nat, th: nat, n: nat) => seq(n, _ => 0),
      (k: seq<byte>, n: seq<byte>, p: seq<byte>) => p + tag,
      (k: seq<byte>, n: seq<byte>, c: seq<byte>) =>
        if |c| >= TagSize && c[|c| - TagSize..] == tag then Some(c[..|c| - TagSize]) else None);
    forall k, n, p ensures toy.open(k, n, toy.seal(k, n, p)) == Some(p) {
      var c := p + tag;
      assert c[|c| - TagSize..] == tag;
      assert c[..|c| - TagSize] == p;
    }
    forall k, n, c | toy.open(k, n, c).Some? ensures toy.seal(k, n, toy.open(k, n, c).value) == c {
      assert c[..|c| - TagSize] + c[|c| - TagSize..] == c;
    }
    assert toy.Sound();
  }
}
