/** `CryptoUtil`: AES-256-GCM (NIST SP 800-38D) blob framing and PBKDF2-HMAC-SHA256
    (section 5.2 of RFC 8018) key derivation.

    The primitives themselves are not modelled bit by bit: they are the fields of a
    `Primitives` value, and `Sound` states the only facts the vault relies on. */
module Crypto {
  import opened Wrappers
  import opened Hex

  const IvLen: nat := 12     // GCM_IV_LEN
  const TagLen: nat := 16    // GCM_TAG_BITS / 8
  const KeyLen: nat := 32    // KEY_BITS / 8
  const SaltLen: nat := 16   // generateSalt

  type Iv = s: seq<byte> | |s| == IvLen
    witness [0, 0, 0, 0, 0, 0, 0, 0, 0, 0, 0, 0]

  /** A 256-bit AES key. */
  type Key = s: seq<byte> | |s| == KeyLen
    witness [0, 0, 0, 0, 0, 0, 0, 0, 0, 0, 0, 0, 0, 0, 0, 0,
             0, 0, 0, 0, 0, 0, 0, 0, 0, 0, 0, 0, 0, 0, 0, 0]

  /** The library code the vault calls into. */
  datatype Primitives = Primitives(
    /** PBKDF2WithHmacSHA256 with a 256-bit output: (password, salt, iterations) */
    pbkdf2: (string, seq<byte>, int) -> Key,
    /** AES/GCM/NoPadding encryption with a 128-bit tag: ciphertext || tag */
    seal: (Key, Iv, seq<byte>) -> seq<byte>,
    /** AES/GCM/NoPadding decryption; `None` when the tag does not verify */
    open: (Key, Iv, seq<byte>) -> Option<seq<byte>>,
    /** `String.getBytes(UTF_8)` */
    utf8: string -> seq<byte>,
    /** `new String(bytes, UTF_8)` */
    unutf8: seq<byte> -> string)

  /** What the vault assumes of the primitives: GCM output is the plaintext length plus the
      tag, opening what was sealed under the same key and IV gives the plaintext back, a
      ciphertext shorter than the tag never opens, and UTF-8 decodes what it encoded. */
  ghost predicate Sound(p: Primitives) {
    && (forall k, iv, m :: |p.seal(k, iv, m)| == |m| + TagLen)
    && (forall k, iv, m :: p.open(k, iv, p.seal(k, iv, m)) == Some(m))
    && (forall k, iv, c :: |c| < TagLen ==> p.open(k, iv, c) == None)
    && (forall s :: p.unutf8(p.utf8(s)) == s)
  }

  /** `deriveKey`: `PBEKeySpec` refuses an empty salt and a non-positive iteration count;
      otherwise the key is a function of password, salt and iteration count alone. */
  function DeriveKey(p: Primitives, password: string, salt: seq<byte>, iterations: int): (r: Result<Key>)
    ensures r.Err? <==> |salt| == 0 || iterations <= 0
    ensures r.Err? ==> r.error.IllegalArgument?
    ensures r.Ok? ==> r.value == p.pbkdf2(password, salt, iterations)
  {
    if |salt| == 0 then Err(IllegalArgument("the salt parameter must be non-empty"))
    else if iterations <= 0 then Err(IllegalArgument("invalid iterationCount value"))
    else Ok(p.pbkdf2(password, salt, iterations))
  }

  /** `generateSalt`: sixteen bytes drawn from the random source. */
  function GenerateSalt(random: nat -> byte): (salt: seq<byte>)
    ensures |salt| == SaltLen
  {
    seq(SaltLen, (i: int) requires 0 <= i => random(i))
  }

  /** `encrypt`: the IV, then the GCM ciphertext and tag. */
  function Encrypt(p: Primitives, plaintext: seq<byte>, key: Key, iv: Iv): (blob: seq<byte>)
    requires Sound(p)
    ensures |blob| == IvLen + |plaintext| + TagLen
    ensures blob[..IvLen] == iv
  {
    iv + p.seal(key, iv, plaintext)
  }

  /** `decrypt`: a blob of at most `IvLen` bytes is refused before the cipher runs; otherwise
      the first `IvLen` bytes are the IV and the rest must open under `key`. */
  function Decrypt(p: Primitives, blob: seq<byte>, key: Key): (r: Result<seq<byte>>)
    ensures |blob| <= IvLen ==> r == Err(IllegalArgument("Ciphertext too short"))
    ensures |blob| > IvLen ==> (r.Ok? <==> p.open(key, blob[..IvLen], blob[IvLen..]).Some?)
    ensures r.Err? ==> r.error.IllegalArgument? || r.error.BadTag?
  {
    if |blob| <= IvLen then Err(IllegalArgument("Ciphertext too short"))
    else
      match p.open(key, blob[..IvLen], blob[IvLen..])
      case None => Err(BadTag)
      case Some(plain) => Ok(plain)
  }

  /** `encryptString` */
  function EncryptString(p: Primitives, plaintext: string, key: Key, iv: Iv): (blob: seq<byte>)
    requires Sound(p)
    ensures |blob| > IvLen
  {
    Encrypt(p, p.utf8(plaintext), key, iv)
  }

  /** `decryptString` */
  function DecryptString(p: Primitives, blob: seq<byte>, key: Key): (r: Result<string>)
    ensures r.Ok? <==> Decrypt(p, blob, key).Ok?
    ensures r.Err? ==> r.error == Decrypt(p, blob, key).error
  {
    var plain :- Decrypt(p, blob, key);
    Ok(p.unutf8(plain))
  }

  /** Decryption under the encryption key returns the plaintext. */
  lemma DecryptEncrypt(p: Primitives, plaintext: seq<byte>, key: Key, iv: Iv)
    requires Sound(p)
    ensures Decrypt(p, Encrypt(p, plaintext, key, iv), key) == Ok(plaintext)
  {
    var blob := Encrypt(p, plaintext, key, iv);
    assert blob[..IvLen] == iv && blob[IvLen..] == p.seal(key, iv, plaintext);
  }

  /** String round trip through UTF-8 and GCM. */
  lemma DecryptStringEncryptString(p: Primitives, plaintext: string, key: Key, iv: Iv)
    requires Sound(p)
    ensures DecryptString(p, EncryptString(p, plaintext, key, iv), key) == Ok(plaintext)
  {
    DecryptEncrypt(p, p.utf8(plaintext), key, iv);
  }

  /** The length guard only covers the IV: a blob longer than the IV but shorter than
      IV and tag together reaches the cipher and fails there with a tag error. */
  lemma ShortBlobFailures(p: Primitives, blob: seq<byte>, key: Key)
    requires Sound(p)
    requires |blob| < IvLen + TagLen
    ensures Decrypt(p, blob, key).Err?
    ensures Decrypt(p, blob, key).error.BadTag? <==> |blob| > IvLen
  {
  }

  /** Stored blobs are hex text: decoding the hex of an encrypted value and decrypting it
      under the same key returns the plaintext. */
  lemma HexStoredRoundTrip(p: Primitives, plaintext: string, key: Key, iv: Iv)
    requires Sound(p)
    ensures var blob := FromHex(ToHex(EncryptString(p, plaintext, key, iv)));
      blob.Ok? && DecryptString(p, blob.value, key) == Ok(plaintext)
  {
    FromHexToHex(EncryptString(p, plaintext, key, iv));
    DecryptStringEncryptString(p, plaintext, key, iv);
  }
}
