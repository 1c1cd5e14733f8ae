/** vault/database/cipher.py: a record's blob is its 16-byte salt followed by a Fernet token
    made under a key derived from the master password and that salt. */
module Cipher {
  import opened Bytes
  import opened Outcomes
  import opened Foreign
  import Base64Url

  const SALT_SIZE: nat := 16
  const KEY_LENGTH: nat := 32
  const ITERATIONS: nat := 10000

  /** What os.urandom(16) returns. */
  type Salt = s: Bytes | |s| == SALT_SIZE witness seq(16, _ => 0)

  /** derive_key: PBKDF2-HMAC-SHA256 (section 5.2 of RFC 8018) with 10000 iterations and a
      32-byte output, base64url-encoded into the key format Fernet expects. */
  function DeriveKey(p: Primitives, pswd: string, salt: Bytes): (key: Bytes)
    ensures Base64Url.Decode(key) == Some(p.pbkdf2(SHA256, p.utf8Encode(pswd), salt, ITERATIONS, KEY_LENGTH))
  {
    var raw := p.pbkdf2(SHA256, p.utf8Encode(pswd), salt, ITERATIONS, KEY_LENGTH);
    Base64Url.DecodeEncode(raw);
    Base64Url.Encode(raw)
  }

  /** The key is the 44 characters of a Fernet key: 32 bytes in base64url with one '='. */
  lemma DerivedKeyLength(p: Primitives, pswd: string, salt: Bytes)
    requires Pbkdf2Laws(p)
    ensures |DeriveKey(p, pswd, salt)| == 44
  {
    var raw := p.pbkdf2(SHA256, p.utf8Encode(pswd), salt, ITERATIONS, KEY_LENGTH);
    assert |raw| == 32;
    assert 4 * ((32 + 2) / 3) == 44;
  }

  /** encrypt, with the salt that os.urandom drew passed in. */
  function Encrypt(p: Primitives, data: string, pswd: string, salt: Salt): (blob: Bytes)
    ensures |blob| >= SALT_SIZE && blob[..SALT_SIZE] == salt
    ensures blob[SALT_SIZE..] == p.fernetEncrypt(DeriveKey(p, pswd, salt), p.utf8Encode(data))
  {
    salt + p.fernetEncrypt(DeriveKey(p, pswd, salt), p.utf8Encode(data))
  }

  /** encrypted_data[:16]; Python's slice stops at the end of a shorter blob. */
  function SaltOf(blob: Bytes): (salt: Bytes)
    ensures |salt| == if |blob| < SALT_SIZE then |blob| else SALT_SIZE
  {
    if |blob| < SALT_SIZE then blob else blob[..SALT_SIZE]
  }

  /** encrypted_data[16:]; empty for a blob shorter than a salt. */
  function TokenOf(blob: Bytes): (token: Bytes)
    ensures SaltOf(blob) + token == blob
  {
    if |blob| < SALT_SIZE then [] else blob[SALT_SIZE..]
  }

  function Decrypt(p: Primitives, blob: Bytes, pswd: string): (r: Result<string>)
    ensures r.Ok? ==> p.fernetDecrypt(DeriveKey(p, pswd, SaltOf(blob)), TokenOf(blob)).Some?
  {
    match p.fernetDecrypt(DeriveKey(p, pswd, SaltOf(blob)), TokenOf(blob))
    case None => Err(InvalidToken)
    case Some(data) =>
      match p.utf8Decode(data)
      case None => Err(UnicodeDecodeError)
      case Some(s) => Ok(s)
  }

  /** decrypt splits exactly where encrypt joined. */
  lemma SplitUndoesJoin(salt: Salt, token: Bytes)
    ensures SaltOf(salt + token) == salt && TokenOf(salt + token) == token
  {
    assert (salt + token)[..SALT_SIZE] == salt;
  }

  /** The key decrypt re-derives from the stored salt is the key encrypt used. */
  lemma DecryptRederivesKey(p: Primitives, data: string, pswd: string, salt: Salt)
    ensures var blob := Encrypt(p, data, pswd, salt);
      DeriveKey(p, pswd, SaltOf(blob)) == DeriveKey(p, pswd, salt)
      && TokenOf(blob) == p.fernetEncrypt(DeriveKey(p, pswd, salt), p.utf8Encode(data))
  {
    SplitUndoesJoin(salt, p.fernetEncrypt(DeriveKey(p, pswd, salt), p.utf8Encode(data)));
  }

  /** decrypt(encrypt(data, pswd), pswd) == data. */
  lemma DecryptEncrypt(p: Primitives, data: string, pswd: string, salt: Salt)
    requires Utf8Laws(p) && FernetLaws(p)
    ensures Decrypt(p, Encrypt(p, data, pswd, salt), pswd) == Ok(data)
  {
    DecryptRederivesKey(p, data, pswd, salt);
  }

  /** Blobs made with different salts differ already in their first 16 bytes. */
  lemma SaltsSeparateBlobs(p: Primitives, d1: string, pw1: string, s1: Salt,
                           d2: string, pw2: string, s2: Salt)
    requires s1 != s2
    ensures Encrypt(p, d1, pw1, s1)[..SALT_SIZE] != Encrypt(p, d2, pw2, s2)[..SALT_SIZE]
  {
  }

  /** A password whose key material differs from the one a blob was made with does not
      decrypt the blob: Fernet refuses, no plaintext comes out. */
  lemma WrongPasswordFails(p: Primitives, data: string, pswd: string, other: string, salt: Salt)
    requires FernetLaws(p)
    requires p.pbkdf2(SHA256, p.utf8Encode(other), salt, ITERATIONS, KEY_LENGTH)
          != p.pbkdf2(SHA256, p.utf8Encode(pswd), salt, ITERATIONS, KEY_LENGTH)
    ensures Decrypt(p, Encrypt(p, data, pswd, salt), other) == Err(InvalidToken)
  {
    DecryptRederivesKey(p, data, pswd, salt);
    SplitUndoesJoin(salt, p.fernetEncrypt(DeriveKey(p, pswd, salt), p.utf8Encode(data)));
    assert DeriveKey(p, other, salt) != DeriveKey(p, pswd, salt);
  }
}
