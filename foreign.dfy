/** The libraries the vault calls but does not implement: PBKDF2 (cryptography.hazmat),
    the UTF-8 codec of str.encode/bytes.decode, Fernet, the json module and bcrypt.
    Each is an arrow-typed field of Primitives; what the vault relies on them for is stated
    by the laws below, and a member that needs a law requires it. */
module Foreign {
  import opened Bytes
  import opened Outcomes
  import opened PyDict

  datatype HashAlgorithm = SHA256

  datatype Primitives = Primitives(
    // PBKDF2HMAC(algorithm, length, salt, iterations).derive(password),
    // arguments in the order (algorithm, password, salt, iterations, length)
    pbkdf2: (HashAlgorithm, Bytes, Bytes, nat, nat) -> Bytes,
    // str.encode() and bytes.decode(); None is a UnicodeDecodeError
    utf8Encode: string -> Bytes,
    utf8Decode: Bytes -> Option<string>,
    // Fernet(key).encrypt(data) and Fernet(key).decrypt(token); None is InvalidToken
    fernetEncrypt: (Bytes, Bytes) -> Bytes,
    fernetDecrypt: (Bytes, Bytes) -> Option<Bytes>,
    // json.dumps and json.loads on a dict of strings; None is a JSONDecodeError
    jsonDumps: Entries -> string,
    jsonLoads: string -> Option<Entries>,
    // bcrypt.hashpw(password, salt) and bcrypt.checkpw(password, hashed);
    // None is the ValueError raised when hashed is not a bcrypt hash
    bcryptHashpw: (Bytes, Bytes) -> Bytes,
    bcryptCheckpw: (Bytes, Bytes) -> Option<bool>)

  /** PBKDF2 derives exactly the requested number of bytes. */
  ghost predicate Pbkdf2Laws(p: Primitives)
  {
    forall a, pw, salt, n, len :: |p.pbkdf2(a, pw, salt, n, len)| == len
  }

  /** Decoding undoes encoding. */
  ghost predicate Utf8Laws(p: Primitives)
  {
    forall s :: p.utf8Decode(p.utf8Encode(s)) == Some(s)
  }

  /** Fernet decrypts what it encrypted under the same key, and refuses a token made under
      any other key (its HMAC check fails). */
  ghost predicate FernetLaws(p: Primitives)
  {
    && (forall k, d :: p.fernetDecrypt(k, p.fernetEncrypt(k, d)) == Some(d))
    && (forall k, k', d :: k != k' ==> p.fernetDecrypt(k', p.fernetEncrypt(k, d)) == None)
  }

  /** json.loads(json.dumps(e)) == e for a dict of strings, insertion order included. */
  ghost predicate JsonLaws(p: Primitives)
  {
    forall e :: p.jsonLoads(p.jsonDumps(e)) == Some(e)
  }

  /** A password checks against a hash made from it, and a hash is the 60 bytes of the
      modular crypt format ("$2b$" cost "$" salt and checksum). */
  ghost predicate BcryptLaws(p: Primitives)
  {
    && (forall pw, salt :: p.bcryptCheckpw(pw, p.bcryptHashpw(pw, salt)) == Some(true))
    && (forall pw, salt :: |p.bcryptHashpw(pw, salt)| == 60)
  }

  ghost predicate Lawful(p: Primitives)
  {
    Pbkdf2Laws(p) && Utf8Laws(p) && FernetLaws(p) && JsonLaws(p) && BcryptLaws(p)
  }
}
