/** Stand-ins for the foreign libraries under which every law of Foreign holds at once. They
    are not the real algorithms; they show that the laws are consistent, so no result that
    assumes Lawful holds vacuously. */
module Witness {
  import opened Bytes
  import opened Outcomes
  import opened PyDict
  import opened Foreign

  /** Every element behind a `more` tag, then a `stop` tag: no framed sequence is a proper
      prefix of another, so a frame can be read back off the front of anything. */
  function Frame<T>(s: seq<T>, more: T, stop: T): seq<T>
  {
    if s == [] then [stop] else [more, s[0]] + Frame(s[1..], more, stop)
  }

  /** Reads one frame off the front of t: what it framed and what follows it. */
  function Unframe<T(==)>(t: seq<T>, more: T, stop: T): (r: Option<(seq<T>, seq<T>)>)
    ensures r.Some? ==> |r.value.1| < |t|
  {
    if t == [] then None
    else if t[0] == stop then Some(([], t[1..]))
    else if t[0] == more && |t| >= 2 then
      match Unframe(t[2..], more, stop)
      case None => None
      case Some((s, rest)) => Some(([t[1]] + s, rest))
    else None
  }

  lemma {:induction false} UnframeFrame<T>(s: seq<T>, rest: seq<T>, more: T, stop: T)
    requires more != stop
    ensures Unframe(Frame(s, more, stop) + rest, more, stop) == Some((s, rest))
    decreases |s|
  {
    var t := Frame(s, more, stop) + rest;
    if s == [] {
      assert t[1..] == rest;
    } else {
      assert t[2..] == Frame(s[1..], more, stop) + rest;
      UnframeFrame(s[1..], rest, more, stop);
      assert [s[0]] + s[1..] == s;
    }
  }

  /** str.encode stand-in: three big-endian bytes per code point. */
  function EncodeText(s: string): Bytes
  {
    if s == [] then []
    else
      var c := s[0] as int;
      [c / 65536, (c % 65536) / 256, (c % 65536) % 256] + EncodeText(s[1..])
  }

  /** bytes.decode stand-in: None for a ragged tail or a value that is not a code point. */
  function DecodeText(b: Bytes): Option<string>
  {
    if b == [] then Some([])
    else if |b| < 3 then None
    else
      var v := (b[0] as int) * 65536 + (b[1] as int) * 256 + b[2] as int;
      if !(0 <= v < 0xD800 || 0xE000 <= v < 0x11_0000) then None
      else
        match DecodeText(b[3..])
        case None => None
        case Some(s) => Some([v as char] + s)
  }

  lemma {:induction false} DecodeEncodeText(s: string)
    ensures DecodeText(EncodeText(s)) == Some(s)
  {
    if s != [] {
      var c := s[0] as int;
      var m := c % 65536;
      assert c == (c / 65536) * 65536 + m && m == (m / 256) * 256 + m % 256;
      var b := EncodeText(s);
      assert b[3..] == EncodeText(s[1..]);
      DecodeEncodeText(s[1..]);
      assert [s[0]] + s[1..] == s;
    }
  }

  /** Fernet stand-in: the token frames the key in front of the data it carries. */
  function SealToken(key: Bytes, data: Bytes): Bytes
  {
    Frame(key, 1, 0) + data
  }

  /** Fernet.decrypt stand-in: the data, only under the key the token was made with. */
  function OpenToken(key: Bytes, token: Bytes): Option<Bytes>
  {
    match Unframe(token, 1, 0)
    case None => None
    case Some((made, data)) => if made == key then Some(data) else None
  }

  /** json.dumps stand-in: each pair behind a '+', its key and value framed, then '.'. */
  function DumpPairs(e: seq<Pair>): string
  {
    if e == [] then "."
    else "+" + Frame(e[0].0, '+', '.') + Frame(e[0].1, '+', '.') + DumpPairs(e[1..])
  }

  function LoadPairs(t: string): Option<seq<Pair>>
    decreases |t|
  {
    if t == "." then Some([])
    else if t == [] || t[0] != '+' then None
    else
      match Unframe(t[1..], '+', '.')
      case None => None
      case Some((key, afterKey)) =>
        match Unframe(afterKey, '+', '.')
        case None => None
        case Some((value, rest)) =>
          match LoadPairs(rest)
          case None => None
          case Some(e) => Some([(key, value)] + e)
  }

  /** json.loads stand-in: refuses a text whose keys repeat, as it is not a dict's dump. */
  function LoadEntries(t: string): Option<Entries>
  {
    match LoadPairs(t)
    case None => None
    case Some(e) => if UniqueKeys(e) then Some(e) else None
  }

  lemma {:induction false} LoadDumpPairs(e: seq<Pair>)
    ensures LoadPairs(DumpPairs(e)) == Some(e)
  {
    if e != [] {
      var fk, fv, rest := Frame(e[0].0, '+', '.'), Frame(e[0].1, '+', '.'), DumpPairs(e[1..]);
      var t := DumpPairs(e);
      assert t[1..] == fk + (fv + rest);
      UnframeFrame(e[0].0, fv + rest, '+', '.');
      UnframeFrame(e[0].1, rest, '+', '.');
      LoadDumpPairs(e[1..]);
      assert [e[0]] + e[1..] == e;
    }
  }

  function Example(): Primitives
  {
    Primitives(
      (a: HashAlgorithm, pw: Bytes, salt: Bytes, n: nat, len: nat) => seq(len, _ => 0 as byte),
      s => EncodeText(s), b => DecodeText(b),
      (k, d) => SealToken(k, d), (k, t) => OpenToken(k, t),
      e => DumpPairs(e), t => LoadEntries(t),
      (pw, salt) => seq(60, _ => 0 as byte), (pw, hashed) => Some(true))
  }

  lemma ExampleUtf8()
    ensures Utf8Laws(Example())
  {
    var p := Example();
    forall s ensures p.utf8Decode(p.utf8Encode(s)) == Some(s) {
      DecodeEncodeText(s);
    }
  }

  lemma ExampleFernet()
    ensures FernetLaws(Example())
  {
    var p := Example();
    forall k: Bytes, d: Bytes ensures p.fernetDecrypt(k, p.fernetEncrypt(k, d)) == Some(d) {
      UnframeFrame(k, d, 1, 0);
    }
    forall k: Bytes, k': Bytes, d: Bytes | k != k' ensures p.fernetDecrypt(k', p.fernetEncrypt(k, d)) == None {
      UnframeFrame(k, d, 1, 0);
    }
  }

  lemma ExampleJson()
    ensures JsonLaws(Example())
  {
    var p := Example();
    forall e: Entries ensures p.jsonLoads(p.jsonDumps(e)) == Some(e) {
      LoadDumpPairs(e);
    }
  }

  /** The stand-ins satisfy every law at once. */
  lemma ExampleIsLawful()
    ensures Lawful(Example())
  {
    ExampleUtf8();
    ExampleFernet();
    ExampleJson();
  }
}
