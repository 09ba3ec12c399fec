/**
 * A concrete choice of primitives that meets every assumption of
 * `Primitives.Lawful`, so the lemmas that assume it are about a
 * non-empty class of suites. The codecs are simple self-delimiting
 * encodings standing in for gob and base64; the keystream and the MAC are
 * constant. None of this is meant as cryptography.
 */
module ExampleSuite {
  import opened Bytes
  import opened Results
  import opened Records
  import opened Primitives
  import opened Streams
  import opened Staging
  import opened KeyFile
  import opened Pipeline

  // ----- a self-delimiting byte-string encoding: [1, b] per byte, then [0] -----

  function Escape(s: seq<byte>): (t: seq<byte>)
    ensures |t| == 2 * |s| + 1
  {
    if s == [] then [0] else [1, s[0]] + Escape(s[1..])
  }

  /** Reads one escaped string off the front of t, returning it and what follows. */
  function Unescape(t: seq<byte>): Option<(seq<byte>, seq<byte>)> {
    if t == [] then None
    else if t[0] == 0 then Some(([], t[1..]))
    else if t[0] == 1 && |t| >= 2 then
      match Unescape(t[2..])
      case None => None
      case Some(parsed) => Some(([t[1]] + parsed.0, parsed.1))
    else None
  }

  lemma {:induction false} UnescapeEscape(s: seq<byte>, rest: seq<byte>)
    ensures Unescape(Escape(s) + rest) == Some((s, rest))
  {
    if s == [] {
      assert Escape(s) + rest == [0] + rest;
    } else {
      EscapeStep(s, rest);
      UnescapeEscape(s[1..], rest);
      assert [s[0]] + s[1..] == s;
    }
  }

  lemma EscapeStep(s: seq<byte>, rest: seq<byte>)
    requires s != []
    ensures var t := Escape(s) + rest;
            |t| >= 2 && t[0] == 1 && t[1] == s[0] && t[2..] == Escape(s[1..]) + rest
  {
    var tail := Escape(s[1..]);
    assert Escape(s) == [1, s[0]] + tail;
    PairThen(1, s[0], tail, rest);
  }

  lemma PairThen(a: byte, b: byte, x: seq<byte>, y: seq<byte>)
    ensures var t := [a, b] + x + y;
            |t| >= 2 && t[0] == a && t[1] == b && t[2..] == x + y
  {
    var t := [a, b] + x + y;
    assert t[2..] == x + y by {
      forall i | 0 <= i < |x + y|
        ensures t[2 + i] == (x + y)[i]
      {
      }
    }
  }

  // ----- integers: a sign byte, then the escaped little-endian digits of the magnitude -----

  /** The base-256 digits of m, least significant first, with no trailing zero. */
  function Digits(m: nat): (s: seq<byte>)
  {
    if m == 0 then [] else [ByteOf(m % 256)] + Digits(m / 256)
  }

  lemma {:induction false} DigitsValue(m: nat)
    ensures LittleEndianValue(Digits(m)) == m
  {
    if m > 0 {
      var s := Digits(m);
      assert s[1..] == Digits(m / 256);
      DigitsValue(m / 256);
    }
  }

  lemma {:induction false} DigitsLength(m: nat, k: nat)
    requires m < Pow256(k)
    ensures |Digits(m)| <= k
  {
    if m > 0 {
      DigitsLength(m / 256, k - 1);
    }
  }

  function Magnitude(n: int): nat {
    if n < 0 then -n else n
  }

  function EncodeInt(n: int): seq<byte> {
    [if n < 0 then 1 else 0] + Escape(Digits(Magnitude(n)))
  }

  /** Reads one encoded integer off the front of t, returning it and what follows. */
  function DecodeInt(t: seq<byte>): Option<(int, seq<byte>)> {
    if t == [] || t[0] > 1 then None
    else
      match Unescape(t[1..])
      case None => None
      case Some(parsed) =>
        var m: int := LittleEndianValue(parsed.0);
        Some((if t[0] == 1 then -m else m, parsed.1))
  }

  lemma DecodeEncodeInt(n: int, rest: seq<byte>)
    ensures DecodeInt(EncodeInt(n) + rest) == Some((n, rest))
  {
    var t := EncodeInt(n) + rest;
    assert t[1..] == Escape(Digits(Magnitude(n))) + rest;
    UnescapeEscape(Digits(Magnitude(n)), rest);
    DigitsValue(Magnitude(n));
  }

  // ----- the header codec, standing in for gob of *message -----

  function EncodeHeader(m: Message): seq<byte> {
    Escape(m.iv) + Escape(m.mac) + EncodeInt(m.ctSize)
  }

  function DecodeHeader(t: seq<byte>): Option<Message> {
    match Unescape(t)
    case None => None
    case Some(first) =>
      match Unescape(first.1)
      case None => None
      case Some(second) =>
        match DecodeInt(second.1)
        case None => None
        case Some(third) => Some(Message(first.0, second.0, third.0))
  }

  lemma HeaderRoundTrip(m: Message)
    ensures DecodeHeader(EncodeHeader(m)) == Some(m)
  {
    var tail := EncodeInt(m.ctSize);
    assert EncodeHeader(m) == Escape(m.iv) + (Escape(m.mac) + tail);
    UnescapeEscape(m.iv, Escape(m.mac) + tail);
    UnescapeEscape(m.mac, tail);
    DecodeEncodeInt(m.ctSize, []);
    assert tail + [] == tail;
  }

  /** A header of the shape encrypt builds encodes to a little over a hundred bytes. */
  lemma HeaderLength(m: Message)
    requires Int64Sized(m)
    ensures |EncodeHeader(m)| < Int64Bound
  {
    Pow256Eight();
    DigitsLength(Magnitude(m.ctSize), 8);
  }

  // ----- the key-record codec, standing in for gob of *keys -----

  function EncodeKeys(ks: Keys): seq<byte> {
    Escape(ks.encKey) + Escape(ks.macKey)
  }

  function DecodeKeys(t: seq<byte>): Option<Keys> {
    match Unescape(t)
    case None => None
    case Some(first) =>
      match Unescape(first.1)
      case None => None
      case Some(second) => Some(Keys(first.0, second.0))
  }

  lemma KeysRoundTrip(ks: Keys)
    ensures DecodeKeys(EncodeKeys(ks)) == Some(ks)
  {
    UnescapeEscape(ks.encKey, Escape(ks.macKey));
    UnescapeEscape(ks.macKey, []);
    assert Escape(ks.macKey) + [] == Escape(ks.macKey);
  }

  // ----- a text codec, standing in for base64: two letters 'A'..'P' per byte -----

  function High(b: byte): byte {
    ByteOf(65 + ValueOf(b) / 16)
  }

  function Low(b: byte): byte {
    ByteOf(65 + ValueOf(b) % 16)
  }

  function Letters(s: seq<byte>): (t: seq<byte>)
    ensures |t| == 2 * |s|
  {
    if s == [] then [] else [High(s[0]), Low(s[0])] + Letters(s[1..])
  }

  predicate IsLetter(b: byte) {
    65 <= b < 81
  }

  function FromLetters(hi: byte, lo: byte): byte
    requires IsLetter(hi) && IsLetter(lo)
  {
    ByteOf((ValueOf(hi) - 65) * 16 + (ValueOf(lo) - 65))
  }

  function Unletters(t: seq<byte>): Option<seq<byte>> {
    if t == [] then Some([])
    else if |t| < 2 || !IsLetter(t[0]) || !IsLetter(t[1]) then None
    else
      match Unletters(t[2..])
      case None => None
      case Some(rest) => Some([FromLetters(t[0], t[1])] + rest)
  }

  /** The two letters of a byte are letters, and they give the byte back. */
  lemma LetterPair(b: byte)
    ensures IsLetter(High(b)) && IsLetter(Low(b)) && FromLetters(High(b), Low(b)) == b
  {
    var v := ValueOf(b);
    assert (v / 16) * 16 + v % 16 == v;
  }

  lemma {:induction false} LettersRoundTrip(s: seq<byte>)
    ensures Unletters(Letters(s)) == Some(s)
  {
    if s != [] {
      var t := Letters(s);
      LetterPair(s[0]);
      assert t[0] == High(s[0]) && t[1] == Low(s[0]) && t[2..] == Letters(s[1..]);
      LettersRoundTrip(s[1..]);
      assert [s[0]] + s[1..] == s;
    }
  }

  lemma {:induction false} LettersNoNewlines(s: seq<byte>)
    ensures NoNewlines(Letters(s))
  {
    if s != [] {
      var t := Letters(s);
      LetterPair(s[0]);
      LettersNoNewlines(s[1..]);
      forall i | 0 <= i < |t|
        ensures !IsNewline(t[i])
      {
        if i >= 2 {
          assert t[i] == Letters(s[1..])[i - 2];
        }
      }
    }
  }

  // ----- the suite -----

  function Zero(key: seq<byte>, iv: seq<byte>, i: nat): byte {
    0
  }

  function ZeroTag(key: seq<byte>, msg: seq<byte>): Digest {
    seq(DigestSize, _ => 0)
  }

  function Example(): Suite {
    Suite(Zero, ZeroTag, Codec(EncodeHeader, DecodeHeader), Codec(EncodeKeys, DecodeKeys), Codec(Letters, Unletters))
  }

  /** The assumptions about the libraries are consistent: this suite meets all of them. */
  lemma ExampleIsLawful()
    ensures Lawful(Example())
  {
    var s := Example();
    forall m: Message
      ensures s.header.decode(s.header.encode(m)) == Some(m)
    {
      HeaderRoundTrip(m);
    }
    forall ks: Keys
      ensures s.keyRecord.decode(s.keyRecord.encode(ks)) == Some(ks)
    {
      KeysRoundTrip(ks);
    }
    forall b: seq<byte>
      ensures s.base64.decode(s.base64.encode(b)) == Some(b)
    {
      LettersRoundTrip(b);
    }
    forall m: Message | Int64Sized(m)
      ensures |s.header.encode(m)| < Int64Bound
    {
      HeaderLength(m);
    }
    forall b: seq<byte>
      ensures NoNewlines(s.base64.encode(b))
    {
      LettersNoNewlines(b);
    }
  }

  /** With this suite, encrypt followed by decrypt takes place and recovers any plaintext an int64 can count. */
  lemma ExampleRoundTrip(random: seq<byte>, pt: seq<byte>, files: map<Path, seq<byte>>, keyPath: Path)
    requires |random| >= RandomNeeded && |pt| < Int64Bound
    ensures var tmp := TempSpace(true, Unlimited);
            var e := EncryptRun(Example(), random, Source(pt, false), tmp, Unlimited, true);
            && e.outcome == Done && e.persisted.Some?
            && DecryptRun(Example(), files[keyPath := KeyFileBytes(Example(), e.persisted.value)], keyPath, tmp, Source(e.output, false), Unlimited)
               == DecryptEffects(Done, pt)
  {
    var tmp := TempSpace(true, Unlimited);
    ExampleIsLawful();
    EncryptSucceeds(Example(), random, Source(pt, false), tmp, Unlimited, true);
    EncryptThenDecrypt(Example(), random, pt, tmp, Unlimited, files, keyPath, tmp, Unlimited);
  }
}
