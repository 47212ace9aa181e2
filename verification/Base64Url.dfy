/** base64url without padding, as a specification over bit strings, and its laws. */
module Base64Url {
  import opened CStrings
  import opened Bits

  const UPPER: string := "ABCDEFGHIJKLMNOPQRSTUVWXYZ"
  const LOWER: string := "abcdefghijklmnopqrstuvwxyz"
  const ALPHABET: string := UPPER + LOWER + "0123456789-_"

  /** The position of `c` in the alphabet, or -1. */
  function CharIndex(c: char): (v: int)
    ensures -1 <= v < 64
  {
    if 'A' <= c <= 'Z' then c as int - 'A' as int
    else if 'a' <= c <= 'z' then c as int - 'a' as int + 26
    else if '0' <= c <= '9' then c as int - '0' as int + 52
    else if c == '-' then 62
    else if c == '_' then 63
    else -1
  }

  /** `B64URL_ALPHABET[v]`, as AlphabetLookup shows. */
  function IndexChar(v: nat): (c: char)
    requires v < 64
    ensures CharIndex(c) == v
  {
    if v < 26 then ('A' as int + v) as char
    else if v < 52 then ('a' as int + v - 26) as char
    else if v < 62 then ('0' as int + v - 52) as char
    else if v == 62 then '-'
    else '_'
  }

  lemma AlphabetLookup(v: nat)
    requires v < 64
    ensures |ALPHABET| == 64 && ALPHABET[v] == IndexChar(v)
  {
    if v < 26 {
      assert ALPHABET[v] == UPPER[v];
    } else if v < 52 {
      assert ALPHABET[v] == LOWER[v - 26];
    } else {
      assert ALPHABET[v] == "0123456789-_"[v - 52];
    }
  }

  lemma IndexCharOfCharIndex(c: char)
    requires CharIndex(c) >= 0
    ensures IndexChar(CharIndex(c)) == c
  {
  }

  type sextet = v: int | 0 <= v < 64

  // ---------- The specification ----------

  function OctetBits(x: Text): (bits: seq<bool>)
    ensures |bits| == 8 * |x|
  {
    if x == [] then [] else ToBits(x[0] as int, 8) + OctetBits(x[1..])
  }

  function SextetBits(v: seq<sextet>): (bits: seq<bool>)
    ensures |bits| == 6 * |v|
  {
    if v == [] then [] else ToBits(v[0], 6) + SextetBits(v[1..])
  }

  function SextetValue(bits: seq<bool>): (v: sextet)
    requires |bits| == 6
  {
    ValueBound(bits);
    PowersOfTwo();
    Value(bits)
  }

  function OctetValue(bits: seq<bool>): (b: byte)
    requires |bits| == 8
    ensures b as int == Value(bits)
  {
    ValueBound(bits);
    PowersOfTwo();
    Value(bits) as char
  }

  /** Groups of six bits; the last group is filled up with zeros. */
  function Sextets(bits: seq<bool>): (v: seq<sextet>)
    ensures |v| == (|bits| + 5) / 6
  {
    if bits == [] then []
    else if |bits| < 6 then [SextetValue(bits + Zeros(6 - |bits|))]
    else [SextetValue(bits[..6])] + Sextets(bits[6..])
  }

  /** Groups of eight bits; a last group that is not full is dropped. */
  function Octets(bits: seq<bool>): (x: Text)
    ensures |x| == |bits| / 8
  {
    if |bits| < 8 then [] else [OctetValue(bits[..8])] + Octets(bits[8..])
  }

  function Chars(v: seq<sextet>): (s: string)
    ensures |s| == |v|
    ensures forall i :: 0 <= i < |v| ==> s[i] == IndexChar(v[i])
  {
    seq(|v|, i requires 0 <= i < |v| => IndexChar(v[i]))
  }

  predicate InAlphabet(s: string) {
    forall i :: 0 <= i < |s| ==> CharIndex(s[i]) >= 0
  }

  function Indices(s: string): (v: seq<sextet>)
    requires InAlphabet(s)
    ensures |v| == |s|
    ensures forall i :: 0 <= i < |s| ==> v[i] == CharIndex(s[i])
  {
    seq(|s|, i requires 0 <= i < |s| => CharIndex(s[i]))
  }

  function Encode(x: Text): (s: string) {
    Chars(Sextets(OctetBits(x)))
  }

  function Decode(s: string): (r: Option<Text>)
  {
    if InAlphabet(s) then Some(Octets(SextetBits(Indices(s)))) else None
  }

  // ---------- Its laws ----------

  /** The encoding has ceil(8n / 6) characters, all of them in the alphabet. */
  lemma EncodeShape(x: Text)
    ensures |Encode(x)| == (4 * |x| + 2) / 3
    ensures InAlphabet(Encode(x))
    ensures Indices(Encode(x)) == Sextets(OctetBits(x))
  {
  }

  function Filler(n: nat): (k: nat)
    ensures k < 6 && (n + k) % 6 == 0
  {
    (6 - n % 6) % 6
  }

  lemma SextetBitsCons(v: sextet, w: seq<sextet>)
    ensures SextetBits([v] + w) == ToBits(v, 6) + SextetBits(w)
  {
    assert ([v] + w)[1..] == w;
  }

  lemma OctetBitsCons(b: byte, x: Text)
    ensures OctetBits([b] + x) == ToBits(b as int, 8) + OctetBits(x)
  {
    assert ([b] + x)[1..] == x;
  }

  lemma FillerStep(n: nat)
    ensures n < 6 && n > 0 ==> Filler(n) == 6 - n
    ensures n >= 6 ==> Filler(n) == Filler(n - 6)
  {
  }

  lemma SextetBitsOfLast(bits: seq<bool>)
    requires 0 < |bits| < 6
    ensures SextetBits(Sextets(bits)) == bits + Zeros(6 - |bits|)
  {
    var padded := bits + Zeros(6 - |bits|);
    ToBitsValue(padded);
    SextetBitsCons(SextetValue(padded), []);
    assert SextetBits(Sextets(bits)) == padded + [];
  }

  lemma {:induction false} SextetBitsOfSextets(bits: seq<bool>)
    ensures SextetBits(Sextets(bits)) == bits + Zeros(Filler(|bits|))
  {
    FillerStep(|bits|);
    if bits == [] {
    } else if |bits| < 6 {
      SextetBitsOfLast(bits);
    } else {
      var head, tail := bits[..6], bits[6..];
      ToBitsValue(head);
      SextetBitsOfSextets(tail);
      SextetBitsCons(SextetValue(head), Sextets(tail));
      assert head + (tail + Zeros(Filler(|tail|))) == bits + Zeros(Filler(|tail|));
    }
  }

  /** Regrouping by eight drops fewer than eight bits from the end. */
  lemma {:induction false} OctetBitsOfOctets(bits: seq<bool>)
    ensures OctetBits(Octets(bits)) == bits[..8 * (|bits| / 8)]
  {
    if |bits| >= 8 {
      var head, tail := bits[..8], bits[8..];
      ToBitsValue(head);
      OctetBitsOfOctets(tail);
      OctetBitsCons(OctetValue(head), Octets(tail));
      assert |tail| / 8 == |bits| / 8 - 1;
      assert bits[..8 * (|bits| / 8)] == head + tail[..8 * (|tail| / 8)];
    }
  }

  lemma {:induction false} OctetsOfOctetBits(x: Text, rest: seq<bool>)
    requires |rest| < 8
    ensures Octets(OctetBits(x) + rest) == x
  {
    var bits := OctetBits(x) + rest;
    if x != [] {
      PowersOfTwo();
      ValueToBits(x[0] as int, 8);
      assert bits[..8] == ToBits(x[0] as int, 8);
      assert bits[8..] == OctetBits(x[1..]) + rest;
      OctetsOfOctetBits(x[1..], rest);
      assert x == [x[0]] + x[1..];
    }
  }

  lemma {:induction false} SextetBitsInjective(v: seq<sextet>, w: seq<sextet>)
    requires SextetBits(v) == SextetBits(w)
    ensures v == w
  {
    assert 6 * |v| == 6 * |w|;
    if v != [] {
      PowersOfTwo();
      ValueToBits(v[0], 6);
      ValueToBits(w[0], 6);
      assert ToBits(v[0], 6) == SextetBits(v)[..6] == SextetBits(w)[..6] == ToBits(w[0], 6);
      assert SextetBits(v[1..]) == SextetBits(v)[6..] == SextetBits(w)[6..] == SextetBits(w[1..]);
      SextetBitsInjective(v[1..], w[1..]);
      assert v == [v[0]] + v[1..] && w == [w[0]] + w[1..];
    }
  }

  /** Decoding undoes encoding, for every byte string. */
  lemma RoundTrip(x: Text)
    ensures Decode(Encode(x)) == Some(x)
  {
    EncodeShape(x);
    var bits := OctetBits(x);
    SextetBitsOfSextets(bits);
    OctetsOfOctetBits(x, Zeros(Filler(|bits|)));
  }

  /** The bits of `s` that no decoded byte uses. */
  function UnusedBits(s: string): (bits: seq<bool>)
    requires InAlphabet(s)
    ensures |bits| == 6 * |s| % 8
  {
    var bits := SextetBits(Indices(s));
    bits[8 * (|bits| / 8)..]
  }

  lemma EqualIndices(s: string, t: string)
    requires InAlphabet(s) && InAlphabet(t) && Indices(s) == Indices(t)
    ensures s == t
  {
    assert |s| == |t|;
    forall i | 0 <= i < |s|
      ensures s[i] == t[i]
    {
      IndexCharOfCharIndex(s[i]);
      IndexCharOfCharIndex(t[i]);
      assert Indices(s)[i] == Indices(t)[i];
    }
  }

  /** What encoding the decoded bytes again keeps: the used bits, then zeros. */
  lemma RecodedBits(s: string)
    requires InAlphabet(s)
    ensures var t := Encode(Decode(s).value);
            var bits := SextetBits(Indices(s));
            var used := bits[..8 * (|bits| / 8)];
            InAlphabet(t) && SextetBits(Indices(t)) == used + Zeros(Filler(|used|))
  {
    var bits := SextetBits(Indices(s));
    OctetBitsOfOctets(bits);
    EncodeShape(Decode(s).value);
    SextetBitsOfSextets(bits[..8 * (|bits| / 8)]);
  }

  /** How many bits of `n` characters stay unused. */
  lemma UnusedLength(n: nat)
    ensures 6 * n % 8 == if n % 4 == 0 then 0 else if n % 4 == 1 then 6 else if n % 4 == 2 then 4 else 2
    ensures n % 4 != 1 ==> Filler(8 * (6 * n / 8)) == 6 * n % 8
  {
    var q, r := n / 4, n % 4;
    assert 6 * n == 8 * (3 * q) + 6 * r;
    assert 6 * n / 8 == 3 * q + 6 * r / 8;
    assert 8 * (6 * n / 8) == 6 * (4 * q) + 8 * (6 * r / 8);
  }

  lemma SuffixesAgree(a: seq<bool>, b: seq<bool>, c: seq<bool>)
    requires a + b == a + c
    ensures b == c
  {
    assert b == (a + b)[|a|..];
    assert c == (a + c)[|a|..];
  }

  predicate CanonicalText(s: string)
    requires InAlphabet(s)
  {
    |s| % 4 != 1 && UnusedBits(s) == Zeros(|UnusedBits(s)|)
  }

  lemma BitsOfText(s: string)
    requires InAlphabet(s)
    ensures var bits := SextetBits(Indices(s));
            bits == bits[..8 * (6 * |s| / 8)] + UnusedBits(s) && |UnusedBits(s)| == 6 * |s| % 8
  {
  }

  /** Section 3.5 of RFC 4648: a text is the canonical encoding of what it decodes to
      exactly when its length is possible and its unused bits are all zero. */
  lemma Canonical(s: string)
    requires InAlphabet(s)
    ensures |Decode(s).value| == 6 * |s| / 8
    ensures Encode(Decode(s).value) == s <==> CanonicalText(s)
  {
    var used := SextetBits(Indices(s))[..8 * (6 * |s| / 8)];
    var t := Encode(Decode(s).value);
    BitsOfText(s);
    RecodedBits(s);
    UnusedLength(|s|);
    var filler := Zeros(Filler(|used|));
    assert InAlphabet(t) && SextetBits(Indices(t)) == used + filler;
    if t == s {
      SuffixesAgree(used, UnusedBits(s), filler);
    }
    if CanonicalText(s) {
      SextetBitsInjective(Indices(t), Indices(s));
      EqualIndices(s, t);
    }
  }

  /** What encoding gives is canonical. */
  lemma EncodeIsCanonical(x: Text)
    ensures InAlphabet(Encode(x)) && CanonicalText(Encode(x))
  {
    EncodeShape(x);
    RoundTrip(x);
    hide Encode, Decode, CanonicalText;
    Canonical(Encode(x));
  }
}
