/** `b64url_encode` of the C service, proved against the bit-string view. A shift is a multiplication or a floor
    division by a power of two, a mask is a remainder, and an `|` of disjoint bit
    fields is a sum. */
module Base64UrlEncoder {
  import opened CStrings
  import opened Bits
  import opened Sequences
  import opened Base64Url

  lemma Base64Digits(a: sextet, b: sextet, c: sextet, d: sextet, v: int)
    requires v == a * 262144 + b * 4096 + c * 64 + d
    ensures v / 262144 % 64 == a && v / 4096 % 64 == b && v / 64 % 64 == c && v % 64 == d
  {
    assert v / 262144 == a;
    assert v / 4096 == a * 64 + b;
    assert v / 64 == a * 4096 + b * 64 + c;
  }

  lemma AppendSextet(a: seq<bool>, s: seq<bool>)
    requires |s| == 6
    ensures Value(a + s) == Value(a) * 64 + SextetValue(s)
  {
    PowersOfTwo();
    ValueConcat(a, s);
  }

  lemma ValueOfFour(s0: seq<bool>, s1: seq<bool>, s2: seq<bool>, s3: seq<bool>)
    requires |s0| == |s1| == |s2| == |s3| == 6
    ensures Value(s0 + s1 + s2 + s3)
         == SextetValue(s0) * 262144 + SextetValue(s1) * 4096 + SextetValue(s2) * 64 + SextetValue(s3)
  {
    AppendSextet(s0, s1);
    AppendSextet(s0 + s1, s2);
    AppendSextet(s0 + s1 + s2, s3);
  }

  /** Four six-bit groups are the base-64 digits of the 24-bit number they form. */
  lemma SextetsOfNumber(s0: seq<bool>, s1: seq<bool>, s2: seq<bool>, s3: seq<bool>, v: nat)
    requires |s0| == |s1| == |s2| == |s3| == 6
    requires v == Value(s0 + s1 + s2 + s3)
    ensures SextetValue(s0) == v / 262144 % 64 && SextetValue(s1) == v / 4096 % 64
    ensures SextetValue(s2) == v / 64 % 64 && SextetValue(s3) == v % 64
  {
    ValueOfFour(s0, s1, s2, s3);
    Base64Digits(SextetValue(s0), SextetValue(s1), SextetValue(s2), SextetValue(s3), v);
  }

  lemma SextetsStep(s: seq<bool>, rest: seq<bool>)
    requires |s| == 6
    ensures Sextets(s + rest) == [SextetValue(s)] + Sextets(rest)
  {
    assert (s + rest)[..6] == s && (s + rest)[6..] == rest;
  }

  lemma SextetsStep4(s0: seq<bool>, s1: seq<bool>, s2: seq<bool>, s3: seq<bool>, rest: seq<bool>)
    requires |s0| == |s1| == |s2| == |s3| == 6
    ensures Sextets(s0 + s1 + s2 + s3 + rest)
         == [SextetValue(s0), SextetValue(s1), SextetValue(s2), SextetValue(s3)] + Sextets(rest)
  {
    assert s0 + s1 + s2 + s3 + rest == s0 + (s1 + (s2 + (s3 + rest)));
    SextetsStep(s0, s1 + (s2 + (s3 + rest)));
    SextetsStep(s1, s2 + (s3 + rest));
    SextetsStep(s2, s3 + rest);
    SextetsStep(s3, rest);
  }

  lemma SextetsOfGroup(group: seq<bool>, rest: seq<bool>)
    requires |group| == 24
    ensures var v := Value(group);
            Sextets(group + rest) == [v / 262144 % 64, v / 4096 % 64, v / 64 % 64, v % 64] + Sextets(rest)
  {
    var s0, s1, s2, s3 := group[..6], group[6..12], group[12..18], group[18..];
    assert group == s0 + s1 + s2 + s3;
    SextetsOfNumber(s0, s1, s2, s3, Value(group));
    SextetsStep4(s0, s1, s2, s3, rest);
  }

  lemma AppendOctet(a: seq<bool>, b: byte)
    ensures Value(a + ToBits(b as int, 8)) == Value(a) * 256 + b as int
  {
    PowersOfTwo();
    ValueToBits(b as int, 8);
    ValueConcat(a, ToBits(b as int, 8));
  }

  lemma ThreeOctets(b0: byte, b1: byte, b2: byte)
    ensures Value(GroupBits(b0, b1, b2)) == GroupNumber(b0, b1, b2)
  {
    var o0 := ToBits(b0 as int, 8);
    assert [] + o0 == o0;
    AppendOctet([], b0);
    AppendOctet(o0, b1);
    AppendOctet(o0 + ToBits(b1 as int, 8), b2);
  }

  function GroupNumber(b0: byte, b1: byte, b2: byte): (v: nat)
    ensures v < 16777216
  {
    b0 as int * 65536 + b1 as int * 256 + b2 as int
  }

  /** `(v >> 18) & 0x3f`, `(v >> 12) & 0x3f`, `(v >> 6) & 0x3f` and `v & 0x3f` as characters. */
  function FourChars(v: nat): (quad: string)
    ensures |quad| == 4
  {
    [IndexChar(v / 262144 % 64), IndexChar(v / 4096 % 64), IndexChar(v / 64 % 64), IndexChar(v % 64)]
  }

  function GroupBits(b0: byte, b1: byte, b2: byte): (bits: seq<bool>)
    ensures |bits| == 24
  {
    ToBits(b0 as int, 8) + ToBits(b1 as int, 8) + ToBits(b2 as int, 8)
  }

  lemma OctetBitsOfGroup(b0: byte, b1: byte, b2: byte, rest: Text)
    ensures OctetBits([b0, b1, b2] + rest) == GroupBits(b0, b1, b2) + OctetBits(rest)
  {
    OctetBitsCons(b2, rest);
    OctetBitsCons(b1, [b2] + rest);
    OctetBitsCons(b0, [b1] + ([b2] + rest));
    assert [b0, b1, b2] + rest == [b0] + ([b1] + ([b2] + rest));
  }

  lemma CharsConcat(v: seq<sextet>, w: seq<sextet>)
    ensures Chars(v + w) == Chars(v) + Chars(w)
  {
  }

  /** One round of the encoding loop. */
  lemma EncodeGroup(b0: byte, b1: byte, b2: byte, rest: Text)
    ensures Encode([b0, b1, b2] + rest) == FourChars(GroupNumber(b0, b1, b2)) + Encode(rest)
  {
    var v := GroupNumber(b0, b1, b2);
    var four: seq<sextet> := [v / 262144 % 64, v / 4096 % 64, v / 64 % 64, v % 64];
    OctetBitsOfGroup(b0, b1, b2, rest);
    ThreeOctets(b0, b1, b2);
    SextetsOfGroup(GroupBits(b0, b1, b2), OctetBits(rest));
    CharsConcat(four, Sextets(OctetBits(rest)));
    assert Chars(four) == FourChars(v);
  }

  lemma {:induction false} ToBitsZero(w: nat)
    ensures ToBits(0, w) == Zeros(w)
  {
    if w > 0 {
      ToBitsZero(w - 1);
    }
  }

  /** Whole groups of a bit string do not change when zeros are added behind it. */
  lemma {:induction false} SextetsWithZeros(bits: seq<bool>, k: nat)
    ensures |Sextets(bits)| <= |Sextets(bits + Zeros(k))|
    ensures Sextets(bits) == Sextets(bits + Zeros(k))[..|Sextets(bits)|]
  {
    if bits == [] {
    } else if |bits| < 6 {
      SextetsOfPartial(bits, k);
    } else {
      var head, tail := bits[..6], bits[6..];
      assert bits == head + tail;
      SextetsWithZeros(tail, k);
      SextetsStep(head, tail);
      SextetsStep(head, tail + Zeros(k));
      assert bits + Zeros(k) == head + (tail + Zeros(k));
    }
  }

  function FirstSix(bits: seq<bool>): (six: seq<bool>)
    ensures |six| == 6
  {
    if |bits| < 6 then bits + Zeros(6 - |bits|) else bits[..6]
  }

  lemma FirstSextet(bits: seq<bool>)
    requires bits != []
    ensures Sextets(bits) != [] && Sextets(bits)[0] == SextetValue(FirstSix(bits))
  {
  }

  lemma FirstSixWithZeros(bits: seq<bool>, k: nat)
    ensures FirstSix(bits + Zeros(k)) == FirstSix(bits)
  {
  }

  lemma SextetsOfPartial(bits: seq<bool>, k: nat)
    requires 0 < |bits| < 6
    ensures Sextets(bits + Zeros(k)) != [] && Sextets(bits) == Sextets(bits + Zeros(k))[..1]
  {
    FirstSextet(bits);
    FirstSextet(bits + Zeros(k));
    FirstSixWithZeros(bits, k);
  }

  /** The last one or two bytes, as the code reads them: a group filled up with zero
      bytes, of which only the first characters are written. */
  lemma EncodeLast(x: Text)
    requires 1 <= |x| <= 2
    ensures Encode(x) == FourChars(GroupNumber(x[0], if |x| == 2 then x[1] else '\0', '\0'))[..|x| + 1]
  {
    var zero: byte := '\0';
    var b1 := if |x| == 2 then x[1] else zero;
    ToBitsZero(8);
    var bits, group := OctetBits(x), OctetBits([x[0], b1, zero]);
    LastGroupBits(x);
    SextetsWithZeros(bits, 24 - |bits|);
    EncodeGroup(x[0], b1, zero, []);
    assert [x[0], b1, zero] + [] == [x[0], b1, zero];
    assert Encode(x) == Encode([x[0], b1, zero])[..|x| + 1];
  }

  lemma {:induction false} OctetBitsConcat(x: Text, y: Text)
    ensures OctetBits(x + y) == OctetBits(x) + OctetBits(y)
  {
    if x == [] {
      assert x + y == y;
    } else {
      OctetBitsConcat(x[1..], y);
      OctetBitsCons(x[0], x[1..] + y);
      Regroup(ToBits(x[0] as int, 8), OctetBits(x[1..]), OctetBits(y));
      hide OctetBits, ToBits;
      Regroup([x[0]], x[1..], y);
      assert [x[0]] + x[1..] == x;
    }
  }

  lemma ZeroBytes()
    ensures OctetBits(['\0']) == Zeros(8) && OctetBits(['\0', '\0']) == Zeros(16)
  {
    ToBitsZero(8);
    var zero: byte := '\0';
    OctetBitsCons(zero, []);
    OctetBitsConcat([zero], [zero]);
    assert [zero] + [] == [zero] && [zero] + [zero] == [zero, zero];
    assert Zeros(8) + Zeros(8) == Zeros(16);
  }

  lemma LastGroupBits(x: Text)
    requires 1 <= |x| <= 2
    ensures OctetBits([x[0], if |x| == 2 then x[1] else '\0', '\0']) == OctetBits(x) + Zeros(24 - 8 * |x|)
  {
    hide OctetBits, ToBits;
    var fill: Text := if |x| == 2 then ['\0'] else ['\0', '\0'];
    ZeroBytes();
    OctetBitsConcat(x, fill);
    assert x + fill == [x[0], if |x| == 2 then x[1] else '\0', '\0'];
  }

  /** The encoding, three bytes at a time. */
  function EncodeByGroups(x: Text): (s: string)
    ensures 4 * |x| <= 3 * |s| <= 4 * |x| + 2
  {
    if x == [] then []
    else if |x| < 3 then FourChars(GroupNumber(x[0], if |x| == 2 then x[1] else '\0', '\0'))[..|x| + 1]
    else FourChars(GroupNumber(x[0], x[1], x[2])) + EncodeByGroups(x[3..])
  }

  lemma {:induction false} GroupsEncode(x: Text)
    ensures EncodeByGroups(x) == Encode(x)
  {
    if x == [] {
    } else if |x| < 3 {
      EncodeLast(x);
    } else {
      GroupsEncode(x[3..]);
      EncodeGroup(x[0], x[1], x[2], x[3..]);
      assert x == [x[0], x[1], x[2]] + x[3..];
    }
  }

  /** Four characters for every started group of three bytes, less the padding. */
  function NeededLength(n: nat): (needed: nat)
    ensures 4 * n <= 3 * needed <= 4 * n + 2
  {
    (n + 2) / 3 * 4 - (3 - n % 3) % 3
  }

  lemma FirstGroup(x: Text)
    requires |x| >= 3
    ensures |EncodeByGroups(x)| >= 4 && EncodeByGroups(x)[4..] == EncodeByGroups(x[3..])
  {
  }

  /** The group that starts at byte `3g` is written at `4g`. */
  lemma {:induction false} GroupAt(x: Text, g: nat)
    requires 3 * g <= |x|
    ensures var full := EncodeByGroups(x);
            4 * g <= |full| && full[4 * g..] == EncodeByGroups(x[3 * g..])
  {
    hide FourChars, GroupNumber, EncodeByGroups;
    if g > 0 {
      FirstGroup(x);
      GroupAt(x[3..], g - 1);
      DropTwice(x, 3, 3 * (g - 1));
      DropTwice(EncodeByGroups(x), 4, 4 * (g - 1));
    }
  }

  lemma FullGroupAt(x: Text, g: nat)
    requires 3 * g + 3 <= |x|
    ensures var full := EncodeByGroups(x);
            && 4 * g + 4 <= |full|
            && full[4 * g..4 * g + 4] == FourChars(GroupNumber(x[3 * g], x[3 * g + 1], x[3 * g + 2]))
  {
    GroupAt(x, g);
    assert EncodeByGroups(x)[4 * g..][..4] == EncodeByGroups(x)[4 * g..4 * g + 4];
  }

  /** The loop of `b64url_encode` over the full groups of three. */
  method EncodeFullGroups(input: Text, out: array<char>) returns (i: nat, o: nat)
    requires |EncodeByGroups(input)| < out.Length
    modifies out
    ensures i <= |input| < i + 3 && o <= |EncodeByGroups(input)|
    ensures out[..o] == EncodeByGroups(input)[..o]
    ensures EncodeByGroups(input[i..]) == EncodeByGroups(input)[o..]
    ensures forall k :: o <= k < out.Length ==> out[k] == old(out[k])
  {
    hide EncodeByGroups, FourChars, GroupNumber;
    ghost var full := EncodeByGroups(input);
    i, o := 0, 0;
    ghost var g := 0;
    while i + 3 <= |input|
      invariant i == 3 * g <= |input| && o == 4 * g <= |full|
      invariant out[..o] == full[..o]
      invariant forall k :: o <= k < out.Length ==> out[k] == old(out[k])
    {
      FullGroupAt(input, g);
      CopyInto(out, o, FourChars(GroupNumber(input[i], input[i + 1], input[i + 2])));
      i, o, g := i + 3, o + 4, g + 1;
    }
    GroupAt(input, g);
  }

  lemma TailGroup(x: Text)
    requires |x| < 3
    ensures x == [] ==> EncodeByGroups(x) == []
    ensures x != [] ==>
              EncodeByGroups(x) == FourChars(GroupNumber(x[0], if |x| == 2 then x[1] else '\0', '\0'))[..|x| + 1]
  {
  }

  /** `b64url_encode`: writes the text and a NUL when both fit. */
  method EncodeInto(input: Text, out: array<char>, outCap: nat) returns (r: int)
    requires outCap <= out.Length
    modifies out
    ensures r == if |Encode(input)| < outCap then ToInt(|Encode(input)|) else -1
    ensures |Encode(input)| < outCap ==>
              && out[..|Encode(input)|] == Encode(input) && out[|Encode(input)|] == '\0'
              && forall k :: |Encode(input)| < k < out.Length ==> out[k] == old(out[k])
    ensures |Encode(input)| >= outCap ==> out[..] == old(out[..])
  {
    hide ToInt, Encode, EncodeByGroups, FourChars, GroupNumber, NeededLength;
    GroupsEncode(input);
    var n := |input|;
    if NeededLength(n) + 1 > outCap {
      return -1;
    }
    var i, o := EncodeFullGroups(input, out);
    TailGroup(input[i..]);
    if i < n {
      var b1: byte := if i + 1 < n then input[i + 1] else '\0';
      CopyInto(out, o, FourChars(GroupNumber(input[i], b1, '\0'))[..n - i + 1]);
      o := o + (n - i + 1);
    }
    out[o] := '\0';
    r := ToInt(o);
  }
}
