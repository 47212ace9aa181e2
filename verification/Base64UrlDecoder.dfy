/** `b64url_decode` of the C service, proved against the bit-string view. Its 32-bit
    accumulator is never masked: high bits are lost, and only low ones are used. */
module Base64UrlDecoder {
  import opened Arithmetic
  import opened CStrings
  import opened Bits
  import opened Base64Url

  /** The value a 32-bit signed int keeps of `x`. */
  function Wrap32(x: int): (w: int)
    ensures -0x8000_0000 <= w <= 0x7fff_ffff
    ensures w % 0x1_0000_0000 == x % 0x1_0000_0000
  {
    var low := x % 0x1_0000_0000;
    if low <= 0x7fff_ffff then low else low - 0x1_0000_0000
  }

  /** `(buf << 6) | v` on an int that nothing ever masks. */
  function Shift(buf: int, v: sextet): int {
    Wrap32(buf * 64) + v
  }

  /** Only the last six bits of the old accumulator reach the low twelve of the new one. */
  lemma ShiftModulo(buf: int, v: sextet)
    ensures Shift(buf, v) % 4096 == buf % 64 * 64 + v
  {
    var w, q := Wrap32(buf * 64), buf / 64;
    var k := (buf * 64 - w) / 0x1_0000_0000;
    assert buf * 64 == w + k * 0x1_0000_0000;
    Divide(w + v, 4096, q - 1048576 * k, buf % 64 * 64 + v);
  }

  /** A remainder modulo `m * n` determines the one modulo `m`. */
  lemma CoarserModulo(x: int, m: nat, n: nat, r: nat)
    requires m > 0 && n > 0 && r < m
    requires m * n > 0 && x % (m * n) % m == r
    ensures x % m == r
  {
    var q, low := x / (m * n), x % (m * n);
    assert x == m * n * q + low;
    assert m * n * q == m * (n * q);
    assert low == m * (low / m) + r;
    assert m * (n * q + low / m) == m * (n * q) + m * (low / m);
    Divide(x, m, n * q + low / m, r);
  }

  /** The low bits of the accumulator are right even after the high ones are lost. */
  lemma ShiftKeepsLowBits(buf: int, v: sextet, bits: nat)
    requires bits in {0, 2, 4, 6}
    ensures Shift(buf, v) % Pow2(bits + 6) == buf % Pow2(bits) * 64 + v
  {
    PowersOfTwo();
    ShiftModulo(buf, v);
    var s, low := Shift(buf, v), buf % 64;
    if bits == 0 {
      Divide(low * 64 + v, 64, low, v);
      CoarserModulo(s, 64, 64, v);
    } else if bits == 2 {
      CoarserModulo(buf, 4, 16, low % 4);
      Divide(low * 64 + v, 256, low / 4, low % 4 * 64 + v);
      CoarserModulo(s, 256, 16, low % 4 * 64 + v);
    } else if bits == 4 {
      CoarserModulo(buf, 16, 4, low % 16);
      Divide(low * 64 + v, 1024, low / 16, low % 16 * 64 + v);
      CoarserModulo(s, 1024, 4, low % 16 * 64 + v);
    }
  }

  /** `(buf >> bits) & 0xff` is the byte above the low `bits` bits. */
  lemma ByteOf(buf: int, bits: nat, high: nat, low: nat)
    requires bits in {0, 2, 4} && high < 256 && low < Pow2(bits)
    requires buf % Pow2(bits + 8) == high * Pow2(bits) + low
    ensures buf / Pow2(bits) % 256 == high && buf % Pow2(bits) == low
  {
    PowersOfTwo();
    var q := buf / Pow2(bits + 8);
    if bits == 2 {
      Divide(buf, 4, 256 * q + high, low);
    } else if bits == 4 {
      Divide(buf, 16, 256 * q + high, low);
    }
    Divide(256 * q + high, 256, q, high);
  }

  lemma {:induction false} SextetAt(v: seq<sextet>, i: nat)
    requires i < |v|
    ensures SextetBits(v)[6 * i..6 * i + 6] == ToBits(v[i], 6)
  {
    if i > 0 {
      SextetAt(v[1..], i - 1);
      assert SextetBits(v)[6 * i..6 * i + 6] == SextetBits(v[1..])[6 * (i - 1)..6 * (i - 1) + 6];
    }
  }

  lemma {:induction false} OctetsFrom(bits: seq<bool>, o: nat)
    requires 8 * o <= |bits|
    ensures o <= |Octets(bits)| && Octets(bits)[o..] == Octets(bits[8 * o..])
  {
    if o > 0 {
      OctetsFrom(bits[8..], o - 1);
      assert bits[8..][8 * (o - 1)..] == bits[8 * o..];
      assert Octets(bits)[1..] == Octets(bits[8..]);
    }
  }

  lemma OctetAt(bits: seq<bool>, o: nat)
    requires 8 * o + 8 <= |bits|
    ensures Octets(bits)[o] == OctetValue(bits[8 * o..8 * o + 8])
  {
    OctetsFrom(bits, o);
    assert bits[8 * o..][..8] == bits[8 * o..8 * o + 8];
  }

  /** How far the loop has come: `i` characters read, `o` bytes written, and between
      them the bits that wait in the accumulator. */
  ghost predicate Decoding(input: string, i: nat, o: nat, out: seq<char>, buf: int, bits: nat)
  {
    && i <= |input| && o <= |out| && 6 * i == 8 * o + bits && bits < 8
    && (InAlphabet(input) ==>
        var all := SextetBits(Indices(input));
        && out[..o] == Octets(all)[..o]
        && buf % Pow2(bits) == Value(all[8 * o..6 * i]))
  }

  lemma EvenBits(i: nat, o: nat, bits: nat)
    requires 6 * i == 8 * o + bits && bits < 8
    ensures bits in {0, 2, 4, 6}
  {
    assert bits == 2 * (3 * i - 4 * o);
  }

  lemma AppendSextet(all: seq<bool>, from: nat, to: nat, v: sextet)
    requires from <= to && to + 6 <= |all| && all[to..to + 6] == ToBits(v, 6)
    ensures Value(all[from..to + 6]) == Value(all[from..to]) * 64 + v
  {
    PowersOfTwo();
    ValueToBits(v, 6);
    ValueConcat(all[from..to], ToBits(v, 6));
    assert all[from..to + 6] == all[from..to] + all[to..to + 6];
  }

  lemma PendingGrows(input: string, i: nat, o: nat, out: seq<char>, buf: int, bits: nat)
    requires Decoding(input, i, o, out, buf, bits) && i < |input| && InAlphabet(input)
    ensures var all := SextetBits(Indices(input));
            Shift(buf, CharIndex(input[i])) % Pow2(bits + 6) == Value(all[8 * o..6 * i + 6])
  {
    EvenBits(i, o, bits);
    var v := CharIndex(input[i]);
    ShiftKeepsLowBits(buf, v, bits);
    SextetAt(Indices(input), i);
    AppendSextet(SextetBits(Indices(input)), 8 * o, 6 * i, v);
  }

  /** Eight bits have come together: the byte the code writes is the next octet. */
  lemma ByteIsNextOctet(all: seq<bool>, o: nat, end: nat, buf: int, bits: nat)
    requires bits in {0, 2, 4} && end == 8 * o + 8 + bits <= |all|
    requires buf % Pow2(bits + 8) == Value(all[8 * o..end])
    ensures o < |Octets(all)|
    ensures buf / Pow2(bits) % 256 == Octets(all)[o] as int
    ensures buf % Pow2(bits) == Value(all[8 * o + 8..end])
  {
    var octet, rest := all[8 * o..8 * o + 8], all[8 * o + 8..end];
    assert all[8 * o..end] == octet + rest;
    ValueConcat(octet, rest);
    ValueBound(rest);
    OctetAt(all, o);
    ByteOf(buf, bits, Octets(all)[o] as int, Value(rest));
  }

  /** A character that completes no byte leaves more bits waiting. */
  lemma StepWithoutByte(input: string, i: nat, o: nat, out: seq<char>, buf: int, bits: nat)
    requires Decoding(input, i, o, out, buf, bits) && i < |input| && CharIndex(input[i]) >= 0
    requires bits + 6 < 8
    ensures Decoding(input, i + 1, o, out, Shift(buf, CharIndex(input[i])), bits + 6)
  {
    if InAlphabet(input) {
      PendingGrows(input, i, o, out, buf, bits);
    }
  }

  /** A character that completes a byte: what the code computes is the next octet. */
  lemma StepWithByte(input: string, i: nat, o: nat, out: seq<char>, buf: int, bits: nat)
    requires Decoding(input, i, o, out, buf, bits) && i < |input| && CharIndex(input[i]) >= 0
    requires bits + 6 >= 8
    ensures var buf' := Shift(buf, CharIndex(input[i]));
            var b := (buf' / Pow2(bits - 2) % 256) as char;
            && (InAlphabet(input) ==> o < |Octets(SextetBits(Indices(input)))|)
            && Decoding(input, i + 1, o + 1, out[..o] + [b], buf', bits - 2)
  {
    EvenBits(i, o, bits);
    if InAlphabet(input) {
      var all := SextetBits(Indices(input));
      hide Octets, SextetBits;
      PendingGrows(input, i, o, out, buf, bits);
      ByteIsNextOctet(all, o, 6 * i + 6, Shift(buf, CharIndex(input[i])), bits - 2);
      assert Octets(all)[..o + 1] == Octets(all)[..o] + [Octets(all)[o]];
    }
  }

  lemma Start(input: string)
    ensures Decoding(input, 0, 0, [], 0, 0)
  {
  }

  lemma Finish(input: string, o: nat, out: seq<char>, buf: int, bits: nat)
    requires Decoding(input, |input|, o, out, buf, bits) && InAlphabet(input) && |out| == o
    ensures Decode(input) == Some(out)
  {
    var octets := Octets(SextetBits(Indices(input)));
    Divide(6 * |input|, 8, o, bits);
    assert octets[..o] == octets && out[..o] == out;
  }

  lemma ManyOctets(input: string, o: nat)
    ensures !InAlphabet(input) ==> Decode(input).None?
    ensures InAlphabet(input) && o < |Octets(SextetBits(Indices(input)))| ==> |Decode(input).value| > o
  {
  }

  /** `b64url_decode`: all of the text decodes into the buffer, or the answer is -1. */
  method DecodeInto(input: string, out: array<char>, outCap: nat) returns (r: int)
    requires outCap <= out.Length
    modifies out
    ensures var d := Decode(input);
            if d.Some? && |d.value| <= outCap
            then r == ToInt(|d.value|) && out[..|d.value|] == d.value
            else r == -1
    ensures forall k :: outCap <= k < out.Length ==> out[k] == old(out[k])
  {
    hide ToInt, Decode, Decoding, Shift, Pow2;
    Start(input);
    var o: nat, buf, bits: nat := 0, 0, 0;
    for i := 0 to |input|
      invariant InAlphabet(input[..i]) && o <= outCap
      invariant Decoding(input, i, o, out[..o], buf, bits)
      invariant forall k :: outCap <= k < out.Length ==> out[k] == old(out[k])
    {
      var v := CharIndex(input[i]);
      ManyOctets(input, o);
      if v < 0 {
        return -1;
      }
      ghost var done, buf0, bits0 := out[..o], buf, bits;
      assert done[..o] == done;
      buf := Shift(buf, v);
      bits := bits + 6;
      if bits >= 8 {
        StepWithByte(input, i, o, done, buf0, bits0);
        bits := bits - 8;
        if o >= outCap {
          return -1;
        }
        out[o] := (buf / Pow2(bits) % 256) as char;
        o := o + 1;
        assert out[..o] == done + [out[o - 1]];
      } else {
        StepWithoutByte(input, i, o, done, buf0, bits0);
      }
    }
    assert input[..|input|] == input;
    Finish(input, o, out[..o], buf, bits);
    r := ToInt(o);
  }
}
