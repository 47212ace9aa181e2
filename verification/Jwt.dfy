/** Compact HS256 tokens (sections 5.2 and 7.1 of RFC 7515) with an `exp` claim
    (section 4.1.4 of RFC 7519). HMAC-SHA256 is any function with 32-byte results. */
module Jwt {
  import opened CStrings
  import opened Decimal
  import opened Base64Url
  import Base64UrlEncoder
  import Base64UrlDecoder

  type Digest = d: Text | |d| == 32 witness seq(32, _ => 'D')

  type Mac = (string, string) -> Digest

  const HEADER: string := "eyJhbGciOiJIUzI1NiIs" + "InR5cCI6IkpXVCJ9"

  /** The JSON header that the fixed first part of every token stands for. */
  const HEADER_JSON: string := "{\"alg\":\"HS256\"," + "\"typ\":\"JWT\"}"

  /** Three bytes and the four characters that stand for the same 24 bits. */
  predicate SameBits(x: Text, y: string) {
    && |x| == 3 && |y| == 4 && InAlphabet(y)
    && Base64UrlEncoder.GroupNumber(x[0], x[1], x[2])
       == CharIndex(y[0]) * 262144 + CharIndex(y[1]) * 4096 + CharIndex(y[2]) * 64 + CharIndex(y[3])
  }

  lemma EncodesTo(x: Text, y: string, rest: Text)
    requires SameBits(x, y)
    ensures Encode(x + rest) == y + Encode(rest)
  {
    hide Encode;
    assert x == [x[0], x[1], x[2]];
    Base64UrlEncoder.EncodeGroup(x[0], x[1], x[2], rest);
    Base64UrlEncoder.Base64Digits(CharIndex(y[0]), CharIndex(y[1]), CharIndex(y[2]), CharIndex(y[3]),
                                  Base64UrlEncoder.GroupNumber(x[0], x[1], x[2]));
    forall k | 0 <= k < 4
      ensures IndexChar(CharIndex(y[k])) == y[k]
    {
      IndexCharOfCharIndex(y[k]);
    }
  }

  lemma FirstThird(rest: Text)
    ensures Encode("{\"a" + ("lg\"" + (":\"H" + rest))) == "eyJh" + ("bGci" + ("OiJI" + Encode(rest)))
  {
    hide Encode;
    EncodesTo(":\"H", "OiJI", rest);
    EncodesTo("lg\"", "bGci", ":\"H" + rest);
    EncodesTo("{\"a", "eyJh", "lg\"" + (":\"H" + rest));
  }

  lemma SecondThird(rest: Text)
    ensures Encode("S25" + ("6\"," + ("\"ty" + rest))) == "UzI1" + ("NiIs" + ("InR5" + Encode(rest)))
  {
    hide Encode;
    EncodesTo("\"ty", "InR5", rest);
    EncodesTo("6\",", "NiIs", "\"ty" + rest);
    EncodesTo("S25", "UzI1", "6\"," + ("\"ty" + rest));
  }

  lemma LastThird(rest: Text)
    ensures Encode("p\":" + ("\"JW" + ("T\"}" + rest))) == "cCI6" + ("IkpX" + ("VCJ9" + Encode(rest)))
  {
    hide Encode;
    EncodesTo("T\"}", "VCJ9", rest);
    EncodesTo("\"JW", "IkpX", "T\"}" + rest);
    EncodesTo("p\":", "cCI6", "\"JW" + ("T\"}" + rest));
  }

  /** The precomputed header is the encoding of that JSON text. */
  lemma HeaderIsEncoded()
    ensures IsText(HEADER_JSON) && Encode(HEADER_JSON) == HEADER
  {
    assert Encode("") == "";
    hide Encode;
    var last: Text := "p\":" + ("\"JW" + ("T\"}" + ""));
    var second: Text := "S25" + ("6\"," + ("\"ty" + last));
    FirstThird(second);
    SecondThird(last);
    LastThird("");
    HeaderTexts(last, second);
  }

  lemma HeaderTexts(last: string, second: string)
    requires last == "p\":" + ("\"JW" + ("T\"}" + ""))
    requires second == "S25" + ("6\"," + ("\"ty" + last))
    ensures "{\"a" + ("lg\"" + (":\"H" + second)) == HEADER_JSON
    ensures "eyJh" + ("bGci" + ("OiJI" + ("UzI1" + ("NiIs" + ("InR5" + ("cCI6" + ("IkpX" + ("VCJ9" + "")))))))) == HEADER
  {
  }

  function Message(payload: Text): string {
    HEADER + "." + Encode(payload)
  }

  function SignedToken(mac: Mac, payload: Text, secret: string): string {
    Message(payload) + "." + Encode(mac(secret, Message(payload)))
  }

  /** The value `strtoll` reads behind the first `"exp"`, or 0 when there is none. */
  function ExpiryOf(payload: string): int {
    match StrStr(payload, "\"exp\"")
    case None => 0
    case Some(key) =>
      match StrChr(key, ':')
      case None => 0
      case Some(colon) => StrToL(colon[1..])
  }

  predicate Expired(payload: string, now: int) {
    ExpiryOf(payload) > 0 && now >= ExpiryOf(payload)
  }

  /** `token` is header.p.signature for this secret, `p` decodes within `cap`, and the
      decoded claims have not expired. */
  predicate Accepted(mac: Mac, token: string, secret: string, now: int, cap: nat, p: string) {
    && token == HEADER + "." + p + "." + Encode(mac(secret, HEADER + "." + p))
    && Decode(p).Some? && |Decode(p).value| < cap
    && !Expired(CString(Decode(p).value), now)
  }

  lemma NoDot(s: string)
    requires InAlphabet(s)
    ensures '.' !in s
  {
  }

  lemma HeaderShape()
    ensures |HEADER| == 36 && InAlphabet(HEADER) && '.' !in HEADER
  {
    assert InAlphabet("eyJhbGciOiJIUzI1NiIs");
    assert InAlphabet("InR5cCI6IkpXVCJ9");
    NoDot(HEADER);
  }

  /** `token` cut at its first two dots. */
  predicate IsCut(token: string, header: string, payload: string, sig: string) {
    token == header + "." + payload + "." + sig && '.' !in header && '.' !in payload
  }

  lemma CutPoints(token: string, header: string, payload: string, sig: string)
    requires IsCut(token, header, payload, sig)
    ensures StrChr(token, '.').Some? && StrChr(token, '.').value[1..] == payload + "." + sig
    ensures StrChr(payload + "." + sig, '.').Some? && StrChr(payload + "." + sig, '.').value[1..] == sig
  {
    assert token == header + "." + (payload + "." + sig);
    StrChrAt(header, '.', payload + "." + sig);
    StrChrAt(payload, '.', sig);
  }

  lemma CutUnique(token: string, h: string, p: string, s: string, h': string, p': string, s': string)
    requires IsCut(token, h, p, s) && IsCut(token, h', p', s')
    ensures h == h' && p == p' && s == s'
  {
    CutPoints(token, h, p, s);
    CutPoints(token, h', p', s');
    assert |p| == |p'| && |h| == |h'|;
    assert p == (p + "." + s)[..|p|] && p' == (p' + "." + s')[..|p|];
    assert h == token[..|h|] && h' == token[..|h|];
  }

  lemma NotCut(token: string)
    requires StrChr(token, '.').None? || StrChr(StrChr(token, '.').value[1..], '.').None?
    ensures forall h, p, s :: !IsCut(token, h, p, s)
  {
    forall h, p, s
      ensures !IsCut(token, h, p, s)
    {
      if IsCut(token, h, p, s) {
        CutPoints(token, h, p, s);
      }
    }
  }

  /** `memchr`, twice. */
  method CutToken(token: string) returns (found: bool, header: string, payload: string, sig: string)
    ensures found ==> IsCut(token, header, payload, sig)
    ensures !found ==> forall h, p, s :: !IsCut(token, h, p, s)
  {
    found, header, payload, sig := false, [], [], [];
    var dot1 := StrChr(token, '.');
    if dot1.None? {
      NotCut(token);
      return;
    }
    var rest := dot1.value[1..];
    var dot2 := StrChr(rest, '.');
    if dot2.None? {
      NotCut(token);
      return;
    }
    StrChrSplits(token, '.');
    StrChrSplits(rest, '.');
    found, header := true, token[..|token| - |dot1.value|];
    payload, sig := rest[..|rest| - |dot2.value|], dot2.value[1..];
    Reassociate(header, payload, sig);
  }

  lemma Reassociate(header: string, payload: string, sig: string)
    ensures header + "." + (payload + "." + sig) == header + "." + payload + "." + sig
  {
  }

  /** What acceptance means once the token is cut. */
  lemma AcceptedIff(mac: Mac, token: string, secret: string, now: int, cap: nat,
                    header: string, p: string, sig: string)
    requires IsCut(token, header, p, sig)
    ensures forall q :: Accepted(mac, token, secret, now, cap, q) ==> q == p
    ensures Accepted(mac, token, secret, now, cap, p) <==>
              && header == HEADER && sig == Encode(mac(secret, HEADER + "." + p))
              && Decode(p).Some? && |Decode(p).value| < cap
              && !Expired(CString(Decode(p).value), now)
  {
    hide Encode, Decode, Expired;
    HeaderShape();
    forall q | Accepted(mac, token, secret, now, cap, q)
      ensures q == p && header == HEADER && sig == Encode(mac(secret, HEADER + "." + q))
    {
      DecodableHasNoDot(q);
      CutUnique(token, header, p, sig, HEADER, q, Encode(mac(secret, HEADER + "." + q)));
    }
  }

  lemma DecodableHasNoDot(p: string)
    requires Decode(p).Some?
    ensures '.' !in p
  {
    NoDot(p);
  }

  /** A token signed here is accepted exactly while it fits and has not expired. */
  lemma SignedTokenAccepted(mac: Mac, payload: Text, secret: string, now: int, cap: nat)
    ensures Accepted(mac, SignedToken(mac, payload, secret), secret, now, cap, Encode(payload))
       <==> |payload| < cap && !Expired(CString(payload), now)
  {
    hide Encode;
    var p := Encode(payload);
    RoundTrip(payload);
    assert Decode(p) == Some(payload);
    assert SignedToken(mac, payload, secret) == HEADER + "." + p + "." + Encode(mac(secret, HEADER + "." + p));
  }

  /** What a signing may be refused: its two buffers, and the HMAC. */
  datatype Means = Means(payloadBuffer: bool, messageBuffer: bool, hmac: bool)

  /** `jwt_sign_hs256`. */
  method Sign(mac: Mac, payload: Text, secret: string, out: array<char>, outCap: nat, means: Means) returns (r: int)
    requires outCap <= out.Length
    modifies out
    ensures var token := SignedToken(mac, payload, secret);
            if means == Means(true, true, true) && |token| < outCap && |token| <= INT_MAX
            then r == |token| && out[..|token|] == token && out[|token|] == '\0'
            else r == -1
    ensures forall k :: outCap <= k < out.Length ==> out[k] == old(out[k])
  {
    EncodeShape(payload);
    HeaderShape();
    hide Encode, CString, ToInt;
    if !means.payloadBuffer {
      return -1;
    }
    var payloadCap := (|payload| + 2) / 3 * 4 + 4;
    var payloadB64 := new char[payloadCap];
    var plen := Base64UrlEncoder.EncodeInto(payload, payloadB64, payloadCap);
    if plen < 0 {
      return -1;
    }
    BufferHoldsText(Encode(payload), payloadB64[..]);
    if !means.messageBuffer {
      return -1;
    }
    var msg := HEADER + "." + CString(payloadB64[..]);
    var msgCap := |HEADER| + 1 + plen + 1;
    var msgLen := PrintedLength(|msg|);
    if msgLen < 0 || msgLen >= msgCap {
      return -1;
    }
    if !means.hmac {
      return -1;
    }
    var sig := mac(secret, msg);
    EncodeShape(sig);
    var sigB64 := new char[64];
    var sigLen := Base64UrlEncoder.EncodeInto(sig, sigB64, 64);
    if sigLen < 0 {
      return -1;
    }
    BufferHoldsText(Encode(sig), sigB64[..]);
    var written := PrintInto(out, outCap, msg + "." + CString(sigB64[..]));
    if written < 0 || written >= outCap {
      return -1;
    }
    return written;
  }

  lemma BufferHoldsText(s: string, buf: string)
    requires InAlphabet(s) && |s| < |buf| && buf[..|s|] == s && buf[|s|] == '\0'
    ensures CString(buf) == s
  {
    assert buf == s + ['\0'] + buf[|s| + 1..];
    CStringOfBuffer(s, buf[|s| + 1..]);
    CStringWhole(s);
  }

  /** `ct_memcmp`: looks at every byte before it answers. */
  method SameBytes(a: string, b: string) returns (same: bool)
    requires |a| == |b|
    ensures same <==> a == b
  {
    same := true;
    for i := 0 to |a|
      invariant same <==> a[..i] == b[..i]
    {
      same := same && a[i] == b[i];
      assert a[..i + 1] == a[..i] + [a[i]] && b[..i + 1] == b[..i] + [b[i]];
    }
    assert a[..|a|] == a && b[..|b|] == b;
  }

  /** When a signed token is acceptable: at every time, when its claims hold no positive
      expiry, and otherwise before it. */
  lemma AcceptedUntilExpiry(mac: Mac, payload: Text, secret: string, now: int, cap: nat)
    requires '\0' !in payload
    ensures Accepted(mac, SignedToken(mac, payload, secret), secret, now, cap, Encode(payload)) <==>
              |payload| < cap && (ExpiryOf(payload) <= 0 || now < ExpiryOf(payload))
    ensures StrStr(payload, "\"exp\"").None? ==> ExpiryOf(payload) == 0
  {
    hide Encode, Accepted, SignedToken, StrStr;
    SignedTokenAccepted(mac, payload, secret, now, cap);
    CStringWhole(payload);
  }

  /** Section 7.1 of RFC 7515: cut at its dots, a signed token is the encoded header, the
      encoded claims, and the encoded HMAC over exactly the text before the last dot. */
  lemma TokenIsCompactJws(mac: Mac, payload: Text, secret: string, h: string, p: string, s: string)
    ensures var token := SignedToken(mac, payload, secret);
            (exists h', p', s' :: IsCut(token, h', p', s'))
            && (IsCut(token, h, p, s) ==>
                  && Decode(h) == Some(HEADER_JSON) && Decode(p) == Some(payload)
                  && Decode(s) == Some(mac(secret, h + "." + p)))
  {
    hide Encode, Decode;
    var token := SignedToken(mac, payload, secret);
    var sig := mac(secret, Message(payload));
    HeaderShape();
    HeaderIsEncoded();
    RoundTrip(HEADER_JSON);
    RoundTrip(payload);
    RoundTrip(sig);
    EncodeShape(payload);
    NoDot(Encode(payload));
    assert IsCut(token, HEADER, Encode(payload), Encode(sig));
    if IsCut(token, h, p, s) {
      CutUnique(token, h, p, s, HEADER, Encode(payload), Encode(sig));
    }
  }

  /** `jwt_verify_hs256`: 0 exactly for an acceptable token, whose claims it writes, when the
      HMAC can be computed. */
  method Verify(mac: Mac, token: string, secret: string, now: int, payloadOut: array<char>, payloadCap: nat,
                hmac: bool)
    returns (r: int)
    requires 0 < payloadCap <= payloadOut.Length && payloadCap <= INT_MAX
    modifies payloadOut
    ensures r == 0 || r == -1
    ensures r == 0 <==> hmac && exists p :: Accepted(mac, token, secret, now, payloadCap, p)
    ensures forall p :: hmac && Accepted(mac, token, secret, now, payloadCap, p) ==>
              CString(payloadOut[..]) == CString(Decode(p).value)
  {
    hide Encode, Decode, Expired;
    if token == [] {
      return -1;
    }
    var found, header, p, sig := CutToken(token);
    forall q | Accepted(mac, token, secret, now, payloadCap, q)
      ensures IsCut(token, HEADER, q, Encode(mac(secret, HEADER + "." + q)))
    {
      HeaderShape();
      DecodableHasNoDot(q);
    }
    if !found {
      return -1;
    }
    AcceptedIff(mac, token, secret, now, payloadCap, header, p, sig);
    if header != HEADER {
      return -1;
    }
    if !hmac {
      return -1;
    }
    var digest := mac(secret, HEADER + "." + p);
    EncodeShape(digest);
    var expected := new char[64];
    var expectedLen := Base64UrlEncoder.EncodeInto(digest, expected, 64);
    if expectedLen < 0 || expectedLen != |sig| {
      return -1;
    }
    var same := SameBytes(expected[..expectedLen], sig);
    if !same {
      return -1;
    }
    var decoded := Base64UrlDecoder.DecodeInto(p, payloadOut, payloadCap - 1);
    if decoded < 0 {
      return -1;
    }
    payloadOut[decoded] := '\0';
    assert payloadOut[..] == Decode(p).value + ['\0'] + payloadOut[decoded + 1..];
    CStringOfBuffer(Decode(p).value, payloadOut[decoded + 1..]);
    if Expired(CString(payloadOut[..]), now) {
      return -1;
    }
    return 0;
  }
}
