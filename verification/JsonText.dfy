/** JSON string escaping (section 7 of RFC 8259): the escaper's output as a function, the
    reader of a string body, and the bounded-buffer escaper of the C service. */
module JsonText {
  import opened CStrings
  import opened Sequences

  function HexDigit(d: nat): (c: char)
    requires d < 16
    ensures HexValue(c) == Some(d)
  {
    if d < 10 then ('0' as int + d) as char else ('a' as int + d - 10) as char
  }

  function HexValue(c: char): Option<nat> {
    if '0' <= c <= '9' then Some(c as int - '0' as int)
    else if 'a' <= c <= 'f' then Some(c as int - 'a' as int + 10)
    else if 'A' <= c <= 'F' then Some(c as int - 'A' as int + 10)
    else None
  }

  /** What one byte becomes. */
  function EscapeChar(c: char): (e: string)
    ensures 1 <= |e| <= 6
  {
    if c == '"' then "\\\""
    else if c == '\\' then "\\\\"
    else if c as int == 8 then "\\b"
    else if c as int == 12 then "\\f"
    else if c == '\n' then "\\n"
    else if c == '\r' then "\\r"
    else if c == '\t' then "\\t"
    else if c as int < 0x20 then "\\u00" + [HexDigit(c as int / 16), HexDigit(c as int % 16)]
    else [c]
  }

  function Escape(s: string): (e: string)
    ensures |s| <= |e| <= 6 * |s|
  {
    if s == [] then [] else EscapeChar(s[0]) + Escape(s[1..])
  }

  // ---------- Reading a string body ----------

  /** One unit of a string body: a plain character or an escape sequence, and the rest.
      A `\u` escape denotes a byte, so only code points below 0x80 are taken. */
  function ReadUnit(t: string): (r: Option<(char, string)>)
    requires t != []
    ensures r.Some? ==> |r.value.1| < |t|
  {
    if t[0] == '"' || t[0] as int < 0x20 then None
    else if t[0] != '\\' then Some((t[0], t[1..]))
    else if |t| < 2 then None
    else if t[1] == '"' || t[1] == '\\' || t[1] == '/' then Some((t[1], t[2..]))
    else if t[1] == 'b' then Some((8 as char, t[2..]))
    else if t[1] == 'f' then Some((12 as char, t[2..]))
    else if t[1] == 'n' then Some(('\n', t[2..]))
    else if t[1] == 'r' then Some(('\r', t[2..]))
    else if t[1] == 't' then Some(('\t', t[2..]))
    else if t[1] == 'u' && |t| >= 6 then
      match (HexValue(t[2]), HexValue(t[3]), HexValue(t[4]), HexValue(t[5]))
      case (Some(a), Some(b), Some(c), Some(d)) =>
        var code := ((a * 16 + b) * 16 + c) * 16 + d;
        if code < 0x80 then Some((code as char, t[6..])) else None
      case _ => None
    else None
  }

  /** A string body up to its closing quote: the characters, and what follows the quote. */
  function ReadBody(t: string): (r: Option<(string, string)>)
    ensures r.Some? ==> |r.value.1| < |t|
    decreases |t|
  {
    if t == [] then None
    else if t[0] == '"' then Some(([], t[1..]))
    else
      match ReadUnit(t)
      case None => None
      case Some((c, rest)) =>
        match ReadBody(rest)
        case None => None
        case Some((s, after)) => Some(([c] + s, after))
  }

  lemma ReadUnitOfEscape(c: char, rest: string)
    ensures EscapeChar(c)[0] != '"'
    ensures ReadUnit(EscapeChar(c) + rest) == Some((c, rest))
  {
    var t := EscapeChar(c) + rest;
    if |EscapeChar(c)| == 6 {
      assert t[..6] == EscapeChar(c);
      assert HexDigit(0) == '0';
      assert t[6..] == rest;
    } else {
      assert t[|EscapeChar(c)|..] == rest;
    }
  }

  /** Reading an escaped text gives the text back, for every byte string. */
  lemma {:induction false} ReadBodyOfEscape(s: string, rest: string)
    ensures ReadBody(Escape(s) + ("\"" + rest)) == Some((s, rest))
  {
    if s == [] {
      assert Escape(s) + ("\"" + rest) == "\"" + rest;
    } else {
      var tail := Escape(s[1..]) + ("\"" + rest);
      ReadBodyOfEscape(s[1..], rest);
      ReadUnitOfEscape(s[0], tail);
      Regroup(EscapeChar(s[0]), Escape(s[1..]), "\"" + rest);
      hide EscapeChar, ReadUnit;
      assert Escape(s) + ("\"" + rest) == EscapeChar(s[0]) + tail;
      assert s == [s[0]] + s[1..];
    }
  }

  /** Escaping is injective. */
  lemma EscapeInjective(s: string, t: string)
    requires Escape(s) == Escape(t)
    ensures s == t
  {
    ReadBodyOfEscape(s, []);
    ReadBodyOfEscape(t, []);
  }

  /** No shorter text reads as the same character. */
  lemma EscapeIsShortest(c: char, u: string)
    requires u != [] && ReadUnit(u) == Some((c, []))
    ensures |EscapeChar(c)| <= |u|
  {
  }

  // ---------- What the output cannot contain ----------

  predicate NoControl(s: string) {
    forall i :: 0 <= i < |s| ==> s[i] as int >= 0x20
  }

  /** No quote of the text could end a JSON string: each stands behind the backslash of
      an escape sequence. */
  predicate NoBareQuote(t: string) {
    if t == [] then true
    else if t[0] == '\\' then |t| >= 2 && NoBareQuote(t[2..])
    else t[0] != '"' && NoBareQuote(t[1..])
  }

  lemma {:induction false} PlainPrefix(a: string, t: string)
    requires NoBareQuote(t) && NoQuoteOrBackslash(a)
    ensures NoBareQuote(a + t)
  {
    if a == [] {
      assert a + t == t;
    } else {
      PlainPrefix(a[1..], t);
      assert (a + t)[1..] == a[1..] + t;
    }
  }

  predicate NoQuoteOrBackslash(a: string) {
    forall i :: 0 <= i < |a| ==> a[i] != '"' && a[i] != '\\'
  }

  lemma EscapeCharIsClean(c: char)
    ensures var e := EscapeChar(c);
            && NoControl(e)
            && if |e| == 1 then NoQuoteOrBackslash(e) else e[0] == '\\' && NoQuoteOrBackslash(e[2..])
  {
  }

  lemma CleanConcat(e: string, tail: string)
    requires e != [] && NoControl(e) && NoControl(tail) && NoBareQuote(tail)
    requires if |e| == 1 then NoQuoteOrBackslash(e) else e[0] == '\\' && NoQuoteOrBackslash(e[2..])
    ensures NoControl(e + tail) && NoBareQuote(e + tail)
  {
    hide NoQuoteOrBackslash;
    if |e| == 1 {
      PlainPrefix(e, tail);
    } else {
      PlainPrefix(e[2..], tail);
      assert (e + tail)[2..] == e[2..] + tail;
    }
  }

  /** The output holds no control byte, hence no NUL, and no quote that ends a string. */
  lemma {:induction false} EscapeIsClean(s: string)
    ensures NoControl(Escape(s)) && '\0' !in Escape(s) && NoBareQuote(Escape(s))
  {
    hide EscapeChar;
    if s != [] {
      var e, tail := EscapeChar(s[0]), Escape(s[1..]);
      EscapeIsClean(s[1..]);
      EscapeCharIsClean(s[0]);
      CleanConcat(e, tail);
    }
  }

  /** Texts that escaping leaves alone. */
  predicate Plain(s: string) {
    forall i :: 0 <= i < |s| ==> s[i] != '"' && s[i] != '\\' && s[i] as int >= 0x20
  }

  lemma {:induction false} PlainIsUnchanged(s: string)
    ensures Plain(s) <==> Escape(s) == s
    ensures Plain(s) <==> |Escape(s)| == |s|
  {
    if s != [] {
      PlainIsUnchanged(s[1..]);
      assert s == [s[0]] + s[1..];
    }
  }

  // ---------- The escaper of the C service ----------

  lemma {:induction false} EscapeSnoc(s: string, c: char)
    ensures Escape(s + [c]) == Escape(s) + EscapeChar(c)
  {
    hide EscapeChar;
    if s == [] {
      assert s + [c] == [c];
      assert Escape([c]) == EscapeChar(c) + Escape([]);
    } else {
      EscapeSnoc(s[1..], c);
      Regroup(EscapeChar(s[0]), Escape(s[1..]), EscapeChar(c));
      assert (s + [c])[1..] == s[1..] + [c];
    }
  }

  lemma {:induction false} EscapePrefix(s: string, i: nat)
    requires i <= |s|
    ensures |Escape(s[..i])| <= |Escape(s)|
    decreases |s| - i
  {
    hide EscapeChar;
    if i == |s| {
      assert s[..i] == s;
    } else {
      EscapeSnoc(s[..i], s[i]);
      assert s[..i + 1] == s[..i] + [s[i]];
      EscapePrefix(s, i + 1);
    }
  }

  lemma EscapeStep(s: string, i: nat)
    requires i < |s|
    ensures Escape(s[..i + 1]) == Escape(s[..i]) + EscapeChar(s[i])
    ensures |Escape(s[..i + 1])| <= |Escape(s)|
  {
    hide EscapeChar, Escape;
    EscapeSnoc(s[..i], s[i]);
    assert s[..i + 1] == s[..i] + [s[i]];
    EscapePrefix(s, i + 1);
  }

  /** `json_escape`, writing at `out + at`: succeeds exactly when the escaped text and its
      NUL fit in `outCap` bytes. */
  method EscapeInto(input: string, out: array<char>, at: nat, outCap: nat) returns (r: int)
    requires at + outCap <= out.Length
    modifies out
    ensures r == if |Escape(input)| < outCap then ToInt(|Escape(input)|) else -1
    ensures |Escape(input)| < outCap ==>
              var end := at + |Escape(input)|;
              out[..end] == old(out[..at]) + Escape(input) && out[end] == '\0'
    ensures out[..at] == old(out[..at])
    ensures forall k :: at + outCap <= k < out.Length ==> out[k] == old(out[k])
  {
    hide EscapeChar, Escape, ToInt;
    if outCap == 0 {
      return -1;
    }
    ghost var before := out[..at];
    var w: nat := 0;
    assert Escape([]) == [];
    for i := 0 to |input|
      invariant w == |Escape(input[..i])| < outCap
      invariant out[..at + w] == before + Escape(input[..i])
      invariant forall k :: at + outCap <= k < out.Length ==> out[k] == old(out[k])
    {
      var esc := EscapeChar(input[i]);
      EscapeStep(input, i);
      if w + |esc| >= outCap {
        assert out[..at] == out[..at + w][..at];
        return -1;
      }
      CopyInto(out, at + w, esc);
      w := w + |esc|;
    }
    assert input[..|input|] == input;
    out[at + w] := '\0';
    assert out[..at] == out[..at + w][..at];
    return ToInt(w);
  }
}
