/** The scanners that look up the session cookie in a Cookie header (section 4.2.1 of
    RFC 6265): the bounded one of the C service and the unbounded one of the C++ service. */
module Cookie {
  import opened CStrings

  function Lower(c: char): char {
    if 'A' <= c <= 'Z' then (c as int + 32) as char else c
  }

  function LowerAll(s: string): (t: string)
    ensures |t| == |s|
  {
    if s == [] then [] else [Lower(s[0])] + LowerAll(s[1..])
  }

  predicate IsSessionName(name: string) {
    LowerAll(name) == "session"
  }

  function SkipSeparators(h: string): (t: string)
    ensures |t| <= |h|
  {
    if h != [] && (h[0] == ' ' || h[0] == ';') then SkipSeparators(h[1..]) else h
  }

  /** Everything before the first `c`, or all of it. */
  function UpTo(s: string, c: char): (t: string)
    ensures |t| <= |s|
  {
    match StrChr(s, c)
    case None => s
    case Some(r) => s[..|s| - |r|]
  }

  /** The value of the first cookie that the scan takes for the session. */
  function SessionCookie(h: string): Option<string>
    decreases |h|
  {
    var p := SkipSeparators(h);
    match StrChr(p, '=')
    case None => None
    case Some(eq) =>
      var val := eq[1..];
      if IsSessionName(UpTo(p, '=')) then Some(UpTo(val, ';'))
      else
        match StrChr(val, ';')
        case None => None
        case Some(semi) => SessionCookie(semi[1..])
  }

  // ---------- What the scan finds in a well-formed header ----------

  datatype Pair = Pair(name: string, value: string)

  predicate WellFormed(p: Pair) {
    && '=' !in p.name && ';' !in p.name && (p.name != [] ==> p.name[0] != ' ')
    && ';' !in p.value
  }

  function Join(pairs: seq<Pair>): string {
    if pairs == [] then ""
    else if |pairs| == 1 then pairs[0].name + ("=" + pairs[0].value)
    else pairs[0].name + ("=" + (pairs[0].value + ("; " + Join(pairs[1..]))))
  }

  function FirstSession(pairs: seq<Pair>): Option<string> {
    if pairs == [] then None
    else if IsSessionName(pairs[0].name) then Some(pairs[0].value)
    else FirstSession(pairs[1..])
  }

  lemma AtSeparator(a: string, b: string, c: char)
    requires c !in a && (b == [] || b[0] == c)
    ensures StrChr(a + b, c) == (if b == [] then None else Some(b)) && UpTo(a + b, c) == a
  {
    StrChrSkips(a, b, c);
  }

  /** How the scan reads one pair, with whatever follows its value: a piece without `=` is
      taken for the beginning of the next name. */
  lemma ScanPair(p: Pair, tail: string)
    requires '=' !in p.name && (p.name != [] ==> p.name[0] != ' ' && p.name[0] != ';') && ';' !in p.value
    requires tail == [] || tail[0] == ';'
    ensures SessionCookie(p.name + ("=" + (p.value + tail)))
         == if IsSessionName(p.name) then Some(p.value) else SessionCookie(tail)
  {
    hide IsSessionName;
    var rest := p.value + tail;
    AtSeparator(p.name, "=" + rest, '=');
    AtSeparator(p.value, tail, ';');
    assert SkipSeparators(p.name + ("=" + rest)) == p.name + ("=" + rest);
    assert ("=" + rest)[1..] == rest;
    if tail != [] {
      SkipOne(tail);
    }
  }

  lemma SkipOne(h: string)
    requires h != [] && (h[0] == ' ' || h[0] == ';')
    ensures SessionCookie(h) == SessionCookie(h[1..])
  {
    assert SkipSeparators(h) == SkipSeparators(h[1..]);
  }

  /** Blanks and semicolons in front do not matter. */
  lemma {:induction false} PaddingIsSkipped(pad: string, h: string)
    requires forall i :: 0 <= i < |pad| ==> pad[i] == ' ' || pad[i] == ';'
    ensures SessionCookie(pad + h) == SessionCookie(h)
  {
    hide SessionCookie;
    if pad == [] {
      assert pad + h == h;
    } else {
      SkipOne(pad + h);
      assert (pad + h)[1..] == pad[1..] + h;
      PaddingIsSkipped(pad[1..], h);
    }
  }

  /** Without a `=` there is no cookie. */
  lemma {:induction false} NoPairNoSession(h: string)
    requires '=' !in h
    ensures SessionCookie(h) == None
  {
    SeparatorsKeep(h, '=');
    StrChrFinds(SkipSeparators(h), '=');
  }

  lemma {:induction false} SeparatorsKeep(h: string, c: char)
    requires c !in h
    ensures c !in SkipSeparators(h)
  {
    if h != [] {
      SeparatorsKeep(h[1..], c);
    }
  }

  lemma SkipPadding(h: string)
    ensures SessionCookie("; " + h) == SessionCookie(h)
  {
    SkipOne("; " + h);
    SkipOne(" " + h);
    assert ("; " + h)[1..] == " " + h && (" " + h)[1..] == h;
  }

  lemma JoinStep(pairs: seq<Pair>)
    requires pairs != []
    ensures var tail := if |pairs| == 1 then "" else "; " + Join(pairs[1..]);
            Join(pairs) == pairs[0].name + ("=" + (pairs[0].value + tail))
  {
  }

  /** In a header that is a list of pairs, the scan finds the first session cookie. */
  lemma {:induction false} FindsFirstSession(pairs: seq<Pair>)
    requires forall p :: p in pairs ==> WellFormed(p)
    ensures SessionCookie(Join(pairs)) == FirstSession(pairs)
  {
    hide SessionCookie, Join, IsSessionName;
    if pairs == [] {
      EmptyHeader();
    } else {
      var tail := if |pairs| == 1 then "" else "; " + Join(pairs[1..]);
      JoinStep(pairs);
      assert pairs[0] in pairs && (pairs[0].name != [] ==> pairs[0].name[0] in pairs[0].name);
      ScanPair(pairs[0], tail);
      EmptyHeader();
      SkipPadding(Join(pairs[1..]));
      FindsFirstSession(pairs[1..]);
    }
  }

  lemma EmptyHeader()
    ensures Join([]) == "" && SessionCookie("") == None && LowerAll("") == ""
  {
  }

  // ---------- The scanners ----------

  /** `cookie_get_session` of the C service. */
  method GetSession(header: string, tokenOut: array<char>, tokenCap: nat) returns (r: int)
    requires tokenCap <= tokenOut.Length
    modifies tokenOut
    ensures match SessionCookie(header)
            case None => r == -1 && tokenOut[..] == old(tokenOut[..])
            case Some(value) =>
              if |value| < tokenCap
              then r == ToInt(|value|) && tokenOut[..|value|] == value && tokenOut[|value|] == '\0'
              else r == -1 && tokenOut[..] == old(tokenOut[..])
  {
    hide ToInt, StrChr, LowerAll;
    EmptyHeader();
    var p := header;
    while p != []
      invariant SessionCookie(header) == SessionCookie(p)
      invariant tokenOut[..] == old(tokenOut[..])
      decreases |p|
    {
      ghost var size := |p|;
      while p != [] && (p[0] == ' ' || p[0] == ';')
        invariant SessionCookie(header) == SessionCookie(p) && |p| <= size
        invariant tokenOut[..] == old(tokenOut[..])
        decreases |p|
      {
        SkipOne(p);
        p := p[1..];
      }
      if p == [] {
        break;
      }
      assert SkipSeparators(p) == p;
      var eq := StrChr(p, '=');
      if eq.None? {
        return -1;
      }
      var name, val := p[..|p| - |eq.value|], eq.value[1..];
      var semi := StrChr(val, ';');
      var valLen := if semi.Some? then |val| - |semi.value| else |val|;
      if |name| == 7 && LowerAll(name) == "session" {
        if valLen + 1 > tokenCap {
          return -1;
        }
        CopyInto(tokenOut, 0, val[..valLen]);
        tokenOut[valLen] := '\0';
        return ToInt(valLen);
      }
      p := if semi.Some? then semi.value[1..] else [];
    }
    return -1;
  }

  /** `cookie_get_session` of the C++ service: lower-cases the whole name, never runs out
      of room. */
  method GetSessionUnbounded(header: string) returns (r: Option<string>)
    ensures r == SessionCookie(header)
  {
    hide StrChr, LowerAll;
    EmptyHeader();
    var rest := header;
    while rest != []
      invariant SessionCookie(header) == SessionCookie(rest)
      decreases |rest|
    {
      ghost var size := |rest|;
      while rest != [] && (rest[0] == ' ' || rest[0] == ';')
        invariant SessionCookie(header) == SessionCookie(rest) && |rest| <= size
        decreases |rest|
      {
        SkipOne(rest);
        rest := rest[1..];
      }
      if rest == [] {
        break;
      }
      assert SkipSeparators(rest) == rest;
      var eq := StrChr(rest, '=');
      if eq.None? {
        return None;
      }
      var val := eq.value[1..];
      var end := StrChr(val, ';');
      var name := rest[..|rest| - |eq.value|];
      var lower := "";
      for i := 0 to |name|
        invariant lower == LowerAll(name[..i])
      {
        LowerAllSnoc(name[..i], name[i]);
        assert name[..i + 1] == name[..i] + [name[i]];
        lower := lower + [Lower(name[i])];
      }
      assert name[..|name|] == name;
      if lower == "session" {
        return Some(if end.Some? then val[..|val| - |end.value|] else val);
      }
      rest := if end.Some? then end.value[1..] else [];
    }
    return None;
  }

  lemma {:induction false} LowerAllSnoc(s: string, c: char)
    ensures LowerAll(s + [c]) == LowerAll(s) + [Lower(c)]
  {
    if s != [] {
      LowerAllSnoc(s[1..], c);
      assert (s + [c])[1..] == s[1..] + [c];
    }
  }

  // ---------- Ignoring case ----------

  lemma {:induction false} LowerAllAt(s: string, i: nat)
    requires i < |s|
    ensures LowerAll(s)[i] == Lower(s[i])
  {
    if i > 0 {
      LowerAllAt(s[1..], i - 1);
    }
  }

  /** The names that are taken for the session: its seven letters, each in either case. */
  lemma SessionNameIff(name: string)
    ensures IsSessionName(name) <==>
              |name| == 7 && forall i :: 0 <= i < 7 ==> name[i] == "session"[i] || name[i] == "SESSION"[i]
  {
    forall i | 0 <= i < |name|
      ensures LowerAll(name)[i] == Lower(name[i])
    {
      LowerAllAt(name, i);
    }
    if |name| == 7 {
      forall i | 0 <= i < 7
        ensures Lower(name[i]) == "session"[i] <==> name[i] == "session"[i] || name[i] == "SESSION"[i]
      {
        LetterCases(name[i], i);
      }
      hide LowerAll, Lower;
      assert LowerAll(name) == "session" <==> forall i :: 0 <= i < 7 ==> LowerAll(name)[i] == "session"[i];
    }
  }

  lemma LetterCases(c: char, i: nat)
    requires i < 7
    ensures Lower(c) == "session"[i] <==> c == "session"[i] || c == "SESSION"[i]
  {
  }
}
