/** The claims that a login prints, and the `strstr` scanners that pick them out again. */
module Claims {
  import opened CStrings
  import opened Decimal
  import opened Sequences

  const LIFETIME: int := 3600

  function Quote(w: string): string { "\"" + (w + "\"") }

  // ---------- The printed payload, from back to front ----------

  function ExpPart(now: int): string {
    Quote("exp") + (":" + (PrintLong(now + LIFETIME) + "}"))
  }

  function IatPart(now: int): string {
    Quote("iat") + (":" + (PrintLong(now) + ("," + ExpPart(now))))
  }

  function RolesPart(roles: string, now: int): string {
    Quote("roles") + (":" + (roles + ("," + IatPart(now))))
  }

  function EmailPart(email: string, roles: string, now: int): string {
    Quote("email") + (":" + (Quote(email) + ("," + RolesPart(roles, now))))
  }

  /** What `snprintf` prints for the token: `email` is already escaped. */
  function Payload(id: int, email: string, roles: string, now: int): string {
    "{" + (Quote("sub") + (":" + (Quote(PrintLong(id)) + ("," + EmailPart(email, roles, now)))))
  }

  function JoinNames(names: seq<string>): string {
    if names == [] then ""
    else if |names| == 1 then Quote(names[0])
    else Quote(names[0]) + (", " + JoinNames(names[1..]))
  }

  /** A role array as PostgreSQL prints it. */
  function RolesText(names: seq<string>): string {
    "[" + (JoinNames(names) + "]")
  }

  // ---------- The scanners ----------

  function Between(open: string, close: string): (s: string)
    requires open != []
  {
    if 1 + |close| <= |open| then open[1..|open| - |close|] else []
  }

  /** `"sub":"<id>"`: skips three quotes and reads up to the fourth. */
  function SubOf(payload: string): int {
    match StrStr(payload, "\"sub\"")
    case None => 0
    case Some(sub) =>
      match StrChr(sub, '"')
      case None => 0
      case Some(q1) =>
        match StrChr(q1[1..], '"')
        case None => 0
        case Some(q2) =>
          match StrChr(q2[1..], '"')
          case None => 0
          case Some(q3) =>
            match StrChr(q3[1..], '"')
            case None => 0
            case Some(end) =>
              var text := Between(q3, end);
              if |text| < 64 then StrToL(text) else 0
  }

  /** `"email":"..."`: the text between the first two quotes behind the colon. */
  function EmailOf(payload: string): string {
    match StrStr(payload, "\"email\"")
    case None => ""
    case Some(em) =>
      match StrChr(em, ':')
      case None => ""
      case Some(colon) =>
        match StrChr(colon, '"')
        case None => ""
        case Some(open) =>
          match StrChr(open[1..], '"')
          case None => ""
          case Some(end) =>
            var text := Between(open, end);
            if |text| < 256 then text else ""
  }

  /** `"roles":[...]`: the raw slice from the first `[` behind the colon to the next `]`. */
  function RolesOf(payload: string): string {
    match StrStr(payload, "\"roles\"")
    case None => ""
    case Some(rl) =>
      match StrChr(rl, ':')
      case None => ""
      case Some(colon) =>
        match StrChr(colon, '[')
        case None => ""
        case Some(open) =>
          match StrChr(open, ']')
          case None => ""
          case Some(end) =>
            if |open| - |end| + 1 < 256 then open[..|open| - |end| + 1] else ""
  }

  // ---------- How a search passes over quoted words ----------

  /** Quotes stand only behind a backslash: what lies between the quotes of a JSON string. */
  predicate Guarded(w: string) {
    forall i :: 0 <= i < |w| && w[i] == '"' ==> i > 0 && w[i - 1] == '\\'
  }

  /** Claim names, as the scanners search for them. */
  predicate IsKey(q: string) {
    q != [] && forall i :: 0 <= i < |q| ==> 'a' <= q[i] <= 'z'
  }

  /** The printed string `"w"` ends in `"q"`: either the word itself or behind a quote in it. */
  predicate EndsIn(w: string, q: string) {
    |q| <= |w| && w[|w| - |q|..] == q && (|w| == |q| || w[|w| - |q| - 1] == '"')
  }

  lemma {:induction false} StrStrFrom(s: string, pat: string, k: nat)
    requires k <= |s|
    requires forall i :: 0 <= i < k ==> !(pat <= s[i..])
    ensures StrStr(s, pat) == StrStr(s[k..], pat)
  {
    if k > 0 {
      assert s[0..] == s;
      forall i | 0 <= i < k - 1
        ensures !(pat <= s[1..][i..])
      {
        assert s[1..][i..] == s[i + 1..];
      }
      StrStrFrom(s[1..], pat, k - 1);
      assert s[1..][k - 1..] == s[k..];
    } else {
      assert s[0..] == s;
    }
  }

  /** A printed string from position `i` on. */
  lemma TailAt(w: string, rest: string, i: nat)
    requires i <= |w|
    ensures (Quote(w) + rest)[i..] == [if i == 0 then '"' else w[i - 1]] + (w[i..] + ("\"" + rest))
  {
    assert Quote(w) + rest == ("\"" + w)[..i] + [("\"" + w)[i]] + w[i..] + ("\"" + rest);
  }

  lemma NoMatchInside(w: string, q: string, rest: string, i: nat)
    requires Guarded(w) && IsKey(q) && i + |q| < |w|
    ensures !(Quote(q) <= (Quote(w) + rest)[i..])
  {
    TailAt(w, rest, i);
    var n, t := |q|, (Quote(w) + rest)[i..];
    hide Quote;
    assert t[n + 1] == w[i + n] && t[n] == w[i + n - 1];
    assert Quote(q)[n + 1] == '"' && Quote(q)[n] == q[n - 1] by {
      assert Quote(q) == "\"" + (q + "\"");
    }
  }

  lemma NoMatchAcross(w: string, q: string, rest: string, i: nat)
    requires IsKey(q) && i <= |w| < i + |q|
    ensures !(Quote(q) <= (Quote(w) + rest)[i..])
  {
    TailAt(w, rest, i);
    var t := (Quote(w) + rest)[i..];
    hide Quote;
    assert t[|w| - i + 1] == '"';
    assert Quote(q)[|w| - i + 1] == q[|w| - i] by {
      assert Quote(q) == "\"" + (q + "\"");
    }
  }

  lemma NoMatchBehind(w: string, q: string, rest: string)
    requires IsKey(q) && (rest == [] || rest[0] != q[0])
    ensures !(Quote(q) <= (Quote(w) + rest)[|w| + 1..])
  {
    assert (Quote(w) + rest)[|w| + 1..] == "\"" + rest;
    assert Quote(q)[1] == q[0];
  }

  lemma MatchAtEnd(w: string, q: string, rest: string)
    requires IsKey(q) && |q| <= |w|
    ensures Quote(q) <= (Quote(w) + rest)[|w| - |q|..] <==> EndsIn(w, q)
    ensures EndsIn(w, q) ==> (Quote(w) + rest)[|w| - |q|..] == Quote(q) + rest
  {
    var i := |w| - |q|;
    TailAt(w, rest, i);
    var c := if i == 0 then '"' else w[i - 1];
    var t := [c] + (w[i..] + ("\"" + rest));
    assert EndsIn(w, q) <==> c == '"' && w[i..] == q;
    assert t[..|q| + 2] == [c] + (w[i..] + "\"");
    SameBody(c, w[i..], q);
    assert Quote(q) <= t <==> Quote(q) == t[..|q| + 2];
  }

  lemma SameBody(c: char, u: string, q: string)
    requires |u| == |q|
    ensures Quote(q) == [c] + (u + "\"") <==> c == '"' && u == q
  {
    assert Quote(q)[1..|q| + 1] == q && Quote(q)[0] == '"';
    assert ([c] + (u + "\""))[1..|q| + 1] == u && ([c] + (u + "\""))[0] == c;
  }

  /** How a search for a key passes over a printed string. */
  lemma SkipWord(w: string, q: string, rest: string)
    requires Guarded(w) && IsKey(q)
    requires rest == [] || rest[0] != q[0]
    ensures StrStr(Quote(w) + rest, Quote(q))
         == if EndsIn(w, q) then Some(Quote(q) + rest) else StrStr(rest, Quote(q))
  {
    hide Guarded, IsKey, EndsIn, Quote, StrStr;
    var s, k := Quote(w) + rest, if EndsIn(w, q) then |w| - |q| else |w| + 2;
    EndsInFits(w, q);
    forall i | 0 <= i < k
      ensures !(Quote(q) <= s[i..])
    {
      if i + |q| < |w| {
        NoMatchInside(w, q, rest, i);
      } else if i == |w| + 1 {
        NoMatchBehind(w, q, rest);
      } else if i + |q| > |w| {
        NoMatchAcross(w, q, rest, i);
      } else {
        MatchAtEnd(w, q, rest);
      }
    }
    StrStrFrom(s, Quote(q), k);
    assert !EndsIn(w, q) ==> s[k..] == rest;
    if EndsIn(w, q) {
      MatchAtEnd(w, q, rest);
      FindWord(q, rest);
    }
  }

  lemma EndsInFits(w: string, q: string)
    ensures |Quote(w)| == |w| + 2
    ensures EndsIn(w, q) ==> |q| <= |w|
  {
  }

  /** A different word without quotes is passed over. */
  lemma SkipOther(w: string, q: string, rest: string)
    requires '"' !in w && w != q && IsKey(q)
    requires rest == [] || rest[0] != q[0]
    ensures StrStr(Quote(w) + rest, Quote(q)) == StrStr(rest, Quote(q))
  {
    SkipWord(w, q, rest);
  }

  lemma SkipPlain(a: string, q: string, rest: string)
    requires '"' !in a
    ensures StrStr(a + rest, Quote(q)) == StrStr(rest, Quote(q))
  {
    StrStrSkips(a, rest, Quote(q));
  }

  lemma FindWord(q: string, rest: string)
    ensures StrStr(Quote(q) + rest, Quote(q)) == Some(Quote(q) + rest)
  {
  }

  lemma PrintedNumberIsPlain(v: int)
    ensures '"' !in PrintLong(v) && ':' !in PrintLong(v)
    ensures PrintLong(v)[0] == '-' || IsDigit(PrintLong(v)[0])
  {
    var digits := Dec(if v < 0 then -v else v);
    hide Dec;
    assert AllDigits(digits);
  }

  // ---------- What each search finds in a printed payload ----------

  lemma FindSub(id: int, email: string, roles: string, now: int)
    ensures StrStr(Payload(id, email, roles, now), Quote("sub"))
         == Some(Quote("sub") + (":" + (Quote(PrintLong(id)) + ("," + EmailPart(email, roles, now)))))
  {
    hide Quote, EmailPart, StrStr;
    SkipPlain("{", "sub", Quote("sub") + (":" + (Quote(PrintLong(id)) + ("," + EmailPart(email, roles, now)))));
    FindWord("sub", ":" + (Quote(PrintLong(id)) + ("," + EmailPart(email, roles, now))));
  }

  /** A search for a later key passes over the id. */
  lemma PastSub(id: int, email: string, roles: string, now: int, q: string)
    requires IsKey(q) && q != "sub"
    ensures StrStr(Payload(id, email, roles, now), Quote(q))
         == StrStr(EmailPart(email, roles, now), Quote(q))
  {
    PrintedNumberIsPlain(id);
    hide Quote, EmailPart, StrStr, PrintLong;
    var part := EmailPart(email, roles, now);
    var value := Quote(PrintLong(id)) + ("," + part);
    SkipPlain("{", q, Quote("sub") + (":" + value));
    SkipOther("sub", q, ":" + value);
    SkipPlain(":", q, value);
    SkipOther(PrintLong(id), q, "," + part);
    SkipPlain(",", q, part);
  }

  lemma FindEmail(id: int, email: string, roles: string, now: int)
    ensures StrStr(Payload(id, email, roles, now), Quote("email")) == Some(EmailPart(email, roles, now))
  {
    hide Quote, RolesPart, StrStr;
    PastSub(id, email, roles, now, "email");
    FindWord("email", ":" + (Quote(email) + ("," + RolesPart(roles, now))));
  }

  /** A search for a key behind the email stops in it only when its printed string ends
      in that key. */
  lemma PastEmail(id: int, email: string, roles: string, now: int, q: string)
    requires IsKey(q) && q != "sub" && q != "email" && Guarded(email)
    ensures StrStr(Payload(id, email, roles, now), Quote(q))
         == if EndsIn(email, q) then Some(Quote(q) + ("," + RolesPart(roles, now)))
            else StrStr(RolesPart(roles, now), Quote(q))
  {
    hide Quote, RolesPart, StrStr, Payload, Guarded, EndsIn;
    PastSub(id, email, roles, now, q);
    var part := RolesPart(roles, now);
    var value := Quote(email) + ("," + part);
    SkipOther("email", q, ":" + value);
    SkipPlain(":", q, value);
    SkipWord(email, q, "," + part);
    SkipPlain(",", q, part);
  }

  lemma JoinNamesThen(names: seq<string>, rest: string)
    requires |names| > 1
    ensures JoinNames(names) + rest == Quote(names[0]) + (", " + (JoinNames(names[1..]) + rest))
  {
    hide Quote;
    Regroup4(Quote(names[0]), ", ", JoinNames(names[1..]), rest);
  }

  predicate NamesGuarded(names: seq<string>) {
    forall n :: n in names ==> Guarded(n)
  }

  predicate SomeNameEndsIn(names: seq<string>, q: string) {
    exists n :: n in names && EndsIn(n, q)
  }

  /** What stands behind the first role that ends in `q`: the remaining roles, and `rest`. */
  function BehindName(names: seq<string>, q: string, rest: string): string {
    if names == [] then rest
    else if EndsIn(names[0], q) then
      if |names| == 1 then rest else ", " + (JoinNames(names[1..]) + rest)
    else BehindName(names[1..], q, rest)
  }

  lemma {:induction false} PastNames(names: seq<string>, q: string, rest: string)
    requires IsKey(q) && NamesGuarded(names)
    requires rest != [] && rest[0] != q[0]
    ensures StrStr(JoinNames(names) + rest, Quote(q))
         == if SomeNameEndsIn(names, q) then Some(Quote(q) + BehindName(names, q, rest))
            else StrStr(rest, Quote(q))
  {
    hide Quote, StrStr, EndsIn, Guarded;
    if names == [] {
      assert JoinNames(names) + rest == rest;
    } else {
      assert names[0] in names && forall n :: n in names <==> n == names[0] || n in names[1..];
      if |names| == 1 {
        SkipWord(names[0], q, rest);
      } else {
        hide JoinNames;
        var tail := JoinNames(names[1..]) + rest;
        PastNames(names[1..], q, rest);
        JoinNamesThen(names, rest);
        assert (", " + tail)[0] == ',';
        SkipWord(names[0], q, ", " + tail);
        SkipPlain(", ", q, tail);
      }
    }
  }

  /** Where a search for a key behind the roles leads. */
  function AfterRoles(names: seq<string>, q: string, now: int): Option<string> {
    var closing := "]," + IatPart(now);
    if SomeNameEndsIn(names, q) then Some(Quote(q) + BehindName(names, q, closing))
    else StrStr(IatPart(now), Quote(q))
  }

  lemma PastRoles(names: seq<string>, now: int, q: string)
    requires IsKey(q) && q != "roles" && NamesGuarded(names)
    ensures StrStr(RolesPart(RolesText(names), now), Quote(q)) == AfterRoles(names, q, now)
  {
    hide Quote, StrStr, PrintLong, JoinNames, IatPart, SomeNameEndsIn, BehindName;
    var roles, closing := RolesText(names), "]," + IatPart(now);
    SkipOther("roles", q, ":" + (roles + ("," + IatPart(now))));
    assert ":" + (roles + ("," + IatPart(now))) == ":[" + (JoinNames(names) + closing);
    SkipPlain(":[", q, JoinNames(names) + closing);
    PastNames(names, q, closing);
    SkipPlain("],", q, IatPart(now));
  }

  lemma PastIat(now: int)
    ensures StrStr(IatPart(now), Quote("exp")) == Some(ExpPart(now))
  {
    hide Quote, StrStr, PrintLong;
    PrintedNumberIsPlain(now);
    var number := PrintLong(now) + ("," + ExpPart(now));
    SkipOther("iat", "exp", ":" + number);
    SkipPlain(":", "exp", number);
    SkipPlain(PrintLong(now), "exp", "," + ExpPart(now));
    SkipPlain(",", "exp", ExpPart(now));
    FindWord("exp", ":" + (PrintLong(now + LIFETIME) + "}"));
  }

  /** Where the search for `"exp"` leads: into the email, into a role, or to the claim. */
  lemma FindExp(id: int, email: string, names: seq<string>, now: int)
    requires Guarded(email) && NamesGuarded(names)
    ensures StrStr(Payload(id, email, RolesText(names), now), Quote("exp"))
         == if EndsIn(email, "exp") then Some(Quote("exp") + ("," + RolesPart(RolesText(names), now)))
            else if SomeNameEndsIn(names, "exp") then
              Some(Quote("exp") + BehindName(names, "exp", "]," + IatPart(now)))
            else Some(ExpPart(now))
  {
    hide Quote, StrStr, Payload, RolesPart, RolesText, BehindName, SomeNameEndsIn, EndsIn;
    PastEmail(id, email, RolesText(names), now, "exp");
    PastRoles(names, now, "exp");
    PastIat(now);
  }

  // ---------- What the scanners read ----------

  lemma QuotedValue(value: string, rest: string)
    requires '"' !in value
    ensures StrChr(Quote(value) + rest, '"') == Some(Quote(value) + rest)
    ensures (Quote(value) + rest)[1..] == value + ("\"" + rest)
    ensures StrChr(value + ("\"" + rest), '"') == Some("\"" + rest)
    ensures Between(Quote(value) + rest, "\"" + rest) == value
  {
    var tail := "\"" + rest;
    StrChrSkips(value, tail, '"');
    BehindQuote(value, rest);
    hide Quote, StrChr;
    assert (Quote(value) + rest)[1..|value| + 1] == (value + tail)[..|value|] == value;
  }

  lemma BehindQuote(value: string, rest: string)
    ensures Quote(value) + rest == "\"" + (value + ("\"" + rest))
    ensures StrChr(Quote(value) + rest, '"') == Some(Quote(value) + rest)
    ensures (Quote(value) + rest)[1..] == value + ("\"" + rest)
  {
  }

  /** The id is read back whatever the email and the roles are. */
  lemma SubRead(id: int, email: string, roles: string, now: int)
    requires LONG_MIN <= id <= LONG_MAX
    ensures SubOf(Payload(id, email, roles, now)) == id
  {
    hide Payload, StrStr, PrintLong, StrToL, Between, EmailPart;
    FindSub(id, email, roles, now);
    PrintedNumberIsPlain(id);
    LongLength(id);
    var rest := "," + EmailPart(email, roles, now);
    var value := Quote(PrintLong(id)) + rest;
    assert Quote("sub") == "\"sub\"";
    QuotedValue("sub", ":" + value);
    assert ("\"" + (":" + value))[1..] == ":" + value;
    StrChrSkips(":", value, '"');
    QuotedValue(PrintLong(id), rest);
    StrToLPrintLong(id, "");
    assert PrintLong(id) + "" == PrintLong(id);
  }

  /** What is read for the email: its printed text up to the first quote. */
  lemma EmailIsUpToQuote(id: int, w: string, more: string, roles: string, now: int, email: string)
    requires email == w || email == w + ("\"" + more)
    requires '"' !in w
    ensures EmailOf(Payload(id, email, roles, now)) == if |w| < 256 then w else ""
  {
    hide Payload, StrStr, Between, RolesPart;
    FindEmail(id, email, roles, now);
    var rest := "," + RolesPart(roles, now);
    var value := Quote(email) + rest;
    assert Quote("email") == "\"email\"";
    StrChrSkips(Quote("email"), ":" + value, ':');
    StrChrSkips(":", value, '"');
    var behind := if email == w then rest else more + ("\"" + rest);
    assert value == Quote(w) + behind;
    QuotedValue(w, behind);
  }

  /** The slice from the array's `[` to its first `]`, even when the email ends in the
      word `roles`: the colon behind that is the one behind the key. */
  lemma RolesAreUpToBracket(id: int, email: string, init: string, more: string, now: int)
    requires Guarded(email)
    requires init != [] && init[0] == '[' && ']' !in init
    ensures RolesOf(Payload(id, email, init + ("]" + more), now)) == if |init| + 1 < 256 then init + "]" else ""
  {
    hide Payload, StrStr, PrintLong, IatPart, EndsIn;
    var roles := init + ("]" + more);
    PastEmail(id, email, roles, now, "roles");
    var rest := "," + IatPart(now);
    var value := roles + rest;
    var part := RolesPart(roles, now);
    assert Quote("roles") == "\"roles\"";
    FindWord("roles", ":" + value);
    StrChrSkips(Quote("roles"), ":" + value, ':');
    if EndsIn(email, "roles") {
      StrChrSkips(Quote("roles") + ",", part, ':');
      assert Quote("roles") + ("," + part) == Quote("roles") + "," + part;
    }
    StrChrSkips(":", value, '[');
    StrChrSkips(init, "]" + (more + rest), ']');
    assert value == init + ("]" + (more + rest));
    assert value[0] == '[';
    assert value[..|init| + 1] == init + "]";
  }

  /** Claims without a key have nothing to read: such a payload is nobody's. */
  lemma NothingWithoutKey(payload: string)
    ensures StrStr(payload, Quote("sub")).None? ==> SubOf(payload) == 0
    ensures StrStr(payload, Quote("email")).None? ==> EmailOf(payload) == ""
    ensures StrStr(payload, Quote("roles")).None? ==> RolesOf(payload) == ""
  {
    assert Quote("sub") == "\"sub\"" && Quote("email") == "\"email\"" && Quote("roles") == "\"roles\"";
  }
}
