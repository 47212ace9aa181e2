/** The role gate as a request meets it: the roles are granted in the database, printed as a
    JSON array, signed, cut out of the claims again, and scanned. */
module RoleGate {
  import opened CStrings
  import opened Claims
  import opened Session
  import opened Roles
  import SessionRoundTrip
  import JsonText

  function Escaped(granted: seq<string>): (names: seq<string>)
    ensures |names| == |granted| && forall i :: 0 <= i < |granted| ==> names[i] == JsonText.Escape(granted[i])
  {
    seq(|granted|, i requires 0 <= i < |granted| => JsonText.Escape(granted[i]))
  }

  /** The database holds these roles for the user. */
  predicate Grants(user: User, granted: seq<string>) {
    RolesOrEmpty(user) == RolesText(Escaped(granted))
  }

  /** A user without a role array is a user without roles. */
  lemma NoArrayNoRoles(user: User)
    requires user.roles == ""
    ensures Grants(user, [])
  {
    assert Escaped([]) == [];
  }

  /** What the gate is called with, after a login at `now`. */
  function RolesAtGate(user: User, now: int): string {
    IdentityIn(ClaimsOf(user, now)).roles
  }

  predicate Opens(user: User, now: int, wanted: seq<string>) {
    AnyWanted(QuotedWords(RolesAtGate(user, now)), wanted)
  }

  /** The gate opens exactly for the holders of a wanted role, whichever are wanted. */
  ghost predicate IsExact(user: User, granted: seq<string>, now: int) {
    forall wanted :: Opens(user, now, wanted) <==> AnyWanted(granted, wanted)
  }

  predicate PlainRole(r: string) { JsonText.Plain(r) && ']' !in r }

  // ---------- Roles and their printed form ----------

  lemma {:induction false} EscapeKeepsBrackets(s: string)
    ensures ']' in JsonText.Escape(s) <==> ']' in s
  {
    if s != [] {
      EscapeKeepsBrackets(s[1..]);
      assert ']' in JsonText.EscapeChar(s[0]) <==> s[0] == ']';
      hide JsonText.EscapeChar;
      assert s == [s[0]] + s[1..];
    }
  }

  /** An escape sequence needs escaping itself. */
  lemma {:induction false} EscapedStaysEscaped(s: string)
    requires JsonText.Plain(JsonText.Escape(s))
    ensures JsonText.Plain(s)
  {
    if s != [] {
      var e, tail := JsonText.EscapeChar(s[0]), JsonText.Escape(s[1..]);
      assert JsonText.Escape(s) == e + tail;
      assert (e + tail)[0] == e[0] && (e + tail)[|e|..] == tail;
      assert e == [s[0]] by {
        assert e[0] == '\\' || e == [s[0]];
      }
      EscapedStaysEscaped(s[1..]);
    }
  }

  lemma {:induction false} LengthBound(granted: seq<string>) returns (bound: nat)
    ensures forall r :: r in granted ==> |r| <= bound
  {
    bound := 0;
    if granted != [] {
      var rest := LengthBound(granted[1..]);
      bound := if rest > |granted[0]| then rest else |granted[0]|;
      assert forall r :: r in granted ==> r == granted[0] || r in granted[1..];
    }
  }

  /** No finite set of roles is closed under escaping, unless it changes none of them. */
  lemma {:induction false} ClosedUnderEscape(granted: seq<string>, bound: nat, r: string)
    requires forall s :: s in granted ==> |s| <= bound && JsonText.Escape(s) in granted
    requires r in granted
    ensures JsonText.Plain(r)
    decreases bound - |r|
  {
    hide JsonText.Escape;
    JsonText.PlainIsUnchanged(r);
    if !JsonText.Plain(r) {
      ClosedUnderEscape(granted, bound, JsonText.Escape(r));
      EscapedStaysEscaped(r);
    }
  }

  lemma PrintedRoles(granted: seq<string>)
    ensures (forall n :: n in Escaped(granted) ==> ']' !in n) <==> (forall r :: r in granted ==> ']' !in r)
    ensures (forall n :: n in Escaped(granted) ==> '"' !in n) <==> (forall r :: r in granted ==> '"' !in r)
    ensures forall r :: r in granted ==> JsonText.Escape(r) in Escaped(granted)
    ensures NamesGuarded(Escaped(granted))
  {
    hide JsonText.Escape;
    var names := Escaped(granted);
    forall i | 0 <= i < |granted|
      ensures ']' in names[i] <==> ']' in granted[i]
      ensures '"' in names[i] <==> '"' in granted[i]
      ensures Guarded(names[i])
    {
      EscapeKeepsBrackets(granted[i]);
      SessionRoundTrip.EscapeIsGuarded(granted[i]);
    }
    forall r | r in granted
      ensures JsonText.Escape(r) in names
      ensures exists i :: 0 <= i < |granted| && granted[i] == r && names[i] in names
    {
      var i :| 0 <= i < |granted| && granted[i] == r;
      assert names[i] in names;
    }
    forall n | n in names
      ensures exists i :: 0 <= i < |granted| && names[i] == n && granted[i] in granted
    {
      var i :| 0 <= i < |granted| && names[i] == n;
      assert granted[i] in granted;
    }
  }

  lemma PlainRolesPrintAsThemselves(granted: seq<string>)
    requires forall r :: r in granted ==> JsonText.Plain(r)
    ensures Escaped(granted) == granted
  {
    hide JsonText.Escape;
    forall i | 0 <= i < |granted|
      ensures JsonText.Escape(granted[i]) == granted[i]
    {
      assert granted[i] in granted;
      JsonText.PlainIsUnchanged(granted[i]);
    }
  }

  // ---------- What reaches the gate ----------

  lemma SliceAtGate(user: User, now: int, init: string, more: string)
    requires RolesOrEmpty(user) == init + ("]" + more) && init != [] && init[0] == '[' && ']' !in init
    ensures RolesAtGate(user, now) == if |init| + 1 < 256 then init + "]" else ""
  {
    hide JsonText.Escape, Payload, RolesOf, Guarded;
    SessionRoundTrip.EscapeIsGuarded(user.email);
    RolesAreUpToBracket(user.id, JsonText.Escape(user.email), init, more, now);
  }

  lemma BracketIn(names: seq<string>)
    ensures ']' in JoinNames(names) <==> !(forall n :: n in names ==> ']' !in n)
  {
    SessionRoundTrip.JoinNamesHolds(names, ']');
  }

  /** The slice up to the first bracket, or nothing. */
  lemma RolesAtGateAre(user: User, granted: seq<string>, now: int)
    requires Grants(user, granted)
    ensures var roles, seen := RolesText(Escaped(granted)), RolesAtGate(user, now);
            && (seen == roles <==> (forall n :: n in Escaped(granted) ==> ']' !in n) && |roles| < 256)
            && (|roles| >= 256 && (forall n :: n in Escaped(granted) ==> ']' !in n) ==> seen == "")
            && (seen == "" || ']' !in seen[..|seen| - 1])
  {
    hide JoinNames, RolesAtGate, Escaped;
    var body := JoinNames(Escaped(granted));
    BracketIn(Escaped(granted));
    if ']' in body {
      var before, behind := FirstBracket(body);
      Bracketed(before, behind);
      SliceAtGate(user, now, "[" + before, behind + "]");
      WithoutLast("[" + before);
    } else {
      assert "[" + (body + "]") == ("[" + body) + ("]" + "");
      SliceAtGate(user, now, "[" + body, "");
      WithoutLast("[" + body);
    }
  }

  lemma Bracketed(before: string, behind: string)
    ensures "[" + ((before + ("]" + behind)) + "]") == ("[" + before) + ("]" + (behind + "]"))
    ensures |"[" + ((before + ("]" + behind)) + "]")| > |("[" + before) + "]"|
  {
  }

  lemma FirstBracket(body: string) returns (before: string, behind: string)
    requires ']' in body
    ensures body == before + ("]" + behind) && ']' !in before
  {
    StrChrFinds(body, ']');
    StrChrSplits(body, ']');
    var r := StrChr(body, ']').value;
    before, behind := body[..|body| - |r|], r[1..];
  }

  lemma WithoutLast(init: string)
    ensures (init + "]")[..|init + "]"| - 1] == init
  {
  }

  /** The gate opens exactly for the holders of a wanted role if and only if every granted
      role needs no escaping and holds no `]`, and their printed array has less than 256
      bytes. */
  lemma GateIsExactIff(user: User, granted: seq<string>, now: int)
    requires Grants(user, granted)
    ensures IsExact(user, granted, now)
       <==> (forall r :: r in granted ==> PlainRole(r)) && |RolesText(Escaped(granted))| < 256
  {
    hide JsonText.Escape, QuotedWords, RolesText, RolesAtGate, Grants;
    var names := Escaped(granted);
    var seen := RolesAtGate(user, now);
    var words := QuotedWords(seen);
    PrintedRoles(granted);
    RolesAtGateAre(user, granted, now);
    ScanSeesRoles(names);
    NoWords();
    NoRoles();
    assert granted != [] ==> granted[0] in granted;
    if IsExact(user, granted, now) {
      ExactMeansSame(user, granted, now);
      WordsHaveNoQuotes(seen);
      WordsLackLast(seen, ']');
      var bound := LengthBound(granted);
      forall r | r in granted
        ensures |RolesText(names)| < 256 ==> PlainRole(r)
      {
        if |RolesText(names)| < 256 {
          ClosedUnderEscape(granted, bound, r);
        }
      }
    }
    if (forall r :: r in granted ==> PlainRole(r)) && |RolesText(names)| < 256 {
      PlainRolesPrintAsThemselves(granted);
      assert words == granted;
    }
  }

  lemma PlainRolesReachGate(user: User, granted: seq<string>, now: int)
    requires Grants(user, granted)
    requires (forall r :: r in granted ==> PlainRole(r)) && |RolesText(granted)| < 256
    ensures RolesAtGate(user, now) == RolesText(granted)
  {
    hide JsonText.Escape, RolesText, RolesAtGate, Grants;
    PlainRolesPrintAsThemselves(granted);
    RolesAtGateAre(user, granted, now);
  }

  /** For such roles the gate opens exactly when a granted role is one of the wanted. */
  lemma GateForPlainRoles(user: User, granted: seq<string>, now: int, wanted: seq<string>)
    requires Grants(user, granted)
    requires (forall r :: r in granted ==> PlainRole(r)) && |RolesText(granted)| < 256
    ensures Opens(user, now, wanted) <==>
              exists i, j :: 0 <= i < |granted| && 0 <= j < |wanted| && granted[i] == wanted[j]
  {
    hide QuotedWords, RolesText, RolesAtGate, Grants, AnyWanted;
    PlainRolesReachGate(user, granted, now);
    ScanSeesRoles(granted);
    AnyWantedAt(granted, wanted);
  }

  /** The gate in front of `handle_create`: it lets writers and admins pass, and nobody else. */
  method MayWrite(roles: string) returns (ok: bool)
    ensures ok <==> "writer" in QuotedWords(roles) || "admin" in QuotedWords(roles)
    ensures forall granted :: roles == RolesText(granted) && (forall r :: r in granted ==> '"' !in r) ==>
              (ok <==> "writer" in granted || "admin" in granted)
  {
    hide QuotedWords, RolesText;
    var wanted := ["writer", "admin"];
    ok := ContainsAny(roles, wanted);
    assert wanted[0] == "writer" && wanted[1] == "admin";
    forall granted | roles == RolesText(granted) && (forall r :: r in granted ==> '"' !in r)
      ensures QuotedWords(roles) == granted
    {
      ScanSeesRoles(granted);
    }
  }

  lemma NoRoles()
    ensures |RolesText(Escaped([]))| == 2
  {
    assert Escaped([]) == [];
  }

  /** Seeing the same for every wish is seeing the same words. */
  lemma ExactMeansSame(user: User, granted: seq<string>, now: int)
    requires IsExact(user, granted, now)
    ensures forall w :: w in QuotedWords(RolesAtGate(user, now)) <==> w in granted
  {
    hide QuotedWords, RolesAtGate;
    forall w
      ensures w in QuotedWords(RolesAtGate(user, now)) <==> w in granted
    {
      assert Opens(user, now, [w]) <==> AnyWanted(granted, [w]);
    }
  }

  // ---------- Where it is not ----------

  const WANTED: seq<string> := ["writer", "admin"]

  /** A closing bracket in one role hides those behind it. */
  lemma BracketShutsGate(user: User, now: int)
    requires Grants(user, ["a]", "admin"])
    ensures AnyWanted(["a]", "admin"], WANTED) && !Opens(user, now, WANTED)
  {
    hide JsonText.Escape, Payload, RolesOf;
    var e := JsonText.Escape(user.email);
    SessionRoundTrip.EscapeIsGuarded(user.email);
    PlainRolesPrintAsThemselves(["a]", "admin"]);
    var init, more := "[\"a", "\", \"admin\"]";
    assert RolesText(["a]", "admin"]) == init + ("]" + more) by {
      assert ["a]", "admin"][1..] == ["admin"];
    }
    RolesAreUpToBracket(user.id, e, init, more, now);
    assert RolesAtGate(user, now) == "[" + ("\"" + "a]");
    UnclosedWord();
    assert "admin" in ["a]", "admin"] && "admin" in WANTED;
  }

  lemma UnclosedWord()
    ensures QuotedWords("[" + ("\"" + "a]")) == []
  {
    SkipUnquoted("[", "\"" + "a]");
    assert ("\"" + "a]")[1..] == "a]";
    StrChrFinds("a]", '"');
  }

  /** A quote in a role opens it for a role that nobody granted. */
  lemma QuoteOpensGate(user: User, now: int)
    requires Grants(user, ["x\",\"admin"])
    ensures !AnyWanted(["x\",\"admin"], WANTED) && Opens(user, now, WANTED)
  {
    hide JsonText.Escape, Payload, RolesOf, QuotedWords;
    var role := "x\",\"admin";
    RolesAtGateAre(user, [role], now);
    PrintedRoles([role]);
    EscapedRole();
    PrintedRole();
    assert Escaped([role]) == [JsonText.Escape(role)];
    QuoteMisleadsScan();
  }
}
