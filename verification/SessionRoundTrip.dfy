/** What a login cookie means to the requests that carry it: who they come from, and for
    how long. */
module SessionRoundTrip {
  import opened CStrings
  import opened Decimal
  import opened Claims
  import opened Jwt
  import opened Session
  import opened Expiry
  import opened Cookie
  import opened UserAgent
  import Base64Url
  import JsonText

  // ---------- The claims read back ----------

  lemma {:induction false} EscapeIsGuarded(s: string)
    ensures Guarded(JsonText.Escape(s))
    ensures '"' in JsonText.Escape(s) <==> '"' in s
  {
    if s != [] {
      var e, tail := JsonText.EscapeChar(s[0]), JsonText.Escape(s[1..]);
      EscapeIsGuarded(s[1..]);
      QuoteIsEscaped(s[0]);
      hide JsonText.EscapeChar;
      assert s == [s[0]] + s[1..];
      GuardedConcat(e, tail);
    }
  }

  lemma QuoteIsEscaped(c: char)
    ensures Guarded(JsonText.EscapeChar(c))
    ensures '"' in JsonText.EscapeChar(c) <==> c == '"'
  {
  }

  lemma GuardedConcat(a: string, b: string)
    requires Guarded(a) && Guarded(b)
    ensures Guarded(a + b)
  {
  }

  /** The email is read back exactly when it needs no escaping and fits its field. */
  lemma EmailReadIff(user: User, now: int)
    ensures EmailOf(ClaimsOf(user, now)) == user.email
       <==> JsonText.Plain(user.email) && |user.email| < 256
  {
    hide EmailOf, Payload, JsonText.Escape;
    var e := JsonText.Escape(user.email);
    EscapeIsGuarded(user.email);
    JsonText.PlainIsUnchanged(user.email);
    if '"' in e {
      StrChrFinds(e, '"');
      StrChrSplits(e, '"');
      var r := StrChr(e, '"').value;
      var w := e[..|e| - |r|];
      assert e == w + ("\"" + r[1..]);
      EmailIsUpToQuote(user.id, w, r[1..], RolesOrEmpty(user), now, e);
    } else {
      EmailIsUpToQuote(user.id, e, "", RolesOrEmpty(user), now, e);
    }
  }

  lemma {:induction false} JoinNamesHolds(names: seq<string>, c: char)
    requires c != '"' && c != ',' && c != ' '
    ensures c in JoinNames(names) <==> exists n :: n in names && c in n
  {
    if |names| == 1 {
      assert names[0] in names && forall n :: n in names ==> n == names[0];
    } else if names != [] {
      JoinNamesHolds(names[1..], c);
      assert names[0] in names && forall n :: n in names <==> n == names[0] || n in names[1..];
    }
  }

  /** The roles are read back exactly when no role holds a `]` and they fit their field. */
  lemma RolesReadIff(id: int, email: string, names: seq<string>, now: int)
    requires Guarded(email)
    ensures RolesOf(Payload(id, email, RolesText(names), now)) == RolesText(names)
       <==> (forall n :: n in names ==> ']' !in n) && |RolesText(names)| < 256
  {
    hide RolesOf, Payload, JoinNames, Guarded;
    var roles := RolesText(names);
    JoinNamesHolds(names, ']');
    var body := JoinNames(names);
    if ']' in body {
      StrChrFinds(body, ']');
      StrChrSplits(body, ']');
      var r := StrChr(body, ']').value;
      var init, more := "[" + body[..|body| - |r|], r[1..] + "]";
      assert roles == init + ("]" + more);
      RolesAreUpToBracket(id, email, init, more, now);
    } else {
      assert roles == ("[" + body) + ("]" + "");
      RolesAreUpToBracket(id, email, "[" + body, "", now);
    }
  }

  // ---------- The cookie ----------

  lemma {:induction false} FirstSessionIs(before: seq<Pair>, p: Pair, after: seq<Pair>)
    requires forall b :: b in before ==> !IsSessionName(b.name)
    requires IsSessionName(p.name)
    ensures FirstSession(before + [p] + after) == Some(p.value)
  {
    if before != [] {
      var pairs := before + [p] + after;
      FirstSessionIs(before[1..], p, after);
      assert pairs[0] == before[0] && pairs[1..] == before[1..] + [p] + after;
    }
  }

  /** A Cookie header that sends `token` as the session, no other session before it. */
  ghost predicate Carries(header: string, token: string) {
    Sends(header, "session", token)
  }

  lemma CarriedIsFound(header: string, token: string)
    requires Carries(header, token) && ';' !in token
    ensures SessionCookie(header) == Some(token)
  {
    hide SessionCookie, Join, IsSessionName, FirstSession, StrChr;
    var before: seq<Pair>, after: seq<Pair> :|
      && header == Join(before + [Pair("session", token)] + after)
      && (forall p :: p in before + after ==> WellFormed(p))
      && forall p :: p in before ==> !IsSessionName(p.name);
    var p := Pair("session", token);
    SessionIsSession();
    assert WellFormed(p);
    forall q | q in before + [p] + after
      ensures WellFormed(q)
    {
      assert q in before + after || q == p;
    }
    FindsFirstSession(before + [p] + after);
    FirstSessionIs(before, p, after);
  }

  lemma SessionIsSession()
    ensures IsSessionName("session")
  {
    assert LowerAll("on") == "on";
    assert LowerAll("sion") == "sion";
    assert LowerAll("ssion") == "ssion";
  }

  // ---------- The session ----------

  /** A cookie that login issued makes its requests come from exactly the user that its
      claims read back as, until the expiry that its claims read back as. */
  lemma SessionExact(mac: Mac, user: User, secret: string, now: int, header: string, t: int, who: Identity)
    requires IsUser(user) && user.id > 0 && secret != "" && |ClaimsOf(user, now)| < PAYLOAD_CAP
    requires Carries(header, TokenOf(mac, user, secret, now))
    ensures Authenticates(mac, header, secret, t, who)
       <==> who == IdentityIn(ClaimsOf(user, now)) && !Expired(ClaimsOf(user, now), t)
    ensures IdentityIn(ClaimsOf(user, now)).id == user.id
  {
    hide Payload, Base64Url.Encode, Base64Url.Decode, Expired, SessionCookie, EmailOf, RolesOf, SubOf, CString;
    var payload, token := ClaimsOf(user, now), TokenOf(mac, user, secret, now);
    SubRead(user.id, JsonText.Escape(user.email), RolesOrEmpty(user), now);
    TokenCharacters(mac, payload, secret);
    CarriedIsFound(header, token);
    TokenFits(mac, payload, secret, false);
    SignedTokenAccepted(mac, payload, secret, t, PAYLOAD_CAP);
    ClaimsAreWhole(user, now);
    OnlyItsPayload(mac, payload, secret, t);
    Base64Url.RoundTrip(payload);
  }

  /** Nothing but the signed payload can be accepted under a token. */
  lemma OnlyItsPayload(mac: Mac, payload: Text, secret: string, t: int)
    ensures forall p :: Accepted(mac, SignedToken(mac, payload, secret), secret, t, PAYLOAD_CAP, p)
                    ==> p == Base64Url.Encode(payload)
  {
    hide Base64Url.Encode, Base64Url.Decode, Expired;
    var p := Base64Url.Encode(payload);
    var sig := Base64Url.Encode(mac(secret, Message(payload)));
    HeaderShape();
    Base64Url.EncodeShape(payload);
    NoDot(p);
    AcceptedIff(mac, SignedToken(mac, payload, secret), secret, t, PAYLOAD_CAP, HEADER, p, sig);
  }

  /** Fields that fit where the service copies them also fit where it prints them. */
  lemma ClaimsFit(user: User, now: int)
    requires IsUser(user) && InRange(now)
    requires JsonText.Plain(user.email) && |user.email| < 256 && |user.roles| < 256
    ensures |JsonText.Escape(user.email)| < EMAIL_CAP && |ClaimsOf(user, now)| < PAYLOAD_CAP
  {
    hide JsonText.Escape, PrintLong;
    JsonText.PlainIsUnchanged(user.email);
    LongLength(user.id);
    LongLength(now);
    LongLength(now + LIFETIME);
    IatPartLength(now);
  }

  lemma IatPartLength(now: int)
    requires InRange(now)
    ensures |IatPart(now)| <= 60
  {
    hide PrintLong;
    LongLength(now);
    LongLength(now + LIFETIME);
  }

  /** What the round trip needs of a user, whose roles are printed as `names`. */
  predicate Survives(user: User, names: seq<string>) {
    && JsonText.Plain(user.email) && |user.email| < 256 && user.email != "exp"
    && |user.roles| < 256 && (forall n :: n in names ==> ']' !in n) && !SomeNameEndsIn(names, "exp")
  }

  /** A header that sends back the cookie that login set carries the token. */
  lemma SentBackIsCarried(mac: Mac, user: User, secret: string, secure: bool, now: int, header: string)
    requires Login(mac, user, secret, secure, now).LoggedIn?
    ensures SendsBack(header, Login(mac, user, secret, secure, now).setCookie)
       <==> Carries(header, TokenOf(mac, user, secret, now))
  {
    hide Login, TokenOf, Sends, ReadSetCookie;
    LoginIsStored(mac, user, secret, secure, now);
  }

  /** From login's reply on: the cookie line that it sets is sent back, and for an hour
      stands for exactly the user who logged in. */
  lemma SessionRoundTrip(mac: Mac, user: User, names: seq<string>, secret: string, secure: bool, now: int,
                         header: string, t: int, who: Identity)
    requires IsUser(user) && user.id > 0 && secret != "" && InRange(now)
    requires user.roles == RolesText(names) && NamesGuarded(names) && Survives(user, names)
    ensures var reply := Login(mac, user, secret, secure, now);
            && reply.LoggedIn?
            && (SendsBack(header, reply.setCookie) ==>
                  (Authenticates(mac, header, secret, t, who) <==> who == UserIdentity(user) && t < now + LIFETIME))
  {
    hide Payload, SubOf, EmailOf, RolesOf, JsonText.Escape, ExpiryOf, Authenticates, Carries, TokenOf;
    hide SomeNameEndsIn, NamesGuarded, SendsBack, SetCookie;
    ClaimsFit(user, now);
    SentBackIsCarried(mac, user, secret, secure, now, header);
    if Carries(header, TokenOf(mac, user, secret, now)) {
      SessionExact(mac, user, secret, now, header, t, who);
    }
    JsonText.PlainIsUnchanged(user.email);
    EscapeIsGuarded(user.email);
    PlainEndsIn(user.email);
    EmailReadIff(user, now);
    RolesReadIff(user.id, user.email, names, now);
    ClaimRead(user.id, user.email, names, now);
  }

  function UserIdentity(user: User): Identity {
    Identity(user.id, user.email, user.roles)
  }

  /** An email without quotes ends in a key only if it is that key. */
  lemma PlainEndsIn(email: string)
    requires JsonText.Plain(email)
    ensures EndsIn(email, "exp") <==> email == "exp"
  {
    if EndsIn(email, "exp") {
      assert email[|email| - 3..] == "exp";
    }
  }

  /** Whenever the user logs in and whoever asks: login succeeds, and the cookie that it sets
      stands for exactly this user, for exactly an hour. */
  ghost predicate RoundTrips(mac: Mac, user: User, secret: string) {
    && (forall secure, now | InRange(now) :: Login(mac, user, secret, secure, now).LoggedIn?)
    && forall secure, now, header, t, who
         | InRange(now) && SentBack(mac, user, secret, secure, now, header) ::
           Authenticates(mac, header, secret, t, who) <==> who == UserIdentity(user) && t < now + LIFETIME
  }

  ghost predicate SentBack(mac: Mac, user: User, secret: string, secure: bool, now: int, header: string) {
    var reply := Login(mac, user, secret, secure, now);
    reply.LoggedIn? && SendsBack(header, reply.setCookie)
  }

  lemma AloneIsCarried(token: string) returns (header: string)
    ensures Carries(header, token)
  {
    hide Join;
    header := Join([] + [Pair("session", token)] + []);
  }

  /** What one login shows about a user whose cookie round trips. */
  lemma RoundTripAt(mac: Mac, user: User, secret: string, now: int, t: int)
    requires IsUser(user) && user.id > 0 && secret != "" && InRange(now) && RoundTrips(mac, user, secret)
    ensures IdentityIn(ClaimsOf(user, now)) == UserIdentity(user)
    ensures Expired(ClaimsOf(user, now), t) <==> t >= now + LIFETIME
  {
    var who := UserIdentity(user);
    assert Login(mac, user, secret, false, now).LoggedIn?;
    assert |ClaimsOf(user, now)| < PAYLOAD_CAP;
    hide Payload, SubOf, EmailOf, RolesOf, JsonText.Escape, ExpiryOf, Authenticates, Carries, TokenOf, IdentityIn, Expired;
    hide ClaimsOf, SendsBack, Login;
    var header := AloneIsCarried(TokenOf(mac, user, secret, now));
    SentBackIsCarried(mac, user, secret, false, now, header);
    assert SentBack(mac, user, secret, false, now, header);
    assert Authenticates(mac, header, secret, now, who);
    assert Authenticates(mac, header, secret, t, who) <==> t < now + LIFETIME;
    SessionExact(mac, user, secret, now, header, now, who);
    SessionExact(mac, user, secret, now, header, t, who);
  }

  /** The session round trip holds for a user if and only if the email needs no escaping,
      fits and is not `exp`, and the printed roles fit, hold no `]` and none ends in `exp`. */
  lemma RoundTripsIff(mac: Mac, user: User, names: seq<string>, secret: string)
    requires IsUser(user) && user.id > 0 && secret != ""
    requires user.roles == RolesText(names) && NamesGuarded(names)
    ensures RoundTrips(mac, user, secret) <==> Survives(user, names)
  {
    hide Payload, SubOf, EmailOf, RolesOf, JsonText.Escape, ExpiryOf, Authenticates, Carries, TokenOf, Expired;
    hide RolesText, SomeNameEndsIn, NamesGuarded, SendsBack, Login;
    if Survives(user, names) {
      forall secure, now | InRange(now)
        ensures Login(mac, user, secret, secure, now).LoggedIn?
      {
        SessionRoundTrip(mac, user, names, secret, secure, now, "", 0, UserIdentity(user));
      }
      forall secure, now, header, t, who | InRange(now) && SentBack(mac, user, secret, secure, now, header)
        ensures Authenticates(mac, header, secret, t, who) <==> who == UserIdentity(user) && t < now + LIFETIME
      {
        SessionRoundTrip(mac, user, names, secret, secure, now, header, t, who);
      }
    }
    if RoundTrips(mac, user, secret) {
      var e := JsonText.Escape(user.email);
      RoundTripAt(mac, user, secret, 0, 0);
      EmailReadIff(user, 0);
      EscapeIsGuarded(user.email);
      RolesReadIff(user.id, e, names, 0);
      JsonText.PlainIsUnchanged(user.email);
      PlainEndsIn(user.email);
      RolesAreNotEmpty(names);
      forall now, t | InRange(now)
        ensures Expired(Payload(user.id, e, user.roles, now), t) <==> t >= now + LIFETIME
      {
        RoundTripAt(mac, user, secret, now, t);
      }
      ExpiresOnTimeIff(user.id, e, names);
    }
  }

  lemma RolesAreNotEmpty(names: seq<string>)
    ensures RolesText(names) != ""
  {
  }
}
