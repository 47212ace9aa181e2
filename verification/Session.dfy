/** The session of the C service: login signs the user's claims into a cookie, and later
    requests read the user back out of it. */
module Session {
  import opened CStrings
  import opened Decimal
  import opened Claims
  import opened Jwt
  import Base64Url
  import JsonText
  import Cookie
  import opened UserAgent

  /** The row that the database holds for a user; the roles are a printed JSON array. */
  datatype User = User(id: int, email: Text, roles: Text)

  /** What the service knows about the sender of a request. */
  datatype Identity = Identity(id: int, email: string, roles: string)

  datatype LoginReply = AuthNotConfigured | InternalError | LoggedIn(setCookie: string)

  const EMAIL_CAP: nat := 512
  const PAYLOAD_CAP: nat := 1024
  const TOKEN_CAP: nat := 2048
  const COOKIE_CAP: nat := 2400

  /** A user as PostgreSQL hands it over: no NUL bytes, a C long as the id. */
  predicate IsUser(user: User) {
    LONG_MIN <= user.id <= LONG_MAX && '\0' !in user.email && '\0' !in user.roles
  }

  function RolesOrEmpty(user: User): Text {
    if user.roles == "" then "[]" else user.roles
  }

  /** The claims that login signs. */
  function ClaimsOf(user: User, now: int): (payload: Text)
  {
    PayloadIsText(user, now);
    Payload(user.id, JsonText.Escape(user.email), RolesOrEmpty(user), now)
  }

  function TokenOf(mac: Mac, user: User, secret: string, now: int): string {
    SignedToken(mac, ClaimsOf(user, now), secret)
  }

  function SetCookie(token: string, secure: bool): string {
    "session=" + (token + ("; HttpOnly; SameSite=Strict" +
    ("; Path=/; Max-Age=3600" + if secure then "; Secure" else "")))
  }

  function IdentityIn(payload: string): Identity {
    Identity(SubOf(payload), EmailOf(payload), RolesOf(payload))
  }

  /** A request with this Cookie header comes from `who`, at time `t`. */
  ghost predicate Authenticates(mac: Mac, header: string, secret: string, t: int, who: Identity) {
    var cookie := Cookie.SessionCookie(header);
    && secret != "" && cookie.Some? && |cookie.value| < TOKEN_CAP
    && who.id > 0
    && exists p :: Accepted(mac, cookie.value, secret, t, PAYLOAD_CAP, p)
                && who == IdentityIn(CString(Base64Url.Decode(p).value))
  }

  // ---------- The printed claims are a C string ----------

  lemma {:induction false} EscapeIsText(s: Text)
    ensures IsText(JsonText.Escape(s))
  {
    if s != [] {
      EscapeIsText(s[1..]);
      assert IsText(JsonText.EscapeChar(s[0]));
    }
  }

  lemma PrintLongIsText(v: int)
    ensures IsText(PrintLong(v)) && '\0' !in PrintLong(v)
  {
    var digits := Dec(if v < 0 then -v else v);
    hide Dec;
    assert AllDigits(digits);
  }

  /** Printed claims hold only what their pieces hold, so no NUL cuts them off. */
  lemma PayloadCharacters(id: int, email: string, roles: string, now: int)
    requires IsText(email) && IsText(roles)
    ensures IsText(Payload(id, email, roles, now))
    ensures '\0' !in email && '\0' !in roles ==> '\0' !in Payload(id, email, roles, now)
  {
    hide PrintLong;
    PrintLongIsText(id);
    PrintLongIsText(now);
    PrintLongIsText(now + LIFETIME);
    IatPartCharacters(now);
  }

  lemma IatPartCharacters(now: int)
    ensures IsText(IatPart(now)) && '\0' !in IatPart(now)
  {
    hide PrintLong;
    PrintLongIsText(now);
    PrintLongIsText(now + LIFETIME);
  }

  lemma PayloadIsText(user: User, now: int)
    ensures IsText(Payload(user.id, JsonText.Escape(user.email), RolesOrEmpty(user), now))
  {
    EscapeIsText(user.email);
    PayloadCharacters(user.id, JsonText.Escape(user.email), RolesOrEmpty(user), now);
  }

  lemma ClaimsAreWhole(user: User, now: int)
    requires IsUser(user)
    ensures CString(ClaimsOf(user, now)) == ClaimsOf(user, now)
  {
    hide CString, Payload, JsonText.Escape;
    EscapeIsText(user.email);
    JsonText.EscapeIsClean(user.email);
    PayloadCharacters(user.id, JsonText.Escape(user.email), RolesOrEmpty(user), now);
    CStringWhole(ClaimsOf(user, now));
  }

  // ---------- Login ----------

  /** Once the claims fit their buffer, so do the token and the cookie. */
  lemma TokenFits(mac: Mac, payload: Text, secret: string, secure: bool)
    requires |payload| < PAYLOAD_CAP
    ensures |SignedToken(mac, payload, secret)| < TOKEN_CAP
    ensures |SetCookie(SignedToken(mac, payload, secret), secure)| < COOKIE_CAP
  {
    hide Base64Url.Encode;
    HeaderShape();
    Base64Url.EncodeShape(payload);
    Base64Url.EncodeShape(mac(secret, Message(payload)));
  }

  // ---------- What a user agent makes of the cookie line ----------

  lemma SetCookiePieces(token: string, secure: bool)
    ensures SetCookie(token, secure)
         == "session=" + token + (";" + (" HttpOnly" + (";" + (" SameSite=Strict" + (";" + AttributesTail(secure))))))
  {
    var tail := if secure then "; Secure" else "";
    assert secure ==> tail == ";" + " Secure";
    FirstAttributes();
    SecondAttributes();
    Chain("session=", token, ";", " HttpOnly", " SameSite=Strict", " Path=/", " Max-Age=3600", tail);
  }

  lemma FirstAttributes()
    ensures "; HttpOnly; SameSite=Strict" == ";" + (" HttpOnly" + (";" + " SameSite=Strict"))
  {
  }

  lemma SecondAttributes()
    ensures "; Path=/; Max-Age=3600" == ";" + (" Path=/" + (";" + " Max-Age=3600"))
  {
  }

  lemma Chain(a: string, b: string, c: string, p: string, q: string, r: string, s: string, t: string)
    ensures a + (b + ((c + (p + (c + q))) + ((c + (r + (c + s))) + t)))
         == a + b + (c + (p + (c + (q + (c + (r + (c + (s + t))))))))
  {
    var last := c + (r + (c + (s + t)));
    assert (c + (r + (c + s))) + t == last;
    assert (c + (p + (c + q))) + last == c + (p + (c + (q + last)));
  }

  function AttributesTail(secure: bool): string {
    " Path=/" + (";" + (" Max-Age=3600" + if secure then ";" + " Secure" else ""))
  }

  lemma TailSplits(secure: bool)
    ensures Split(AttributesTail(secure), ';')
         == [" Path=/", " Max-Age=3600"] + if secure then [" Secure"] else []
  {
    hide Split;
    var last := " Max-Age=3600" + if secure then ";" + " Secure" else "";
    SplitFirst(" Path=/", ';', last);
    SplitNone(" Max-Age=3600", ';');
    SplitNone(" Secure", ';');
    SplitFirst(" Max-Age=3600", ';', " Secure");
    assert " Max-Age=3600" + "" == " Max-Age=3600";
  }

  function StoredAttributes(secure: bool): seq<Attribute> {
    [Attribute("HttpOnly", ""), Attribute("SameSite", "Strict"), Attribute("Path", "/"), Attribute("Max-Age", "3600")]
    + if secure then [Attribute("Secure", "")] else []
  }

  lemma LinePieces(token: string, secure: bool)
    requires ';' !in token
    ensures Split(SetCookie(token, secure), ';')
         == ["session=" + token] + ([" HttpOnly"] + ([" SameSite=Strict"] + Split(AttributesTail(secure), ';')))
  {
    hide Split, SetCookie, AttributesTail;
    SetCookiePieces(token, secure);
    SplitFirst(" SameSite=Strict", ';', AttributesTail(secure));
    SplitFirst(" HttpOnly", ';', " SameSite=Strict" + (";" + AttributesTail(secure)));
    SplitFirst("session=" + token, ';', " HttpOnly" + (";" + (" SameSite=Strict" + (";" + AttributesTail(secure)))));
  }

  lemma AttributesRead(secure: bool)
    ensures ReadAttributes([" HttpOnly"] + ([" SameSite=Strict"] + Split(AttributesTail(secure), ';')))
         == StoredAttributes(secure)
  {
    TailSplits(secure);
    hide ReadAttribute, Split, AttributesTail, ReadAttributes;
    PiecesRead();
    var pieces := [" HttpOnly"] + ([" SameSite=Strict"] + ([" Path=/", " Max-Age=3600"] + if secure then [" Secure"] else []));
    assert pieces == [" HttpOnly", " SameSite=Strict", " Path=/", " Max-Age=3600"] + if secure then [" Secure"] else [];
  }

  lemma PiecesRead()
    ensures ReadAttribute(" HttpOnly") == Attribute("HttpOnly", "")
    ensures ReadAttribute(" SameSite=Strict") == Attribute("SameSite", "Strict")
    ensures ReadAttribute(" Path=/") == Attribute("Path", "/")
    ensures ReadAttribute(" Max-Age=3600") == Attribute("Max-Age", "3600")
    ensures ReadAttribute(" Secure") == Attribute("Secure", "")
  {
    hide ReadAttribute;
    ReadsPair("HttpOnly", "");
    ReadsPair("SameSite", "Strict");
    ReadsPair("Path", "/");
    ReadsPair("Max-Age", "3600");
    ReadsPair("Secure", "");
    PrintedPieces();
  }

  lemma PrintedPieces()
    ensures " " + ("SameSite" + ("=" + "Strict")) == " SameSite=Strict"
    ensures " " + ("Path" + ("=" + "/")) == " Path=/"
    ensures " " + ("Max-Age" + ("=" + "3600")) == " Max-Age=3600"
    ensures " " + "HttpOnly" == " HttpOnly" && " " + "Secure" == " Secure"
  {
  }

  /** Reading the line gives the pair `session` and the token, kept from scripts and other
      sites, for exactly as long as the token lives, and marked `Secure` exactly when asked. */
  lemma CookieIsStored(token: string, secure: bool)
    requires ';' !in token && token != "" && !IsBlank(token[0]) && !IsBlank(token[|token| - 1])
    ensures var c := ReadSetCookie(SetCookie(token, secure));
            && c.Some? && c.value.name == "session" && c.value.value == token
            && (Attribute("Secure", "") in c.value.attributes <==> secure)
            && Attribute("HttpOnly", "") in c.value.attributes
            && Attribute("SameSite", "Strict") in c.value.attributes
            && (forall v :: Attribute("Max-Age", v) in c.value.attributes <==> v == PrintLong(LIFETIME))
  {
    hide Split, SetCookie, ReadAttributes, ReadAttribute, AttributesTail;
    LinePieces(token, secure);
    AttributesRead(secure);
    ReadsPair("session", token);
    assert "session=" + token == "session" + ("=" + token);
    assert PrintLong(LIFETIME) == "3600" by {
      PrintedLifetime();
    }
    var pieces := Split(SetCookie(token, secure), ';');
    assert pieces[1..] == [" HttpOnly"] + ([" SameSite=Strict"] + Split(AttributesTail(secure), ';'));
    assert ("session" + ("=" + token))[7] == '=';
  }

  lemma PrintedLifetime()
    ensures PrintLong(LIFETIME) == "3600"
  {
    assert Dec(3) == "3" && Dec(36) == "36" && Dec(360) == "360" && Dec(3600) == "3600";
  }

  /** The reply of a login for which there is memory and the HMAC can be computed. */
  function Login(mac: Mac, user: User, secret: string, secure: bool, now: int): LoginReply {
    if secret == "" then AuthNotConfigured
    else if |JsonText.Escape(user.email)| < EMAIL_CAP && |ClaimsOf(user, now)| < PAYLOAD_CAP
    then LoggedIn(SetCookie(TokenOf(mac, user, secret, now), secure))
    else InternalError
  }

  /** A user agent stores this line as the session cookie `token`. */
  ghost predicate StoresSession(line: string, token: string, secure: bool) {
    var c := ReadSetCookie(line);
    && c.Some? && c.value.name == "session" && c.value.value == token
    && (Attribute("Secure", "") in c.value.attributes <==> secure)
    && Attribute("HttpOnly", "") in c.value.attributes
    && Attribute("SameSite", "Strict") in c.value.attributes
    && (forall v :: Attribute("Max-Age", v) in c.value.attributes <==> v == PrintLong(LIFETIME))
  }

  lemma NoSpecial(s: string)
    requires Base64Url.InAlphabet(s)
    ensures ';' !in s && ' ' !in s && '\t' !in s
  {
  }

  lemma TokenCharacters(mac: Mac, payload: Text, secret: string)
    ensures var token := SignedToken(mac, payload, secret);
            token != "" && ';' !in token && ' ' !in token && '\t' !in token
  {
    hide Base64Url.Encode;
    HeaderShape();
    Base64Url.EncodeShape(payload);
    Base64Url.EncodeShape(mac(secret, Message(payload)));
    NoSpecial(HEADER);
    NoSpecial(Base64Url.Encode(payload));
    NoSpecial(Base64Url.Encode(mac(secret, Message(payload))));
  }

  /** What login replies is stored as a session with the token over the user's claims. */
  lemma LoginIsStored(mac: Mac, user: User, secret: string, secure: bool, now: int)
    ensures var reply := Login(mac, user, secret, secure, now);
            reply.LoggedIn? ==> StoresSession(reply.setCookie, TokenOf(mac, user, secret, now), secure)
  {
    hide SetCookie, Payload, ReadSetCookie, JsonText.Escape;
    var token := TokenOf(mac, user, secret, now);
    TokenCharacters(mac, ClaimsOf(user, now), secret);
    hide SignedToken;
    assert token[0] in token && token[|token| - 1] in token;
    CookieIsStored(token, secure);
  }

  /** The part of `handle_login` behind the password check; `body` says whether there is
      memory for the reply's body. */
  method IssueCookie(mac: Mac, user: User, secret: string, secure: bool, now: int, means: Means, body: bool)
    returns (reply: LoginReply)
    requires IsUser(user)
    ensures reply.AuthNotConfigured? <==> secret == ""
    ensures reply.LoggedIn? <==>
              && secret != "" && |JsonText.Escape(user.email)| < EMAIL_CAP && |ClaimsOf(user, now)| < PAYLOAD_CAP
              && means == Means(true, true, true) && body
    ensures reply.LoggedIn? ==> reply == Login(mac, user, secret, secure, now)
    ensures reply.LoggedIn? ==> StoresSession(reply.setCookie, TokenOf(mac, user, secret, now), secure)
  {
    hide Payload, JsonText.Escape, ToInt, Base64Url.Encode, StoresSession;
    LoginIsStored(mac, user, secret, secure, now);
    if secret == "" {
      return AuthNotConfigured;
    }
    var emailEsc := new char[EMAIL_CAP];
    var en := JsonText.EscapeInto(user.email, emailEsc, 0, EMAIL_CAP);
    if en < 0 {
      return InternalError;
    }
    JsonText.EscapeIsClean(user.email);
    BufferHolds(JsonText.Escape(user.email), emailEsc[..]);
    var text := Payload(user.id, CString(emailEsc[..]), RolesOrEmpty(user), now);
    PayloadIsText(user, now);
    var payload := new char[PAYLOAD_CAP];
    var pn := PrintInto(payload, PAYLOAD_CAP, text);
    if pn < 0 || pn >= PAYLOAD_CAP {
      return InternalError;
    }
    var token := new char[TOKEN_CAP];
    TokenFits(mac, text, secret, secure);
    var tn := Sign(mac, payload[..pn], secret, token, TOKEN_CAP, means);
    if tn < 0 {
      return InternalError;
    }
    var line := SetCookie(token[..tn], secure);
    var cookie := new char[COOKIE_CAP];
    var ch := PrintInto(cookie, COOKIE_CAP, line);
    if ch < 0 || ch >= COOKIE_CAP {
      return InternalError;
    }
    if !body {
      return InternalError;
    }
    return LoggedIn(cookie[..ch]);
  }

  lemma BufferHolds(s: string, buf: string)
    requires '\0' !in s && |s| < |buf| && buf[..|s|] == s && buf[|s|] == '\0'
    ensures CString(buf) == s
  {
    assert buf == s + ['\0'] + buf[|s| + 1..];
    CStringOfBuffer(s, buf[|s| + 1..]);
    CStringWhole(s);
  }
}
