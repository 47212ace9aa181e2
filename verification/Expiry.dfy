/** When a login's token expires: an hour after it was issued, unless the search for the
    `"exp"` claim stops earlier, in the email or in a role. */
module Expiry {
  import opened CStrings
  import opened Decimal
  import opened Claims
  import Jwt

  // ---------- A number stops at a bracket ----------

  lemma {:induction false} SpacesStop(a: string, b: string)
    requires b != [] && !IsSpace(b[0])
    ensures SkipSpaces(a + b) == SkipSpaces(a) + b
  {
    if a == [] {
      assert a + b == b;
    } else {
      assert (a + b)[1..] == a[1..] + b;
      SpacesStop(a[1..], b);
    }
  }

  lemma {:induction false} DigitsStop(a: string, b: string)
    requires b != [] && !IsDigit(b[0])
    ensures LeadingDigits(a + b) == LeadingDigits(a)
  {
    if a == [] {
      assert a + b == b;
    } else {
      assert (a + b)[1..] == a[1..] + b;
      DigitsStop(a[1..], b);
    }
  }

  /** What stands behind a `]` does not matter to `strtoll`. */
  lemma NumberStops(a: string, b: string)
    ensures StrToL(a + ("]" + b)) == StrToL(a + "]")
  {
    hide SkipSpaces, LeadingDigits, NumberOf, Clamp;
    var t := SkipSpaces(a);
    SpacesStop(a, "]" + b);
    SpacesStop(a, "]");
    DigitsStop(t, "]" + b);
    DigitsStop(t, "]");
    if t != [] {
      assert (t + ("]" + b))[1..] == t[1..] + ("]" + b) && (t + "]")[1..] == t[1..] + "]";
      DigitsStop(t[1..], "]" + b);
      DigitsStop(t[1..], "]");
    }
  }

  // ---------- What `exp` reads ----------

  predicate InRange(now: int) {
    0 <= now <= LONG_MAX - LIFETIME
  }

  lemma ClaimRead(id: int, email: string, names: seq<string>, now: int)
    requires Guarded(email) && NamesGuarded(names) && InRange(now)
    requires !EndsIn(email, "exp") && !SomeNameEndsIn(names, "exp")
    ensures Jwt.ExpiryOf(Payload(id, email, RolesText(names), now)) == now + LIFETIME
  {
    hide Payload, StrStr, PrintLong, StrToL, BehindName, SomeNameEndsIn, EndsIn, RolesText, RolesPart;
    FindExp(id, email, names, now);
    var value := PrintLong(now + LIFETIME) + "}";
    assert Quote("exp") == "\"exp\"";
    StrChrSkips(Quote("exp"), ":" + value, ':');
    assert (":" + value)[1..] == value;
    StrToLPrintLong(now + LIFETIME, "}");
  }

  /** Behind an email that ends in the word `exp` the scan reads the role array as a number. */
  lemma EmailHidesExpiry(id: int, email: string, names: seq<string>, now: int)
    requires Guarded(email) && NamesGuarded(names) && EndsIn(email, "exp")
    ensures Jwt.ExpiryOf(Payload(id, email, RolesText(names), now)) == 0
  {
    hide Payload, StrStr, PrintLong, BehindName, SomeNameEndsIn, EndsIn, JoinNames, IatPart;
    FindExp(id, email, names, now);
    var roles := RolesText(names);
    var value := roles + ("," + IatPart(now));
    assert Quote("exp") + ("," + RolesPart(roles, now)) == "\"exp\",\"roles\"" + (":" + value);
    assert Quote("exp") == "\"exp\"";
    StrChrSkips("\"exp\",\"roles\"", ":" + value, ':');
    assert (":" + value)[1..] == value && value[0] == '[';
    assert SkipSpaces(value) == value && LeadingDigits(value) == [];
  }

  lemma {:induction false} BehindNameSplits(names: seq<string>, q: string, rest: string)
    ensures BehindName(names, q, rest) == BehindName(names, q, "") + rest
  {
    if names != [] {
      BehindNameSplits(names[1..], q, rest);
    }
  }

  lemma IssueTimeBehind(now: int)
    ensures StrChr("]," + IatPart(now), ':') == Some(":" + (PrintLong(now) + ("," + ExpPart(now))))
  {
    hide PrintLong, ExpPart;
    var value := PrintLong(now) + ("," + ExpPart(now));
    assert "]," + IatPart(now) == "],\"iat\"" + (":" + value);
    StrChrSkips("],\"iat\"", ":" + value, ':');
  }

  /** Behind a role that ends in the word `exp` the scan reads the issue time, or a number
      that does not depend on the time at all. */
  lemma RoleHidesExpiry(id: int, email: string, names: seq<string>, now: int)
    requires Guarded(email) && NamesGuarded(names) && InRange(now)
    requires !EndsIn(email, "exp") && SomeNameEndsIn(names, "exp")
    ensures Jwt.ExpiryOf(Payload(id, email, RolesText(names), now))
         == match StrChr(BehindName(names, "exp", ""), ':')
            case None => now
            case Some(colon) => StrToL(colon[1..] + "]")
  {
    hide Payload, StrStr, PrintLong, StrToL, BehindName, SomeNameEndsIn, EndsIn, RolesText, RolesPart, IatPart, ExpPart;
    FindExp(id, email, names, now);
    var mid, closing := BehindName(names, "exp", ""), "]," + IatPart(now);
    BehindNameSplits(names, "exp", closing);
    assert Quote("exp") == "\"exp\"";
    StrChrSkips(Quote("exp"), mid + closing, ':');
    StrChrFinds(mid, ':');
    match StrChr(mid, ':')
    case None =>
      StrChrSkips(mid, closing, ':');
      IssueTimeBehind(now);
      var value := PrintLong(now) + ("," + ExpPart(now));
      assert (":" + value)[1..] == value;
      StrToLPrintLong(now, "," + ExpPart(now));
    case Some(colon) =>
      var before := mid[..|mid| - |colon|];
      assert mid + closing == before + (colon + closing) && (colon + closing)[0] == ':';
      StrChrSkips(before, colon + closing, ':');
      assert (colon + closing)[1..] == colon[1..] + ("]" + ("," + IatPart(now)));
      NumberStops(colon[1..], "," + IatPart(now));
  }

  /** The token is good for exactly one hour, whenever it is issued. */
  ghost predicate ExpiresOnTime(id: int, email: string, names: seq<string>) {
    forall now, t | InRange(now) ::
      Jwt.Expired(Payload(id, email, RolesText(names), now), t) <==> t >= now + LIFETIME
  }

  /** Only one expiry claim has that effect. */
  lemma OnTimeAt(payload: string, expiry: int)
    requires expiry > 0
    ensures Jwt.Expired(payload, expiry) && !Jwt.Expired(payload, expiry - 1) ==> Jwt.ExpiryOf(payload) == expiry
  {
  }

  /** It is, if and only if neither the email's printed text nor a role's ends in `exp`. */
  lemma ExpiresOnTimeIff(id: int, email: string, names: seq<string>)
    requires Guarded(email) && NamesGuarded(names)
    ensures ExpiresOnTime(id, email, names) <==> !EndsIn(email, "exp") && !SomeNameEndsIn(names, "exp")
  {
    hide Payload, Jwt.ExpiryOf, BehindName, SomeNameEndsIn, EndsIn, RolesText, StrToL, StrChr;
    if EndsIn(email, "exp") {
      EmailHidesExpiry(id, email, names, 0);
      assert !Jwt.Expired(Payload(id, email, RolesText(names), 0), LIFETIME);
    } else if SomeNameEndsIn(names, "exp") {
      RoleHidesExpiry(id, email, names, 0);
      RoleHidesExpiry(id, email, names, 1);
      var p0, p1 := Payload(id, email, RolesText(names), 0), Payload(id, email, RolesText(names), 1);
      OnTimeAt(p0, LIFETIME);
      OnTimeAt(p1, LIFETIME + 1);
    } else {
      forall now, t | InRange(now)
        ensures Jwt.Expired(Payload(id, email, RolesText(names), now), t) <==> t >= now + LIFETIME
      {
        ClaimRead(id, email, names, now);
      }
    }
  }
}
