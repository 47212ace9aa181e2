/** How a request is matched to a user: `parse_user_from_payload` and
    `extract_current_user` of the C service. */
module CurrentUser {
  import opened CStrings
  import opened Decimal
  import opened Claims
  import opened Jwt
  import opened Session
  import Base64Url
  import Cookie

  const FIELD_CAP: nat := 256
  const ID_CAP: nat := 64

  // ---------- Parts of a C string are C strings ----------

  lemma {:induction false} StrStrKeeps(s: string, pat: string, c: char)
    requires c !in s
    ensures StrStr(s, pat).Some? ==> c !in StrStr(s, pat).value
  {
    if !(pat <= s) && s != [] {
      StrStrKeeps(s[1..], pat, c);
    }
  }

  lemma {:induction false} StrChrKeeps(s: string, d: char, c: char)
    requires c !in s
    ensures StrChr(s, d).Some? ==> c !in StrChr(s, d).value
  {
    if s != [] && s[0] != d {
      StrChrKeeps(s[1..], d, c);
    }
  }

  lemma EmailIsWhole(payload: string)
    requires '\0' !in payload
    ensures '\0' !in EmailOf(payload)
  {
    hide StrStr, StrChr;
    StrStrKeeps(payload, "\"email\"", '\0');
    var em := StrStr(payload, "\"email\"");
    if em.Some? {
      StrChrKeeps(em.value, ':', '\0');
      var colon := StrChr(em.value, ':');
      if colon.Some? {
        StrChrKeeps(colon.value, '"', '\0');
      }
    }
  }

  lemma RolesAreWhole(payload: string)
    requires '\0' !in payload
    ensures '\0' !in RolesOf(payload)
  {
    hide StrStr, StrChr;
    StrStrKeeps(payload, "\"roles\"", '\0');
    var rl := StrStr(payload, "\"roles\"");
    if rl.Some? {
      StrChrKeeps(rl.value, ':', '\0');
      var colon := StrChr(rl.value, ':');
      if colon.Some? {
        StrChrKeeps(colon.value, '[', '\0');
      }
    }
  }

  lemma EmptyCString(buf: string)
    requires forall k :: 0 <= k < |buf| ==> buf[k] == '\0'
    ensures CString(buf) == ""
  {
  }

  /** `memcpy(field, s, |s|); field[|s|] = '\0'`. */
  method CopyField(field: array<char>, s: string)
    requires |s| < field.Length
    modifies field
    ensures '\0' !in s ==> CString(field[..]) == s
  {
    CopyInto(field, 0, s);
    field[|s|] := '\0';
    if '\0' !in s {
      BufferHolds(s, field[..]);
    }
  }

  /** `current_user_t`. */
  class Current {
    var present: bool
    var id: int
    const email: array<char>
    const roles: array<char>

    ghost predicate Shape() {
      email.Length == FIELD_CAP && roles.Length == FIELD_CAP && email != roles
    }

    ghost function Who(): Identity
      reads this, email, roles
    {
      Identity(id, CString(email[..]), CString(roles[..]))
    }

    constructor ()
      ensures Shape() && fresh(email) && fresh(roles)
    {
      email := new char[FIELD_CAP];
      roles := new char[FIELD_CAP];
      present, id := false, 0;
    }

    /** `memset(u, 0, sizeof(*u))`. */
    method Clear()
      requires Shape()
      modifies this, email, roles
      ensures !present && Who() == Identity(0, "", "")
    {
      present, id := false, 0;
      forall k | 0 <= k < email.Length {
        email[k] := '\0';
      }
      forall k | 0 <= k < roles.Length {
        roles[k] := '\0';
      }
      EmptyCString(email[..]);
      EmptyCString(roles[..]);
    }

    method ReadSub(payload: string)
      requires Shape() && id == 0 && '\0' !in payload
      modifies this`id
      ensures id == SubOf(payload)
    {
      hide StrStr, StrChr, StrToL;
      var sub := StrStr(payload, "\"sub\"");
      StrStrKeeps(payload, "\"sub\"", '\0');
      if sub.Some? {
        var q := StrChr(sub.value, '"');
        StrChrKeeps(sub.value, '"', '\0');
        if q.Some? {
          StrChrKeeps(q.value[1..], '"', '\0');
          q := StrChr(q.value[1..], '"');
        }
        if q.Some? {
          StrChrKeeps(q.value[1..], '"', '\0');
          q := StrChr(q.value[1..], '"');
        }
        if q.Some? {
          var e := StrChr(q.value[1..], '"');
          if e.Some? {
            var text := Between(q.value, e.value);
            if |text| < ID_CAP {
              var tmp := new char[ID_CAP];
              CopyField(tmp, text);
              id := StrToL(CString(tmp[..]));
            }
          }
        }
      }
    }

    method ReadEmail(payload: string)
      requires Shape() && CString(email[..]) == "" && '\0' !in payload
      modifies email
      ensures CString(email[..]) == EmailOf(payload)
    {
      hide StrStr, StrChr, CString;
      EmailIsWhole(payload);
      var em := StrStr(payload, "\"email\"");
      if em.Some? {
        var q := StrChr(em.value, ':');
        if q.Some? {
          var o := StrChr(q.value, '"');
          if o.Some? {
            var e := StrChr(o.value[1..], '"');
            if e.Some? {
              var text := Between(o.value, e.value);
              if |text| < FIELD_CAP {
                CopyField(email, text);
              }
            }
          }
        }
      }
    }

    method ReadRoles(payload: string)
      requires Shape() && CString(roles[..]) == "" && '\0' !in payload
      modifies roles
      ensures CString(roles[..]) == RolesOf(payload)
    {
      hide StrStr, StrChr, CString;
      RolesAreWhole(payload);
      var rl := StrStr(payload, "\"roles\"");
      if rl.Some? {
        var colon := StrChr(rl.value, ':');
        if colon.Some? {
          var o := StrChr(colon.value, '[');
          var e := if o.Some? then StrChr(o.value, ']') else None;
          if o.Some? && e.Some? && |o.value| - |e.value| + 1 < FIELD_CAP {
            CopyField(roles, o.value[..|o.value| - |e.value| + 1]);
          }
        }
      }
    }

    /** `parse_user_from_payload`. */
    method Parse(payload: string)
      requires Shape() && '\0' !in payload
      modifies this, email, roles
      ensures Who() == IdentityIn(payload)
      ensures present == (id > 0)
    {
      hide SubOf, EmailOf, RolesOf;
      Clear();
      ReadSub(payload);
      ReadEmail(payload);
      ReadRoles(payload);
      present := id > 0;
    }

    /** `extract_current_user`; `None` is a request without a Cookie header. */
    method Extract(mac: Mac, header: Option<string>, secret: string, now: int, hmac: bool) returns (ok: bool)
      requires Shape()
      modifies this, email, roles
      ensures ok <==> hmac && header.Some? && exists who :: Authenticates(mac, header.value, secret, now, who)
      ensures ok ==> present && Authenticates(mac, header.value, secret, now, Who())
    {
      hide IdentityIn, Base64Url.Encode, Base64Url.Decode, Expired;
      Clear();
      if secret == "" {
        return false;
      }
      if header.None? || header.value == "" {
        Cookie.EmptyHeader();
        return false;
      }
      var token := new char[TOKEN_CAP];
      var tn := Cookie.GetSession(header.value, token, TOKEN_CAP);
      if tn < 0 {
        return false;
      }
      var payload := new char[PAYLOAD_CAP];
      var r := Verify(mac, token[..tn], secret, now, payload, PAYLOAD_CAP, hmac);
      if r != 0 {
        return false;
      }
      CStringHasNoNul(payload[..]);
      ghost var claims := CString(payload[..]);
      Parse(CString(payload[..]));
      ok := present;
      ghost var cookie := token[..tn];
      assert forall p :: Accepted(mac, cookie, secret, now, PAYLOAD_CAP, p) ==>
                         CString(Base64Url.Decode(p).value) == claims;
      assert forall who :: Authenticates(mac, header.value, secret, now, who) ==> who == Who();
      assert ok ==> Authenticates(mac, header.value, secret, now, Who());
    }
  }

  lemma {:induction false} CStringHasNoNul(s: string)
    ensures '\0' !in CString(s)
  {
    if s != [] && s[0] != '\0' {
      CStringHasNoNul(s[1..]);
    }
  }
}
