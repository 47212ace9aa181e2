/** The claims that login prints are a JSON document (RFC 8259), whatever the email and the
    roles are: a service that parses them instead of scanning gets exactly the user. */
module ClaimsJson {
  import opened CStrings
  import opened Decimal
  import opened Claims
  import opened JsonReader
  import opened Session
  import opened RoleGate
  import opened Sequences
  import JsonText

  function Strings(texts: seq<string>): (items: seq<Json>)
    ensures |items| == |texts| && forall i :: 0 <= i < |texts| ==> items[i] == Str(texts[i])
  {
    seq(|texts|, i requires 0 <= i < |texts| => Str(texts[i]))
  }

  lemma KeyIsMember(key: string, text: string, after: string)
    ensures Quote(key) + (":" + (text + after)) == Member(key, text) + after
  {
  }

  lemma ValueBehindBlank(s: string)
    ensures ReadValue(" " + s) == ReadValue(s)
  {
    hide ReadItems, ReadFields, JsonText.ReadBody, ReadNumber, ReadWord;
    assert (" " + s)[1..] == s;
    assert SkipBlanks(" " + s) == SkipBlanks(s);
  }

  lemma BlankIsSkipped(s: string)
    ensures ReadItems(" " + s) == ReadItems(s)
  {
    hide ReadValue;
    ValueBehindBlank(s);
  }

  lemma JoinEscapedThen(granted: seq<string>, rest: string)
    requires |granted| > 1
    ensures JoinNames(Escaped(granted)) + rest
         == Quoted(granted[0]) + ("," + (" " + (JoinNames(Escaped(granted[1..])) + rest)))
  {
    hide JsonText.Escape;
    assert Escaped(granted)[1..] == Escaped(granted[1..]);
    JoinNamesThen(Escaped(granted), rest);
    assert ", " + (JoinNames(Escaped(granted[1..])) + rest) == "," + (" " + (JoinNames(Escaped(granted[1..])) + rest));
  }

  lemma {:induction false} RolesItems(granted: seq<string>, rest: string)
    requires granted != []
    ensures ReadItems(JoinNames(Escaped(granted)) + ("]" + rest)) == Some((Strings(granted), rest))
  {
    hide ReadItems, ReadValue, JsonText.Escape, JoinNames, Quoted;
    var end := "]" + rest;
    if |granted| == 1 {
      ReadPrintedString(granted[0], end);
      ReadOneItem(Quoted(granted[0]), Str(granted[0]), end);
      OneName(granted);
      assert end[1..] == rest;
      assert Strings(granted) == [Str(granted[0])];
    } else {
      var more := JoinNames(Escaped(granted[1..])) + end;
      RolesItems(granted[1..], rest);
      JoinEscapedThen(granted, end);
      ReadPrintedString(granted[0], "," + (" " + more));
      ReadOneItem(Quoted(granted[0]), Str(granted[0]), "," + (" " + more));
      assert ("," + (" " + more))[1..] == " " + more;
      BlankIsSkipped(more);
      assert Strings(granted) == [Str(granted[0])] + Strings(granted[1..]);
    }
  }

  lemma OneName(granted: seq<string>)
    requires |granted| == 1
    ensures JoinNames(Escaped(granted)) == Quoted(granted[0])
  {
    hide JsonText.Escape;
  }

  /** A printed role array reads back as the granted roles, whatever they hold. */
  lemma RolesRead(granted: seq<string>, rest: string)
    ensures ReadValue(RolesText(Escaped(granted)) + rest) == Some((Arr(Strings(granted)), rest))
  {
    hide ReadItems, JsonText.Escape;
    var items := JoinNames(Escaped(granted)) + ("]" + rest);
    assert RolesText(Escaped(granted)) + rest == "[" + items;
    if granted == [] {
      assert items == "]" + rest && ("[" + items)[1..] == items && items[1..] == rest;
      assert SkipBlanks("[" + items) == "[" + items && SkipBlanks(items) == items;
      assert Strings(granted) == [];
    } else {
      RolesItems(granted, rest);
      assert items[0] == '"';
      ReadArray(items);
    }
  }

  lemma QuotedNumber(v: int)
    ensures Quote(PrintLong(v)) == Quoted(PrintLong(v))
  {
    PrintedNumberIsPlain(v);
    var digits := Dec(if v < 0 then -v else v);
    hide Dec;
    assert JsonText.Plain(PrintLong(v));
    JsonText.PlainIsUnchanged(PrintLong(v));
  }

  lemma PlainKeys()
    ensures JsonText.Plain("sub") && JsonText.Plain("email") && JsonText.Plain("roles")
    ensures JsonText.Plain("iat") && JsonText.Plain("exp")
  {
  }

  function IatFields(now: int): seq<Field> {
    [Field("iat", Num(now)), Field("exp", Num(now + LIFETIME))]
  }

  lemma IatReads(now: int)
    ensures ReadFields(IatPart(now)) == Some((IatFields(now), ""))
  {
    PlainKeys();
    hide ReadValue, ReadFields, PrintLong, Member, Quote, JsonText.Plain;
    ReadPrintedNumber(now + LIFETIME, "}");
    assert "}" + "" == "}";
    ReadLastField("exp", PrintLong(now + LIFETIME), Num(now + LIFETIME), "");
    KeyIsMember("exp", PrintLong(now + LIFETIME), "}");
    ReadPrintedNumber(now, "," + ExpPart(now));
    ReadNextField("iat", PrintLong(now), Num(now), ExpPart(now), [Field("exp", Num(now + LIFETIME))], "");
    KeyIsMember("iat", PrintLong(now), "," + ExpPart(now));
    assert [Field("iat", Num(now))] + [Field("exp", Num(now + LIFETIME))] == IatFields(now);
  }

  function UserFields(id: int, email: string, granted: seq<string>): seq<Field> {
    [Field("sub", Str(PrintLong(id))), Field("email", Str(email)), Field("roles", Arr(Strings(granted)))]
  }

  lemma FieldsRead(id: int, email: string, granted: seq<string>, now: int)
    ensures ReadFields(Quote("sub") + (":" + (Quote(PrintLong(id)) +
                         ("," + EmailPart(JsonText.Escape(email), RolesText(Escaped(granted)), now)))))
         == Some((UserFields(id, email, granted) + IatFields(now), ""))
  {
    PlainKeys();
    hide ReadValue, ReadFields, PrintLong, Member, JsonText.Escape, RolesText, IatPart, JsonText.Plain;
    var roles, e := RolesText(Escaped(granted)), JsonText.Escape(email);
    IatReads(now);
    RolesRead(granted, "," + IatPart(now));
    ReadNextField("roles", roles, Arr(Strings(granted)), IatPart(now), IatFields(now), "");
    KeyIsMember("roles", roles, "," + IatPart(now));
    var f1 := [Field("roles", Arr(Strings(granted)))] + IatFields(now);
    assert Quote(e) == Quoted(email);
    hide Quote, Quoted;
    var part := RolesPart(roles, now);
    ReadPrintedString(email, "," + part);
    ReadNextField("email", Quoted(email), Str(email), part, f1, "");
    KeyIsMember("email", Quoted(email), "," + part);
    var f2 := [Field("email", Str(email))] + f1;
    QuotedNumber(id);
    ReadPrintedString(PrintLong(id), "," + EmailPart(e, roles, now));
    ReadNextField("sub", Quoted(PrintLong(id)), Str(PrintLong(id)), EmailPart(e, roles, now), f2, "");
    KeyIsMember("sub", Quoted(PrintLong(id)), "," + EmailPart(e, roles, now));
    assert [Field("sub", Str(PrintLong(id)))] + f2 == UserFields(id, email, granted) + IatFields(now);
  }

  /** For every user: the claims are an object of the id as a string, the email, the array of
      the granted roles, the issue time, and the time an hour later. */
  lemma ClaimsAreJson(user: User, granted: seq<string>, now: int)
    requires Grants(user, granted)
    ensures ReadDocument(ClaimsOf(user, now))
         == Some(Obj([Field("sub", Str(PrintLong(user.id))), Field("email", Str(user.email)),
                      Field("roles", Arr(Strings(granted))), Field("iat", Num(now)), Field("exp", Num(now + 3600))]))
  {
    hide ReadValue, ReadFields, PrintLong, JsonText.Escape, RolesText, EmailPart, Strings;
    FieldsRead(user.id, user.email, granted, now);
    var members := Quote("sub") + (":" + (Quote(PrintLong(user.id)) +
                     ("," + EmailPart(JsonText.Escape(user.email), RolesText(Escaped(granted)), now))));
    assert members[0] == '"';
    ReadObject(members);
    assert ClaimsOf(user, now) == "{" + members;
    assert UserFields(user.id, user.email, granted) + IatFields(now)
        == [Field("sub", Str(PrintLong(user.id))), Field("email", Str(user.email)),
            Field("roles", Arr(Strings(granted))), Field("iat", Num(now)), Field("exp", Num(now + 3600))];
  }
}
