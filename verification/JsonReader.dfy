/** A reader for JSON documents (RFC 8259) whose numbers are integers: the independent
    definition that the serializers are measured against. */
module JsonReader {
  import opened CStrings
  import opened Decimal
  import opened JsonText

  datatype Json =
    | Null
    | Bool(b: bool)
    | Num(n: int)
    | Str(s: string)
    | Arr(items: seq<Json>)
    | Obj(fields: seq<Field>)

  datatype Field = Field(key: string, value: Json)

  type Read<T> = Option<(T, string)>

  predicate IsBlank(c: char) { c == ' ' || c == '\t' || c == '\n' || c == '\r' }

  function SkipBlanks(s: string): (t: string)
    ensures |t| <= |s|
  {
    if s != [] && IsBlank(s[0]) then SkipBlanks(s[1..]) else s
  }

  function ReadWord(s: string, word: string, value: Json): (r: Read<Json>)
    requires word != []
    ensures r.Some? ==> |r.value.1| < |s|
  {
    if word <= s then Some((value, s[|word|..])) else None
  }

  function ReadNumber(s: string): (r: Read<Json>)
    ensures r.Some? ==> |r.value.1| < |s|
  {
    var negative := s != [] && s[0] == '-';
    var t := if negative then s[1..] else s;
    var digits := LeadingDigits(t);
    var rest := t[|digits|..];
    if digits == [] || (digits[0] == '0' && |digits| > 1) then None
    else if rest != [] && (rest[0] == '.' || rest[0] == 'e' || rest[0] == 'E') then None
    else Some((Num(if negative then 0 - NumberOf(digits) else NumberOf(digits)), rest))
  }

  function ReadValue(s: string): (r: Read<Json>)
    ensures r.Some? ==> |r.value.1| < |s|
    decreases |s|, 0
  {
    var t := SkipBlanks(s);
    if t == [] then None
    else if t[0] == '"' then
      match ReadBody(t[1..])
      case None => None
      case Some((text, rest)) => Some((Str(text), rest))
    else if t[0] == '[' then
      var u := SkipBlanks(t[1..]);
      if u != [] && u[0] == ']' then Some((Arr([]), u[1..]))
      else
        match ReadItems(u)
        case None => None
        case Some((items, rest)) => Some((Arr(items), rest))
    else if t[0] == '{' then
      var u := SkipBlanks(t[1..]);
      if u != [] && u[0] == '}' then Some((Obj([]), u[1..]))
      else
        match ReadFields(u)
        case None => None
        case Some((fields, rest)) => Some((Obj(fields), rest))
    else if t[0] == 't' then ReadWord(t, "true", Bool(true))
    else if t[0] == 'f' then ReadWord(t, "false", Bool(false))
    else if t[0] == 'n' then ReadWord(t, "null", Null)
    else ReadNumber(t)
  }

  /** One or more values between commas, and the closing bracket. */
  function ReadItems(s: string): (r: Read<seq<Json>>)
    ensures r.Some? ==> |r.value.1| < |s|
    decreases |s|, 1
  {
    match ReadValue(s)
    case None => None
    case Some((item, after)) =>
      var t := SkipBlanks(after);
      if t == [] then None
      else if t[0] == ']' then Some(([item], t[1..]))
      else if t[0] != ',' then None
      else
        match ReadItems(t[1..])
        case None => None
        case Some((items, rest)) => Some(([item] + items, rest))
  }

  /** One or more members between commas, and the closing brace. */
  function ReadFields(s: string): (r: Read<seq<Field>>)
    ensures r.Some? ==> |r.value.1| < |s|
    decreases |s|, 1
  {
    var t := SkipBlanks(s);
    if t == [] || t[0] != '"' then None
    else
      match ReadBody(t[1..])
      case None => None
      case Some((key, afterKey)) =>
        var u := SkipBlanks(afterKey);
        if u == [] || u[0] != ':' then None
        else
          match ReadValue(u[1..])
          case None => None
          case Some((value, after)) =>
            var v := SkipBlanks(after);
            if v == [] then None
            else if v[0] == '}' then Some(([Field(key, value)], v[1..]))
            else if v[0] != ',' then None
            else
              match ReadFields(v[1..])
              case None => None
              case Some((fields, rest)) => Some(([Field(key, value)] + fields, rest))
  }

  /** A whole document: one value and nothing but blanks behind it. */
  function ReadDocument(s: string): Option<Json> {
    match ReadValue(s)
    case None => None
    case Some((value, rest)) => if SkipBlanks(rest) == [] then Some(value) else None
  }

  // ---------- Reading what was printed ----------

  lemma ReadDec(n: nat, rest: string)
    requires rest != [] && (rest[0] == ',' || rest[0] == '}')
    ensures ReadNumber(Dec(n) + rest) == Some((Num(n), rest))
    ensures ReadNumber("-" + (Dec(n) + rest)) == Some((Num(0 - n), rest))
  {
    NumberOfDec(n);
    LeadingDigitsOf(Dec(n), rest);
    hide Dec, LeadingDigits, NumberOf;
    var s := Dec(n) + rest;
    assert s[0] == Dec(n)[0] && IsDigit(s[0]);
    assert ("-" + s)[1..] == s;
    assert s[|Dec(n)|..] == rest;
  }

  lemma ReadPrintedNumber(v: int, rest: string)
    requires rest != [] && (rest[0] == ',' || rest[0] == '}')
    ensures ReadValue(PrintLong(v) + rest) == Some((Num(v), rest))
  {
    hide ReadNumber, ReadBody, ReadItems, ReadFields, Dec;
    var s := PrintLong(v) + rest;
    if v < 0 {
      ReadDec(-v, rest);
      assert s == "-" + (Dec(-v) + rest);
    } else {
      ReadDec(v, rest);
      assert s[0] == Dec(v)[0];
    }
    assert SkipBlanks(s) == s;
  }

  function Quoted(text: string): string {
    "\"" + (Escape(text) + "\"")
  }

  function Member(key: string, text: string): string {
    "\"" + (key + ("\":" + text))
  }

  lemma ReadPrintedString(text: string, rest: string)
    ensures ReadValue(Quoted(text) + rest) == Some((Str(text), rest))
  {
    hide ReadBody, ReadItems, ReadFields, Escape;
    var body := Escape(text) + ("\"" + rest);
    ReadBodyOfEscape(text, rest);
    assert Quoted(text) + rest == "\"" + body;
    assert ("\"" + body)[1..] == body;
  }

  /** One member of an object, with the `,` or `}` behind it. */
  lemma ReadOneField(key: string, text: string, value: Json, after: string)
    requires Plain(key)
    requires after != [] && (after[0] == ',' || after[0] == '}')
    requires ReadValue(text + after) == Some((value, after))
    ensures ReadFields(Member(key, text) + after)
         == if after[0] == '}' then Some(([Field(key, value)], after[1..]))
            else match ReadFields(after[1..])
                 case None => None
                 case Some((fields, rest)) => Some(([Field(key, value)] + fields, rest))
  {
    hide ReadBody, ReadValue, Escape, Plain;
    PlainIsUnchanged(key);
    var tail := ":" + (text + after);
    var body := key + ("\"" + tail);
    ReadBodyOfEscape(key, tail);
    assert Member(key, text) + after == "\"" + body;
    assert ("\"" + body)[1..] == body;
    assert tail[1..] == text + after;
    assert SkipBlanks("\"" + body) == "\"" + body;
    assert SkipBlanks(tail) == tail && SkipBlanks(after) == after;
  }

  lemma ReadLastField(key: string, text: string, value: Json, rest: string)
    requires Plain(key) && ReadValue(text + ("}" + rest)) == Some((value, "}" + rest))
    ensures ReadFields(Member(key, text) + ("}" + rest)) == Some(([Field(key, value)], rest))
  {
    hide ReadValue, ReadFields, Member, Plain;
    ReadOneField(key, text, value, "}" + rest);
    assert ("}" + rest)[1..] == rest;
  }

  lemma ReadNextField(key: string, text: string, value: Json, more: string, fields: seq<Field>, rest: string)
    requires Plain(key) && ReadValue(text + ("," + more)) == Some((value, "," + more))
    requires ReadFields(more) == Some((fields, rest))
    ensures ReadFields(Member(key, text) + ("," + more)) == Some(([Field(key, value)] + fields, rest))
  {
    hide ReadValue, ReadFields, Member, Plain;
    ReadOneField(key, text, value, "," + more);
    assert ("," + more)[1..] == more;
  }

  lemma ReadObject(members: string)
    requires members != [] && members[0] == '"'
    ensures ReadValue("{" + members) == match ReadFields(members)
                                        case None => None
                                        case Some((f, rest)) => Some((Obj(f), rest))
  {
    hide ReadFields;
    assert ("{" + members)[1..] == members;
    assert SkipBlanks("{" + members) == "{" + members && SkipBlanks(members) == members;
  }

  /** One item of an array, with the `,` or `]` behind it. */
  lemma ReadOneItem(text: string, value: Json, after: string)
    requires after != [] && (after[0] == ',' || after[0] == ']')
    requires ReadValue(text + after) == Some((value, after))
    ensures ReadItems(text + after)
         == if after[0] == ']' then Some(([value], after[1..]))
            else match ReadItems(after[1..])
                 case None => None
                 case Some((items, rest)) => Some(([value] + items, rest))
  {
    hide ReadValue;
    assert SkipBlanks(after) == after;
  }

  lemma ReadArray(items: string)
    requires items != [] && items[0] != ']' && !IsBlank(items[0])
    ensures ReadValue("[" + items) == match ReadItems(items)
                                      case None => None
                                      case Some((v, rest)) => Some((Arr(v), rest))
  {
    hide ReadItems;
    assert ("[" + items)[1..] == items;
    assert SkipBlanks("[" + items) == "[" + items && SkipBlanks(items) == items;
  }
}
