/** What a user agent does with cookies: it reads a Set-Cookie line (section 5.2 of RFC 6265)
    and sends the pair back in a Cookie header (section 4.2.1). */
module UserAgent {
  import opened CStrings
  import opened Cookie

  datatype Attribute = Attribute(name: string, value: string)

  datatype Stored = Stored(name: string, value: string, attributes: seq<Attribute>)

  /** The pieces of a text between separators. */
  function Split(s: string, c: char): (pieces: seq<string>)
    ensures pieces != []
    decreases |s|
  {
    match StrChr(s, c)
    case None => [s]
    case Some(r) =>
      StrChrFinds(s, c);
      [s[..|s| - |r|]] + Split(r[1..], c)
  }

  predicate IsBlank(c: char) { c == ' ' || c == '\t' }

  function TrimLeft(s: string): string {
    if s != [] && IsBlank(s[0]) then TrimLeft(s[1..]) else s
  }

  function TrimRight(s: string): string {
    if s != [] && IsBlank(s[|s| - 1]) then TrimRight(s[..|s| - 1]) else s
  }

  function Trim(s: string): string { TrimRight(TrimLeft(s)) }

  /** A name and what stands behind its first `=`, if there is one. */
  function ReadAttribute(piece: string): Attribute {
    match StrChr(piece, '=')
    case None => Attribute(Trim(piece), "")
    case Some(eq) =>
      StrChrFinds(piece, '=');
      Attribute(Trim(piece[..|piece| - |eq|]), Trim(eq[1..]))
  }

  function ReadAttributes(pieces: seq<string>): (attributes: seq<Attribute>)
    ensures |attributes| == |pieces|
    ensures forall i :: 0 <= i < |pieces| ==> attributes[i] == ReadAttribute(pieces[i])
  {
    seq(|pieces|, i requires 0 <= i < |pieces| => ReadAttribute(pieces[i]))
  }

  /** A line without a `=` in its first piece, or without a name, is ignored. */
  function ReadSetCookie(line: string): Option<Stored> {
    var pieces := Split(line, ';');
    var pair := ReadAttribute(pieces[0]);
    if '=' !in pieces[0] || pair.name == "" then None
    else Some(Stored(pair.name, pair.value, ReadAttributes(pieces[1..])))
  }

  /** A header that sends this cookie back among well-formed others, none of them before it
      another session. */
  ghost predicate Sends(header: string, name: string, value: string) {
    exists before: seq<Pair>, after: seq<Pair> ::
      && header == Join(before + [Pair(name, value)] + after)
      && (forall p :: p in before + after ==> WellFormed(p))
      && forall p :: p in before ==> !IsSessionName(p.name)
  }

  ghost predicate SendsBack(header: string, line: string) {
    var c := ReadSetCookie(line);
    c.Some? && Sends(header, c.value.name, c.value.value)
  }

  lemma SplitFirst(a: string, c: char, rest: string)
    requires c !in a
    ensures Split(a + ([c] + rest), c) == [a] + Split(rest, c)
  {
    StrChrSkips(a, [c] + rest, c);
    assert ([c] + rest)[1..] == rest;
  }

  lemma SplitNone(a: string, c: char)
    requires c !in a
    ensures Split(a, c) == [a]
  {
    StrChrFinds(a, c);
  }

  lemma TrimNothing(s: string)
    requires s == "" || (!IsBlank(s[0]) && !IsBlank(s[|s| - 1]))
    ensures Trim(s) == s && Trim(" " + s) == s
  {
    assert (" " + s)[1..] == s;
  }

  /** How a piece is read that is printed as it should be read, behind a blank or not. */
  lemma ReadsPair(name: string, value: string)
    requires '=' !in name && name != "" && !IsBlank(name[0]) && !IsBlank(name[|name| - 1])
    requires value == "" || (!IsBlank(value[0]) && !IsBlank(value[|value| - 1]))
    ensures ReadAttribute(name + ("=" + value)) == Attribute(name, value)
    ensures ReadAttribute(" " + (name + ("=" + value))) == Attribute(name, value)
    ensures ReadAttribute(" " + name) == Attribute(name, "")
  {
    hide Trim;
    TrimNothing(name);
    TrimNothing(value);
    StrChrSkips(name, "=" + value, '=');
    StrChrSkips(" " + name, "=" + value, '=');
    assert " " + (name + ("=" + value)) == (" " + name) + ("=" + value);
    assert ("=" + value)[1..] == value;
    StrChrFinds(" " + name, '=');
    assert (name + ("=" + value))[..|name|] == name;
    assert ((" " + name) + ("=" + value))[..|name| + 1] == " " + name;
  }
}
