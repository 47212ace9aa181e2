/** The role gate: a scan of the raw role array for any of the wanted names. */
module Roles {
  import opened CStrings
  import opened Sequences
  import opened Claims
  import JsonText

  /** The words that the scan takes out of a text, quote by quote. */
  function QuotedWords(s: string): seq<string>
    decreases |s|
  {
    match StrChr(s, '"')
    case None => []
    case Some(open) =>
      match StrChr(open[1..], '"')
      case None => []
      case Some(close) => [Between(open, close)] + QuotedWords(close[1..])
  }

  predicate AnyWanted(words: seq<string>, wanted: seq<string>) {
    exists w :: w in words && w in wanted
  }

  lemma AnyWantedAt(words: seq<string>, wanted: seq<string>)
    ensures AnyWanted(words, wanted) <==>
              exists i, j :: 0 <= i < |words| && 0 <= j < |wanted| && words[i] == wanted[j]
  {
    if w :| w in words && w in wanted {
      var i :| 0 <= i < |words| && words[i] == w;
      var j :| 0 <= j < |wanted| && wanted[j] == w;
      assert words[i] == wanted[j];
    }
    if i, j :| 0 <= i < |words| && 0 <= j < |wanted| && words[i] == wanted[j] {
      assert words[i] in words && words[i] in wanted;
    }
  }

  lemma NextWord(w: string, rest: string)
    requires '"' !in w
    ensures QuotedWords(Quote(w) + rest) == [w] + QuotedWords(rest)
  {
    hide StrChr, Between;
    QuotedValue(w, rest);
    assert ("\"" + rest)[1..] == rest;
  }

  lemma SkipUnquoted(a: string, rest: string)
    requires '"' !in a
    ensures QuotedWords(a + rest) == QuotedWords(rest)
  {
    StrChrSkips(a, rest, '"');
  }

  lemma {:induction false} WordsOfNames(names: seq<string>, rest: string)
    requires forall n :: n in names ==> '"' !in n
    ensures QuotedWords(JoinNames(names) + rest) == names + QuotedWords(rest)
  {
    hide QuotedWords, Quote;
    if names == [] {
      assert JoinNames(names) + rest == rest;
    } else if |names| == 1 {
      NextWord(names[0], rest);
    } else {
      hide JoinNames;
      var tail := JoinNames(names[1..]) + rest;
      WordsOfNames(names[1..], rest);
      JoinNamesThen(names, rest);
      NextWord(names[0], ", " + tail);
      SkipUnquoted(", ", tail);
      Regroup([names[0]], names[1..], QuotedWords(rest));
      assert [names[0]] + names[1..] == names;
    }
  }

  lemma {:induction false} WordsHaveNoQuotes(s: string)
    ensures forall w :: w in QuotedWords(s) ==> '"' !in w
    decreases |s|
  {
    var open := StrChr(s, '"');
    if open.Some? && StrChr(open.value[1..], '"').Some? {
      var close := StrChr(open.value[1..], '"').value;
      WordsHaveNoQuotes(close[1..]);
      StrChrFinds(open.value[1..], '"');
      hide StrChr;
      assert Between(open.value, close) == open.value[1..][..|open.value[1..]| - |close|];
    }
  }

  lemma FirstWord(s: string) returns (open: string, close: string)
    requires QuotedWords(s) != []
    ensures 0 < |close| < |open| <= |s| && close[0] == '"'
    ensures open == s[|s| - |open|..] && close == open[1..][|open| - 1 - |close|..]
    ensures QuotedWords(s) == [Between(open, close)] + QuotedWords(close[1..])
  {
    hide StrChr, Between;
    open := StrChr(s, '"').value;
    close := StrChr(open[1..], '"').value;
    Suffix(s);
    Suffix(open[1..]);
  }

  lemma Suffix(s: string)
    requires StrChr(s, '"').Some?
    ensures var r := StrChr(s, '"').value;
            0 < |r| <= |s| && r == s[|s| - |r|..] && r[0] == '"'
  {
    StrChrFinds(s, '"');
  }

  /** Where the first word stands. */
  lemma FirstWordAt(s: string) returns (i: nat, j: nat)
    requires QuotedWords(s) != []
    ensures i < j < |s| && s[j] == '"' && QuotedWords(s) == [s[i + 1..j]] + QuotedWords(s[j + 1..])
  {
    hide QuotedWords;
    var open, close := FirstWord(s);
    i, j := |s| - |open|, |s| - |close|;
    DropTwice(s, i, 1);
    DropTwice(s, i + 1, j - i - 1);
    DropTwice(s, j, 1);
    MiddleOf(s, i, j);
  }

  lemma MiddleOf(s: string, i: nat, j: nat)
    requires i < j <= |s|
    ensures s[i..][1..j - i] == s[i + 1..j]
  {
  }

  /** A character that can only be the last one of the text is in no word. */
  lemma {:induction false} WordsLackLast(s: string, c: char)
    requires c != '"' && forall k :: 0 <= k < |s| - 1 ==> s[k] != c
    ensures forall w :: w in QuotedWords(s) ==> c !in w
    decreases |s|
  {
    hide QuotedWords;
    if QuotedWords(s) != [] {
      var i, j := FirstWordAt(s);
      WordsLackLast(s[j + 1..], c);
    }
  }

  /** The scan sees exactly the granted roles if and only if none of them holds a quote. */
  lemma ScanSeesRoles(names: seq<string>)
    ensures QuotedWords(RolesText(names)) == names <==> forall n :: n in names ==> '"' !in n
  {
    hide QuotedWords, JoinNames;
    WordsHaveNoQuotes(RolesText(names));
    if forall n :: n in names ==> '"' !in n {
      SkipUnquoted("[", JoinNames(names) + "]");
      WordsOfNames(names, "]");
      SkipUnquoted("]", "");
      assert "]" + "" == "]";
      assert QuotedWords("") == [] && names + [] == names by {
        NoWords();
      }
    }
  }

  lemma NoWords()
    ensures QuotedWords("") == []
  {
  }

  /** Hence scanning a whole printed array decides exactly, whichever roles are wanted, if
      and only if none of its printed roles holds a quote. */
  lemma ScanIsExactIff(names: seq<string>)
    ensures (forall wanted :: AnyWanted(QuotedWords(RolesText(names)), wanted) <==> AnyWanted(names, wanted))
       <==> (forall n :: n in names ==> '"' !in n)
  {
    hide QuotedWords, RolesText;
    ScanSeesRoles(names);
    WordsHaveNoQuotes(RolesText(names));
    if n :| n in names && '"' in n {
      assert n in [n] && AnyWanted(names, [n]);
      assert !AnyWanted(QuotedWords(RolesText(names)), [n]);
    }
  }

  /** With a quote in a role the scan can even see another role: in the printed array of the
      one role `x","admin` it sees the word `admin`. */
  lemma QuoteMisleadsScan()
    ensures var name, wanted := JsonText.Escape("x\",\"admin"), ["writer", "admin"];
            !AnyWanted([name], wanted) && AnyWanted(QuotedWords(RolesText([name])), wanted)
  {
    hide QuotedWords, Quote, JsonText.Escape, RolesText;
    EscapedRole();
    var printed := Quote("x\\") + (",\\" + (Quote("admin") + "]"));
    PrintedRole();
    SkipUnquoted("[", printed);
    NextWord("x\\", ",\\" + (Quote("admin") + "]"));
    SkipUnquoted(",\\", Quote("admin") + "]");
    NextWord("admin", "]");
    assert "admin" in QuotedWords("[" + printed);
  }

  lemma PrintedRole()
    ensures RolesText(["x\\\",\\\"admin"]) == "[" + (Quote("x\\") + (",\\" + (Quote("admin") + "]")))
  {
    assert JoinNames(["x\\\",\\\"admin"]) == Quote("x\\\",\\\"admin");
  }

  lemma EscapedRole()
    ensures JsonText.Escape("x\",\"admin") == "x\\\",\\\"admin"
  {
    assert JsonText.Plain("admin");
    JsonText.PlainIsUnchanged("admin");
    hide JsonText.Escape, JsonText.EscapeChar;
    var t1 := ['"'] + "admin";
    var t2 := [','] + t1;
    var t3 := ['"'] + t2;
    EscapeFirst('"', "admin", "\\\"");
    EscapeFirst(',', t1, ",");
    EscapeFirst('"', t2, "\\\"");
    EscapeFirst('x', t3, "x");
    RoleTexts(t1, t2, t3);
  }

  lemma RoleTexts(t1: string, t2: string, t3: string)
    requires t1 == ['"'] + "admin" && t2 == [','] + t1 && t3 == ['"'] + t2
    ensures ['x'] + t3 == "x\",\"admin"
    ensures "x" + ("\\\"" + ("," + ("\\\"" + "admin"))) == "x\\\",\\\"admin"
  {
  }

  lemma EscapeFirst(c: char, rest: string, e: string)
    requires e == (if c == '"' then "\\\"" else [c]) && c != '\\' && c as int >= 0x20
    ensures JsonText.Escape([c] + rest) == e + JsonText.Escape(rest)
  {
    assert ([c] + rest)[1..] == rest;
  }

  /** `roles_contains_any` of the C service: whether some scanned word is some wanted one. */
  method ContainsAny(roles: string, wanted: seq<string>) returns (found: bool)
    ensures found <==> exists i, j :: 0 <= i < |QuotedWords(roles)| && 0 <= j < |wanted|
                                   && QuotedWords(roles)[i] == wanted[j]
    ensures found <==> AnyWanted(QuotedWords(roles), wanted)
  {
    hide StrChr;
    AnyWantedAt(QuotedWords(roles), wanted);
    if |roles| < 2 {
      TooShort(roles);
      return false;
    }
    var p := roles;
    while p != []
      invariant AnyWanted(QuotedWords(roles), wanted) <==> AnyWanted(QuotedWords(p), wanted)
      decreases |p|
    {
      if p[0] == '"' {
        AtQuote(p);
        var q := StrChr(p[1..], '"');
        if q.None? {
          return false;
        }
        var word := Between(p, q.value);
        for i := 0 to |wanted|
          invariant word !in wanted[..i]
        {
          if word == wanted[i] {
            assert word in QuotedWords(p) && word in wanted;
            return true;
          }
          assert wanted[..i + 1] == wanted[..i] + [wanted[i]];
        }
        assert wanted[..|wanted|] == wanted;
        assert QuotedWords(p) == [word] + QuotedWords(q.value[1..]);
        p := q.value[1..];
      } else {
        SkipUnquoted(p[..1], p[1..]);
        assert p[..1] + p[1..] == p;
        p := p[1..];
      }
    }
    NoWords();
    return false;
  }

  lemma AtQuote(p: string)
    requires p != [] && p[0] == '"'
    ensures StrChr(p, '"') == Some(p)
  {
  }

  lemma TooShort(s: string)
    requires |s| < 2
    ensures QuotedWords(s) == []
  {
  }
}
