/** Bytes, C strings and the libc routines the C service scans them with.
    A `char` pointer into a string is modelled by the suffix it points at. */
module CStrings {

  type byte = c: char | c as int < 256

  type Text = seq<byte>

  datatype Option<+T> = None | Some(value: T)

  const INT_MAX: int := 0x7fff_ffff
  const LONG_MAX: int := 0x7fff_ffff_ffff_ffff
  const LONG_MIN: int := -0x8000_0000_0000_0000

  /** The value of `(int)n` for an unsigned `n`: two's complement, 32 bits. */
  function ToInt(n: nat): (i: int)
    ensures i <= n && (n <= INT_MAX ==> i == n)
  {
    var low := n % 0x1_0000_0000;
    if low <= INT_MAX then low else low - 0x1_0000_0000
  }

  /** What `snprintf` returns for a text of `n` bytes: -1 when an int cannot hold it. */
  function PrintedLength(n: nat): int
  {
    if n <= INT_MAX then n else -1
  }

  predicate IsText(s: string) {
    forall i :: 0 <= i < |s| ==> s[i] as int < 256
  }

  /** The C string that starts a buffer: everything before the first NUL. */
  function CString(s: string): string {
    if s == [] || s[0] == '\0' then [] else [s[0]] + CString(s[1..])
  }

  lemma {:induction false} CStringWhole(s: string)
    requires '\0' !in s
    ensures CString(s) == s
  {
    if s != [] {
      CStringWhole(s[1..]);
      assert s == [s[0]] + s[1..];
    }
  }

  /** What a NUL cuts off does not matter. */
  lemma {:induction false} CStringOfBuffer(s: string, rest: string)
    ensures CString(s + ['\0'] + rest) == CString(s)
  {
    var buf := s + ['\0'] + rest;
    if s != [] && s[0] != '\0' {
      CStringOfBuffer(s[1..], rest);
      assert buf[0] == s[0];
      assert buf[1..] == s[1..] + ['\0'] + rest;
    }
  }

  /** `strchr` and `memchr`: the rest of the string from its first `c` on. */
  function StrChr(s: string, c: char): (r: Option<string>)
    ensures r.Some? ==> r.value != [] && r.value[0] == c && |r.value| <= |s|
  {
    if s == [] then None
    else if s[0] == c then Some(s)
    else StrChr(s[1..], c)
  }

  /** `strstr`: the rest of the string from the first match on. */
  function StrStr(s: string, pat: string): Option<string> {
    if pat <= s then Some(s)
    else if s == [] then None
    else StrStr(s[1..], pat)
  }

  lemma {:induction false} StrChrFinds(s: string, c: char)
    ensures StrChr(s, c).None? <==> c !in s
    ensures StrChr(s, c).Some? ==>
              var r := StrChr(s, c).value;
              && 0 < |r| <= |s| && r[0] == c
              && r == s[|s| - |r|..] && c !in s[..|s| - |r|]
  {
    if s != [] && s[0] != c {
      StrChrFinds(s[1..], c);
      if StrChr(s, c).Some? {
        var r := StrChr(s, c).value;
        assert s[..|s| - |r|] == [s[0]] + s[1..][..|s[1..]| - |r|];
      }
    }
  }

  lemma StrChrSplits(s: string, c: char)
    requires StrChr(s, c).Some?
    ensures var r := StrChr(s, c).value;
            |r| <= |s| && s == s[..|s| - |r|] + [c] + r[1..] && c !in s[..|s| - |r|]
  {
    StrChrFinds(s, c);
    hide StrChr;
    var r := StrChr(s, c).value;
    assert r == [c] + r[1..];
    var before := s[..|s| - |r|];
    assert s == before + s[|s| - |r|..];
    assert before + ([c] + r[1..]) == before + [c] + r[1..];
  }

  /** Cutting at a separator: what stands before it and the string from it on. */
  lemma StrChrAt(a: string, c: char, b: string)
    requires c !in a
    ensures StrChr(a + [c] + b, c) == Some([c] + b)
  {
    StrChrSkips(a, [c] + b, c);
    assert a + [c] + b == a + ([c] + b);
  }

  lemma {:induction false} StrChrSkips(a: string, b: string, c: char)
    requires c !in a
    ensures StrChr(a + b, c) == StrChr(b, c)
  {
    if a == [] {
      assert a + b == b;
    } else {
      assert (a + b)[1..] == a[1..] + b;
      StrChrSkips(a[1..], b, c);
    }
  }

  /** A pattern can only match where its first character stands. */
  lemma {:induction false} StrStrSkips(a: string, b: string, pat: string)
    requires pat != [] && pat[0] !in a
    ensures StrStr(a + b, pat) == StrStr(b, pat)
  {
    if a == [] {
      assert a + b == b;
    } else {
      assert (a + b)[0] == a[0] && a[0] in a;
      assert (a + b)[1..] == a[1..] + b;
      StrStrSkips(a[1..], b, pat);
    }
  }

  /** `strstr` finds the first match, if there is one. */
  lemma {:induction false} StrStrFinds(s: string, pat: string)
    ensures StrStr(s, pat).None? <==> forall i :: 0 <= i <= |s| ==> !(pat <= s[i..])
    ensures StrStr(s, pat).Some? ==>
              var r := StrStr(s, pat).value;
              && |r| <= |s| && r == s[|s| - |r|..] && pat <= r
              && forall i :: 0 <= i < |s| - |r| ==> !(pat <= s[i..])
  {
    assert s[0..] == s;
    if !(pat <= s) && s != [] {
      StrStrFinds(s[1..], pat);
      assert forall i :: 1 <= i <= |s| ==> s[i..] == s[1..][i - 1..];
      if StrStr(s, pat).None? {
        forall i | 0 <= i <= |s|
          ensures !(pat <= s[i..])
        {
          if i > 0 {
            assert !(pat <= s[1..][i - 1..]);
          }
        }
      } else {
        var r := StrStr(s, pat).value;
        forall i | 0 <= i < |s| - |r|
          ensures !(pat <= s[i..])
        {
          if i > 0 {
            assert !(pat <= s[1..][i - 1..]);
          }
        }
      }
    }
  }

  /** `memcpy(buf + at, s, |s|)`. */
  method CopyInto(buf: array<char>, at: nat, s: string)
    requires at + |s| <= buf.Length
    modifies buf
    ensures buf[..at + |s|] == old(buf[..at]) + s
    ensures forall k :: at + |s| <= k < buf.Length ==> buf[k] == old(buf[k])
  {
    forall k | 0 <= k < |s| {
      buf[at + k] := s[k];
    }
  }

  /** `snprintf(buf, cap, "%s", text)`: a prefix that leaves room for the NUL. */
  method PrintInto(buf: array<char>, cap: nat, text: string) returns (n: int)
    requires cap <= buf.Length
    modifies buf
    ensures n == PrintedLength(|text|)
    ensures |text| < cap ==> buf[..|text|] == text && buf[|text|] == '\0'
    ensures forall k :: cap <= k < buf.Length ==> buf[k] == old(buf[k])
  {
    if cap > 0 {
      var kept := if |text| < cap then text else text[..cap - 1];
      CopyInto(buf, 0, kept);
      buf[|kept|] := '\0';
    }
    n := PrintedLength(|text|);
  }
}
