/** Row ids in paths, and the cache keys built from them. */
module Ids {
  import opened CStrings
  import opened Decimal

  /** The canonical decimal text of an id that fits a C long. */
  predicate IdText(s: string, id: int) {
    1 <= id <= LONG_MAX && s == Dec(id)
  }

  lemma {:induction false} PrefixNumber(s: string, i: nat)
    requires AllDigits(s) && i <= |s|
    ensures NumberOf(s[..i]) <= NumberOf(s)
  {
    if i < |s| {
      var init := s[..|s| - 1];
      PrefixNumber(init, i);
      assert init[..i] == s[..i];
    } else {
      assert s[..i] == s;
    }
  }

  /** No id text has a prefix that is too large, and none has a needless leading zero. */
  lemma IdTextShape(s: string, id: int)
    requires IdText(s, id)
    ensures s != [] && AllDigits(s) && s[0] != '0' && NumberOf(s) == id
    ensures forall i :: 0 <= i <= |s| ==> NumberOf(s[..i]) <= LONG_MAX
  {
    NumberOfDec(id);
    forall i | 0 <= i <= |s|
      ensures NumberOf(s[..i]) <= LONG_MAX
    {
      PrefixNumber(s, i);
    }
  }

  /** `parse_positive_long`: accepts exactly the canonical texts of 1 .. LONG_MAX, and its
      guard keeps every intermediate value within a long. */
  method ParsePositiveLong(s: string) returns (ok: bool, out: int)
    ensures ok <==> exists id :: IdText(s, id)
    ensures ok ==> IdText(s, out)
  {
    forall id | IdText(s, id)
      ensures s != [] && AllDigits(s) && s[0] != '0' && NumberOf(s) == id
      ensures forall i :: 0 <= i <= |s| ==> NumberOf(s[..i]) <= LONG_MAX
    {
      IdTextShape(s, id);
    }
    if |s| == 0 {
      return false, 0;
    }
    if s[0] == '0' && |s| > 1 {
      return false, 0;
    }
    var v := 0;
    for i := 0 to |s|
      invariant AllDigits(s[..i])
      invariant v == NumberOf(s[..i]) <= LONG_MAX
    {
      var c := s[i];
      if c < '0' || c > '9' {
        return false, 0;
      }
      var d := DigitValue(c);
      assert s[..i + 1][..i] == s[..i];
      if v > (LONG_MAX - d) / 10 {
        assert AllDigits(s[..i + 1]);
        return false, 0;
      }
      v := v * 10 + d;
    }
    assert s[..|s|] == s;
    if v <= 0 {
      return false, 0;
    }
    DecNumberOf(s);
    assert IdText(s, v);
    return true, v;
  }

  function ItemKey(id: int): string { "data:" + PrintLong(id) }

  const ALL_KEY: string := "data:all"

  /** `build_item_key`. */
  method BuildItemKey(buf: array<char>, bufLen: nat, id: int) returns (n: int)
    requires bufLen <= buf.Length && LONG_MIN <= id <= LONG_MAX
    modifies buf
    ensures n == if |ItemKey(id)| < bufLen then |ItemKey(id)| else -1
    ensures n >= 0 ==> buf[..n] == ItemKey(id) && buf[n] == '\0'
    ensures bufLen >= 32 ==> n >= 0
  {
    LongLength(id);
    n := PrintInto(buf, bufLen, ItemKey(id));
    if n < 0 || n >= bufLen {
      return -1;
    }
  }

  /** Different ids never share a cache entry, and none shares that of the list. */
  lemma KeysAreDistinct(s: string, id: int, t: string, jd: int)
    requires IdText(s, id) && IdText(t, jd)
    ensures ItemKey(id) == "data:" + s && ItemKey(id) != ALL_KEY
    ensures ItemKey(id) == ItemKey(jd) <==> s == t
    ensures s == t <==> id == jd
  {
    assert ItemKey(id)[5..] == s && ItemKey(jd)[5..] == t;
    assert IsDigit(ItemKey(id)[5]) && !IsDigit(ALL_KEY[5]);
    if s == t {
      DecInjective(id, jd);
    }
  }
}
