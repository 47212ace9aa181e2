/** Texts that lost characters but kept their order. */
module Subsequence {

  ghost predicate IsSuffix(a: string, b: string) {
    |a| <= |b| && b[|b| - |a|..] == a
  }

  lemma SuffixTransitive(a: string, b: string, c: string)
    requires IsSuffix(a, b) && IsSuffix(b, c)
    ensures IsSuffix(a, c)
  {
    assert c[|c| - |a|..] == c[|c| - |b|..][|b| - |a|..];
  }

  /** `a` is `b` with some characters left out. */
  ghost predicate IsSub(a: string, b: string) {
    if a == [] then true
    else if b == [] then false
    else (a[0] == b[0] && IsSub(a[1..], b[1..])) || IsSub(a, b[1..])
  }

  lemma {:induction false} SubItself(a: string)
    ensures IsSub(a, a)
  {
    if a != [] {
      SubItself(a[1..]);
    }
  }

  lemma {:induction false} SubTransitive(a: string, b: string, c: string)
    requires IsSub(a, b) && IsSub(b, c)
    ensures IsSub(a, c)
    decreases |c|
  {
    if a != [] && b != [] && c != [] {
      if IsSub(b, c[1..]) {
        SubTransitive(a, b, c[1..]);
      } else if IsSub(a, b[1..]) {
        SubTransitive(a, b[1..], c[1..]);
      } else {
        SubTransitive(a[1..], b[1..], c[1..]);
      }
    }
  }

  lemma {:induction false} SubBehind(a: string, pre: string, b: string)
    requires IsSub(a, b)
    ensures IsSub(a, pre + b)
  {
    if pre == [] {
      assert pre + b == b;
    } else {
      SubBehind(a, pre[1..], b);
      assert (pre + b)[1..] == pre[1..] + b;
    }
  }

  lemma {:induction false} SubConcat(a: string, b: string, c: string, d: string)
    requires IsSub(a, b) && IsSub(c, d)
    ensures IsSub(a + c, b + d)
    decreases |b|
  {
    if a == [] {
      SubBehind(c, b, d);
      assert a + c == c;
    } else {
      assert (a + c)[1..] == a[1..] + c && (b + d)[1..] == b[1..] + d;
      if a[0] == b[0] && IsSub(a[1..], b[1..]) {
        SubConcat(a[1..], b[1..], c, d);
      } else {
        SubConcat(a, b[1..], c, d);
      }
    }
  }
}
