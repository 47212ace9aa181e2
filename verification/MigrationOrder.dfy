/** The order in which the runner lists migrations: that of the file names, character by
    character, against that of the version numbers in them. */
module MigrationOrder {
  import opened Decimal
  import opened Migrations

  /** `V<digits>__<rest>`. */
  function FileName(digits: string, rest: string): string {
    "V" + (digits + ("__" + rest))
  }

  /** What `sort` does in the C locale. */
  predicate Before(s: string, t: string) {
    if s == [] then t != []
    else if t == [] then false
    else if s[0] != t[0] then s[0] < t[0]
    else Before(s[1..], t[1..])
  }

  lemma {:induction false} DecidedAt(s: string, t: string, i: nat)
    requires i < |s| && i < |t| && s[..i] == t[..i] && s[i] != t[i]
    ensures Before(s, t) <==> s[i] < t[i]
  {
    if i > 0 {
      assert s[0] == s[..i][0] == t[..i][0] == t[0];
      assert s[1..][..i - 1] == s[..i][1..] && t[1..][..i - 1] == t[..i][1..];
      DecidedAt(s[1..], t[1..], i - 1);
    }
  }

  lemma {:induction false} FirstDifference(a: string, c: string) returns (i: nat)
    requires |a| == |c| && a != c
    ensures i < |a| && a[..i] == c[..i] && a[i] != c[i]
  {
    if a[0] != c[0] {
      i := 0;
    } else {
      assert a == [a[0]] + a[1..] && c == [c[0]] + c[1..];
      var j := FirstDifference(a[1..], c[1..]);
      i := j + 1;
      assert a[..i] == [a[0]] + a[1..][..j] && c[..i] == [c[0]] + c[1..][..j];
    }
  }

  /** Digit texts of one length compare like their numbers. */
  lemma {:induction false} NumbersDecidedAt(a: string, c: string, i: nat)
    requires AllDigits(a) && AllDigits(c) && |a| == |c|
    requires i < |a| && a[..i] == c[..i] && a[i] != c[i]
    ensures NumberOf(a) < NumberOf(c) <==> a[i] < c[i]
    ensures NumberOf(a) != NumberOf(c)
  {
    var n := |a| - 1;
    if i < n {
      assert a[..n][..i] == a[..i] && c[..n][..i] == c[..i];
      NumbersDecidedAt(a[..n], c[..n], i);
    }
  }

  lemma NameUpTo(digits: string, rest: string, k: nat)
    requires k <= |digits|
    ensures var s := FileName(digits, rest);
            && |s| > k + 1 && s[..k + 1] == "V" + digits[..k]
            && s[k + 1] == if k < |digits| then digits[k] else '_'
  {
  }

  /** A version with no more digits than another is listed before it if and only if its
      number is below that of as many leading digits of the other. */
  lemma ListedByPrefix(a: string, b: string, rest: string, more: string)
    requires AllDigits(a) && AllDigits(b) && 0 < |a| <= |b| && a != b
    ensures Before(FileName(a, rest), FileName(b, more)) <==> NumberOf(a) < NumberOf(b[..|a|])
  {
    hide FileName, Before, NumberOf;
    var s, t, p := FileName(a, rest), FileName(b, more), b[..|a|];
    if a == p {
      NameUpTo(a, rest, |a|);
      NameUpTo(b, more, |a|);
      assert a[..|a|] == a;
      DecidedAt(s, t, |a| + 1);
    } else {
      var i := FirstDifference(a, p);
      NumbersDecidedAt(a, p, i);
      NameUpTo(a, rest, i);
      NameUpTo(b, more, i);
      assert p[..i] == b[..i];
      DecidedAt(s, t, i + 1);
    }
  }

  /** So versions of one width are applied in version order. */
  lemma PaddedVersionsInOrder(a: string, b: string, rest: string, more: string)
    requires AllDigits(a) && AllDigits(b) && 0 < |a| == |b| && a != b
    ensures Before(FileName(a, rest), FileName(b, more)) <==> NumberOf(a) < NumberOf(b)
  {
    ListedByPrefix(a, b, rest, more);
    assert b[..|a|] == b;
  }

  /** Otherwise the listing can contradict it. */
  lemma TenBeforeNine(rest: string, more: string)
    ensures NumberOf("9") < NumberOf("10") && !Before(FileName("9", rest), FileName("10", more))
  {
    ListedByPrefix("9", "10", rest, more);
    assert "10"[..1] == "1";
    assert "9"[..0] == "" && "1"[..0] == "";
    assert NumberOf("") == 0 && NumberOf("9") == 9 && NumberOf("1") == 1;
    assert NumberOf("10") == 10;
  }

  // ---------- What that means for the order of application ----------

  datatype SqlFile = SqlFile(digits: string, rest: string, sql: string)

  function NameOf(f: SqlFile): string { FileName(f.digits, f.rest) }

  function MigrationOf(f: SqlFile): Migration { Migration("V" + f.digits, f.sql) }

  function MigrationsOf(fs: seq<SqlFile>): (ms: seq<Migration>)
    ensures |ms| == |fs| && forall i :: 0 <= i < |fs| ==> ms[i] == MigrationOf(fs[i])
  {
    seq(|fs|, i requires 0 <= i < |fs| => MigrationOf(fs[i]))
  }

  /** The listing that the runner goes through. */
  ghost predicate IsListed(fs: seq<SqlFile>) {
    && (forall f :: f in fs ==> f.digits != "" && AllDigits(f.digits))
    && forall i, j :: 0 <= i < j < |fs| ==> Before(NameOf(fs[i]), NameOf(fs[j]))
  }

  /** Each missing migration is applied at its place in the listing. */
  lemma {:induction false} AppliedAsListed(files: seq<Migration>, tracker: set<string>, x: nat, y: nat)
    requires x < y < |Missing(files, tracker)|
    ensures exists i, j :: 0 <= i < j < |files|
              && files[i] == Missing(files, tracker)[x] && files[j] == Missing(files, tracker)[y]
  {
    var n := |files| - 1;
    var before := Missing(files[..n], tracker);
    if y < |before| {
      AppliedAsListed(files[..n], tracker, x, y);
      var i, j :| 0 <= i < j < n && files[..n][i] == before[x] && files[..n][j] == before[y];
      assert files[i] == before[x] && files[j] == before[y];
    } else {
      AppliedIsListed(files[..n], tracker, x);
      var i :| 0 <= i < n && files[..n][i] == before[x];
      assert files[i] == before[x] && files[n] == Missing(files, tracker)[y];
    }
  }

  lemma {:induction false} AppliedIsListed(files: seq<Migration>, tracker: set<string>, x: nat)
    requires x < |Missing(files, tracker)|
    ensures exists i :: 0 <= i < |files| && files[i] == Missing(files, tracker)[x]
  {
    var n := |files| - 1;
    var before := Missing(files[..n], tracker);
    if x < |before| {
      AppliedIsListed(files[..n], tracker, x);
      var i :| 0 <= i < n && files[..n][i] == before[x];
      assert files[i] == before[x];
    } else {
      assert files[n] == Missing(files, tracker)[x];
    }
  }

  lemma {:induction false} AppliedOnce(files: seq<Migration>, tracker: set<string>, x: nat, y: nat)
    requires x < y < |Missing(files, tracker)|
    ensures Missing(files, tracker)[x].version != Missing(files, tracker)[y].version
  {
    var n := |files| - 1;
    var before := Missing(files[..n], tracker);
    if y < |before| {
      AppliedOnce(files[..n], tracker, x, y);
    } else {
      assert before[x] in before;
    }
  }

  lemma SameVersion(f: SqlFile, g: SqlFile)
    ensures MigrationOf(f).version == MigrationOf(g).version <==> f.digits == g.digits
  {
    assert ("V" + f.digits)[1..] == f.digits && ("V" + g.digits)[1..] == g.digits;
  }

  /** The number in a version. */
  function VersionNumber(version: string): int
    requires version != [] && AllDigits(version[1..])
  {
    NumberOf(version[1..])
  }

  /** When all versions have one width, a run applies them by increasing number. */
  lemma PaddedVersionsApplyInOrder(fs: seq<SqlFile>, tracker: set<string>, width: nat, x: nat, y: nat)
    requires IsListed(fs) && forall f :: f in fs ==> |f.digits| == width
    requires x < y < |Missing(MigrationsOf(fs), tracker)|
    ensures var ms := Missing(MigrationsOf(fs), tracker);
            && ms[x].version != [] && ms[y].version != []
            && AllDigits(ms[x].version[1..]) && AllDigits(ms[y].version[1..])
            && VersionNumber(ms[x].version) < VersionNumber(ms[y].version)
  {
    var files := MigrationsOf(fs);
    var ms := Missing(files, tracker);
    hide Missing, Before, FileName, NumberOf;
    AppliedAsListed(files, tracker, x, y);
    AppliedOnce(files, tracker, x, y);
    var i, j :| 0 <= i < j < |files| && files[i] == ms[x] && files[j] == ms[y];
    var f, g := fs[i], fs[j];
    assert f in fs && g in fs;
    SameVersion(f, g);
    PaddedVersionsInOrder(f.digits, g.digits, f.rest, g.rest);
    assert ms[x].version[1..] == f.digits && ms[y].version[1..] == g.digits;
  }

  /** Where both are missing, a run applies V10 before V9. */
  lemma TenAppliesBeforeNine(fs: seq<SqlFile>, tracker: set<string>, x: nat, y: nat)
    requires IsListed(fs)
    requires x < |Missing(MigrationsOf(fs), tracker)| && y < |Missing(MigrationsOf(fs), tracker)|
    requires Missing(MigrationsOf(fs), tracker)[x].version == "V9"
    requires Missing(MigrationsOf(fs), tracker)[y].version == "V10"
    ensures y < x
  {
    var files := MigrationsOf(fs);
    var ms := Missing(files, tracker);
    hide Missing, Before, FileName;
    if x < y {
      AppliedAsListed(files, tracker, x, y);
      var i, j :| 0 <= i < j < |files| && files[i] == ms[x] && files[j] == ms[y];
      SameVersion(fs[i], SqlFile("9", "", ""));
      SameVersion(fs[j], SqlFile("10", "", ""));
      TenBeforeNine(fs[i].rest, fs[j].rest);
    }
  }
}
