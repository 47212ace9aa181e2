/** The row serializers of the C service, and why nothing is lost on the way through the
    cache: what they print is read back as exactly the rows. */
module Rows {
  import opened CStrings
  import opened Decimal
  import opened JsonText
  import opened JsonReader
  import opened StringBuffer
  import Sequences

  /** A row as the database client hands it over, its time as text. */
  datatype TextRow = TextRow(id: int, content: string, createdAt: string)

  predicate LongId(row: TextRow) { LONG_MIN <= row.id <= LONG_MAX }

  // ---------- The printed text ----------

  function RowText(row: TextRow): string {
    "{" + (Member("id", PrintLong(row.id)) + ("," +
          (Member("content", Quoted(row.content)) + ("," +
          (Member("created_at", Quoted(row.createdAt)) + "}")))))
  }

  function JoinRows(rows: seq<TextRow>): string {
    if rows == [] then ""
    else if |rows| == 1 then RowText(rows[0])
    else RowText(rows[0]) + ("," + JoinRows(rows[1..]))
  }

  function RowsText(rows: seq<TextRow>): string {
    "[" + (JoinRows(rows) + "]")
  }

  // ---------- Reading it back ----------

  function JsonOf(row: TextRow): Json {
    Obj([Field("id", Num(row.id)), Field("content", Str(row.content)), Field("created_at", Str(row.createdAt))])
  }

  function JsonOfAll(rows: seq<TextRow>): (items: seq<Json>)
    ensures |items| == |rows|
  {
    if rows == [] then [] else [JsonOf(rows[0])] + JsonOfAll(rows[1..])
  }

  lemma ReadMembers(row: TextRow, rest: string)
    ensures ReadFields(Member("id", PrintLong(row.id)) + ("," +
                      (Member("content", Quoted(row.content)) + ("," +
                      (Member("created_at", Quoted(row.createdAt)) + ("}" + rest))))))
         == Some((JsonOf(row).fields, rest))
  {
    hide ReadValue, ReadFields, Quoted, Member, PrintLong;
    var end := "}" + rest;
    var created := Member("created_at", Quoted(row.createdAt)) + end;
    var content := Member("content", Quoted(row.content)) + ("," + created);
    var f0, f1, f2 := Field("id", Num(row.id)), Field("content", Str(row.content)), Field("created_at", Str(row.createdAt));
    assert [f1] + [f2] == [f1, f2] && [f0] + [f1, f2] == JsonOf(row).fields;
    ReadPrintedString(row.createdAt, end);
    ReadLastField("created_at", Quoted(row.createdAt), Str(row.createdAt), rest);
    ReadPrintedString(row.content, "," + created);
    ReadNextField("content", Quoted(row.content), Str(row.content), created, [f2], rest);
    ReadPrintedNumber(row.id, "," + content);
    ReadNextField("id", PrintLong(row.id), Num(row.id), content, [f1, f2], rest);
  }

  /** A printed row is read back as the row, whatever follows. */
  lemma ReadRow(row: TextRow, rest: string)
    ensures ReadValue(RowText(row) + rest) == Some((JsonOf(row), rest))
  {
    hide ReadValue, ReadFields, Quoted, PrintLong;
    var members := Member("id", PrintLong(row.id)) + ("," +
                  (Member("content", Quoted(row.content)) + ("," +
                  (Member("created_at", Quoted(row.createdAt)) + ("}" + rest)))));
    ReadMembers(row, rest);
    assert members[0] == '"';
    ReadObject(members);
    RowTextThen(row, rest);
  }

  lemma RowTextThen(row: TextRow, rest: string)
    ensures RowText(row) + rest
         == "{" + (Member("id", PrintLong(row.id)) + ("," +
                  (Member("content", Quoted(row.content)) + ("," +
                  (Member("created_at", Quoted(row.createdAt)) + ("}" + rest))))))
  {
    hide Quoted, Member, PrintLong;
  }

  lemma {:induction false} ReadRows(rows: seq<TextRow>, rest: string)
    requires rows != []
    ensures ReadItems(JoinRows(rows) + ("]" + rest)) == Some((JsonOfAll(rows), rest))
  {
    hide ReadValue, ReadItems, RowText, JsonOf;
    var row, end := rows[0], "]" + rest;
    if |rows| == 1 {
      ReadRow(row, end);
      ReadOneItem(RowText(row), JsonOf(row), end);
      assert end[1..] == rest;
      assert JsonOfAll(rows) == [JsonOf(row)];
    } else {
      var more := JoinRows(rows[1..]) + end;
      var after := "," + more;
      ReadRows(rows[1..], rest);
      ReadRow(row, after);
      ReadOneItem(RowText(row), JsonOf(row), after);
      assert after[1..] == more;
      Sequences.Regroup4(RowText(row), ",", JoinRows(rows[1..]), end);
    }
  }

  lemma ReadRowAlone(row: TextRow)
    ensures ReadDocument(RowText(row)) == Some(JsonOf(row))
  {
    hide ReadValue, RowText, JsonOf;
    ReadRow(row, "");
    assert RowText(row) + "" == RowText(row);
  }

  /** The serializer and the reader are inverse, for row lists of any length and any bytes. */
  lemma ReadSerialized(rows: seq<TextRow>, rest: string)
    ensures ReadValue(RowsText(rows) + rest) == Some((Arr(JsonOfAll(rows)), rest))
    ensures ReadDocument(RowsText(rows)) == Some(Arr(JsonOfAll(rows)))
  {
    hide ReadItems, RowText;
    ReadSerializedThen(rows, rest);
    ReadSerializedThen(rows, "");
    assert RowsText(rows) + "" == RowsText(rows);
  }

  lemma ReadSerializedThen(rows: seq<TextRow>, rest: string)
    ensures ReadValue(RowsText(rows) + rest) == Some((Arr(JsonOfAll(rows)), rest))
  {
    hide ReadItems, RowText;
    var text := RowsText(rows) + rest;
    if rows == [] {
      assert text == "[" + ("]" + rest);
      assert text[1..] == "]" + rest && ("]" + rest)[1..] == rest;
      assert SkipBlanks(text) == text && SkipBlanks("]" + rest) == "]" + rest;
    } else {
      var items := JoinRows(rows) + ("]" + rest);
      ReadRows(rows, rest);
      assert items[0] == '{' by {
        RowTextThen(rows[0], "");
        assert RowText(rows[0]) + "" == RowText(rows[0]);
      }
      ReadArray(items);
      assert text == "[" + items;
    }
  }

  /** No two row lists are printed alike. */
  lemma SerializationInjective(rows: seq<TextRow>, others: seq<TextRow>)
    requires RowsText(rows) == RowsText(others)
    ensures rows == others
  {
    hide RowsText, ReadDocument, ReadValue;
    ReadSerialized(rows, "");
    ReadSerialized(others, "");
    JsonOfAllInjective(rows, others);
  }

  lemma {:induction false} JsonOfAllInjective(rows: seq<TextRow>, others: seq<TextRow>)
    requires JsonOfAll(rows) == JsonOfAll(others)
    ensures rows == others
  {
    assert |rows| == |JsonOfAll(rows)| == |others|;
    if rows != [] {
      assert JsonOf(rows[0]) == JsonOfAll(rows)[0] == JsonOfAll(others)[0] == JsonOf(others[0]);
      assert JsonOf(rows[0]).fields[0].value == JsonOf(others[0]).fields[0].value;
      assert JsonOf(rows[0]).fields[1].value == JsonOf(others[0]).fields[1].value;
      assert JsonOf(rows[0]).fields[2].value == JsonOf(others[0]).fields[2].value;
      assert JsonOfAll(rows)[1..] == JsonOfAll(rows[1..]) && JsonOfAll(others)[1..] == JsonOfAll(others[1..]);
      JsonOfAllInjective(rows[1..], others[1..]);
      assert rows == [rows[0]] + rows[1..] && others == [others[0]] + others[1..];
    }
  }

  // ---------- The text survives as a C string ----------

  lemma RowTextHasNoNul(row: TextRow)
    ensures '\0' !in RowText(row)
  {
    hide Escape, PrintLong;
    EscapeIsClean(row.content);
    EscapeIsClean(row.createdAt);
    PrintLongHasNoNul(row.id);
  }

  lemma PrintLongHasNoNul(v: int)
    ensures '\0' !in PrintLong(v)
  {
    var digits := Dec(if v < 0 then -v else v);
    hide Dec;
    assert AllDigits(digits);
  }

  /** Caching the text as a C string loses nothing, even of contents with NUL bytes. */
  lemma {:induction false} JoinRowsHasNoNul(rows: seq<TextRow>)
    ensures '\0' !in JoinRows(rows)
  {
    hide RowText;
    if rows != [] {
      RowTextHasNoNul(rows[0]);
      JoinRowsHasNoNul(rows[1..]);
    }
  }

  lemma CachedTextIsWhole(rows: seq<TextRow>)
    ensures CString(RowsText(rows)) == RowsText(rows)
  {
    hide JoinRows;
    JoinRowsHasNoNul(rows);
    CStringWhole(RowsText(rows));
  }

  // ---------- The serializers ----------

  /** A row that is in memory: a C long and two C strings. */
  predicate InMemory(row: TextRow) {
    LongId(row) && |row.content| <= MAX_TEXT && |row.createdAt| <= MAX_TEXT
  }

  /** The escaped text has a length that an int can hold. */
  predicate Countable(text: string) { |Escape(text)| <= INT_MAX }

  /** Its length comes back from the escaper as a negative int. */
  predicate Negative(text: string) { ToInt(|Escape(text)|) < 0 }

  predicate CountableRow(row: TextRow) { Countable(row.content) && Countable(row.createdAt) }

  predicate NegativeRow(row: TextRow) { Negative(row.content) || Negative(row.createdAt) }

  predicate AllCountable(rows: seq<TextRow>) {
    forall row :: row in rows ==> CountableRow(row)
  }

  predicate SomeNegative(rows: seq<TextRow>) {
    exists row :: row in rows && NegativeRow(row)
  }

  lemma CountedLength(text: string)
    ensures ToInt(|Escape(text)|) <= |Escape(text)|
    ensures ToInt(|Escape(text)|) == |Escape(text)| <==> Countable(text)
    ensures |Quoted(text)| == |Escape(text)| + 2
  {
    hide Escape;
  }

  /** `n` control bytes, and a text. */
  function Behind(n: nat, text: string): (s: string)
    ensures |s| == n + |text|
  {
    if n == 0 then text else [1 as char] + Behind(n - 1, text)
  }

  lemma {:induction false} EscapedControls(n: nat, text: string)
    ensures |Escape(Behind(n, text))| == 6 * n + |Escape(text)|
  {
    if n > 0 {
      EscapedControls(n - 1, text);
      assert Behind(n, text)[1..] == Behind(n - 1, text);
      assert |EscapeChar(1 as char)| == 6;
    }
  }

  /** Texts of half a gigabyte can be too long to count: the length of the first comes back
      negative, that of the second as 0. */
  lemma TooLongToCount() returns (s: string, t: string)
    ensures |s| == 0x2000_0000 && Negative(s)
    ensures |t| == 715827886 && !Negative(t) && !Countable(t) && ToInt(|Escape(t)|) == 0
  {
    s := EscapedSixfold(0x2000_0000, "");
    t := EscapedSixfold(715827882, "abcd");
  }

  lemma EscapedSixfold(n: nat, text: string) returns (s: string)
    requires Plain(text)
    ensures |s| == n + |text| && |Escape(s)| == 6 * n + |text|
  {
    hide Escape;
    s := Behind(n, text);
    EscapedControls(n, text);
    PlainIsUnchanged(text);
  }

  /** A literal and the quoted text behind it: all of the text, if its length is an int. */
  method AppendText(literal: string, text: string, sb: Buffer)
    requires sb.Valid() && |literal| <= MAX_TEXT && |text| <= MAX_TEXT
    modifies sb, sb.data
    ensures sb.Valid() && (sb.data == old(sb.data) || fresh(sb.data))
    ensures old(sb.oom) || Negative(text) ==> sb.oom
    ensures !sb.oom && Countable(text) ==> sb.Contents() == old(sb.Contents()) + (literal + Quoted(text))
    ensures !sb.oom ==> sb.data != null && sb.len == old(sb.len) + |literal| + 2 + ToInt(|Escape(text)|)
    ensures old(!sb.oom) && sb.Roomy(old(sb.len) + |literal| + 6 * |text| + 3) && !Negative(text) ==> !sb.oom
  {
    hide Escape, ToInt, Grown, Buffer.Shape, Buffer.Contents;
    ghost var start := sb.Contents();
    ghost var most := sb.len + |literal| + 6 * |text| + 3;
    sb.WhyOutOfMemory();
    if sb.Roomy(most) {
      sb.RoomyGrants(most);
    }
    CountedLength(text);
    sb.Append(literal);
    sb.WhyOutOfMemory();
    sb.AppendQuoted(text);
    sb.WhyOutOfMemory();
    if !sb.oom && Countable(text) {
      assert "\"" + Escape(text)[..|Escape(text)|] + "\"" == Quoted(text);
      Sequences.Regroup(start, literal, Quoted(text));
    }
  }

  /** A literal and the number behind it. */
  method AppendNumber(literal: string, v: int, sb: Buffer)
    requires sb.Valid() && |literal| <= MAX_TEXT && LONG_MIN <= v <= LONG_MAX
    modifies sb, sb.data
    ensures sb.Valid() && (sb.data == old(sb.data) || fresh(sb.data))
    ensures old(sb.oom) ==> sb.oom
    ensures !sb.oom ==> sb.data != null && sb.Contents() == old(sb.Contents()) + (literal + PrintLong(v))
    ensures !sb.oom ==> sb.len == old(sb.len) + |literal| + |PrintLong(v)|
    ensures old(!sb.oom) && sb.Roomy(old(sb.len) + |literal| + |PrintLong(v)| + 1) ==> !sb.oom
  {
    hide PrintLong, Grown, Buffer.Shape, Buffer.Contents;
    ghost var start := sb.Contents();
    ghost var most := sb.len + |literal| + |PrintLong(v)| + 1;
    if sb.Roomy(most) {
      sb.RoomyGrants(most);
    }
    sb.Append(literal);
    sb.AppendLong(v);
    Sequences.Regroup(start, literal, PrintLong(v));
  }

  lemma QuotedLength(text: string)
    ensures |text| + 2 <= |Quoted(text)|
  {
    hide Escape;
  }

  /** Room for the largest need is room for any other. */
  lemma RoomFor(sb: Buffer, most: nat, need: nat)
    ensures need <= most && sb.Roomy(most) ==> sb.Roomy(need) && sb.Granted(sb.cap, need)
  {
    if need <= most && sb.Roomy(most) {
      sb.RoomyLess(most, need);
      sb.RoomyGrants(most);
    }
  }

  lemma RowTextPieces(row: TextRow, start: string)
    ensures start + ("{\"id\":" + PrintLong(row.id)) + (",\"content\":" + Quoted(row.content))
                  + (",\"created_at\":" + Quoted(row.createdAt)) + "}"
         == start + RowText(row)
    ensures |RowText(row)| == 32 + |PrintLong(row.id)| + |Quoted(row.content)| + |Quoted(row.createdAt)|
  {
    hide Quoted, PrintLong;
    MemberText("{", "id", PrintLong(row.id));
    MemberText(",", "content", Quoted(row.content));
    MemberText(",", "created_at", Quoted(row.createdAt));
    hide Member;
    assert "{" + "\"" + "id" + "\":" == "{\"id\":";
    assert "," + "\"" + "content" + "\":" == ",\"content\":";
    assert "," + "\"" + "created_at" + "\":" == ",\"created_at\":";
  }

  lemma MemberText(before: string, key: string, text: string)
    ensures before + "\"" + key + "\":" + text == before + Member(key, text)
  {
  }

  /** The length that the buffer gains by a row. */
  function StoredLength(row: TextRow): int {
    36 + |PrintLong(row.id)| + ToInt(|Escape(row.content)|) + ToInt(|Escape(row.createdAt)|)
  }

  lemma StoredLengthIs(row: TextRow)
    ensures StoredLength(row) <= |RowText(row)|
    ensures StoredLength(row) == |RowText(row)| <==> CountableRow(row)
  {
    hide Quoted, PrintLong, RowText, Escape, ToInt;
    RowTextPieces(row, "");
    CountedLength(row.content);
    CountedLength(row.createdAt);
  }

  /** `serialize_row`: the buffer gains exactly the printed row if and only if both escaped
      lengths are ints; when one of them is negative, or an allocation is refused, it is out
      of memory. */
  method SerializeRow(row: TextRow, sb: Buffer)
    requires sb.Valid() && InMemory(row)
    modifies sb, sb.data
    ensures sb.Valid() && (sb.data == old(sb.data) || fresh(sb.data))
    ensures old(sb.oom) || NegativeRow(row) ==> sb.oom
    ensures !sb.oom && CountableRow(row) ==> sb.Contents() == old(sb.Contents()) + RowText(row)
    ensures !sb.oom ==> sb.data != null && sb.len == old(sb.len) + StoredLength(row)
    ensures old(!sb.oom) && sb.Roomy(old(sb.len) + 6 * |RowText(row)| + 3) && !NegativeRow(row) ==> !sb.oom
  {
    hide Escape, Quoted, PrintLong, RowText, Grown, ToInt, Buffer.Contents, Buffer.Shape, Buffer.Roomy;
    ghost var most := sb.len + 6 * |RowText(row)| + 3;
    RowTextPieces(row, sb.Contents());
    QuotedLength(row.content);
    QuotedLength(row.createdAt);
    CountedLength(row.content);
    CountedLength(row.createdAt);
    sb.RoomyLess(most, sb.len + 6 + |PrintLong(row.id)| + 1);
    AppendNumber("{\"id\":", row.id, sb);
    RoomFor(sb, most, sb.len + 11 + 6 * |row.content| + 3);
    AppendText(",\"content\":", row.content, sb);
    RoomFor(sb, most, sb.len + 14 + 6 * |row.createdAt| + 3);
    AppendText(",\"created_at\":", row.createdAt, sb);
    RoomFor(sb, most, sb.len + 2);
    sb.Append("}");
  }

  function Separator(count: nat): string {
    if count == 0 then "" else ","
  }

  lemma {:induction false} JoinRowsSnoc(rows: seq<TextRow>, row: TextRow)
    ensures JoinRows(rows + [row]) == JoinRows(rows) + (Separator(|rows|) + RowText(row))
  {
    hide RowText;
    if rows == [] {
      assert rows + [row] == [row];
    } else {
      var tail := rows[1..];
      JoinRowsSnoc(tail, row);
      assert (rows + [row])[1..] == tail + [row];
      assert JoinRows(rows + [row]) == RowText(rows[0]) + ("," + (JoinRows(tail) + (Separator(|tail|) + RowText(row))));
    }
  }

  lemma {:induction false} JoinRowsPrefix(rows: seq<TextRow>, i: nat)
    requires i <= |rows|
    ensures |JoinRows(rows[..i])| <= |JoinRows(rows)|
    decreases |rows| - i
  {
    hide JoinRows, RowText;
    if i < |rows| {
      JoinRowsSnoc(rows[..i], rows[i]);
      assert rows[..i + 1] == rows[..i] + [rows[i]];
      JoinRowsPrefix(rows, i + 1);
    } else {
      assert rows[..i] == rows;
    }
  }

  lemma JoinNone()
    ensures JoinRows([]) == ""
  {
  }

  lemma Bracketed(start: string, rows: seq<TextRow>)
    ensures start + "[" + JoinRows(rows) + "]" == start + RowsText(rows)
    ensures |RowsText(rows)| == |JoinRows(rows)| + 2
  {
    hide JoinRows;
    Sequences.Regroup4(start, "[", JoinRows(rows), "]");
  }

  method AppendItem(rows: seq<TextRow>, i: nat, sb: Buffer)
    requires sb.Valid() && i < |rows| && InMemory(rows[i])
    modifies sb, sb.data
    ensures sb.Valid() && (sb.data == old(sb.data) || fresh(sb.data))
    ensures old(sb.oom) || NegativeRow(rows[i]) ==> sb.oom
    ensures !sb.oom ==> sb.data != null && sb.len == old(sb.len) + |Separator(i)| + StoredLength(rows[i])
    ensures !sb.oom && CountableRow(rows[i]) ==>
              sb.Contents() == old(sb.Contents()) + (Separator(i) + RowText(rows[i]))
    ensures old(!sb.oom) && !NegativeRow(rows[i]) ==>
              sb.Roomy(old(sb.len) + 6 * |Separator(i)| + 6 * |RowText(rows[i])| + 3) ==> !sb.oom
  {
    hide RowText, InMemory, Grown, StoredLength, CountableRow, NegativeRow;
    hide Buffer.Contents, Buffer.Shape, Buffer.Roomy;
    ghost var start := sb.Contents();
    ghost var most := sb.len + 6 * |Separator(i)| + 6 * |RowText(rows[i])| + 3;
    sb.RoomyLess(most, sb.len + |Separator(i)| + 6 * |RowText(rows[i])| + 3);
    RoomFor(sb, most, sb.len + |Separator(i)| + 1);
    if i > 0 {
      sb.Append(",");
    }
    SerializeRow(rows[i], sb);
    Sequences.Regroup(start, Separator(i), RowText(rows[i]));
    assert start + "" == start;
  }

  /** `serialize_rows_array`: when the buffer does not run out of memory, it has gained
      exactly the text of the rows if and only if all escaped lengths are ints. It runs out
      of memory when one of them is negative; otherwise it does not, while the allocator
      grants what six times the text can need. */
  method SerializeRowsArray(rows: seq<TextRow>, sb: Buffer)
    requires sb.Valid() && forall row :: row in rows ==> InMemory(row)
    modifies sb, sb.data
    ensures sb.Valid() && (sb.data == old(sb.data) || fresh(sb.data))
    ensures old(sb.oom) || SomeNegative(rows) ==> sb.oom
    ensures !sb.oom ==> sb.data != null
    ensures !sb.oom ==> (sb.Contents() == old(sb.Contents()) + RowsText(rows) <==> AllCountable(rows))
    ensures old(!sb.oom) && sb.Roomy(old(sb.len) + 6 * |RowsText(rows)| + 3) && !SomeNegative(rows) ==> !sb.oom
  {
    hide RowText, RowsText, InMemory, Separator, JoinRows, CountableRow, NegativeRow, StoredLength;
    hide Buffer.Shape, Buffer.Contents, Buffer.Roomy, Grown;
    ghost var most := sb.len + 6 * |RowsText(rows)| + 3;
    ghost var roomy := sb.Roomy(most);
    ghost var start := sb.Contents();
    ContentsLength(sb);
    JoinNone();
    Bracketed(start, rows);
    RoomFor(sb, most, sb.len + 2);
    sb.Append("[");
    for i := 0 to |rows|
      invariant sb.Valid() && (sb.data == old(sb.data) || fresh(sb.data))
      invariant old(sb.oom) || SomeNegative(rows[..i]) ==> sb.oom
      invariant !sb.oom ==> sb.data != null && sb.len <= old(sb.len) + 1 + |JoinRows(rows[..i])|
      invariant !sb.oom ==> (sb.len == old(sb.len) + 1 + |JoinRows(rows[..i])| <==> AllCountable(rows[..i]))
      invariant !sb.oom && AllCountable(rows[..i]) ==> sb.Contents() == start + "[" + JoinRows(rows[..i])
      invariant old(!sb.oom) && roomy && !SomeNegative(rows) ==> !sb.oom
    {
      JoinRowsSnoc(rows[..i], rows[i]);
      assert rows[..i + 1] == rows[..i] + [rows[i]];
      OneMoreRow(rows[..i], rows[i]);
      JoinRowsPrefix(rows, i + 1);
      StoredLengthIs(rows[i]);
      assert rows[i] in rows;
      RoomFor(sb, most, sb.len + 6 * |Separator(i)| + 6 * |RowText(rows[i])| + 3);
      AppendItem(rows, i, sb);
    }
    assert rows[..|rows|] == rows;
    RoomFor(sb, most, sb.len + 2);
    sb.Append("]");
    ContentsLength(sb);
  }

  lemma ContentsLength(sb: Buffer)
    requires sb.Shape()
    ensures |sb.Contents()| == sb.len
  {
  }

  lemma OneMoreRow(rows: seq<TextRow>, row: TextRow)
    ensures AllCountable(rows + [row]) <==> AllCountable(rows) && CountableRow(row)
    ensures SomeNegative(rows + [row]) <==> SomeNegative(rows) || NegativeRow(row)
  {
    hide CountableRow, NegativeRow;
    assert forall r :: r in rows + [row] <==> r in rows || r == row;
  }
}
