/** What the C service puts into the cache: the protocol's values, printed as text. */
module CachedText {
  import opened CStrings
  import opened JsonReader
  import opened CacheAside
  import CacheGuarantees
  import Rows

  /** How a point in time is printed. */
  type Stamp = int -> string

  function TextRowOf(row: Row, stamp: Stamp): Rows.TextRow {
    Rows.TextRow(row.id, row.content, stamp(row.createdAt))
  }

  function TextRowsOf(rows: seq<Row>, stamp: Stamp): (texts: seq<Rows.TextRow>)
    ensures |texts| == |rows| && forall i :: 0 <= i < |rows| ==> texts[i] == TextRowOf(rows[i], stamp)
  {
    seq(|rows|, i requires 0 <= i < |rows| => TextRowOf(rows[i], stamp))
  }

  /** A row as a JSON object. */
  function ObjectOf(id: int, content: string, time: string): Json {
    Obj([Field("id", Num(id)), Field("content", Str(content)), Field("created_at", Str(time))])
  }

  lemma {:induction false} ObjectsAre(texts: seq<Rows.TextRow>, i: nat)
    requires i < |texts|
    ensures Rows.JsonOfAll(texts)[i] == ObjectOf(texts[i].id, texts[i].content, texts[i].createdAt)
  {
    if i > 0 {
      ObjectsAre(texts[1..], i - 1);
    }
  }

  /** The text of a value under its key. */
  function TextOf(v: Value, stamp: Stamp): string {
    match v
    case Table(snap) => Rows.RowsText(TextRowsOf(snap.rows, stamp))
    case One(row) => Rows.RowText(TextRowOf(row, stamp))
  }

  /** The text of a served list, as the C string that came out of the cache, reads back as
      exactly the rows of some past table. */
  lemma ListTextReadsBack(s: State, run: seq<Action>, p: nat, stamp: Stamp)
    requires Init(s) && Legal(s, run) && p in Play(s, run).handlers
    requires Play(s, run).handlers[p].Served? && Play(s, run).handlers[p].key == AllKey
    ensures var t, v := Play(s, run), Play(s, run).handlers[p].value;
            && v.Table? && (exists n :: 0 <= n <= |t.history| && multiset(v.snap.rows) == multiset(t.history[..n]))
            && exists objects: seq<Json> ::
                 && ReadDocument(CString(TextOf(v, stamp))) == Some(Arr(objects)) && |objects| == |v.snap.rows|
                 && forall i :: 0 <= i < |objects| ==>
                      objects[i] == ObjectOf(v.snap.rows[i].id, v.snap.rows[i].content, stamp(v.snap.rows[i].createdAt))
  {
    CacheGuarantees.RepliesAreRight(s, run, p);
    var rows := TextRowsOf(Play(s, run).handlers[p].value.snap.rows, stamp);
    hide CString, ReadDocument, Rows.RowsText;
    Rows.CachedTextIsWhole(rows);
    Rows.ReadSerialized(rows, "");
    var objects := Rows.JsonOfAll(rows);
    forall i | 0 <= i < |objects|
      ensures objects[i] == ObjectOf(rows[i].id, rows[i].content, rows[i].createdAt)
    {
      ObjectsAre(rows, i);
    }
  }

  /** When different times are printed differently, equal texts come from equal rows. */
  lemma ListTextInjective(rows: seq<Row>, others: seq<Row>, stamp: Stamp)
    requires forall a, b :: stamp(a) == stamp(b) ==> a == b
    requires Rows.RowsText(TextRowsOf(rows, stamp)) == Rows.RowsText(TextRowsOf(others, stamp))
    ensures rows == others
  {
    var a, b := TextRowsOf(rows, stamp), TextRowsOf(others, stamp);
    hide Rows.RowsText;
    Rows.SerializationInjective(a, b);
    forall i | 0 <= i < |rows|
      ensures rows[i] == others[i]
    {
      assert a[i] == b[i];
    }
  }

  /** So does the text of a served item: as exactly the row of its id. */
  lemma ItemTextReadsBack(s: State, run: seq<Action>, p: nat, id: int, stamp: Stamp)
    requires Init(s) && Legal(s, run) && p in Play(s, run).handlers
    requires Play(s, run).handlers[p].Served? && Play(s, run).handlers[p].key == ItemKey(id)
    ensures var t, v := Play(s, run), Play(s, run).handlers[p].value;
            && v.One? && v.row in t.history && v.row.id == id
            && ReadDocument(CString(TextOf(v, stamp))) == Some(ObjectOf(v.row.id, v.row.content, stamp(v.row.createdAt)))
  {
    CacheGuarantees.RepliesAreRight(s, run, p);
    var row := TextRowOf(Play(s, run).handlers[p].value.row, stamp);
    hide CString, Rows.RowText;
    Rows.RowTextHasNoNul(row);
    CStringWhole(Rows.RowText(row));
    Rows.ReadRowAlone(row);
  }
}
