/** The log as its readers see it: line by line. */
module LogLines {
  import opened AccessLog
  import opened LogGuarantees
  import Sequences

  /** The lines of a text, each ended by a newline; what stands behind the last one counts
      as a line, too. */
  function LinesIn(text: string): seq<string> {
    if text == "" then []
    else if text[0] == '\n' then [""] + LinesIn(text[1..])
    else
      var rest := LinesIn(text[1..]);
      if text[1..] == "" then [[text[0]]] else [[text[0]] + rest[0]] + rest[1..]
  }

  /** A line without the newline that may end it. */
  function Body(line: string): string {
    if line != "" && line[|line| - 1] == '\n' then line[..|line| - 1] else line
  }

  /** Lines that hold no newline, or one only at the end. */
  predicate OneLine(line: string) { '\n' !in Body(line) }

  function Bodies(writes: seq<Write>): seq<string> {
    if writes == [] then [] else [Body(writes[0].line)] + Bodies(writes[1..])
  }

  /** Only whole lines. */
  predicate Whole(text: string) { text == "" || text[|text| - 1] == '\n' }

  lemma {:induction false} LinesNotEmpty(text: string)
    requires text != ""
    ensures LinesIn(text) != []
  {
  }

  lemma {:induction false} OneMoreLine(body: string, rest: string)
    requires '\n' !in body
    ensures LinesIn(body + ("\n" + rest)) == [body] + LinesIn(rest)
  {
    var text := body + ("\n" + rest);
    if body == "" {
      assert text == "\n" + rest && text[1..] == rest;
    } else {
      assert text[1..] == body[1..] + ("\n" + rest);
      OneMoreLine(body[1..], rest);
      assert [body[0]] + body[1..] == body;
    }
  }

  lemma FirstLineGrows(text: string, rest: string)
    requires text != "" && text[0] != '\n' && rest == text[1..] && rest != ""
    ensures LinesIn(rest) != []
    ensures LinesIn(text) == [[text[0]] + LinesIn(rest)[0]] + LinesIn(rest)[1..]
  {
    LinesNotEmpty(rest);
  }

  lemma Lengthen(c: char, lines: seq<string>, more: seq<string>)
    requires lines != []
    ensures [[c] + (lines + more)[0]] + (lines + more)[1..] == ([[c] + lines[0]] + lines[1..]) + more
  {
    assert (lines + more)[1..] == lines[1..] + more;
  }

  lemma {:induction false} LinesConcat(a: string, b: string)
    requires Whole(a)
    ensures LinesIn(a + b) == LinesIn(a) + LinesIn(b)
  {
    if a == "" {
      assert a + b == b;
    } else {
      assert (a + b)[1..] == a[1..] + b;
      LinesConcat(a[1..], b);
      Sequences.Regroup([""], LinesIn(a[1..]), LinesIn(b));
      if a[0] != '\n' {
        LinesNotEmpty(a[1..]);
        FirstLineGrows(a, a[1..]);
        FirstLineGrows(a + b, a[1..] + b);
        Lengthen(a[0], LinesIn(a[1..]), LinesIn(b));
      }
    }
  }

  /** What is written for a line: the line, ended. */
  lemma PieceIsLine(line: string)
    requires OneLine(line)
    ensures Piece(line) == Body(line) + "\n"
  {
  }

  /** Splitting what a run writes gives back exactly its lines, in order. */
  lemma {:induction false} WrittenLines(writes: seq<Write>)
    requires forall w :: w in writes ==> OneLine(w.line)
    ensures LinesIn(Lines(writes)) == Bodies(writes) && Whole(Lines(writes))
  {
    if writes != [] {
      hide LinesIn;
      var line, rest := writes[0].line, Lines(writes[1..]);
      WrittenLines(writes[1..]);
      PieceIsLine(line);
      OneMoreLine(Body(line), rest);
      Sequences.Regroup(Body(line), "\n", rest);
    } else {
      assert Lines(writes) == "";
    }
  }

  // ---------- Rotation never cuts a line ----------

  ghost predicate WholeFiles(fs: Files) {
    forall name :: name in fs ==> Whole(fs[name].text)
  }

  lemma WholeConcat(a: string, b: string)
    requires Whole(a) && Whole(b)
    ensures Whole(a + b)
  {
  }

  lemma WriteKeepsWhole(s: LogState, n: nat, max: nat, w: Write)
    requires Usable(s) && WholeFiles(s.files)
    ensures WholeFiles(Written(s, n, max, w.line, w.faults).files)
  {
    hide Piece, ShiftedTo, Whole;
    ShiftKeepsWhole(s.files, n, w.faults.renames);
    NothingIsWhole();
    var r := if IsFull(s, max, w.faults) then Reopened(Moved(s.files, n, w.faults.renames), w.faults.reopen) else s;
    assert WholeFiles(r.files);
    if r.open {
      PieceIsWhole(w.line);
      BehindPieceIsWhole(r.files[Current].text, Piece(w.line));
    }
  }

  lemma ShiftKeepsWhole(fs: Files, n: nat, broken: set<nat>)
    requires WholeFiles(fs)
    ensures WholeFiles(ShiftedTo(fs, n, 0, broken))
    ensures Current in ShiftedTo(fs, n, 0, broken) <==> Current in fs
  {
    ShiftOnlyMoves(fs, n, 0, broken);
    assert Same(fs, ShiftedTo(fs, n, 0, broken), Current, Current);
  }

  lemma NothingIsWhole()
    ensures Whole("")
  {
  }

  lemma BehindPieceIsWhole(text: string, piece: string)
    requires piece != "" && Whole(piece)
    ensures Whole(text + piece)
  {
  }

  lemma PieceIsWhole(line: string)
    ensures Piece(line) != "" && Whole(Piece(line))
  {
  }

  /** What the whole log has lost at the front of what it should hold: whole lines. */
  ghost predicate LostLines(lost: string, kept: string, whole: string) {
    Whole(lost) && whole == lost + kept
  }

  lemma {:induction false} LogDropsWholeLines(s: LogState, n: nat, max: nat, writes: seq<Write>) returns (lost: string)
    requires Ready(s) && n > 0 && WholeFiles(s.files)
    requires forall w :: w in writes ==> Healthy(w.faults)
    ensures var t := Run(s, n, max, writes);
            Ready(t) && WholeFiles(t.files) && LostLines(lost, All(t.files, n), All(s.files, n) + Lines(writes))
    decreases |writes|
  {
    hide All, Written, Dropped, Piece, WholeFiles;
    if writes == [] {
      lost := "";
      assert "" + All(s.files, n) == All(s.files, n) + Lines(writes);
    } else {
      var w := writes[0];
      var t := Written(s, n, max, w.line, w.faults);
      WriteKeepsSuffix(s, n, max, w);
      WriteKeepsWhole(s, n, max, w);
      DroppedIsWhole(s.files, n);
      var first := if IsFull(s, max, w.faults) then Dropped(s.files, n) else "";
      var more := LogDropsWholeLines(t, n, max, writes[1..]);
      lost := first + more;
      WholeConcat(first, more);
      Sequences.Regroup(All(s.files, n), Piece(w.line), Lines(writes[1..]));
      Sequences.Regroup(first, All(t.files, n), Lines(writes[1..]));
      Sequences.Regroup(first, more, All(Run(s, n, max, writes).files, n));
    }
  }

  lemma DroppedIsWhole(fs: Files, n: nat)
    requires n > 0 && WholeFiles(fs)
    ensures Whole(Dropped(fs, n))
  {
  }

  lemma {:induction false} SpanIsWhole(fs: Files, hi: nat, lo: nat)
    requires WholeFiles(fs)
    ensures Whole(Span(fs, hi, lo))
    decreases hi
  {
    if hi > lo {
      SpanIsWhole(fs, hi - 1, lo);
    }
  }

  /** Read line by line, the log ends with the lines written: it is the end of the lines that
      it held before, followed by exactly the lines written since, in order. */
  lemma LogReadsAsLines(s: LogState, n: nat, max: nat, writes: seq<Write>) returns (lost: seq<string>)
    requires Ready(s) && n > 0 && WholeFiles(s.files)
    requires forall w :: w in writes ==> Healthy(w.faults) && OneLine(w.line)
    ensures LinesIn(All(s.files, n)) + Bodies(writes) == lost + LinesIn(All(Run(s, n, max, writes).files, n))
  {
    var front := LogDropsWholeLines(s, n, max, writes);
    SpanIsWhole(s.files, n, 0);
    WholeConcat(Span(s.files, n, 0), AccessLog.Text(s.files, Current));
    hide LinesIn, Run;
    LinesConcat(front, All(Run(s, n, max, writes).files, n));
    LinesConcat(All(s.files, n), Lines(writes));
    WrittenLines(writes);
    lost := LinesIn(front);
  }

  /** The last line of the log is the last one written. */
  lemma LastLineIsThere(s: LogState, n: nat, max: nat, writes: seq<Write>, w: Write)
    requires Ready(s) && n > 0 && WholeFiles(s.files)
    requires forall v :: v in writes + [w] ==> Healthy(v.faults) && OneLine(v.line)
    ensures var lines := LinesIn(All(Run(s, n, max, writes + [w]).files, n));
            lines != [] && lines[|lines| - 1] == Body(w.line)
  {
    hide All, LinesIn, Written;
    var all := writes + [w];
    var t := Run(s, n, max, writes);
    assert forall v :: v in writes ==> v in all;
    assert w in all;
    var front := LogDropsWholeLines(s, n, max, writes);
    RunOneMore(s, n, max, all, |writes|);
    assert all[..|writes|] == writes && all[..|writes| + 1] == all;
    LastPiece(t, n, max, w);
  }

  lemma LastPiece(t: LogState, n: nat, max: nat, w: Write)
    requires Ready(t) && n > 0 && WholeFiles(t.files) && Healthy(w.faults) && OneLine(w.line)
    ensures var lines := LinesIn(All(Written(t, n, max, w.line, w.faults).files, n));
            lines != [] && lines[|lines| - 1] == Body(w.line)
  {
    hide All, LinesIn, Piece, Moved;
    var r := if IsFull(t, max, w.faults) then Reopened(Moved(t.files, n, w.faults.renames), false) else t;
    WriteKeepsSuffix(t, n, max, w);
    ReadyAgain(t, n, max, w);
    AppendExtends(r.files, n, Piece(w.line));
    PieceIsLine(w.line);
    LinesConcat(All(r.files, n), Piece(w.line));
    OneMoreLine(Body(w.line), "");
    assert LinesIn("") == [] by {
      NoLines();
    }
    assert Body(w.line) + ("\n" + "") == Body(w.line) + "\n";
  }

  lemma NoLines()
    ensures LinesIn("") == []
  {
  }

  lemma ReadyAgain(t: LogState, n: nat, max: nat, w: Write)
    requires Ready(t) && n > 0 && WholeFiles(t.files) && Healthy(w.faults)
    ensures var r := if IsFull(t, max, w.faults) then Reopened(Moved(t.files, n, w.faults.renames), false) else t;
            Current in r.files && Whole(All(r.files, n))
  {
    var r := if IsFull(t, max, w.faults) then Reopened(Moved(t.files, n, w.faults.renames), false) else t;
    ShiftOnlyMoves(t.files, n, 0, w.faults.renames);
    assert Same(t.files, ShiftedTo(t.files, n, 0, w.faults.renames), Current, Current);
    assert WholeFiles(ShiftedTo(t.files, n, 0, w.faults.renames));
    assert WholeFiles(r.files);
    SpanIsWhole(r.files, n, 0);
    WholeConcat(Span(r.files, n, 0), AccessLog.Text(r.files, Current));
  }
}
