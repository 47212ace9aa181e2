/** What the rotating log keeps, over whole runs. */
module LogGuarantees {
  import opened Subsequence
  import Sequences
  import opened AccessLog

  // ---------- One rename ----------

  lemma {:induction false} SpanSplit(fs: Files, hi: nat, mid: nat, lo: nat)
    requires lo <= mid <= hi
    ensures Span(fs, hi, lo) == Span(fs, hi, mid) + Span(fs, mid, lo)
  {
    if hi > mid {
      SpanSplit(fs, hi - 1, mid, lo);
    }
  }

  lemma {:induction false} SpanFrame(fs: Files, gs: Files, hi: nat, lo: nat)
    requires forall k :: lo < k <= hi ==> Text(fs, Numbered(k)) == Text(gs, Numbered(k))
    ensures Span(fs, hi, lo) == Span(gs, hi, lo)
  {
    if hi > lo {
      SpanFrame(fs, gs, hi - 1, lo);
    }
  }

  lemma SpanAround(fs: Files, n: nat, i: nat)
    requires 1 <= i < n
    ensures Span(fs, n, 0) == Span(fs, n, i + 1) + (Text(fs, Numbered(i + 1)) + (Text(fs, Numbered(i)) + Span(fs, i - 1, 0)))
  {
    SpanSplit(fs, n, i + 1, 0);
    assert Span(fs, i + 1, 0) == Text(fs, Numbered(i + 1)) + Span(fs, i, 0);
    assert Span(fs, i, 0) == Text(fs, Numbered(i)) + Span(fs, i - 1, 0);
  }

  /** Moving a file over its elder drops the elder's text and nothing else. */
  lemma MoveUp(fs: Files, n: nat, i: nat)
    requires 1 <= i < n && Numbered(i) in fs
    ensures Span(Rename(fs, Numbered(i), Numbered(i + 1), false), n, 0)
         == Span(fs, n, i + 1) + (Text(fs, Numbered(i)) + Span(fs, i - 1, 0))
  {
    var gs := Rename(fs, Numbered(i), Numbered(i + 1), false);
    SpanAround(gs, n, i);
    SpanFrame(fs, gs, n, i + 1);
    SpanFrame(fs, gs, i - 1, 0);
    assert Text(gs, Numbered(i)) == "" && Text(gs, Numbered(i + 1)) == Text(fs, Numbered(i));
  }

  lemma MoveCurrent(fs: Files, n: nat)
    requires 1 <= n && Current in fs
    ensures All(Rename(fs, Current, Numbered(1), false), n) == Span(fs, n, 1) + Text(fs, Current)
    ensures All(fs, n) == Span(fs, n, 1) + (Text(fs, Numbered(1)) + Text(fs, Current))
  {
    var gs := Rename(fs, Current, Numbered(1), false);
    SpanFrame(fs, gs, n, 1);
    SpanSplit(fs, n, 1, 0);
    SpanSplit(gs, n, 1, 0);
    assert Span(fs, 1, 0) == Text(fs, Numbered(1)) + Span(fs, 0, 0);
    assert Span(gs, 1, 0) == Text(gs, Numbered(1)) + Span(gs, 0, 0);
    assert Text(gs, Current) == "" && Text(gs, Numbered(1)) == Text(fs, Current);
  }

  // ---------- The renames of one rotation, when none fails ----------

  /** After the renames down to `.i`: the files above have moved up by one, `.i` is gone. */
  ghost predicate ShiftedUp(fs: Files, gs: Files, n: nat, i: nat)
    requires i <= n
  {
    && (forall k: nat :: k < i || k > n ==> Same(fs, gs, Numbered(k), Numbered(k)))
    && Same(fs, gs, Current, Current)
    && (i < n ==> Numbered(i) !in gs)
    && (i == n ==> Same(fs, gs, Numbered(n), Numbered(n)))
    && (forall k: nat :: i < k < n ==> Same(fs, gs, Numbered(k - 1), Numbered(k)))
    && (i < n ==> Same(fs, gs, if Numbered(n - 1) in fs then Numbered(n - 1) else Numbered(n), Numbered(n)))
  }

  /** What `fs` holds as `src`, `gs` holds as `dst`. */
  ghost predicate Same(fs: Files, gs: Files, src: Name, dst: Name) {
    (src in fs <==> dst in gs) && (src in fs ==> fs[src] == gs[dst])
  }

  lemma {:induction false} ShiftMovesUp(fs: Files, n: nat, i: nat)
    requires i <= n
    ensures ShiftedUp(fs, ShiftedTo(fs, n, i, {}), n, i)
    decreases n - i
  {
    if i < n {
      ShiftMovesUp(fs, n, i + 1);
    }
  }

  /** All that a rotation drops: the oldest file, when another one takes its place. */
  function Dropped(fs: Files, n: nat): string
    requires n > 0
  {
    if n == 1 || Numbered(n - 1) in fs then Text(fs, Numbered(n)) else ""
  }

  /** What the renames of the numbered files drop. */
  function DroppedByShift(fs: Files, n: nat): string
    requires n > 0
  {
    if n == 1 then "" else Dropped(fs, n)
  }

  lemma OneShift(gs: Files, n: nat, i: nat)
    requires i < n && (i + 1 < n ==> Numbered(i + 1) !in gs) && (i == 0 ==> Numbered(0) !in gs)
    ensures All(gs, n) == (if i + 1 == n then DroppedByShift(gs, n) else "")
                          + All(Rename(gs, Numbered(i), Numbered(i + 1), false), n)
  {
    if i > 0 && Numbered(i) in gs {
      MoveUp(gs, n, i);
      SpanAround(gs, n, i);
      assert i + 1 == n ==> Span(gs, n, i + 1) == "";
      Regroup(Span(gs, n, i + 1), Text(gs, Numbered(i + 1)), Text(gs, Numbered(i)) + Span(gs, i - 1, 0), Text(gs, Current));
    }
  }

  lemma Regroup(a: string, b: string, c: string, d: string)
    requires a == "" || b == ""
    ensures (a + (b + c)) + d == b + ((a + c) + d)
  {
  }

  /** In the middle of a rotation, too, nothing but the oldest file is missing. */
  lemma {:induction false} MidRotation(fs: Files, n: nat, i: nat)
    requires i < n && Numbered(0) !in fs
    ensures All(fs, n) == DroppedByShift(fs, n) + All(ShiftedTo(fs, n, i, {}), n)
    decreases n - i
  {
    hide All, Rename;
    if i + 1 == n {
      OneShift(fs, n, i);
      assert ShiftedTo(fs, n, i, {}) == Rename(fs, Numbered(i), Numbered(i + 1), false);
    } else {
      MidRotation(fs, n, i + 1);
      ShiftMovesUp(fs, n, i + 1);
      OneShift(ShiftedTo(fs, n, i + 1, {}), n, i);
    }
  }

  lemma MoveAfterShift(gs: Files, n: nat)
    requires n > 0 && Current in gs && (n > 1 ==> Numbered(1) !in gs)
    ensures All(gs, n) == (if n == 1 then Text(gs, Numbered(1)) else "")
                          + All(Rename(gs, Current, Numbered(1), false), n)
  {
    MoveCurrent(gs, n);
    SpanEmpty(gs);
    hide Span, Rename;
    Regroup(Span(gs, n, 1), Text(gs, Numbered(1)), Text(gs, Current), "");
  }

  lemma SpanEmpty(fs: Files)
    ensures Span(fs, 1, 1) == ""
  {
  }

  lemma ReopenKeeps(fs: Files, n: nat, fails: bool)
    ensures All(Reopened(fs, fails).files, n) == All(fs, n)
  {
    SpanFrame(fs, Reopened(fs, fails).files, n, 0);
  }

  /** A whole rotation drops exactly that. */
  lemma RotationDropsOldest(fs: Files, n: nat)
    requires n > 0 && Numbered(0) !in fs && Current in fs
    ensures All(fs, n) == Dropped(fs, n) + All(Reopened(Moved(fs, n, {}), false).files, n)
    ensures Reopened(Moved(fs, n, {}), false).files[Current] == File("", true, 0)
  {
    hide All;
    ShiftMovesUp(fs, n, 0);
    MidRotation(fs, n, 0);
    MoveAfterShift(ShiftedTo(fs, n, 0, {}), n);
    ReopenKeeps(Moved(fs, n, {}), n, false);
  }

  // ---------- Whole runs without faults ----------

  predicate Healthy(f: Faults) { f.renames == {} && !f.reopen }

  /** The log is open and nobody has put a `.0` file beside it. */
  predicate Ready(s: LogState) { s.open && Current in s.files && Numbered(0) !in s.files }

  lemma AppendExtends(fs: Files, n: nat, piece: string)
    requires Current in fs
    ensures All(Append(fs, piece), n) == All(fs, n) + piece
  {
    SpanFrame(fs, Append(fs, piece), n, 0);
  }

  lemma WriteKeepsSuffix(s: LogState, n: nat, max: nat, w: Write)
    requires Ready(s) && n > 0 && Healthy(w.faults)
    ensures var t := Written(s, n, max, w.line, w.faults);
            && Ready(t)
            && All(s.files, n) + Piece(w.line)
               == (if IsFull(s, max, w.faults) then Dropped(s.files, n) else "") + All(t.files, n)
  {
    hide All, Dropped, Piece;
    var r := if IsFull(s, max, w.faults) then Reopened(Moved(s.files, n, {}), false) else s;
    if IsFull(s, max, w.faults) {
      ShiftMovesUp(s.files, n, 0);
      RotationDropsOldest(s.files, n);
    }
    AppendExtends(r.files, n, Piece(w.line));
  }

  /** Rotation discards the oldest file only: the log is the end of what it held before,
      followed by every line written since. */
  lemma {:induction false} LogIsSuffix(s: LogState, n: nat, max: nat, writes: seq<Write>)
    requires Ready(s) && n > 0
    requires forall w :: w in writes ==> Healthy(w.faults)
    ensures var t := Run(s, n, max, writes);
            Ready(t) && IsSuffix(All(t.files, n), All(s.files, n) + Lines(writes))
    decreases |writes|
  {
    hide All, Written, Dropped, Piece;
    if writes == [] {
      assert All(s.files, n) + Lines(writes) == All(s.files, n);
    } else {
      var w, t := writes[0], Written(s, n, max, writes[0].line, writes[0].faults);
      WriteKeepsSuffix(s, n, max, w);
      LogIsSuffix(t, n, max, writes[1..]);
      SuffixBehind(All(s.files, n) + Piece(w.line), All(t.files, n), Lines(writes[1..]));
      SuffixTransitive(All(Run(s, n, max, writes).files, n), All(t.files, n) + Lines(writes[1..]),
                       All(s.files, n) + Piece(w.line) + Lines(writes[1..]));
      Sequences.Regroup(All(s.files, n), Piece(w.line), Lines(writes[1..]));
    }
  }

  /** And so it is at every point inside the next rotation: after each rename of a numbered
      file, and between that of the current file and the reopening. */
  lemma LogIsSuffixInRotation(s: LogState, n: nat, max: nat, writes: seq<Write>, i: nat)
    requires Ready(s) && i <= n && n > 0
    requires forall w :: w in writes ==> Healthy(w.faults)
    ensures var fs, whole := Run(s, n, max, writes).files, All(s.files, n) + Lines(writes);
            IsSuffix(All(ShiftedTo(fs, n, i, {}), n), whole) && IsSuffix(All(Moved(fs, n, {}), n), whole)
  {
    hide All, Run, Moved, Lines;
    var fs := Run(s, n, max, writes).files;
    LogIsSuffix(s, n, max, writes);
    if i < n {
      MidRotation(fs, n, i);
      SuffixTransitive(All(ShiftedTo(fs, n, i, {}), n), All(fs, n), All(s.files, n) + Lines(writes));
    }
    RotationDropsOldest(fs, n);
    ReopenKeeps(Moved(fs, n, {}), n, false);
    SuffixTransitive(All(Moved(fs, n, {}), n), All(fs, n), All(s.files, n) + Lines(writes));
  }

  lemma SuffixBehind(a: string, b: string, more: string)
    requires exists pre :: a == pre + b
    ensures IsSuffix(b + more, a + more)
  {
  }

  // ---------- Whole runs in which anything may fail ----------

  lemma RenameLosesOnly(fs: Files, n: nat, i: nat, fails: bool)
    requires i < n && (i == 0 ==> Numbered(0) !in fs)
    ensures var gs := Rename(fs, Numbered(i), Numbered(i + 1), fails);
            IsSub(All(gs, n), All(fs, n)) && (Numbered(0) !in fs ==> Numbered(0) !in gs)
  {
    var gs := Rename(fs, Numbered(i), Numbered(i + 1), fails);
    if fails || i == 0 || Numbered(i) !in fs {
      SubItself(All(fs, n));
    } else {
      MoveUp(fs, n, i);
      SpanAround(fs, n, i);
      LeaveOut(Span(fs, n, i + 1), Text(fs, Numbered(i + 1)), Text(fs, Numbered(i)) + Span(fs, i - 1, 0), Text(fs, Current));
    }
  }

  lemma LeaveOut(a: string, b: string, c: string, d: string)
    ensures IsSub((a + c) + d, (a + (b + c)) + d)
  {
    SubItself(a);
    SubItself(c);
    SubItself(d);
    SubBehind(c, b, c);
    SubConcat(a, a, c, b + c);
    SubConcat(a + c, a + (b + c), d, d);
  }

  lemma {:induction false} ShiftLosesOnly(fs: Files, n: nat, i: nat, broken: set<nat>)
    requires i <= n && Numbered(0) !in fs
    ensures var gs := ShiftedTo(fs, n, i, broken);
            IsSub(All(gs, n), All(fs, n)) && Numbered(0) !in gs && (Current in gs <==> Current in fs)
    decreases n - i
  {
    hide All;
    if i == n {
      SubItself(All(fs, n));
    } else {
      var gs := ShiftedTo(fs, n, i + 1, broken);
      ShiftLosesOnly(fs, n, i + 1, broken);
      RenameLosesOnly(gs, n, i, i + 1 in broken);
      SubTransitive(All(ShiftedTo(fs, n, i, broken), n), All(gs, n), All(fs, n));
    }
  }

  lemma MoveLosesOnly(fs: Files, n: nat, broken: set<nat>)
    requires n > 0 && Numbered(0) !in fs && Current in fs
    ensures IsSub(All(Moved(fs, n, broken), n), All(fs, n)) && Numbered(0) !in Moved(fs, n, broken)
  {
    var gs := ShiftedTo(fs, n, 0, broken);
    ShiftLosesOnly(fs, n, 0, broken);
    if 0 in broken {
    } else {
      MoveCurrent(gs, n);
      LeaveOut(Span(gs, n, 1), Text(gs, Numbered(1)), Text(gs, Current), "");
      Units(Span(gs, n, 1), Text(gs, Numbered(1)), Text(gs, Current));
      SubTransitive(All(Moved(fs, n, broken), n), All(gs, n), All(fs, n));
    }
  }

  lemma Units(a: string, b: string, c: string)
    ensures (a + c) + "" == a + c && (a + (b + c)) + "" == a + (b + c)
  {
  }

  lemma WriteLosesOnly(s: LogState, n: nat, max: nat, w: Write)
    requires Usable(s) && n > 0 && Numbered(0) !in s.files
    ensures var t := Written(s, n, max, w.line, w.faults);
            Numbered(0) !in t.files && IsSub(All(t.files, n), All(s.files, n) + Piece(w.line))
  {
    hide All, Moved, Piece;
    var r := if IsFull(s, max, w.faults) then Reopened(Moved(s.files, n, w.faults.renames), w.faults.reopen) else s;
    SubItself(All(s.files, n));
    if IsFull(s, max, w.faults) {
      MoveLosesOnly(s.files, n, w.faults.renames);
      ReopenKeeps(Moved(s.files, n, w.faults.renames), n, w.faults.reopen);
    }
    SubItself(Piece(w.line));
    SubConcat(All(r.files, n), All(s.files, n), Piece(w.line), Piece(w.line));
    if r.open {
      AppendExtends(r.files, n, Piece(w.line));
    } else {
      SubConcat(All(r.files, n), All(s.files, n), "", Piece(w.line));
      assert All(r.files, n) + "" == All(r.files, n);
    }
  }

  /** Whatever renames, `stat`s and reopenings fail, the log repeats and reorders nothing. */
  lemma {:induction false} LogLosesOnly(s: LogState, n: nat, max: nat, writes: seq<Write>)
    requires Usable(s) && n > 0 && Numbered(0) !in s.files
    ensures IsSub(All(Run(s, n, max, writes).files, n), All(s.files, n) + Lines(writes))
    decreases |writes|
  {
    hide All, Written, Piece;
    if writes == [] {
      SubItself(All(s.files, n));
      assert All(s.files, n) + Lines(writes) == All(s.files, n);
    } else {
      var w := writes[0];
      WrittenIsUsable(s, n, max, w);
      var t := Written(s, n, max, w.line, w.faults);
      WriteLosesOnly(s, n, max, w);
      LogLosesOnly(t, n, max, writes[1..]);
      SubItself(Lines(writes[1..]));
      SubConcat(All(t.files, n), All(s.files, n) + Piece(w.line), Lines(writes[1..]), Lines(writes[1..]));
      SubTransitive(All(Run(s, n, max, writes).files, n), All(t.files, n) + Lines(writes[1..]),
                    All(s.files, n) + Piece(w.line) + Lines(writes[1..]));
      Sequences.Regroup(All(s.files, n), Piece(w.line), Lines(writes[1..]));
    }
  }

  // ---------- How large, how many ----------

  /** Of the files that this process opened empty, those that were rotated out have reached
      the limit. */
  ghost predicate RotatedAreFull(fs: Files, max: nat) {
    forall name :: name in fs && fs[name].ours && name != Current ==> |fs[name].text| >= max
  }

  /** And none had reached it before its last line. */
  ghost predicate NoneOutgrew(fs: Files, max: nat) {
    forall name :: name in fs && fs[name].ours ==>
      fs[name].last <= |fs[name].text| && |fs[name].text| - fs[name].last < max
  }

  /** Whatever fails, renaming numbered files changes and invents none, and leaves the
      current one alone. */
  lemma {:induction false} ShiftOnlyMoves(fs: Files, n: nat, i: nat, broken: set<nat>)
    requires i <= n
    ensures var gs := ShiftedTo(fs, n, i, broken);
            && Same(fs, gs, Current, Current)
            && forall name :: name in gs && name != Current ==> exists k: nat :: Same(fs, gs, Numbered(k), name)
    decreases n - i
  {
    if i == n {
      forall name | name in fs && name != Current
        ensures exists k: nat :: Same(fs, fs, Numbered(k), name)
      {
        assert Same(fs, fs, Numbered(name.i), name);
      }
    } else {
      var gs, hs := ShiftedTo(fs, n, i + 1, broken), ShiftedTo(fs, n, i, broken);
      ShiftOnlyMoves(fs, n, i + 1, broken);
      forall name | name in hs && name != Current
        ensures exists k: nat :: Same(fs, hs, Numbered(k), name)
      {
        var before := if name in gs && gs[name] == hs[name] then name else Numbered(i);
        var k: nat :| Same(fs, gs, Numbered(k), before);
        assert Same(fs, hs, Numbered(k), name);
      }
    }
  }

  lemma ShiftKeepsSizes(fs: Files, n: nat, broken: set<nat>, max: nat)
    ensures var gs := ShiftedTo(fs, n, 0, broken);
            && (Current in gs <==> Current in fs) && (Current in fs ==> gs[Current] == fs[Current])
            && (RotatedAreFull(fs, max) ==> RotatedAreFull(gs, max))
            && (NoneOutgrew(fs, max) ==> NoneOutgrew(gs, max))
  {
    ShiftOnlyMoves(fs, n, 0, broken);
    assert Same(fs, ShiftedTo(fs, n, 0, broken), Current, Current);
  }

  lemma WriteKeepsRotatedFull(s: LogState, n: nat, max: nat, w: Write)
    requires Usable(s) && RotatedAreFull(s.files, max)
    ensures RotatedAreFull(Written(s, n, max, w.line, w.faults).files, max)
  {
    hide Piece;
    ShiftKeepsSizes(s.files, n, w.faults.renames, max);
  }

  /** Whatever renames, `stat`s and reopenings fail: no file is rotated out too small. */
  lemma {:induction false} RotatedFilesAreFull(s: LogState, n: nat, max: nat, writes: seq<Write>)
    requires Usable(s) && RotatedAreFull(s.files, max)
    ensures RotatedAreFull(Run(s, n, max, writes).files, max)
    decreases |writes|
  {
    hide Written, RotatedAreFull;
    if writes != [] {
      WrittenIsUsable(s, n, max, writes[0]);
      WriteKeepsRotatedFull(s, n, max, writes[0]);
      RotatedFilesAreFull(Written(s, n, max, writes[0].line, writes[0].faults), n, max, writes[1..]);
    }
  }

  /** A write that finds its file full, but cannot ask for the size, or cannot move the file
      away and reopens it. */
  predicate WritesToFullFile(s: LogState, max: nat, f: Faults) {
    && s.open && Current in s.files && s.files[Current].ours && |s.files[Current].text| >= max
    && (f.stat || (0 in f.renames && !f.reopen))
  }

  lemma OutgrownIff(s: LogState, n: nat, max: nat, w: Write)
    requires Usable(s) && max > 0 && NoneOutgrew(s.files, max)
    ensures NoneOutgrew(Written(s, n, max, w.line, w.faults).files, max) <==> !WritesToFullFile(s, max, w.faults)
  {
    hide Piece;
    ShiftKeepsSizes(s.files, n, w.faults.renames, max);
    var t := Written(s, n, max, w.line, w.faults);
    if WritesToFullFile(s, max, w.faults) {
      assert t.files[Current].ours && |t.files[Current].text| - t.files[Current].last >= max;
    }
  }

  /** At every point of the run. */
  ghost predicate NeverOutgrown(s: LogState, n: nat, max: nat, writes: seq<Write>)
    requires Usable(s)
  {
    forall k :: 0 <= k <= |writes| ==> NoneOutgrew(Run(s, n, max, writes[..k]).files, max)
  }

  ghost predicate SomeWriteToFullFile(s: LogState, n: nat, max: nat, writes: seq<Write>)
    requires Usable(s)
  {
    exists k :: 0 <= k < |writes| && WritesToFullFile(Run(s, n, max, writes[..k]), max, writes[k].faults)
  }

  lemma {:induction false} RunOneMore(s: LogState, n: nat, max: nat, writes: seq<Write>, k: nat)
    requires Usable(s) && k < |writes|
    ensures var t := Run(s, n, max, writes[..k]);
            Usable(t) && Run(s, n, max, writes[..k + 1]) == Written(t, n, max, writes[k].line, writes[k].faults)
    decreases k
  {
    WrittenIsUsable(s, n, max, writes[0]);
    hide Written;
    var one := Written(s, n, max, writes[0].line, writes[0].faults);
    if k == 0 {
      assert Run(s, n, max, writes[..1]) == Run(one, n, max, writes[..1][1..]);
    } else {
      RunOneMore(one, n, max, writes[1..], k - 1);
      assert writes[..k][1..] == writes[1..][..k - 1] && writes[..k + 1][1..] == writes[1..][..k];
    }
  }

  /** The log size bound: at every point of the run every file opened empty stays below the
      limit plus its last line, if and only if no write goes to a file that is full because
      its `stat`, or the rename of the current file, failed. Other faults do not matter. */
  lemma SizesAreBoundedIff(s: LogState, n: nat, max: nat, writes: seq<Write>)
    requires Usable(s) && max > 0 && NoneOutgrew(s.files, max)
    ensures NeverOutgrown(s, n, max, writes) <==> !SomeWriteToFullFile(s, n, max, writes)
  {
    hide Run, NoneOutgrew, WritesToFullFile;
    if !SomeWriteToFullFile(s, n, max, writes) {
      var k := 0;
      NothingWritten(s, n, max, writes);
      while k < |writes|
        invariant 0 <= k <= |writes|
        invariant forall j :: 0 <= j <= k ==> NoneOutgrew(Run(s, n, max, writes[..j]).files, max)
      {
        RunOneMore(s, n, max, writes, k);
        OutgrownIff(Run(s, n, max, writes[..k]), n, max, writes[k]);
        k := k + 1;
      }
    } else if NeverOutgrown(s, n, max, writes) {
      var k :| 0 <= k < |writes| && WritesToFullFile(Run(s, n, max, writes[..k]), max, writes[k].faults);
      RunOneMore(s, n, max, writes, k);
      OutgrownIff(Run(s, n, max, writes[..k]), n, max, writes[k]);
      assert false;
    }
  }

  lemma NothingWritten(s: LogState, n: nat, max: nat, writes: seq<Write>)
    requires Usable(s)
    ensures Run(s, n, max, writes[..0]) == s
  {
  }

  /** Either fault is enough, on the second line into a full file. */
  lemma FullFileOutgrows(n: nat, f: Faults)
    requires f.stat || (0 in f.renames && !f.reopen)
    ensures var s, writes := LogState(map[Current := File("", true, 0)], true), [Write("a", NONE), Write("b", f)];
            Usable(s) && NoneOutgrew(s.files, 2) && !NeverOutgrown(s, n, 2, writes)
  {
    var s, writes := LogState(map[Current := File("", true, 0)], true), [Write("a", NONE), Write("b", f)];
    NothingWritten(s, n, 2, writes);
    RunOneMore(s, n, 2, writes, 0);
    var t := Run(s, n, 2, writes[..1]);
    assert t.files[Current].text == "" + "a\n";
    assert WritesToFullFile(t, 2, writes[1].faults);
    SizesAreBoundedIff(s, n, 2, writes);
  }

  function NamesUpTo(n: nat): (names: set<Name>)
    ensures |names| == n + 1
    ensures forall name :: name in names <==> name == Current || 1 <= name.i <= n
  {
    if n == 0 then {Current} else NamesUpTo(n - 1) + {Numbered(n)}
  }

  lemma {:induction false} ShiftKeepsNames(fs: Files, n: nat, i: nat, broken: set<nat>)
    requires i <= n && fs.Keys <= NamesUpTo(n)
    ensures ShiftedTo(fs, n, i, broken).Keys <= NamesUpTo(n)
    decreases n - i
  {
    if i < n {
      ShiftKeepsNames(fs, n, i + 1, broken);
    }
  }

  /** Whatever fails, at most `backups + 1` files are in use. */
  lemma {:induction false} FilesAreBounded(s: LogState, n: nat, max: nat, writes: seq<Write>)
    requires n > 0 && Usable(s) && s.files.Keys <= NamesUpTo(n)
    ensures Run(s, n, max, writes).files.Keys <= NamesUpTo(n)
    ensures |Run(s, n, max, writes).files| <= n + 1
    decreases |writes|
  {
    hide Piece;
    if writes == [] {
      SubsetSize(s.files.Keys, NamesUpTo(n));
      assert |s.files| == |s.files.Keys|;
    } else {
      var w := writes[0];
      ShiftKeepsNames(s.files, n, 0, w.faults.renames);
      WrittenIsUsable(s, n, max, w);
      FilesAreBounded(Written(s, n, max, w.line, w.faults), n, max, writes[1..]);
    }
  }

  lemma {:induction false} SubsetSize<T>(a: set<T>, b: set<T>)
    requires a <= b
    ensures |a| <= |b|
  {
    if a != {} {
      var x :| x in a;
      SubsetSize(a - {x}, b - {x});
    }
  }
}
