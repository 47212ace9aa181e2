/** The rotating access log: files shifted by renames that may fail, and a current file
    that grows line by line. */
module AccessLog {
  datatype Name = Current | Numbered(i: nat)

  /** A file, with what it needs to be known for its size: whether this process opened it
      empty, and how long its last line is. */
  datatype File = File(text: string, ours: bool, last: nat)

  type Files = map<Name, File>

  /** What goes wrong during one write: the renames that fail (0 is that of the current
      file), the `stat`, and the reopening. */
  datatype Faults = Faults(renames: set<nat>, stat: bool, reopen: bool)

  const NONE: Faults := Faults({}, false, false)

  datatype LogState = LogState(files: Files, open: bool)

  predicate Usable(s: LogState) { s.open ==> Current in s.files }

  function Text(fs: Files, n: Name): string {
    if n in fs then fs[n].text else ""
  }

  /** The numbered files from `.hi` down to `.lo+1`, end to end. */
  function Span(fs: Files, hi: nat, lo: nat): string
    decreases hi
  {
    if hi <= lo then "" else Text(fs, Numbered(hi)) + Span(fs, hi - 1, lo)
  }

  /** The whole log, oldest file first. */
  function All(fs: Files, n: nat): string {
    Span(fs, n, 0) + Text(fs, Current)
  }

  // ---------- What one write does ----------

  function Rename(fs: Files, src: Name, dst: Name, fails: bool): Files {
    if fails || src !in fs then fs else (fs - {src})[dst := fs[src]]
  }

  /** After the renames of `.n-1`, ..., `.i`. */
  function ShiftedTo(fs: Files, n: nat, i: nat, broken: set<nat>): Files
    requires i <= n
    decreases n - i
  {
    if i == n then fs
    else Rename(ShiftedTo(fs, n, i + 1, broken), Numbered(i), Numbered(i + 1), i + 1 in broken)
  }

  function Moved(fs: Files, n: nat, broken: set<nat>): Files {
    Rename(ShiftedTo(fs, n, 0, broken), Current, Numbered(1), 0 in broken)
  }

  function Reopened(fs: Files, fails: bool): LogState {
    if fails then LogState(fs, false)
    else LogState(if Current in fs then fs else fs[Current := File("", true, 0)], true)
  }

  function Piece(line: string): string {
    if line == "" || line[|line| - 1] != '\n' then line + "\n" else line
  }

  function Append(fs: Files, piece: string): Files
    requires Current in fs
  {
    fs[Current := fs[Current].(text := fs[Current].text + piece, last := |piece|)]
  }

  predicate IsFull(s: LogState, max: nat, f: Faults) {
    s.open && Current in s.files && !f.stat && |s.files[Current].text| >= max
  }

  function Written(s: LogState, n: nat, max: nat, line: string, f: Faults): LogState
    requires Usable(s)
  {
    var t := if IsFull(s, max, f) then Reopened(Moved(s.files, n, f.renames), f.reopen) else s;
    if t.open then t.(files := Append(t.files, Piece(line))) else t
  }

  datatype Write = Write(line: string, faults: Faults)

  lemma WrittenIsUsable(s: LogState, n: nat, max: nat, w: Write)
    requires Usable(s)
    ensures Usable(Written(s, n, max, w.line, w.faults))
  {
  }

  function Run(s: LogState, n: nat, max: nat, writes: seq<Write>): (t: LogState)
    requires Usable(s)
    decreases |writes|
  {
    if writes == [] then s
    else
      WrittenIsUsable(s, n, max, writes[0]);
      Run(Written(s, n, max, writes[0].line, writes[0].faults), n, max, writes[1..])
  }

  function Lines(writes: seq<Write>): string {
    if writes == [] then "" else Piece(writes[0].line) + Lines(writes[1..])
  }

  // ---------- The log of the C service ----------

  class Log {
    const maxBytes: nat
    const backups: nat
    var open: bool
    var files: Files

    function State(): LogState
      reads this
    {
      LogState(files, open)
    }

    ghost predicate Valid()
      reads this
    {
      Usable(State()) && maxBytes > 0 && backups > 0
    }

    /** `access_log_open`, when the file can be opened. */
    constructor (files: Files, maxBytes: nat, backups: int)
      ensures Valid() && State() == Reopened(files, false)
      ensures this.maxBytes == if maxBytes > 0 then maxBytes else 10 * 1024 * 1024
      ensures this.backups == if backups > 0 then backups else 5
    {
      this.maxBytes := if maxBytes > 0 then maxBytes else 10 * 1024 * 1024;
      this.backups := if backups > 0 then backups else 5;
      this.files := Reopened(files, false).files;
      open := true;
    }

    /** `rotate_locked`. */
    method Rotate(f: Faults)
      requires Valid()
      modifies this
      ensures Valid() && State() == Reopened(Moved(old(files), backups, f.renames), f.reopen)
    {
      open := false;
      var i := backups;
      while i >= 1
        invariant 0 <= i <= backups && !open && backups > 0 && maxBytes > 0
        invariant files == ShiftedTo(old(files), backups, i, f.renames)
      {
        files := Rename(files, Numbered(i - 1), Numbered(i), i in f.renames);
        i := i - 1;
      }
      files := Rename(files, Current, Numbered(1), 0 in f.renames);
      if !f.reopen {
        files := if Current in files then files else files[Current := File("", true, 0)];
        open := true;
      }
    }

    /** `access_log_write`. */
    method WriteLine(line: string, f: Faults)
      requires Valid()
      modifies this
      ensures Valid() && State() == Written(old(State()), backups, maxBytes, line, f)
    {
      if open && !f.stat && |files[Current].text| >= maxBytes {
        Rotate(f);
      }
      if open {
        ghost var text := files[Current].text;
        assert text + line + "\n" == text + (line + "\n");
        files := Append(files, line);
        if line == "" || line[|line| - 1] != '\n' {
          files := Append(files, "\n");
          files := files[Current := files[Current].(last := |line| + 1)];
        }
      }
    }
  }
}
