/** Joining the component graphs of several categories into one GFA file: segment names
    of the i-th input (counting from 1) get the prefix `<i>_`, links are rewritten to the
    renamed segments, and every other line is dropped. Files are given as their lines. */
module JoinGfa {
  import opened Wrappers
  import Seqs
  import opened Text
  import opened Numbers

  /** The Python exceptions the loop can stop on. */
  datatype Fault =
    | EmptyLine                                 // IndexError: `line.split()[0]` of a blank line
    | FieldCount(expected: nat, found: nat)     // ValueError: unpacking the tab-separated fields
    | UnknownSegment(name: string)              // KeyError: a link to a segment not seen yet

  /** What one line does: the new name map and the lines it prints, or the fault. */
  datatype LineResult = Kept(names: map<string, string>, emitted: seq<string>) | Failed(fault: Fault)

  /** `str(cat) + "_"`. */
  function Prefix(cat: nat): string
  {
    NatToString(cat) + "_"
  }

  /** One line of the `cat`-th file under the name map `m`. */
  function JoinLine(m: map<string, string>, cat: nat, line: string): LineResult
  {
    match FirstToken(line)
    case None => Failed(EmptyLine)
    case Some(kind) =>
      var fields := Split(Strip(line), '\t');
      if kind == "S" then
        if |fields| != 5 then Failed(FieldCount(5, |fields|))
        else
          var renamed := Prefix(cat) + fields[1];
          Kept(m[fields[1] := renamed], [Join([fields[0], renamed, fields[2], fields[3], fields[4]], '\t')])
      else if kind == "L" then
        if |fields| != 6 then Failed(FieldCount(6, |fields|))
        else if fields[1] !in m then Failed(UnknownSegment(fields[1]))
        else if fields[3] !in m then Failed(UnknownSegment(fields[3]))
        else Kept(m, [Join([fields[0], m[fields[1]], fields[2], m[fields[3]], fields[4], fields[5]], '\t')])
      else Kept(m, [])
  }

  /** The state of the script: the name map, what it has written, and the fault it stopped
      on, if any. */
  datatype State = State(names: map<string, string>, out: seq<string>, fault: Option<Fault>)

  /** The state after the lines of the `cat`-th file, from `s0`. */
  function JoinLines(s0: State, cat: nat, lines: seq<string>): State
    decreases |lines|
  {
    if |lines| == 0 then s0
    else
      var s := JoinLines(s0, cat, lines[..|lines| - 1]);
      if s.fault.Some? then s
      else match JoinLine(s.names, cat, lines[|lines| - 1])
        case Kept(m, emitted) => State(m, s.out + emitted, None)
        case Failed(f) => State(s.names, s.out, Some(f))
  }

  /** The state after the given files, the i-th numbered i + 1. */
  function JoinFiles(files: seq<seq<string>>): State
    decreases |files|
  {
    if |files| == 0 then State(map[], [], None)
    else
      var s := JoinFiles(files[..|files| - 1]);
      if s.fault.Some? then s else JoinLines(s, |files|, files[|files| - 1])
  }

  // ---------------------------------------------------------------------------
  // The loops
  // ---------------------------------------------------------------------------

  lemma {:induction false} JoinLinesStops(s0: State, cat: nat, lines: seq<string>, n: nat)
    requires n <= |lines| && JoinLines(s0, cat, lines[..n]).fault.Some?
    ensures JoinLines(s0, cat, lines) == JoinLines(s0, cat, lines[..n])
    decreases |lines|
  {
    if n < |lines| {
      var front := lines[..|lines| - 1];
      Seqs.TakeTake(lines, |lines| - 1, n);
      assert front[..n] == lines[..n];
      JoinLinesStops(s0, cat, front, n);
    } else {
      assert lines[..n] == lines;
    }
  }

  lemma JoinLinesFaulty(s0: State, cat: nat, lines: seq<string>)
    requires s0.fault.Some?
    ensures JoinLines(s0, cat, lines) == s0
  {
    assert lines[..0] == [];
    JoinLinesStops(s0, cat, lines, 0);
  }

  lemma {:induction false} JoinFilesStops(files: seq<seq<string>>, n: nat)
    requires n <= |files| && JoinFiles(files[..n]).fault.Some?
    ensures JoinFiles(files) == JoinFiles(files[..n])
    decreases |files|
  {
    if n < |files| {
      var front := files[..|files| - 1];
      Seqs.TakeTake(files, |files| - 1, n);
      assert front[..n] == files[..n];
      JoinFilesStops(front, n);
    } else {
      assert files[..n] == files;
    }
  }

  lemma JoinLinesNext(s0: State, cat: nat, lines: seq<string>, j: nat)
    requires j < |lines|
    ensures var s := JoinLines(s0, cat, lines[..j]);
      JoinLines(s0, cat, lines[..j + 1])
        == if s.fault.Some? then s
           else match JoinLine(s.names, cat, lines[j])
             case Kept(m, emitted) => State(m, s.out + emitted, None)
             case Failed(f) => State(s.names, s.out, Some(f))
  {
    Seqs.TakeTake(lines, j + 1, j);
    assert lines[..j + 1][j] == lines[j];
  }

  lemma JoinFilesNext(files: seq<seq<string>>, k: nat)
    requires k < |files|
    ensures JoinFiles(files[..k + 1])
      == if JoinFiles(files[..k]).fault.Some? then JoinFiles(files[..k])
         else JoinLines(JoinFiles(files[..k]), k + 1, files[k])
  {
    Seqs.TakeTake(files, k + 1, k);
    assert files[..k + 1][k] == files[k];
  }

  /** The lines of one file, stopping on the first fault. */
  method JoinFile(m0: map<string, string>, out0: seq<string>, cat: nat, lines: seq<string>)
    returns (m: map<string, string>, out: seq<string>, fault: Option<Fault>)
    ensures State(m, out, fault) == JoinLines(State(m0, out0, None), cat, lines)
  {
    m, out, fault := m0, out0, None;
    var j := 0;
    while j < |lines|
      invariant j <= |lines|
      invariant State(m, out, None) == JoinLines(State(m0, out0, None), cat, lines[..j])
    {
      JoinLinesNext(State(m0, out0, None), cat, lines, j);
      match JoinLine(m, cat, lines[j])
      case Failed(f) =>
        fault := Some(f);
        JoinLinesStops(State(m0, out0, None), cat, lines, j + 1);
        return;
      case Kept(m', emitted) =>
        m, out := m', out + emitted;
      j := j + 1;
    }
    assert lines[..j] == lines;
  }

  /** The script: the files in order, `cat` counting them from 1. */
  method JoinGraphs(files: seq<seq<string>>) returns (out: seq<string>, fault: Option<Fault>)
    ensures out == JoinFiles(files).out && fault == JoinFiles(files).fault
  {
    var m: map<string, string> := map[];
    out, fault := [], None;
    var k := 0;
    while k < |files|
      invariant k <= |files|
      invariant State(m, out, fault) == JoinFiles(files[..k]) && fault.None?
    {
      JoinFilesNext(files, k);
      m, out, fault := JoinFile(m, out, k + 1, files[k]);
      if fault.Some? {
        JoinFilesStops(files, k + 1);
        return;
      }
      k := k + 1;
    }
    assert files[..k] == files;
  }

  // ---------------------------------------------------------------------------
  // What a line does
  // ---------------------------------------------------------------------------

  predicate TabFree(s: string)
  {
    '\t' !in s
  }

  /** Every name in the map is renamed to a tab-free name. */
  predicate TabFreeNames(m: map<string, string>)
  {
    forall k :: k in m ==> TabFree(m[k])
  }

  lemma PrefixTabFree(cat: nat, name: string)
    requires TabFree(name)
    ensures TabFree(Prefix(cat) + name)
  {
    var d := NatToString(cat);
    assert forall i :: 0 <= i < |d| ==> IsDigit(d[i]);
    Seqs.InAppend('\t', d, "_");
    Seqs.InAppend('\t', Prefix(cat), name);
  }

  /** A segment line prints one line holding the same five fields with the name renamed
      to `<cat>_<name>`, and maps that name to the new one. */
  lemma SegmentLine(m: map<string, string>, cat: nat, line: string)
    requires FirstToken(line) == Some("S")
    ensures var fields := Split(Strip(line), '\t');
      var r := JoinLine(m, cat, line);
      && (r.Failed? <==> |fields| != 5)
      && (r.Kept? ==>
            && r.names == m[fields[1] := Prefix(cat) + fields[1]]
            && |r.emitted| == 1
            && Split(r.emitted[0], '\t') == [fields[0], Prefix(cat) + fields[1], fields[2], fields[3], fields[4]])
  {
    var fields := Split(Strip(line), '\t');
    if |fields| == 5 {
      PrefixTabFree(cat, fields[1]);
      var row := [fields[0], Prefix(cat) + fields[1], fields[2], fields[3], fields[4]];
      assert forall i :: 0 <= i < 5 ==> '\t' !in row[i];
      SplitJoin(row, '\t');
    }
  }

  /** A link line prints one line holding the same six fields with both ends renamed
      through the map, which it leaves alone; an end never named by a segment line
      stops the script with a KeyError, the first end checked first. */
  lemma LinkLine(m: map<string, string>, cat: nat, line: string)
    requires FirstToken(line) == Some("L") && TabFreeNames(m)
    ensures var fields := Split(Strip(line), '\t');
      var r := JoinLine(m, cat, line);
      && (|fields| != 6 ==> r == Failed(FieldCount(6, |fields|)))
      && (|fields| == 6 && fields[1] !in m ==> r == Failed(UnknownSegment(fields[1])))
      && (|fields| == 6 && fields[1] in m && fields[3] !in m ==> r == Failed(UnknownSegment(fields[3])))
      && (r.Kept? ==>
            && r.names == m
            && |r.emitted| == 1
            && Split(r.emitted[0], '\t') == [fields[0], m[fields[1]], fields[2], m[fields[3]], fields[4], fields[5]])
  {
    var fields := Split(Strip(line), '\t');
    if |fields| == 6 && fields[1] in m && fields[3] in m {
      var row := [fields[0], m[fields[1]], fields[2], m[fields[3]], fields[4], fields[5]];
      assert TabFree(m[fields[1]]) && TabFree(m[fields[3]]);
      assert forall i :: 0 <= i < 6 ==> '\t' !in row[i];
      SplitJoin(row, '\t');
    }
  }

  /** Any other line prints nothing and changes nothing; a blank one is an IndexError. */
  lemma OtherLine(m: map<string, string>, cat: nat, line: string)
    requires FirstToken(line) != Some("S") && FirstToken(line) != Some("L")
    ensures JoinLine(m, cat, line) == if FirstToken(line).None? then Failed(EmptyLine) else Kept(m, [])
  {
  }

  /** The renamed names never hold a tab, so the links can be read back. */
  lemma JoinLineTabFree(m: map<string, string>, cat: nat, line: string)
    requires TabFreeNames(m)
    ensures JoinLine(m, cat, line).Kept? ==> TabFreeNames(JoinLine(m, cat, line).names)
  {
    var fields := Split(Strip(line), '\t');
    if FirstToken(line) == Some("S") && |fields| == 5 {
      PrefixTabFree(cat, fields[1]);
    }
  }

  /** Every name in the map stands for `<i>_<name>` for one of the files read so far. */
  ghost predicate RenamedFrom(m: map<string, string>, cat: nat)
  {
    forall k :: k in m ==> exists i :: 1 <= i <= cat && m[k] == Prefix(i) + k
  }

  lemma JoinLineRenamed(m: map<string, string>, cat: nat, line: string)
    requires cat >= 1 && RenamedFrom(m, cat)
    ensures JoinLine(m, cat, line).Kept? ==> RenamedFrom(JoinLine(m, cat, line).names, cat)
  {
    var fields := Split(Strip(line), '\t');
    if FirstToken(line) == Some("S") && |fields| == 5 {
      var m' := m[fields[1] := Prefix(cat) + fields[1]];
      forall k | k in m'
        ensures exists i :: 1 <= i <= cat && m'[k] == Prefix(i) + k
      {
        if k == fields[1] {
          assert m'[k] == Prefix(cat) + k;
        }
      }
    }
  }

  /** Along a file the names stay tab-free and renamed from the files read. */
  lemma {:induction false} JoinLinesInvariant(s0: State, cat: nat, lines: seq<string>)
    requires cat >= 1 && TabFreeNames(s0.names) && RenamedFrom(s0.names, cat)
    ensures TabFreeNames(JoinLines(s0, cat, lines).names)
    ensures RenamedFrom(JoinLines(s0, cat, lines).names, cat)
    decreases |lines|
  {
    if |lines| > 0 {
      var s := JoinLines(s0, cat, lines[..|lines| - 1]);
      JoinLinesInvariant(s0, cat, lines[..|lines| - 1]);
      if s.fault.None? {
        JoinLineTabFree(s.names, cat, lines[|lines| - 1]);
        JoinLineRenamed(s.names, cat, lines[|lines| - 1]);
      }
    }
  }

  /** After any number of files, every segment name maps to `<i>_<name>` for one of
      those files, and the renamed names are tab-free, so every printed link line reads
      back as in `LinkLine`. */
  lemma {:induction false} JoinFilesInvariant(files: seq<seq<string>>)
    ensures TabFreeNames(JoinFiles(files).names)
    ensures RenamedFrom(JoinFiles(files).names, |files|)
    decreases |files|
  {
    if |files| > 0 {
      var front := files[..|files| - 1];
      JoinFilesInvariant(front);
      var s := JoinFiles(front);
      forall k | k in s.names
        ensures exists i :: 1 <= i <= |files| && s.names[k] == Prefix(i) + k
      {
        var i :| 1 <= i <= |front| && s.names[k] == Prefix(i) + k;
      }
      if s.fault.None? {
        JoinLinesInvariant(s, |files|, files[|files| - 1]);
      }
    }
  }
}
