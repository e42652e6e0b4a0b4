/** Extracting the segments of a components graph as FASTA records. Segment names carry
    their component as the second `_`-field (`<x>_c<number>_...`); records are renamed
    `<comp>_<i>`, where `comp` counts the runs of the component number and `i` the
    segments within a run. */
module GraphToContigs {
  import opened Wrappers
  import Seqs
  import opened Text
  import opened Numbers

  /** The Python exceptions the loop can stop on. */
  datatype Fault =
    | EmptyLine                   // IndexError: `line.split()[0]` of a blank line
    | FieldCount(found: nat)      // ValueError: fewer than three tab-separated fields
    | NoComponent(name: string)   // IndexError: a name without a second `_`-field
    | BadNumber(text: string)     // ValueError: `int` of the component text

  /** The component number of a segment name, or the fault of computing it. */
  datatype Number = Number(value: int) | NotNumber(fault: Fault)

  /** `int(name.split("_")[1][1:])`. */
  function ComponentNumber(name: string): Number
  {
    var parts := Split(name, '_');
    if |parts| < 2 then NotNumber(NoComponent(name))
    else
      var text := if |parts[1]| == 0 then "" else parts[1][1..];
      match ParseInt(text)
      case None => NotNumber(BadNumber(text))
      case Some(v) => Number(v)
  }

  /** One written record: the run counter and index it was numbered with, the component
      number read from its name, its original name and its sequence. */
  datatype Contig = Contig(comp: int, index: nat, number: int, name: string, sequence: string)

  /** The loop state: `comp`, `comp_i`, the records written, and the fault it stopped on. */
  datatype Scan = Scan(comp: int, index: nat, contigs: seq<Contig>, fault: Option<Fault>)

  /** What a line of the graph file is to the loop. */
  datatype Parsed =
    | Segment(name: string, sequence: string, number: int)   // an S line
    | Other                                                  // any other non-blank line
    | Broken(fault: Fault)                                   // a line the loop stops on

  /** The tests and conversions of one line: its first word, its tab-separated fields and
      the component number of its name. */
  function ParseLine(line: string): Parsed
  {
    match FirstToken(line)
    case None => Broken(EmptyLine)
    case Some(kind) =>
      if kind != "S" then Other
      else
        var fields := Split(Strip(line), '\t');
        if |fields| < 3 then Broken(FieldCount(|fields|))
        else match ComponentNumber(fields[1])
          case NotNumber(f) => Broken(f)
          case Number(v) => Segment(fields[1], fields[2], v)
  }

  /** What one parsed line does to the loop state. */
  function Advance(s: Scan, p: Parsed): Scan
  {
    if s.fault.Some? then s
    else match p
      case Broken(f) => s.(fault := Some(f))
      case Other => s
      case Segment(name, sequence, v) =>
        var comp := if v != s.comp then s.comp + 1 else s.comp;
        var index := (if v != s.comp then 0 else s.index) + 1;
        Scan(comp, index, s.contigs + [Contig(comp, index, v, name, sequence)], None)
  }

  /** How lines are read. The script reads them with `ParseLine`; the numbering is
      stated for any reading. */
  type Reading = string -> Parsed

  /** The state after `lines`, from `comp = -1`, `comp_i = 0`. */
  function Scanned(lines: seq<string>, read: Reading): Scan
    decreases |lines|
  {
    if |lines| == 0 then Scan(-1, 0, [], None)
    else Advance(Scanned(lines[..|lines| - 1], read), read(lines[|lines| - 1]))
  }

  /** `str(comp) + "_" + str(comp_i)`. */
  function Label(comp: int, index: nat): string
  {
    IntToString(comp) + "_" + NatToString(index)
  }

  /** The two printed lines of a record. */
  function Render(c: Contig): seq<string>
  {
    [">" + Label(c.comp, c.index) + "\t" + c.name, c.sequence]
  }

  function RenderAll(contigs: seq<Contig>): (out: seq<string>)
    ensures |out| == 2 * |contigs|
    decreases |contigs|
  {
    if |contigs| == 0 then []
    else RenderAll(contigs[..|contigs| - 1]) + Render(contigs[|contigs| - 1])
  }

  lemma RenderAllSnoc(contigs: seq<Contig>, c: Contig)
    ensures RenderAll(contigs + [c]) == RenderAll(contigs) + Render(c)
  {
    assert (contigs + [c])[..|contigs|] == contigs;
  }

  lemma ScannedNext(lines: seq<string>, read: Reading, i: nat)
    requires i < |lines|
    ensures Scanned(lines[..i + 1], read) == Advance(Scanned(lines[..i], read), read(lines[i]))
  {
    Seqs.TakeTake(lines, i + 1, i);
    assert lines[..i + 1][i] == lines[i];
  }

  lemma {:induction false} ScannedStops(lines: seq<string>, read: Reading, n: nat)
    requires n <= |lines| && Scanned(lines[..n], read).fault.Some?
    ensures Scanned(lines, read) == Scanned(lines[..n], read)
    decreases |lines|
  {
    if n < |lines| {
      var front := lines[..|lines| - 1];
      Seqs.TakeTake(lines, |lines| - 1, n);
      assert front[..n] == lines[..n];
      ScannedStops(front, read, n);
    } else {
      assert lines[..n] == lines;
    }
  }

  /** One S line in the loop: the run counter and index move on, and the record is written. */
  method NumberSegment(comp: int, index: nat, ghost contigs: seq<Contig>, out: seq<string>,
                       name: string, sequence: string, number: int)
    returns (comp': int, index': nat, ghost contigs': seq<Contig>, out': seq<string>)
    requires out == RenderAll(contigs)
    ensures Scan(comp', index', contigs', None)
      == Advance(Scan(comp, index, contigs, None), Segment(name, sequence, number))
    ensures out' == RenderAll(contigs')
  {
    comp', index' := comp, index;
    if number != comp' {
      comp' := comp' + 1;
      index' := 0;
    }
    index' := index' + 1;
    var c := Contig(comp', index', number, name, sequence);
    RenderAllSnoc(contigs, c);
    out' := out + Render(c);
    contigs' := contigs + [c];
  }

  /** The loop over the lines, each read with `read`. */
  method NumberSegments(lines: seq<string>, read: Reading) returns (out: seq<string>, fault: Option<Fault>)
    ensures out == RenderAll(Scanned(lines, read).contigs) && fault == Scanned(lines, read).fault
  {
    var comp: int, index: nat := -1, 0;
    ghost var contigs: seq<Contig> := [];
    out, fault := [], None;
    var i := 0;
    while i < |lines|
      invariant i <= |lines|
      invariant Scan(comp, index, contigs, None) == Scanned(lines[..i], read)
      invariant out == RenderAll(contigs) && fault.None?
    {
      ScannedNext(lines, read, i);
      match read(lines[i]) {
        case Broken(f) =>
          fault := Some(f);
          ScannedStops(lines, read, i + 1);
          return;
        case Other =>
        case Segment(name, sequence, number) =>
          comp, index, contigs, out := NumberSegment(comp, index, contigs, out, name, sequence, number);
      }
      i := i + 1;
    }
    assert lines[..i] == lines;
  }

  /** The script: what it writes to `components.seq.fasta` before it ends or stops. */
  method GraphToFasta(lines: seq<string>) returns (out: seq<string>, fault: Option<Fault>)
    ensures out == RenderAll(Scanned(lines, ParseLine).contigs) && fault == Scanned(lines, ParseLine).fault
  {
    out, fault := NumberSegments(lines, ParseLine);
  }

  // ---------------------------------------------------------------------------
  // The numbering
  // ---------------------------------------------------------------------------

  /** How the record after `c` is numbered: a component number other than `comp` opens
      the next run at index 1, the same number continues the run. */
  predicate Follows(c: Contig, d: Contig)
  {
    if d.number != c.comp then d.comp == c.comp + 1 && d.index == 1
    else d.comp == c.comp && d.index == c.index + 1
  }

  /** The counters are those of the last record (or the initial ones), the first record
      is at index 1 of run 0 (or of run -1 if its number is -1), and each later record
      follows the one before it. */
  ghost predicate Numbered(s: Scan)
  {
    var cs := s.contigs;
    && (|cs| == 0 ==> s.comp == -1 && s.index == 0)
    && (|cs| > 0 ==>
          && cs[|cs| - 1].comp == s.comp && cs[|cs| - 1].index == s.index
          && cs[0].index == 1 && cs[0].comp == (if cs[0].number == -1 then -1 else 0))
    && (forall j :: 0 <= j < |cs| - 1 ==> Follows(cs[j], cs[j + 1]))
  }

  lemma AdvanceNumbered(s: Scan, p: Parsed)
    requires Numbered(s)
    ensures Numbered(Advance(s, p))
  {
    if s.fault.None? && p.Segment? {
      var t := Advance(s, p);
      var c := t.contigs[|s.contigs|];
      assert t.contigs == s.contigs + [c];
      if |s.contigs| > 0 {
        assert t.contigs[0] == s.contigs[0];
        assert Follows(s.contigs[|s.contigs| - 1], c);
      }
    }
  }

  /** The loop keeps the numbering at every line. */
  lemma {:induction false} ScannedNumbering(lines: seq<string>, read: Reading)
    ensures Numbered(Scanned(lines, read))
    decreases |lines|
  {
    if |lines| > 0 {
      ScannedNumbering(lines[..|lines| - 1], read);
      AdvanceNumbered(Scanned(lines[..|lines| - 1], read), read(lines[|lines| - 1]));
    }
  }

  /** `(comp, comp_i)` in lexicographic order. */
  predicate Before(c: Contig, d: Contig)
  {
    c.comp < d.comp || (c.comp == d.comp && c.index < d.index)
  }

  lemma {:induction false} FollowsBefore(cs: seq<Contig>, i: nat, j: nat)
    requires i < j < |cs|
    requires forall k :: 0 <= k < |cs| - 1 ==> Follows(cs[k], cs[k + 1])
    ensures Before(cs[i], cs[j])
    decreases j - i
  {
    if j > i + 1 {
      FollowsBefore(cs, i, j - 1);
      assert Follows(cs[j - 1], cs[j]);
    } else {
      assert Follows(cs[i], cs[i + 1]);
    }
  }

  /** The records are numbered in strictly increasing `(comp, comp_i)` order, so no two
      share a label, and `comp` never decreases. */
  lemma ScannedOrdered(lines: seq<string>, read: Reading)
    ensures var cs := Scanned(lines, read).contigs;
      forall i, j :: 0 <= i < j < |cs| ==> Before(cs[i], cs[j]) && cs[i].comp <= cs[j].comp
  {
    ScannedNumbering(lines, read);
    var cs := Scanned(lines, read).contigs;
    assert forall k :: 0 <= k < |cs| - 1 ==> Follows(cs[k], cs[k + 1]);
    forall i, j | 0 <= i < j < |cs|
      ensures Before(cs[i], cs[j])
    {
      FollowsBefore(cs, i, j);
    }
  }

  /** `comp` counts runs rather than copying the number: when the component numbers
      start at 0 and go up by at most one from record to record, the two agree. */
  lemma {:induction false} RunsKeepNumbers(cs: seq<Contig>, n: nat)
    requires n < |cs|
    requires forall k :: 0 <= k < |cs| - 1 ==> Follows(cs[k], cs[k + 1])
    requires cs[0].comp == 0 && cs[0].number == 0
    requires forall k :: 0 <= k < |cs| - 1 ==> cs[k + 1].number == cs[k].number || cs[k + 1].number == cs[k].number + 1
    ensures cs[n].comp == cs[n].number
    decreases n
  {
    if n > 0 {
      RunsKeepNumbers(cs, n - 1);
      assert Follows(cs[n - 1], cs[n]);
    }
  }

  /** Each S line that does not stop the loop adds one record, named after the segment,
      carrying its sequence and its component number; any other non-blank line adds
      nothing, and a blank line stops the loop. */
  lemma LineRecords(s: Scan, line: string)
    requires s.fault.None?
    ensures var t := Advance(s, ParseLine(line));
      var fields := Split(Strip(line), '\t');
      && (FirstToken(line) == Some("S") && t.fault.None? ==>
            && |fields| >= 3
            && ComponentNumber(fields[1]).Number?
            && |t.contigs| == |s.contigs| + 1
            && t.contigs[..|s.contigs|] == s.contigs
            && t.contigs[|s.contigs|].name == fields[1]
            && t.contigs[|s.contigs|].sequence == fields[2]
            && t.contigs[|s.contigs|].number == ComponentNumber(fields[1]).value)
      && (FirstToken(line).Some? && FirstToken(line) != Some("S") ==> t == s)
      && (FirstToken(line).None? ==> t.fault == Some(EmptyLine))
  {
    var t := Advance(s, ParseLine(line));
    match ParseLine(line) {
      case Segment(_, _, _) =>
        assert t.contigs[..|s.contigs|] == s.contigs;
      case Other =>
      case Broken(_) =>
    }
  }

  // ---------------------------------------------------------------------------
  // Reading the headers back
  // ---------------------------------------------------------------------------

  lemma IntToStringFree(i: int, c: char)
    requires !IsDigit(c) && c != '-'
    ensures c !in IntToString(i)
  {
  }

  /** A header splits at its tab into the label and the original name. */
  lemma HeaderFields(c: Contig)
    requires '\t' !in c.name
    ensures Split(Render(c)[0], '\t') == [">" + Label(c.comp, c.index), c.name]
  {
    var head := ">" + Label(c.comp, c.index);
    IntToStringFree(c.comp, '\t');
    assert '\t' !in NatToString(c.index);
    Seqs.InAppend('\t', IntToString(c.comp), "_");
    Seqs.InAppend('\t', IntToString(c.comp) + "_", NatToString(c.index));
    assert head == ">" + (IntToString(c.comp) + "_" + NatToString(c.index));
    Seqs.InAppend('\t', ">", Label(c.comp, c.index));
    assert Join([head, c.name], '\t') == Render(c)[0];
    SplitJoin([head, c.name], '\t');
  }

  /** Different numbers give different labels, so distinct records get distinct headers. */
  lemma LabelInjective(c1: int, i1: nat, c2: int, i2: nat)
    requires Label(c1, i1) == Label(c2, i2)
    ensures c1 == c2 && i1 == i2
  {
    IntToStringFree(c1, '_');
    IntToStringFree(c2, '_');
    assert '_' !in NatToString(i1) && '_' !in NatToString(i2);
    assert Join([IntToString(c1), NatToString(i1)], '_') == Label(c1, i1);
    assert Join([IntToString(c2), NatToString(i2)], '_') == Label(c2, i2);
    SplitJoin([IntToString(c1), NatToString(i1)], '_');
    SplitJoin([IntToString(c2), NatToString(i2)], '_');
    ParseIntRoundTrip(c1);
    ParseIntRoundTrip(c2);
    NatToStringInjective(i1, i2);
  }
}
