/** The SPAdes sample sheet: read files are grouped by sample name, and every sample
    must have exactly two files (the mates of a paired-end run). */
module SpadesSamples {
  import opened Wrappers
  import Seqs
  import opened Text
  import opened Numbers
  import opened ReadNames

  /** One entry of `names_files`: the FASTA flag of the sample's first file and its files. */
  datatype Group = Group(fasta: bool, files: seq<string>)

  /** `names_files`: its keys in insertion order, and its entries. */
  datatype Sheet = Sheet(order: seq<string>, groups: map<string, Group>)

  /** How a file is named: its FASTA flag and its sample. The script uses
      `ReadNames.SpadesBasename`; the grouping is stated for any naming. */
  type Naming = string -> (bool, string)

  /** `names_files` after the first loop over `files`: the sample names in the order the
      dictionary first received them, and the dictionary itself. */
  function Grouped(files: seq<string>, name: Naming): Sheet
    decreases |files|
  {
    if |files| == 0 then Sheet([], map[])
    else
      var Sheet(order, groups) := Grouped(files[..|files| - 1], name);
      var file := files[|files| - 1];
      var (fasta, base) := name(file);
      if base in groups then
        Sheet(order, groups[base := Group(groups[base].fasta, groups[base].files + [file])])
      else
        Sheet(order + [base], groups[base := Group(fasta, [file])])
  }

  /** The files of `files` that belong to `sample`, in their order. */
  function FilesOf(files: seq<string>, name: Naming, sample: string): seq<string>
    decreases |files|
  {
    if |files| == 0 then []
    else
      var front := FilesOf(files[..|files| - 1], name, sample);
      if name(files[|files| - 1]).1 == sample then front + [files[|files| - 1]] else front
  }

  /** Every occurrence of a file is in its own sample's list, and in no other. */
  lemma {:induction false} FilesOfCount(files: seq<string>, name: Naming, sample: string, file: string)
    ensures multiset(FilesOf(files, name, sample))[file]
      == if name(file).1 == sample then multiset(files)[file] else 0
    decreases |files|
  {
    if |files| > 0 {
      var front := files[..|files| - 1];
      FilesOfCount(front, name, sample, file);
      assert files == front + [files[|files| - 1]];
    }
  }

  /** Each dictionary entry holds exactly its sample's files, in input order, with the
      flag of the first of them; a name is a key exactly when some file belongs to it. */
  lemma {:induction false} GroupedFiles(files: seq<string>, name: Naming)
    ensures var Sheet(order, groups) := Grouped(files, name);
      && (forall k :: k in groups <==> k in order)
      && (forall k :: k in groups <==> FilesOf(files, name, k) != [])
      && (forall k :: k in groups ==> groups[k] == Group(name(FilesOf(files, name, k)[0]).0, FilesOf(files, name, k)))
    decreases |files|
  {
    if |files| > 0 {
      var front := files[..|files| - 1];
      GroupedFiles(front, name);
      var Sheet(order0, groups0) := Grouped(front, name);
      var Sheet(order, groups) := Grouped(files, name);
      var file := files[|files| - 1];
      var base := name(file).1;
      forall k | k != base
        ensures FilesOf(files, name, k) == FilesOf(front, name, k)
      {
      }
      assert FilesOf(files, name, base) == FilesOf(front, name, base) + [file];
      if base !in groups0 {
        assert FilesOf(front, name, base) == [];
        assert FilesOf(files, name, base) == [file];
      }
    }
  }

  /** The sample names are listed once each. */
  lemma {:induction false} GroupedDistinct(files: seq<string>, name: Naming)
    ensures var order := Grouped(files, name).order;
      forall i, j :: 0 <= i < j < |order| ==> order[i] != order[j]
    decreases |files|
  {
    if |files| > 0 {
      var front := files[..|files| - 1];
      GroupedDistinct(front, name);
      GroupedFiles(front, name);
    }
  }

  /** Names are only ever appended: the order after a prefix of the files is a prefix of
      the final order. With `GroupedFiles`, this is first-appearance order. */
  lemma {:induction false} GroupedPrefix(files: seq<string>, name: Naming, n: nat)
    requires n <= |files|
    ensures Grouped(files[..n], name).order <= Grouped(files, name).order
    decreases |files|
  {
    if n < |files| {
      var front := files[..|files| - 1];
      Seqs.TakeTake(files, |files| - 1, n);
      GroupedPrefix(front, name, n);
    } else {
      assert files[..n] == files;
    }
  }

  /** The first loop of the script, which names files with `get_basename`. */
  method GroupFiles(files: seq<string>, name: Naming) returns (order: seq<string>, groups: map<string, Group>)
    ensures Sheet(order, groups) == Grouped(files, name)
  {
    order, groups := [], map[];
    var i := 0;
    while i < |files|
      invariant i <= |files|
      invariant Sheet(order, groups) == Grouped(files[..i], name)
    {
      var file := files[i];
      var (fasta, base) := name(file);
      Seqs.TakeTake(files, i + 1, i);
      assert files[..i + 1][i] == file;
      if base !in groups {
        order := order + [base];
        groups := groups[base := Group(fasta, [])];
        assert groups[base].files + [file] == [file];
      }
      groups := groups[base := Group(groups[base].fasta, groups[base].files + [file])];
      i := i + 1;
    }
    assert files[..i] == files;
  }

  // ---------------------------------------------------------------------------
  // The second loop: one line per sample, or a RuntimeError
  // ---------------------------------------------------------------------------

  /** The RuntimeError raised for a sample without exactly two files. */
  datatype Failure = UnexpectedCount(sample: string, count: nat)

  const MessageHead := "Unexpected number of files for sample "
  const MessageTail := ". Provide two files with paired-end reads for each sample."

  /** The text of that RuntimeError. */
  function Message(f: Failure): string
  {
    MessageHead + Counted(f.sample + " obtained:", f.count) + MessageTail
  }

  /** A text followed by a blank and a count. */
  function Counted(a: string, n: nat): string
  {
    a + " " + NatToString(n)
  }

  /** The message names the sample and its file count unambiguously: whatever the sample
      name holds, the text determines both. */
  lemma MessageInjective(f: Failure, g: Failure)
    requires Message(f) == Message(g)
    ensures f == g
  {
    CancelEnds(MessageHead, Counted(f.sample + " obtained:", f.count),
      Counted(g.sample + " obtained:", g.count), MessageTail);
    CountedInjective(f.sample + " obtained:", f.count, g.sample + " obtained:", g.count);
    CancelBack(f.sample, g.sample, " obtained:");
  }

  /** Texts with the same front and the same back have the same middle. */
  lemma CancelEnds(h: string, x: string, y: string, t: string)
    requires h + x + t == h + y + t
    ensures x == y
  {
    var m := h + x + t;
    assert x == m[|h|..|m| - |t|];
    assert y == (h + y + t)[|h|..|m| - |t|];
  }

  /** Texts with the same back have the same front. */
  lemma CancelBack(x: string, y: string, t: string)
    requires x + t == y + t
    ensures x == y
  {
    assert x == (x + t)[..|x|];
  }

  /** The count is the digits after the last blank, and the text is what comes before. */
  lemma CountedInjective(a: string, n: nat, b: string, k: nat)
    requires Counted(a, n) == Counted(b, k)
    ensures a == b && n == k
  {
    var x, y := NatToString(n), NatToString(k);
    NumeralAfterSpace(a + " ", x, b + " ", y);
    NatToStringInjective(n, k);
    CancelBack(a, b, " ");
  }

  /** Two texts ending in a blank and then a numeral split the same way. */
  lemma NumeralAfterSpace(a: string, n: string, b: string, k: string)
    requires |a| > 0 && a[|a| - 1] == ' ' && |b| > 0 && b[|b| - 1] == ' '
    requires AllDigits(n) && AllDigits(k)
    requires a + n == b + k
    ensures n == k && a == b
  {
    NumeralNotShorter(a, n, b, k);
    NumeralNotShorter(b, k, a, n);
    var x := a + n;
    assert n == x[|a|..] == k;
    assert a == x[..|a|] == b;
  }

  /** The numeral after the last blank cannot be a proper suffix of another one. */
  lemma NumeralNotShorter(a: string, n: string, b: string, k: string)
    requires |a| > 0 && a[|a| - 1] == ' '
    requires AllDigits(k)
    requires a + n == b + k
    ensures |n| >= |k|
  {
    var x := a + n;
    assert forall j :: |b| <= j < |x| ==> IsDigit(x[j]) by {
      forall j | |b| <= j < |x| ensures IsDigit(x[j]) {
        assert x[j] == k[j - |b|];
      }
    }
    assert x[|a| - 1] == ' ';
  }

  /** `str(b)` for a Python bool. */
  function BoolText(b: bool): string
  {
    if b then "True" else "False"
  }

  /** `print(f, key, " ".join(vals))`. */
  function PairLine(sample: string, g: Group): string
  {
    BoolText(g.fasta) + " " + sample + " " + Join(g.files, ' ')
  }

  predicate Keyed(order: seq<string>, groups: map<string, Group>)
  {
    forall k :: k in order ==> k in groups
  }

  /** What the second loop prints before it stops, and the error it stops on. */
  function PairLines(order: seq<string>, groups: map<string, Group>): (r: (seq<string>, Option<Failure>))
    requires Keyed(order, groups)
    decreases |order|
  {
    if |order| == 0 then ([], None)
    else
      var (lines, failure) := PairLines(order[..|order| - 1], groups);
      var key := order[|order| - 1];
      if failure.Some? then (lines, failure)
      else if |groups[key].files| != 2 then (lines, Some(UnexpectedCount(key, |groups[key].files|)))
      else (lines + [PairLine(key, groups[key])], None)
  }

  /** Once the loop has failed, later samples change nothing. */
  lemma {:induction false} PairLinesStops(order: seq<string>, groups: map<string, Group>, n: nat)
    requires Keyed(order, groups) && n <= |order|
    requires PairLines(order[..n], groups).1.Some?
    ensures PairLines(order, groups) == PairLines(order[..n], groups)
    decreases |order|
  {
    if n < |order| {
      Seqs.TakeTake(order, |order| - 1, n);
      PairLinesStops(order[..|order| - 1], groups, n);
    } else {
      assert order[..n] == order;
    }
  }

  /** The lines are those of the leading samples that have two files each, in order; the
      loop fails exactly when some sample has another count, and then on the first such
      sample with its count. */
  lemma {:induction false} PairLinesMeaning(order: seq<string>, groups: map<string, Group>)
    requires Keyed(order, groups)
    ensures var (lines, failure) := PairLines(order, groups);
      && |lines| <= |order|
      && (forall j :: 0 <= j < |lines| ==> |groups[order[j]].files| == 2 && lines[j] == PairLine(order[j], groups[order[j]]))
      && (failure.None? <==> |lines| == |order|)
      && (failure.Some? ==> |groups[order[|lines|]].files| != 2
                            && failure.value == UnexpectedCount(order[|lines|], |groups[order[|lines|]].files|))
    decreases |order|
  {
    if |order| > 0 {
      PairLinesMeaning(order[..|order| - 1], groups);
    }
  }

  /** Nothing is printed for a bad sample, so the script fails if and only if some sample
      does not have exactly two files. */
  lemma PairLinesFail(order: seq<string>, groups: map<string, Group>)
    requires Keyed(order, groups)
    ensures PairLines(order, groups).1.None? <==> forall k :: k in order ==> |groups[k].files| == 2
  {
    PairLinesMeaning(order, groups);
    var (lines, failure) := PairLines(order, groups);
    if failure.None? {
      forall k | k in order
        ensures |groups[k].files| == 2
      {
        var j :| 0 <= j < |order| && order[j] == k;
      }
    } else {
      assert order[|lines|] in order;
    }
  }

  /** A printed line reads back as the flag, the sample name and the two files when
      neither the name nor the paths hold a space. */
  lemma PairLineFields(sample: string, g: Group)
    requires |g.files| == 2 && ' ' !in sample && ' ' !in g.files[0] && ' ' !in g.files[1]
    ensures Split(PairLine(sample, g), ' ') == [BoolText(g.fasta), sample, g.files[0], g.files[1]]
  {
    var parts := [BoolText(g.fasta), sample, g.files[0], g.files[1]];
    assert Join(g.files, ' ') == g.files[0] + " " + g.files[1];
    assert Join(parts[2..], ' ') == Join(g.files, ' ') by { assert parts[2..] == g.files; }
    assert Join(parts[1..], ' ') == sample + " " + Join(g.files, ' ') by { assert parts[1..][1..] == parts[2..]; }
    assert Join(parts, ' ') == PairLine(sample, g);
    SplitJoin(parts, ' ');
  }

  /** The second loop, which raises on the first sample without two files. */
  method PrintPairs(order: seq<string>, groups: map<string, Group>) returns (lines: seq<string>, failure: Option<Failure>)
    requires Keyed(order, groups)
    ensures (lines, failure) == PairLines(order, groups)
  {
    lines, failure := [], None;
    var i := 0;
    while i < |order|
      invariant i <= |order|
      invariant (lines, None) == PairLines(order[..i], groups)
    {
      var key := order[i];
      var g := groups[key];
      Seqs.TakeTake(order, i + 1, i);
      assert order[..i + 1][i] == key;
      if |g.files| != 2 {
        failure := Some(UnexpectedCount(key, |g.files|));
        PairLinesStops(order, groups, i + 1);
        return;
      }
      lines := lines + [PairLine(key, g)];
      i := i + 1;
    }
    assert order[..i] == order;
  }

  /** The whole script on its command-line arguments. */
  method ParseSamplesForSpades(files: seq<string>) returns (lines: seq<string>, failure: Option<Failure>)
    ensures var sheet := Grouped(files, SpadesBasename);
      Keyed(sheet.order, sheet.groups) && (lines, failure) == PairLines(sheet.order, sheet.groups)
  {
    var order, groups := GroupFiles(files, SpadesBasename);
    GroupedFiles(files, SpadesBasename);
    lines, failure := PrintPairs(order, groups);
  }
}
