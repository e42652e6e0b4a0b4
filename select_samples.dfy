/** Selecting the contigs of one feature: the feature name given on the command line
    (possibly quoted) is `<category>_<id>[_...]`; the contigs file of that category is
    read line by line, and every header whose name has `<id>` as its first `_`-field is
    written out together with the line after it. */
module SelectSamples {
  import opened Wrappers
  import Seqs
  import opened Text

  // ---------------------------------------------------------------------------
  // Command-line arguments
  // ---------------------------------------------------------------------------

  predicate IsQuote(c: char)
  {
    c == '\'' || c == '"'
  }

  /** Dropping one quote character at each end of an argument; None where the script
      raises IndexError (an empty argument, or a lone quote character). */
  function StripQuotes(arg: string): (r: Option<string>)
  {
    if |arg| == 0 then None
    else
      var a := if IsQuote(arg[0]) then arg[1..] else arg;
      if |a| == 0 then None
      else if IsQuote(a[|a| - 1]) then Some(a[..|a| - 1])
      else Some(a)
  }

  /** A quoted argument loses exactly its two quotes, whichever quote characters they are. */
  lemma StripQuotesQuoted(q1: char, s: string, q2: char)
    requires IsQuote(q1) && IsQuote(q2)
    ensures StripQuotes([q1] + s + [q2]) == Some(s)
  {
    var arg := [q1] + s + [q2];
    assert arg[1..] == s + [q2];
    assert (s + [q2])[..|s|] == s;
  }

  /** An argument with no quote at either end is kept as it is. */
  lemma StripQuotesPlain(s: string)
    requires |s| > 0 && !IsQuote(s[0]) && !IsQuote(s[|s| - 1])
    ensures StripQuotes(s) == Some(s)
  {
  }

  /** Stripping never adds anything: the result is the argument with at most one
      character gone at each end. */
  lemma StripQuotesInside(arg: string)
    ensures StripQuotes(arg).Some? ==>
      exists i, j :: 0 <= i <= 1 && |arg| - 1 <= j <= |arg| && i <= j && StripQuotes(arg).value == arg[i..j]
  {
    if StripQuotes(arg).Some? {
      var a := if IsQuote(arg[0]) then arg[1..] else arg;
      var i := if IsQuote(arg[0]) then 1 else 0;
      assert a == arg[i..];
      var j := if IsQuote(a[|a| - 1]) then |arg| - 1 else |arg|;
      assert StripQuotes(arg).value == arg[i..j];
    }
  }

  /** The feature named on the command line. */
  datatype Feature = Feature(name: string, category: string, id: string)

  /** `--feature`: strip the quotes, then the category and id are the first two
      `_`-fields; None where the script raises IndexError. */
  function ParseFeature(arg: string): (r: Option<Feature>)
    ensures r.Some? ==> '_' !in r.value.category && '_' !in r.value.id
  {
    match StripQuotes(arg)
    case None => None
    case Some(name) =>
      var parts := Split(name, '_');
      if |parts| < 2 then None else Some(Feature(name, parts[0], parts[1]))
  }

  /** A feature named `<category>_<id>` or `<category>_<id>_<more>` gives back its
      category and id, quoted with any quote characters or, when it neither starts nor
      ends with one, unquoted. */
  lemma ParseFeatureOf(category: string, id: string, more: seq<string>, q1: char, q2: char)
    requires '_' !in category && '_' !in id
    requires forall i :: 0 <= i < |more| ==> '_' !in more[i]
    requires IsQuote(q1) && IsQuote(q2)
    ensures var name := Join([category, id] + more, '_');
      && ParseFeature([q1] + name + [q2]) == Some(Feature(name, category, id))
      && (|name| > 0 && !IsQuote(name[0]) && !IsQuote(name[|name| - 1]) ==>
            ParseFeature(name) == Some(Feature(name, category, id)))
  {
    var parts := [category, id] + more;
    var name := Join(parts, '_');
    assert forall i :: 0 <= i < |parts| ==> '_' !in parts[i];
    SplitJoin(parts, '_');
    StripQuotesQuoted(q1, name, q2);
    if |name| > 0 && !IsQuote(name[0]) && !IsQuote(name[|name| - 1]) {
      StripQuotesPlain(name);
    }
  }

  // ---------------------------------------------------------------------------
  // The selection loop
  // ---------------------------------------------------------------------------

  /** The id of a contig name: its first `_`-field. */
  function NameId(name: string): string
  {
    Split(name, '_')[0]
  }

  /** What the loop writes when it reads the rest of the file `text`: a header line
      `>` + name whose name has the id is written with the next line, stripped (empty
      at the end of the file); every other line is passed over. */
  function Selected(text: string, id: string): seq<string>
    decreases |text|
  {
    if |text| == 0 then []
    else
      var (line, rest) := SplitLine(text);
      if line[0] == '>' && NameId(Strip(line)[1..]) == id then
        var (sequence, after) := SplitLine(rest);
        [">" + Strip(line)[1..], Strip(sequence)] + Selected(after, id)
      else Selected(rest, id)
  }

  /** The `readline` loop, which ends when `readline` returns the empty string. */
  method SelectSequences(text: string, id: string) returns (out: seq<string>)
    ensures out == Selected(text, id)
  {
    out := [];
    var rest := text;
    while true
      invariant out + Selected(rest, id) == Selected(text, id)
      decreases |rest|
    {
      var (line, after) := SplitLine(rest);
      if |line| == 0 {
        break;
      }
      rest := after;
      if line[0] == '>' {
        var name := Strip(line)[1..];
        if NameId(name) == id {
          var (sequence, after2) := SplitLine(rest);
          rest := after2;
          Seqs.AppendAssoc(out, [">" + name, Strip(sequence)], Selected(rest, id));
          out := out + [">" + name, Strip(sequence)];
        }
      }
    }
    assert rest == "";
  }

  /** The script's selection: None where the arguments make it raise. */
  method SelectFeature(featureArg: string, text: string) returns (r: Option<seq<string>>)
    ensures ParseFeature(featureArg).None? ==> r.None?
    ensures ParseFeature(featureArg).Some? ==> r == Some(Selected(text, ParseFeature(featureArg).value.id))
  {
    var feature := ParseFeature(featureArg);
    if feature.None? {
      return None;
    }
    var out := SelectSequences(text, feature.value.id);
    r := Some(out);
  }

  // ---------------------------------------------------------------------------
  // What is selected
  // ---------------------------------------------------------------------------

  /** `out` is header and sequence pairs, every header `>` followed by a name with the
      id `id`. */
  predicate Pairs(out: seq<string>, id: string)
    decreases |out|
  {
    if |out| == 0 then true
    else
      && |out| >= 2 && |out[0]| > 0 && out[0][0] == '>' && NameId(out[0][1..]) == id
      && Pairs(out[2..], id)
  }

  /** Everything written is a header with the requested id and the line after it. */
  lemma {:induction false} SelectedPairs(text: string, id: string)
    ensures Pairs(Selected(text, id), id)
    decreases |text|
  {
    if |text| > 0 {
      var (line, rest) := SplitLine(text);
      if line[0] == '>' && NameId(Strip(line)[1..]) == id {
        var (sequence, after) := SplitLine(rest);
        SelectedPairs(after, id);
        var out := Selected(text, id);
        var head := ">" + Strip(line)[1..];
        assert out == [head, Strip(sequence)] + Selected(after, id);
        assert out[2..] == Selected(after, id);
        assert head[1..] == Strip(line)[1..];
      } else {
        SelectedPairs(rest, id);
      }
    }
  }

  /** One FASTA record: a header line `>` + header and one sequence line. */
  datatype Record = Record(header: string, sequence: string)

  /** A record as FASTA tools write it: one line each, no trailing blanks on the header,
      and a sequence that neither starts nor ends with blanks nor starts with `>`. */
  predicate WellFormed(r: Record)
  {
    && '\n' !in r.header && '\n' !in r.sequence
    && (|r.header| > 0 ==> !IsSpace(r.header[|r.header| - 1]))
    && |r.sequence| > 0 && r.sequence[0] != '>'
    && !IsSpace(r.sequence[0]) && !IsSpace(r.sequence[|r.sequence| - 1])
  }

  function RecordText(r: Record): string
  {
    ">" + r.header + "\n" + r.sequence + "\n"
  }

  /** The text of a FASTA file holding the records. */
  function FastaText(rs: seq<Record>): string
  {
    if |rs| == 0 then "" else RecordText(rs[0]) + FastaText(rs[1..])
  }

  /** The records with the requested id, as header and sequence lines, in file order. */
  function Matching(rs: seq<Record>, id: string): seq<string>
  {
    if |rs| == 0 then []
    else if NameId(rs[0].header) == id then [">" + rs[0].header, rs[0].sequence] + Matching(rs[1..], id)
    else Matching(rs[1..], id)
  }

  /** `readline` on a line followed by a newline. */
  lemma {:induction false} SplitLineOf(x: string, rest: string)
    requires '\n' !in x
    ensures SplitLine(x + "\n" + rest) == (x + "\n", rest)
    decreases |x|
  {
    var s := x + "\n" + rest;
    if |x| > 0 {
      assert s[0] == x[0];
      assert s[1..] == x[1..] + "\n" + rest;
      SplitLineOf(x[1..], rest);
      assert [x[0]] + (x[1..] + "\n") == x + "\n";
    } else {
      assert s[0] == '\n';
      assert s[1..] == rest;
    }
  }

  /** A line without blanks at either end loses only its newline to `strip()`. */
  lemma StripLine(x: string)
    requires |x| > 0 && !IsSpace(x[0]) && !IsSpace(x[|x| - 1])
    ensures Strip(x + "\n") == x
  {
    var s := x + "\n";
    assert StripLeft(s) == s;
    assert s[..|s| - 1] == x;
    assert StripRight(s) == StripRight(x);
  }

  /** The lines of one record as the loop reads them. */
  lemma ReadRecord(r: Record, rest: string)
    requires WellFormed(r)
    ensures var text := RecordText(r) + rest;
      var (line, after) := SplitLine(text);
      && line == ">" + r.header + "\n"
      && after == r.sequence + "\n" + rest
      && line[0] == '>'
      && Strip(line)[1..] == r.header
      && SplitLine(after) == (r.sequence + "\n", rest)
      && Strip(r.sequence + "\n") == r.sequence
  {
    var h := ">" + r.header;
    assert '\n' !in h by {
      Seqs.InAppend('\n', ">", r.header);
    }
    assert RecordText(r) + rest == h + "\n" + (r.sequence + "\n" + rest);
    SplitLineOf(h, r.sequence + "\n" + rest);
    assert h[|h| - 1] == '>' || h[|h| - 1] == r.header[|r.header| - 1];
    StripLine(h);
    SplitLineOf(r.sequence, rest);
    StripLine(r.sequence);
  }

  /** On a well-formed FASTA file the loop writes exactly the records with the requested
      id, in file order: a non-matching header and its sequence line are passed over. */
  lemma {:induction false} SelectedFasta(rs: seq<Record>, id: string)
    requires forall i :: 0 <= i < |rs| ==> WellFormed(rs[i])
    ensures Selected(FastaText(rs), id) == Matching(rs, id)
    decreases |rs|
  {
    if |rs| > 0 {
      var r, rest := rs[0], FastaText(rs[1..]);
      SelectedFasta(rs[1..], id);
      ReadRecord(r, rest);
      var text := FastaText(rs);
      assert text == RecordText(r) + rest;
      var after := r.sequence + "\n" + rest;
      if NameId(r.header) != id {
        // The sequence line is read as a line of its own and passed over.
        assert after[0] == r.sequence[0] != '>';
        var (line2, after2) := SplitLine(after);
        assert line2[0] == '>' ==> false;
        assert Selected(after, id) == Selected(rest, id);
      }
    }
  }
}
