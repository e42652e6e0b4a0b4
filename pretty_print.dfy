/** The banner printer: a comment framed by two rules of a delimiter, its words wrapped
    greedily into lines of at most 100 characters, each line centred between five
    delimiters on either side. Each element of the output is the text of one `print`. */
module PrettyPrint {
  import Seqs
  import opened Text

  const TotalLen: int := 120
  const MaxLen: int := TotalLen - 20

  /** The loop state: the lines already printed and the line being built. */
  datatype Wrap = Wrap(done: seq<string>, line: string)

  /** One word of the loop: flush the line if the word does not fit after a space. */
  function Step(w: Wrap, word: string): Wrap
  {
    if |w.line| + 1 + |word| > MaxLen then Wrap(w.done + [w.line], word)
    else Wrap(w.done, w.line + " " + word)
  }

  /** The state after the loop over `words`, starting from no lines and an empty line. */
  function Wrapped(words: seq<string>): Wrap
    decreases |words|
  {
    if |words| == 0 then Wrap([], "")
    else Step(Wrapped(words[..|words| - 1]), words[|words| - 1])
  }

  /** The printed lines: the flushed ones and the last, which is always printed. */
  function Lines(words: seq<string>): seq<string>
  {
    Wrapped(words).done + [Wrapped(words).line]
  }

  /** The left padding `(total_len - len(line) - 10) // 2`; it is negative for a line
      longer than 110, and `" " * n` is empty for such an `n`. */
  function LeftSpace(line: string): int
  {
    (TotalLen - |line| - 10) / 2
  }

  function RightSpace(line: string): int
  {
    TotalLen - LeftSpace(line) - |line| - 10
  }

  /** One framed line. */
  function Centre(line: string, delim: string): string
  {
    Repeat(delim, 5) + Repeat(" ", LeftSpace(line)) + line + Repeat(" ", RightSpace(line)) + Repeat(delim, 5)
  }

  function CentreAll(lines: seq<string>, delim: string): (r: seq<string>)
    ensures |r| == |lines|
    ensures forall i :: 0 <= i < |lines| ==> r[i] == Centre(lines[i], delim)
    decreases |lines|
  {
    if |lines| == 0 then []
    else CentreAll(lines[..|lines| - 1], delim) + [Centre(lines[|lines| - 1], delim)]
  }

  function Top(delim: string): string
  {
    "\n" + Repeat(delim, TotalLen)
  }

  function Bottom(delim: string): string
  {
    Repeat(delim, TotalLen) + "\n"
  }

  /** Everything the script prints for `comment` and `delim`. */
  function Banner(comment: string, delim: string): seq<string>
  {
    [Top(delim)] + CentreAll(Lines(Split(comment, ' ')), delim) + [Bottom(delim)]
  }

  lemma WrappedNext(words: seq<string>, i: nat)
    requires i < |words|
    ensures Wrapped(words[..i + 1]) == Step(Wrapped(words[..i]), words[i])
  {
    Seqs.TakeTake(words, i + 1, i);
    assert words[..i + 1][i] == words[i];
  }

  lemma CentreAllSnoc(lines: seq<string>, line: string, delim: string)
    ensures CentreAll(lines + [line], delim) == CentreAll(lines, delim) + [Centre(line, delim)]
  {
    assert (lines + [line])[..|lines|] == lines;
  }

  /** The script. */
  method PrettyPrint(comment: string, delim: string) returns (out: seq<string>)
    ensures out == Banner(comment, delim)
  {
    out := [Top(delim)];
    var words := Split(comment, ' ');
    var line := "";
    ghost var done: seq<string> := [];
    for i := 0 to |words|
      invariant Wrap(done, line) == Wrapped(words[..i])
      invariant out == [Top(delim)] + CentreAll(done, delim)
    {
      var word := words[i];
      WrappedNext(words, i);
      if |line| + 1 + |word| > MaxLen {
        CentreAllSnoc(done, line, delim);
        Seqs.AppendAssoc([Top(delim)], CentreAll(done, delim), [Centre(line, delim)]);
        out := out + [Centre(line, delim)];
        done := done + [line];
        line := word;
      } else {
        line := line + " " + word;
      }
    }
    assert words[..|words|] == words;
    CentreAllSnoc(done, line, delim);
    Seqs.AppendAssoc([Top(delim)], CentreAll(done, delim), [Centre(line, delim)]);
    out := out + [Centre(line, delim)];
    out := out + [Bottom(delim)];
  }

  // ---------------------------------------------------------------------------
  // What the wrapping keeps
  // ---------------------------------------------------------------------------

  /** Joining after one more field adds a separator and the field. */
  lemma {:induction false} JoinSnoc(parts: seq<string>, x: string, sep: char)
    requires |parts| >= 1
    ensures Join(parts + [x], sep) == Join(parts, sep) + [sep] + x
    decreases |parts|
  {
    if |parts| > 1 {
      assert (parts + [x])[1..] == parts[1..] + [x];
      JoinSnoc(parts[1..], x, sep);
      Seqs.AppendAssoc(parts[0] + [sep], Join(parts[1..], sep), [sep] + x);
      Seqs.AppendAssoc(parts[0] + [sep] + Join(parts[1..], sep), [sep], x);
    } else {
      assert parts + [x] == [parts[0], x];
    }
  }

  /** Extending the last field by a separator and a word is joining one more field. */
  lemma {:induction false} JoinExtendLast(parts: seq<string>, last: string, x: string, sep: char)
    ensures Join(parts + [last + [sep] + x], sep) == Join(parts + [last], sep) + [sep] + x
    decreases |parts|
  {
    if |parts| == 0 {
      assert [] + [last + [sep] + x] == [last + [sep] + x];
      assert [] + [last] == [last];
    } else {
      assert (parts + [last + [sep] + x])[1..] == parts[1..] + [last + [sep] + x];
      assert (parts + [last])[1..] == parts[1..] + [last];
      JoinExtendLast(parts[1..], last, x, sep);
      var tail := Join(parts[1..] + [last], sep);
      Seqs.AppendAssoc(parts[0] + [sep], tail, [sep] + x);
      Seqs.AppendAssoc(parts[0] + [sep] + tail, [sep], x);
      Seqs.AppendAssoc(tail, [sep], x);
    }
  }

  /** No word is lost, doubled or moved: the printed lines, joined with spaces, are the
      words joined with spaces behind one leading space (the first line starts as
      `"" + " " + word`). */
  lemma {:induction false} WrappedWords(words: seq<string>)
    requires |words| >= 1
    ensures Join(Lines(words), ' ') == " " + Join(words, ' ')
    decreases |words|
  {
    var front, word := words[..|words| - 1], words[|words| - 1];
    var w := Wrapped(front);
    if |front| == 0 {
      if |w.line| + 1 + |word| > MaxLen {
        assert Lines(words) == ["", word];
      } else {
        assert w.line + " " + word == " " + word;
        assert Lines(words) == [" " + word];
      }
      assert words == [word];
    } else {
      WrappedWords(front);
      assert front + [word] == words;
      JoinSnoc(front, word, ' ');
      if |w.line| + 1 + |word| > MaxLen {
        JoinSnoc(Lines(front), word, ' ');
        assert Lines(words) == Lines(front) + [word];
      } else {
        JoinExtendLast(w.done, w.line, word, ' ');
        assert Lines(words) == w.done + [w.line + " " + word];
      }
      Seqs.AppendAssoc(" ", Join(front, ' '), [' '] + word);
      Seqs.AppendAssoc(" " + Join(front, ' '), [' '], word);
    }
  }

  /** The whole comment comes back from the printed lines, behind one space. */
  lemma BannerKeepsComment(comment: string)
    ensures Join(Lines(Split(comment, ' ')), ' ') == " " + comment
  {
    WrappedWords(Split(comment, ' '));
    JoinSplit(comment, ' ');
  }

  /** A line is never longer than 100 characters unless it is one word that is. */
  lemma {:induction false} WrappedWidth(words: seq<string>)
    ensures forall l :: l in Lines(words) ==> |l| <= MaxLen || l in words
    decreases |words|
  {
    if |words| > 0 {
      var front, word := words[..|words| - 1], words[|words| - 1];
      WrappedWidth(front);
      var w := Wrapped(front);
      forall l | l in Lines(words)
        ensures |l| <= MaxLen || l in words
      {
        assert words == front + [word];
        Seqs.InAppend(l, front, [word]);
        if |w.line| + 1 + |word| > MaxLen {
          assert Lines(words) == Lines(front) + [word];
          Seqs.InAppend(l, Lines(front), [word]);
        } else {
          assert Lines(words) == w.done + [w.line + " " + word];
          assert Lines(front) == w.done + [w.line];
          Seqs.InAppend(l, w.done, [w.line + " " + word]);
          Seqs.InAppend(l, w.done, [w.line]);
        }
      }
    }
  }

  // ---------------------------------------------------------------------------
  // Centring
  // ---------------------------------------------------------------------------

  /** A line of at most 110 characters is centred: the left padding is the right one or
      one less, the frame is `10 * len(delim) + 110` wide, and the line sits right after
      the left frame and padding. */
  lemma CentreFits(line: string, delim: string)
    requires |line| <= TotalLen - 10
    ensures 0 <= LeftSpace(line) <= RightSpace(line) <= LeftSpace(line) + 1
    ensures |Centre(line, delim)| == 10 * |delim| + TotalLen - 10
    ensures var start := 5 * |delim| + LeftSpace(line);
      Centre(line, delim)[start..start + |line|] == line
  {
    var d5, l := Repeat(delim, 5), Repeat(" ", LeftSpace(line));
    var s := Centre(line, delim);
    assert s == d5 + l + line + Repeat(" ", RightSpace(line)) + d5;
    assert |d5 + l| == 5 * |delim| + LeftSpace(line);
    assert (d5 + l + line)[|d5 + l|..] == line;
  }

  /** A longer line gets no padding at all. */
  lemma CentreLong(line: string, delim: string)
    requires |line| > TotalLen - 10
    ensures Centre(line, delim) == Repeat(delim, 5) + line + Repeat(delim, 5)
  {
    assert LeftSpace(line) <= 0 && RightSpace(line) <= 0;
  }

  /** With a one-character delimiter, lines of at most 110 characters are framed to 120. */
  lemma CentredWidth(lines: seq<string>, delim: string)
    requires |delim| == 1
    requires forall l :: l in lines ==> |l| <= TotalLen - 10
    ensures forall i :: 0 <= i < |lines| ==> |CentreAll(lines, delim)[i]| == TotalLen
  {
    forall i | 0 <= i < |lines|
      ensures |CentreAll(lines, delim)[i]| == TotalLen
    {
      assert lines[i] in lines;
      CentreFits(lines[i], delim);
    }
  }

  /** With a one-character delimiter and no word longer than 110, every framed line is
      exactly 120 characters wide, like the two rules (which also carry the blank lines
      around the banner). */
  lemma BannerWidth(comment: string, delim: string)
    requires |delim| == 1
    requires forall w :: w in Split(comment, ' ') ==> |w| <= TotalLen - 10
    ensures var out := Banner(comment, delim);
      && |out[0]| == |out[|out| - 1]| == TotalLen + 1
      && forall i :: 0 < i < |out| - 1 ==> |out[i]| == TotalLen
  {
    var lines := Lines(Split(comment, ' '));
    WrappedWidth(Split(comment, ' '));
    CentredWidth(lines, delim);
    var middle := CentreAll(lines, delim);
    var out := Banner(comment, delim);
    assert out == [Top(delim)] + middle + [Bottom(delim)];
    assert forall i :: 0 < i < |out| - 1 ==> out[i] == middle[i - 1];
  }
}
