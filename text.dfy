/** The Python string operations the scripts rely on, stated on `seq<char>`. */
module Text {
  import opened Wrappers

  // ---------------------------------------------------------------------------
  // str.split(sep) and sep.join(parts)
  // ---------------------------------------------------------------------------

  /** `s.split(sep)` for a one-character separator: never empty, no field holds `sep`. */
  function Split(s: string, sep: char): (parts: seq<string>)
    ensures |parts| >= 1
    ensures forall i :: 0 <= i < |parts| ==> sep !in parts[i]
    decreases |s|
  {
    if |s| == 0 then [""]
    else if s[0] == sep then [""] + Split(s[1..], sep)
    else
      var rest := Split(s[1..], sep);
      [[s[0]] + rest[0]] + rest[1..]
  }

  /** `sep.join(parts)`. */
  function Join(parts: seq<string>, sep: char): string
  {
    if |parts| == 0 then ""
    else if |parts| == 1 then parts[0]
    else parts[0] + [sep] + Join(parts[1..], sep)
  }

  /** Splitting loses nothing: joining the fields gives the text back. */
  lemma {:induction false} JoinSplit(s: string, sep: char)
    ensures Join(Split(s, sep), sep) == s
    decreases |s|
  {
    if |s| > 0 {
      JoinSplit(s[1..], sep);
      var rest := Split(s[1..], sep);
      if s[0] == sep {
        assert ([""] + rest)[1..] == rest;
      } else if |rest| > 1 {
        assert ([[s[0]] + rest[0]] + rest[1..])[1..] == rest[1..];
      }
    }
  }

  /** A prefix free of the separator is glued onto the first field. */
  lemma {:induction false} SplitPrepend(a: string, t: string, sep: char)
    requires sep !in a
    ensures Split(a + t, sep) == [a + Split(t, sep)[0]] + Split(t, sep)[1..]
    decreases |a|
  {
    if |a| > 0 {
      assert (a + t)[0] == a[0];
      assert (a + t)[1..] == a[1..] + t;
      SplitPrepend(a[1..], t, sep);
      assert [a[0]] + (a[1..] + Split(t, sep)[0]) == a + Split(t, sep)[0];
    } else {
      var parts := Split(t, sep);
      assert a == [];
      assert a + t == t;
      assert a + parts[0] == parts[0];
      assert [parts[0]] + parts[1..] == parts;
    }
  }

  /** Fields free of the separator survive a join followed by a split. */
  lemma {:induction false} SplitJoin(parts: seq<string>, sep: char)
    requires |parts| >= 1
    requires forall i :: 0 <= i < |parts| ==> sep !in parts[i]
    ensures Split(Join(parts, sep), sep) == parts
    decreases |parts|
  {
    if |parts| == 1 {
      SplitPrepend(parts[0], "", sep);
      assert parts[0] + "" == parts[0];
    } else {
      var rest := Join(parts[1..], sep);
      SplitJoin(parts[1..], sep);
      assert ([sep] + rest)[0] == sep;
      assert ([sep] + rest)[1..] == rest;
      assert Split([sep] + rest, sep) == [""] + parts[1..];
      SplitPrepend(parts[0], [sep] + rest, sep);
      assert parts[0] + [sep] + rest == parts[0] + ([sep] + rest);
      assert parts[0] + "" == parts[0];
      assert [parts[0]] + parts[1..] == parts;
    }
  }

  // ---------------------------------------------------------------------------
  // file.readline()
  // ---------------------------------------------------------------------------

  /** One `readline()` on the text `s`: the line up to and including the first
      newline (all of `s` when there is none), and the text after it. */
  function SplitLine(s: string): (r: (string, string))
    ensures r.0 + r.1 == s
    ensures |s| > 0 ==> |r.0| > 0
    ensures forall i :: 0 <= i < |r.0| - 1 ==> r.0[i] != '\n'
    ensures |r.1| > 0 ==> r.0[|r.0| - 1] == '\n'
    decreases |s|
  {
    if |s| == 0 then ("", "")
    else if s[0] == '\n' then ("\n", s[1..])
    else
      var (line, rest) := SplitLine(s[1..]);
      ([s[0]] + line, rest)
  }

  /** `s[:-1]`: everything but the last character (nothing from the empty string). */
  function DropLast(s: string): (r: string)
    ensures |s| > 0 ==> s == r + [s[|s| - 1]]
    ensures |s| == 0 ==> r == ""
  {
    if |s| == 0 then "" else s[..|s| - 1]
  }

  // ---------------------------------------------------------------------------
  // str.strip() and str.split() with no argument
  // ---------------------------------------------------------------------------

  /** The ASCII characters Python treats as white space. */
  predicate IsSpace(c: char)
  {
    c == ' ' || ('\t' <= c <= '\r') || ('\U{1C}' <= c <= '\U{1F}')
  }

  function StripLeft(s: string): (r: string)
    ensures |r| <= |s| && r == s[|s| - |r|..]
    ensures |r| > 0 ==> !IsSpace(r[0])
    ensures forall i :: 0 <= i < |s| - |r| ==> IsSpace(s[i])
    decreases |s|
  {
    if |s| > 0 && IsSpace(s[0]) then StripLeft(s[1..]) else s
  }

  function StripRight(s: string): (r: string)
    ensures |r| <= |s| && r == s[..|r|]
    ensures |r| > 0 ==> !IsSpace(r[|r| - 1])
    ensures forall i :: |r| <= i < |s| ==> IsSpace(s[i])
    decreases |s|
  {
    if |s| > 0 && IsSpace(s[|s| - 1]) then StripRight(s[..|s| - 1]) else s
  }

  /** `r` is the piece of `s` that starts at `i`, with only white space before and after it. */
  predicate Trimmed(s: string, i: int, r: string)
  {
    && 0 <= i && i + |r| <= |s| && r == s[i..i + |r|]
    && (forall k :: 0 <= k < i ==> IsSpace(s[k]))
    && (forall k :: i + |r| <= k < |s| ==> IsSpace(s[k]))
  }

  /** `s.strip()`: the input minus exactly its leading and trailing white space. */
  function Strip(s: string): (r: string)
    ensures |r| <= |s|
    ensures |r| > 0 ==> !IsSpace(r[0]) && !IsSpace(r[|r| - 1])
    ensures |s| > 0 && !IsSpace(s[0]) ==> |r| > 0 && r[0] == s[0]
    ensures exists i :: Trimmed(s, i, r)
  {
    var t := StripLeft(s);
    var r := StripRight(t);
    StripPiece(s, t, r);
    r
  }

  /** Stripping the right end of the left-stripped text leaves the piece of `s` after
      its leading white space. */
  lemma StripPiece(s: string, t: string, r: string)
    requires |t| <= |s| && t == s[|s| - |t|..]
    requires forall k :: 0 <= k < |s| - |t| ==> IsSpace(s[k])
    requires |r| <= |t| && r == t[..|r|]
    requires forall k :: |r| <= k < |t| ==> IsSpace(t[k])
    ensures Trimmed(s, |s| - |t|, r)
  {
    var i := |s| - |t|;
    assert r == s[i..i + |r|];
    forall k | i + |r| <= k < |s| ensures IsSpace(s[k]) {
      assert s[k] == t[k - i];
    }
  }

  predicate NoSpace(w: string)
  {
    forall i :: 0 <= i < |w| ==> !IsSpace(w[i])
  }

  /** The longest prefix of `s` without white space. */
  function Word(s: string): (w: string)
    ensures |w| <= |s| && w == s[..|w|]
    ensures NoSpace(w)
    ensures |w| < |s| ==> IsSpace(s[|w|])
    decreases |s|
  {
    if |s| == 0 || IsSpace(s[0]) then "" else [s[0]] + Word(s[1..])
  }

  /** `s.split()[0]`: the first maximal run of non-space characters, or None where
      Python raises IndexError because `s` is blank. */
  function FirstToken(s: string): (r: Option<string>)
    ensures r.None? <==> forall i :: 0 <= i < |s| ==> IsSpace(s[i])
    ensures r.Some? ==> var t := StripLeft(s);
      && |r.value| > 0 && NoSpace(r.value) && r.value <= t
      && (|r.value| < |t| ==> IsSpace(t[|r.value|]))
  {
    var t := StripLeft(s);
    assert |t| > 0 ==> s[|s| - |t|] == t[0];
    if |t| == 0 then None
    else
      assert !IsSpace(t[0]);
      Some(Word(t))
  }

  /** `s.split()`: the maximal runs of non-space characters, in order. */
  function Words(s: string): seq<string>
    decreases |s|
  {
    var t := StripLeft(s);
    if |t| == 0 then []
    else
      var w := Word(t);
      assert |w| > 0 by { assert !IsSpace(t[0]); }
      [w] + Words(t[|w|..])
  }

  // ---------------------------------------------------------------------------
  // Paths, repetition, substrings
  // ---------------------------------------------------------------------------

  /** `os.path.basename(s)`: the text after the last '/'. */
  function Basename(s: string): (r: string)
    ensures '/' !in r
    ensures |r| <= |s| && s[|s| - |r|..] == r
    ensures |r| < |s| ==> s[|s| - |r| - 1] == '/'
    decreases |s|
  {
    if |s| == 0 || s[|s| - 1] == '/' then ""
    else
      var r := Basename(s[..|s| - 1]) + [s[|s| - 1]];
      assert s[..|s| - 1][|s| - |r|..] + [s[|s| - 1]] == s[|s| - |r|..];
      r
  }

  /** `s * n`: n copies of `s`, nothing when n <= 0. */
  function Repeat(s: string, n: int): (r: string)
    ensures |r| == if n <= 0 then 0 else n * |s|
    ensures forall i :: 0 <= i < |r| ==> r[i] in s
    ensures |s| > 0 ==> forall i :: 0 <= i < |r| ==> r[i] == s[i % |s|]
    decreases n
  {
    if n <= 0 then ""
    else
      var rest := Repeat(s, n - 1);
      RepeatCycle(s, rest);
      s + rest
  }

  /** One more copy in front keeps every character at its place in the cycle. */
  lemma RepeatCycle(s: string, rest: string)
    requires |s| > 0 ==> forall i :: 0 <= i < |rest| ==> rest[i] == s[i % |s|]
    ensures |s| > 0 ==> forall i :: 0 <= i < |s| + |rest| ==> (s + rest)[i] == s[i % |s|]
  {
    if |s| > 0 {
      forall i | 0 <= i < |s| + |rest| ensures (s + rest)[i] == s[i % |s|] {
        if i < |s| {
          ModUnique(i, |s|, 0, i);
        } else {
          var j := i - |s|;
          ModUnique(j, |s|, j / |s|, j % |s|);
          ModUnique(i, |s|, j / |s| + 1, j % |s|);
          assert (s + rest)[i] == rest[j];
        }
      }
    }
  }

  /** The remainder is the one value below the modulus that completes a multiple. */
  lemma ModUnique(a: int, m: int, q: int, x: int)
    requires m > 0 && 0 <= x < m && a == q * m + x
    ensures a % m == x
  {
    var q', y := a / m, a % m;
    assert (q - q') * m == y - x;
    if q - q' >= 1 {
      MulAtLeast(q - q', m);
    } else if q - q' <= -1 {
      MulAtLeast(q' - q, m);
    }
  }

  lemma MulAtLeast(d: int, m: int)
    requires d >= 1 && m > 0
    ensures d * m >= m
  {
  }

  /** `sub in s` on strings. */
  predicate Contains(s: string, sub: string)
    decreases |s|
  {
    sub <= s || (|s| > 0 && Contains(s[1..], sub))
  }

  // ---------------------------------------------------------------------------
  // re.sub('(stem|...)\.(ext|...)(tail|...)$', '', s)
  // ---------------------------------------------------------------------------

  /** `t` is one of the words `stem + "." + ext + tail` that such a pattern matches. */
  predicate IsForm(t: string, stems: seq<string>, exts: seq<string>, tails: seq<string>)
  {
    exists p, e, c :: p in stems && e in exts && c in tails && t == p + "." + e + c
  }

  /** The leftmost start position at or after `i` whose suffix is a form. */
  function FirstFormAt(s: string, i: nat, stems: seq<string>, exts: seq<string>, tails: seq<string>): (k: Option<nat>)
    requires i <= |s|
    ensures k.Some? ==> i <= k.value <= |s| && IsForm(s[k.value..], stems, exts, tails)
    ensures k.Some? ==> forall j :: i <= j < k.value ==> !IsForm(s[j..], stems, exts, tails)
    ensures k.None? ==> forall j :: i <= j <= |s| ==> !IsForm(s[j..], stems, exts, tails)
    decreases |s| - i
  {
    if IsForm(s[i..], stems, exts, tails) then Some(i)
    else if i == |s| then None
    else FirstFormAt(s, i + 1, stems, exts, tails)
  }

  /** The substitution of an end-anchored alternation by '': the leftmost match, that is
      the longest suffix of `s` that is a form, is removed; without one `s` is unchanged. */
  function StripForm(s: string, stems: seq<string>, exts: seq<string>, tails: seq<string>): (r: string)
    ensures |r| <= |s| && r == s[..|r|]
    ensures |r| < |s| ==> IsForm(s[|r|..], stems, exts, tails)
    ensures forall j :: 0 <= j < |r| ==> !IsForm(s[j..], stems, exts, tails)
  {
    match FirstFormAt(s, 0, stems, exts, tails)
    case Some(k) => s[..k]
    case None => s
  }

  // ---------------------------------------------------------------------------
  // sorted() on strings
  // ---------------------------------------------------------------------------

  /** Python's `a <= b` on strings: code-point lexicographic order. */
  predicate LexLe(a: string, b: string)
    decreases |a|
  {
    |a| == 0 || (|b| > 0 && (a[0] < b[0] || (a[0] == b[0] && LexLe(a[1..], b[1..]))))
  }

  lemma {:induction false} LexLeTotal(a: string, b: string)
    ensures LexLe(a, b) || LexLe(b, a)
    decreases |a|
  {
    if |a| > 0 && |b| > 0 && a[0] == b[0] {
      LexLeTotal(a[1..], b[1..]);
    }
  }

  lemma {:induction false} LexLeAntisymmetric(a: string, b: string)
    requires LexLe(a, b) && LexLe(b, a)
    ensures a == b
    decreases |a|
  {
    if |a| > 0 {
      LexLeAntisymmetric(a[1..], b[1..]);
      assert a == [a[0]] + a[1..] && b == [b[0]] + b[1..];
    }
  }

  ghost predicate SortedStrings(s: seq<string>)
  {
    forall i :: 0 <= i < |s| - 1 ==> LexLe(s[i], s[i + 1])
  }

  function Insert(x: string, s: seq<string>): (r: seq<string>)
    requires SortedStrings(s)
    ensures SortedStrings(r)
    ensures multiset(r) == multiset(s) + multiset{x}
    ensures |r| > 0 && (r[0] == x || (|s| > 0 && r[0] == s[0]))
    decreases |s|
  {
    if |s| == 0 then [x]
    else if LexLe(x, s[0]) then [x] + s
    else
      var tail := Insert(x, s[1..]);
      LexLeTotal(x, s[0]);
      assert s == [s[0]] + s[1..];
      [s[0]] + tail
  }

  /** `sorted(s)`: the ascending rearrangement of `s`. */
  function Sorted(s: seq<string>): (r: seq<string>)
    ensures SortedStrings(r)
    ensures multiset(r) == multiset(s)
    decreases |s|
  {
    if |s| == 0 then []
    else
      assert s == [s[0]] + s[1..];
      Insert(s[0], Sorted(s[1..]))
  }
}
