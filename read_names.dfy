/** How the two sample-sheet scripts reduce a read-file path to a sample name: the
    directory is dropped, then a trailing `<mate>.<extension><compression>` is removed. */
module ReadNames {
  import opened Wrappers
  import Seqs
  import opened Text

  /** The read-file extensions both scripts recognise. */
  const Extensions: seq<string> := ["fa", "fasta", "fq", "fastq", "FA", "FASTA", "FQ", "FASTQ"]

  /** Mate markers removed for SPAdes: `_1`/`_2`, `_r1`/`_r2`, `_R1`/`_R2`, or none. */
  const SpadesMates: seq<string> := ["_1", "_2", "_r1", "_r2", "_R1", "_R2", ""]
  const SpadesTails: seq<string> := [".gz", ""]

  /** Mate markers removed for the category sheet: the bare `_1`/`_2` are kept. */
  const CategoryMates: seq<string> := ["_r1", "_r2", "_R1", "_R2", ""]
  const CategoryTails: seq<string> := [".gz", ".bz2", ""]

  /** Substrings that mark a file as FASTQ rather than FASTA. */
  const FastqMarks: seq<string> := ["fq", "fastq", "FQ", "FASTQ"]

  /** `get_basename` of the SPAdes sheet: the FASTA flag (no FASTQ mark anywhere in the
      file name) and the file name without its longest read-file suffix. */
  function SpadesBasename(path: string): (r: (bool, string))
    ensures r.1 <= Basename(path)
  {
    var name := Basename(path);
    var fasta := !exists m :: m in FastqMarks && Contains(name, m);
    (fasta, StripForm(name, SpadesMates, Extensions, SpadesTails))
  }

  /** `get_basename` of the category sheet. */
  function CategoryBasename(path: string): (r: string)
    ensures r <= Basename(path)
  {
    StripForm(Basename(path), CategoryMates, Extensions, CategoryTails)
  }

  // ---------------------------------------------------------------------------
  // The two files of a pair name the same sample
  // ---------------------------------------------------------------------------

  /** The file name is what follows the last '/'. */
  lemma {:induction false} BasenameAfterSlash(dir: string, name: string)
    requires '/' !in name
    ensures Basename(dir + "/" + name) == name
    decreases |name|
  {
    var s := dir + "/" + name;
    if |name| > 0 {
      var front := name[..|name| - 1];
      assert s[..|s| - 1] == dir + "/" + front;
      BasenameAfterSlash(dir, front);
      assert front + [name[|name| - 1]] == name;
    }
  }

  /** `t.rpartition('.')` when `t` holds a dot: the text before and after its last dot. */
  function LastDotSplit(t: string): (r: Option<(string, string)>)
    ensures r.Some? ==> r.value.0 + "." + r.value.1 == t && '.' !in r.value.1
    decreases |t|
  {
    if |t| == 0 then None
    else if t[|t| - 1] == '.' then
      assert t[..|t| - 1] + "." + "" == t;
      Some((t[..|t| - 1], ""))
    else match LastDotSplit(t[..|t| - 1])
      case None => None
      case Some((a, b)) =>
        assert a + "." + (b + [t[|t| - 1]]) == t[..|t| - 1] + [t[|t| - 1]] == t;
        Some((a, b + [t[|t| - 1]]))
  }

  /** A dot followed by dot-free text is the last dot. */
  lemma {:induction false} LastDotOf(x: string, y: string)
    requires '.' !in y
    ensures LastDotSplit(x + "." + y) == Some((x, y))
    decreases |y|
  {
    var t := x + "." + y;
    if |y| == 0 {
      assert t[..|t| - 1] == x;
    } else {
      var front := y[..|y| - 1];
      assert t[..|t| - 1] == x + "." + front;
      LastDotOf(x, front);
      assert front + [y[|y| - 1]] == y;
    }
  }

  /** The sets of words the two patterns accept are built so that a dot splits them
      without ambiguity: no extension holds a dot, and a compression suffix is empty or
      a dot followed by a dot-free word that is not an extension. */
  predicate Unambiguous(exts: seq<string>, tails: seq<string>)
  {
    && (forall e :: e in exts ==> '.' !in e)
    && (forall c :: c in tails ==> c == "" || (c[0] == '.' && '.' !in c[1..] && c[1..] !in exts))
  }

  /** The mate part of a form: peel the compression suffix (a dot-word that is not an
      extension), then the extension. */
  function FormStem(t: string, exts: seq<string>): Option<string>
  {
    match LastDotSplit(t)
    case None => None
    case Some((a, b)) =>
      if b in exts then Some(a)
      else match LastDotSplit(a)
        case None => None
        case Some((a2, _)) => Some(a2)
  }

  /** A form of an unambiguous pattern determines its stem. */
  lemma FormStemOf(p: string, e: string, c: string, exts: seq<string>, tails: seq<string>)
    requires e in exts && c in tails && Unambiguous(exts, tails)
    ensures FormStem(p + "." + e + c, exts) == Some(p)
  {
    if c == "" {
      assert p + "." + e + c == p + "." + e;
      LastDotOf(p, e);
    } else {
      var g := c[1..];
      assert c == "." + g;
      Seqs.AppendAssoc(p + "." + e, ".", g);
      LastDotOf(p + "." + e, g);
      LastDotOf(p, e);
    }
  }

  /** In an unambiguous pattern, a word with a non-empty text before a mate marker is a
      form only if some stem ends with that marker after a non-empty prefix. */
  lemma NoFormBeforeMate(u: string, mate: string, e: string, c: string,
                         stems: seq<string>, exts: seq<string>, tails: seq<string>)
    requires |u| > 0 && e in exts && c in tails && Unambiguous(exts, tails)
    requires forall p :: p in stems && |p| > |mate| ==> p[|p| - |mate|..] != mate
    ensures !IsForm(u + mate + "." + e + c, stems, exts, tails)
  {
    var t := u + mate + "." + e + c;
    if IsForm(t, stems, exts, tails) {
      var p, e2, c2 :| p in stems && e2 in exts && c2 in tails && t == p + "." + e2 + c2;
      FormStemOf(u + mate, e, c, exts, tails);
      FormStemOf(p, e2, c2, exts, tails);
      assert false;
    }
  }

  /** The suffix after the sample name is a form. */
  lemma FormAfterName(n: string, mate: string, e: string, c: string,
                      stems: seq<string>, exts: seq<string>, tails: seq<string>)
    requires mate in stems && e in exts && c in tails
    ensures IsForm((n + (mate + "." + e + c))[|n|..], stems, exts, tails)
  {
    assert (n + (mate + "." + e + c))[|n|..] == mate + "." + e + c;
  }

  /** No suffix that starts inside the sample name is a form. */
  lemma NoFormInName(n: string, k: nat, mate: string, e: string, c: string,
                     stems: seq<string>, exts: seq<string>, tails: seq<string>)
    requires k < |n| && e in exts && c in tails && Unambiguous(exts, tails)
    requires forall p :: p in stems && |p| > |mate| ==> p[|p| - |mate|..] != mate
    ensures !IsForm((n + (mate + "." + e + c))[k..], stems, exts, tails)
  {
    var u := n[k..];
    assert (n + (mate + "." + e + c))[k..] == u + (mate + "." + e + c);
    Seqs.AppendAssoc(u + mate, ".", e);
    Seqs.AppendAssoc(u, mate, ".");
    Seqs.AppendAssoc(u, mate + "." + e, c);
    Seqs.AppendAssoc(u, mate + ".", e);
    NoFormBeforeMate(u, mate, e, c, stems, exts, tails);
  }

  /** The form starting right after the sample name is the first one, so exactly the
      sample name is left. */
  lemma StripMate(n: string, mate: string, e: string, c: string,
                  stems: seq<string>, exts: seq<string>, tails: seq<string>)
    requires mate in stems && e in exts && c in tails && Unambiguous(exts, tails)
    requires forall p :: p in stems && |p| > |mate| ==> p[|p| - |mate|..] != mate
    ensures StripForm(n + (mate + "." + e + c), stems, exts, tails) == n
  {
    var s := n + (mate + "." + e + c);
    var r := StripForm(s, stems, exts, tails);
    FormAfterName(n, mate, e, c, stems, exts, tails);
    if |r| < |n| {
      NoFormInName(n, |r|, mate, e, c, stems, exts, tails);
      assert false;
    }
    assert r == s[..|n|] == n;
  }

  /** A name built from dot-free, slash-free pieces holds no slash. */
  lemma NoSlash(n: string, mate: string, e: string, c: string)
    requires '/' !in n && '/' !in mate && '/' !in e && '/' !in c
    ensures '/' !in n + (mate + "." + e + c)
  {
    Seqs.InAppend('/', mate + "." + e, c);
    Seqs.InAppend('/', mate + ".", e);
    Seqs.InAppend('/', mate, ".");
    Seqs.InAppend('/', n, mate + "." + e + c);
  }

  /** The facts about the two patterns' word lists that the pair lemmas rely on. */
  lemma SpadesUnambiguous()
    ensures Unambiguous(Extensions, SpadesTails)
  {
  }

  lemma CategoryUnambiguous()
    ensures Unambiguous(Extensions, CategoryTails)
  {
  }

  lemma SpadesMateLast(mate: string)
    requires mate in SpadesMates && mate != ""
    ensures forall p :: p in SpadesMates && |p| > |mate| ==> p[|p| - |mate|..] != mate
    ensures '/' !in mate
  {
  }

  lemma CategoryMateLast(mate: string)
    requires mate in CategoryMates && mate != ""
    ensures forall p :: p in CategoryMates && |p| > |mate| ==> p[|p| - |mate|..] != mate
    ensures '/' !in mate
  {
  }

  lemma ExtensionsSlashFree(e: string, c: string)
    requires e in Extensions && (c in CategoryTails || c in SpadesTails)
    ensures '/' !in e && '/' !in c
  {
  }

  /** The two files of a SPAdes pair, `<n>_1.<ext>[.gz]` and `<n>_2.<ext>[.gz]` (or the
      `_r`/`_R` spellings), give the sample name `<n>` wherever they are stored. */
  lemma SpadesPairName(dir: string, n: string, mate: string, e: string, c: string)
    requires '/' !in n && mate in SpadesMates && mate != "" && e in Extensions && c in SpadesTails
    ensures SpadesBasename(dir + "/" + (n + (mate + "." + e + c))).1 == n
  {
    SpadesUnambiguous();
    SpadesMateLast(mate);
    ExtensionsSlashFree(e, c);
    NoSlash(n, mate, e, c);
    BasenameAfterSlash(dir, n + (mate + "." + e + c));
    StripMate(n, mate, e, c, SpadesMates, Extensions, SpadesTails);
  }

  /** The same for the category sheet's `_r1`/`_r2`/`_R1`/`_R2` files and any of its
      compression suffixes. */
  lemma CategoryPairName(dir: string, n: string, mate: string, e: string, c: string)
    requires '/' !in n && mate in CategoryMates && mate != "" && e in Extensions && c in CategoryTails
    ensures CategoryBasename(dir + "/" + (n + (mate + "." + e + c))) == n
  {
    CategoryUnambiguous();
    CategoryMateLast(mate);
    ExtensionsSlashFree(e, c);
    NoSlash(n, mate, e, c);
    BasenameAfterSlash(dir, n + (mate + "." + e + c));
    StripMate(n, mate, e, c, CategoryMates, Extensions, CategoryTails);
  }
}
