/** The colours of the PCA plot: every sample of the feature table starts without a
    category; each metadata row names a category and lists samples, which then belong
    to it (a later row wins); each category gets the next of nine base colours, in
    turn, the first time one of its samples is seen; and if some sample is left without
    a category, "no category" gets grey. */
module PcaColors {
  import opened Wrappers
  import opened Text

  const BaseColors: seq<string> := ["tab:blue", "tab:red", "tab:green", "tab:orange", "tab:purple",
                                    "tab:brown", "tab:pink", "tab:olive", "tab:cyan"]
  const DefaultColor: string := "tab:gray"

  /** One metadata row: its index (the category) and its first column, a list of samples
      separated by white space. Running without a metadata file is running with no rows. */
  datatype MetaRow = MetaRow(key: string, samples: string)

  /** The values `it` takes: an index into the base colours. */
  type Turn = i: int | 0 <= i < 9

  /** `meta_dict`, `colors_dict` (with its keys in insertion order) and `it`; `None` is
      "no category". */
  datatype Palette = Palette(meta: map<string, Option<string>>, colours: map<Option<string>, string>,
                             order: seq<Option<string>>, it: Turn)

  /** The samples, the columns of the feature table. */
  function Known(samples: seq<string>): set<string>
  {
    set s | s in samples
  }

  /** `meta_dict = dict(zip(features.columns, [None] * N))`, and the rest empty. */
  function Initial(samples: seq<string>): Palette
  {
    Palette(map s | s in samples :: None, map[], [], 0)
  }

  /** One sample named by the row of category `key`. */
  function Mark(p: Palette, key: string, val: string): Palette
  {
    if val !in p.meta then p
    else if Some(key) in p.colours then p.(meta := p.meta[val := Some(key)])
    else
      Palette(p.meta[val := Some(key)], p.colours[Some(key) := BaseColors[p.it]],
              p.order + [Some(key)], (p.it + 1) % 9)
  }

  /** The inner loop over the samples of one row. */
  function MarkAll(p: Palette, key: string, vals: seq<string>): Palette
    decreases |vals|
  {
    if |vals| == 0 then p
    else Mark(MarkAll(p, key, vals[..|vals| - 1]), key, vals[|vals| - 1])
  }

  /** The outer loop over the metadata rows. */
  function MarkRows(p: Palette, rows: seq<MetaRow>): Palette
    decreases |rows|
  {
    if |rows| == 0 then p
    else
      var last := rows[|rows| - 1];
      MarkAll(MarkRows(p, rows[..|rows| - 1]), last.key, Words(last.samples))
  }

  /** The palette the plot is drawn with: grey for "no category" when a sample has none. */
  function Palettes(samples: seq<string>, rows: seq<MetaRow>): Palette
  {
    var p := MarkRows(Initial(samples), rows);
    if exists s :: s in p.meta && p.meta[s] == None then
      p.(colours := p.colours[None := DefaultColor], order := p.order + [None])
    else p
  }

  lemma MarkAllNext(p: Palette, key: string, vals: seq<string>, j: nat)
    requires j < |vals|
    ensures MarkAll(p, key, vals[..j + 1]) == Mark(MarkAll(p, key, vals[..j]), key, vals[j])
  {
    assert vals[..j + 1][..j] == vals[..j];
    assert vals[..j + 1][j] == vals[j];
  }

  lemma MarkRowsNext(p: Palette, rows: seq<MetaRow>, k: nat)
    requires k < |rows|
    ensures MarkRows(p, rows[..k + 1]) == MarkAll(MarkRows(p, rows[..k]), rows[k].key, Words(rows[k].samples))
  {
    assert rows[..k + 1][..k] == rows[..k];
    assert rows[..k + 1][k] == rows[k];
  }

  /** The inner loop: the samples listed by one row of category `key`. */
  method MarkSamples(meta0: map<string, Option<string>>, colours0: map<Option<string>, string>,
                     order0: seq<Option<string>>, it0: Turn, key: string, vals: seq<string>)
    returns (meta: map<string, Option<string>>, colours: map<Option<string>, string>,
             order: seq<Option<string>>, it: Turn)
    ensures Palette(meta, colours, order, it) == MarkAll(Palette(meta0, colours0, order0, it0), key, vals)
  {
    meta, colours, order, it := meta0, colours0, order0, it0;
    for j := 0 to |vals|
      invariant Palette(meta, colours, order, it) == MarkAll(Palette(meta0, colours0, order0, it0), key, vals[..j])
    {
      var val := vals[j];
      MarkAllNext(Palette(meta0, colours0, order0, it0), key, vals, j);
      if val in meta {
        meta := meta[val := Some(key)];
        if Some(key) !in colours {
          colours := colours[Some(key) := BaseColors[it]];
          order := order + [Some(key)];
          it := (it + 1) % 9;
        }
      }
    }
    assert vals[..|vals|] == vals;
  }

  /** The script's colour assignment. */
  method AssignColours(samples: seq<string>, rows: seq<MetaRow>)
    returns (meta: map<string, Option<string>>, colours: map<Option<string>, string>, order: seq<Option<string>>)
    ensures meta == Palettes(samples, rows).meta && colours == Palettes(samples, rows).colours
    ensures order == Palettes(samples, rows).order
  {
    var it: Turn := 0;
    colours, order := map[], [];
    meta := map s | s in samples :: None;
    for k := 0 to |rows|
      invariant Palette(meta, colours, order, it) == MarkRows(Initial(samples), rows[..k])
    {
      MarkRowsNext(Initial(samples), rows, k);
      meta, colours, order, it := MarkSamples(meta, colours, order, it, rows[k].key, Words(rows[k].samples));
    }
    assert rows[..|rows|] == rows;
    if exists s :: s in meta && meta[s] == None {
      colours := colours[None := DefaultColor];
      order := order + [None];
    }
  }

  // ---------------------------------------------------------------------------
  // What the loops keep
  // ---------------------------------------------------------------------------

  /** The palette before grey is added: the samples are the keys of `meta`; every
      category a sample has has a colour; the coloured categories are `order`, once each;
      the i-th of them has the base colour i mod 9; and `it` points at the next one. */
  ghost predicate Coherent(p: Palette, known: set<string>)
  {
    && p.meta.Keys == known
    && (forall s :: s in p.meta && p.meta[s].Some? ==> p.meta[s] in p.colours)
    && (forall c :: c in p.colours <==> c in p.order)
    && (forall i :: 0 <= i < |p.order| ==> p.order[i].Some? && p.colours[p.order[i]] == BaseColors[i % 9])
    && (forall i, j :: 0 <= i < j < |p.order| ==> p.order[i] != p.order[j])
    && p.it == |p.order| % 9
  }

  lemma NextIt(n: nat)
    ensures (n % 9 + 1) % 9 == (n + 1) % 9
  {
  }

  /** A sample joining a category that already has a colour. */
  lemma MarkOldCategory(p: Palette, known: set<string>, key: string, val: string)
    requires Coherent(p, known) && val in p.meta && Some(key) in p.colours
    ensures Coherent(Mark(p, key, val), known)
  {
  }

  /** A sample opening a new category, which takes the base colour `it` points at. */
  lemma MarkNewCategory(p: Palette, known: set<string>, key: string, val: string)
    requires Coherent(p, known) && val in p.meta && Some(key) !in p.colours
    ensures Coherent(Mark(p, key, val), known)
  {
    NextIt(|p.order|);
    var q := Mark(p, key, val);
    assert q.order == p.order + [Some(key)];
    assert q.order[|p.order|] == Some(key);
    assert forall i :: 0 <= i < |p.order| ==> q.order[i] == p.order[i];
  }

  lemma MarkCoherent(p: Palette, known: set<string>, key: string, val: string)
    requires Coherent(p, known)
    ensures Coherent(Mark(p, key, val), known)
  {
    if val in p.meta {
      if Some(key) in p.colours {
        MarkOldCategory(p, known, key, val);
      } else {
        MarkNewCategory(p, known, key, val);
      }
    }
  }

  lemma {:induction false} MarkAllCoherent(p: Palette, known: set<string>, key: string, vals: seq<string>)
    requires Coherent(p, known)
    ensures Coherent(MarkAll(p, key, vals), known)
    decreases |vals|
  {
    if |vals| > 0 {
      MarkAllCoherent(p, known, key, vals[..|vals| - 1]);
      MarkCoherent(MarkAll(p, key, vals[..|vals| - 1]), known, key, vals[|vals| - 1]);
    }
  }

  lemma {:induction false} MarkRowsCoherent(p: Palette, known: set<string>, rows: seq<MetaRow>)
    requires Coherent(p, known)
    ensures Coherent(MarkRows(p, rows), known)
    decreases |rows|
  {
    if |rows| > 0 {
      var last := rows[|rows| - 1];
      MarkRowsCoherent(p, known, rows[..|rows| - 1]);
      MarkAllCoherent(MarkRows(p, rows[..|rows| - 1]), known, last.key, Words(last.samples));
    }
  }

  /** The lookup `colors_dict[meta_dict[i]]` for the plot never fails: every sample has
      a category or none, and either has a colour. The categories are coloured in the
      order they were first used, cycling through the nine base colours, and "no
      category" is grey and last, present exactly when some sample has no category. */
  lemma PalettesColours(samples: seq<string>, rows: seq<MetaRow>)
    ensures var p := Palettes(samples, rows);
      && (forall s :: s in samples ==> s in p.meta && p.meta[s] in p.colours)
      && (forall c :: c in p.colours <==> c in p.order)
      && (forall i, j :: 0 <= i < j < |p.order| ==> p.order[i] != p.order[j])
      && (forall i :: 0 <= i < |p.order| && p.order[i].Some? ==> p.colours[p.order[i]] == BaseColors[i % 9])
      && (None in p.colours <==> exists s :: s in samples && p.meta[s] == None)
      && (None in p.colours ==> p.colours[None] == DefaultColor && p.order[|p.order| - 1] == None)
  {
    var known := Known(samples);
    var p0 := MarkRows(Initial(samples), rows);
    assert Coherent(Initial(samples), known);
    MarkRowsCoherent(Initial(samples), known, rows);
    var p := Palettes(samples, rows);
    if exists s :: s in p0.meta && p0.meta[s] == None {
      assert p.order == p0.order + [None];
      assert forall i :: 0 <= i < |p0.order| ==> p.order[i] == p0.order[i];
      assert None !in p0.order;
    } else {
      assert None !in p0.colours;
    }
  }

  // ---------------------------------------------------------------------------
  // Which category a sample ends up with
  // ---------------------------------------------------------------------------

  /** The category of the last row listing `s`, or none. */
  function LastCategory(rows: seq<MetaRow>, s: string): Option<string>
    decreases |rows|
  {
    if |rows| == 0 then None
    else if s in Words(rows[|rows| - 1].samples) then Some(rows[|rows| - 1].key)
    else LastCategory(rows[..|rows| - 1], s)
  }

  /** A category is used once a row of it lists a known sample. */
  predicate Used(rows: seq<MetaRow>, known: set<string>, key: string)
    decreases |rows|
  {
    if |rows| == 0 then false
    else
      || Used(rows[..|rows| - 1], known, key)
      || (rows[|rows| - 1].key == key && exists t :: t in Words(rows[|rows| - 1].samples) && t in known)
  }

  /** One row: a known sample it lists gets its category, the others keep theirs, and the
      category gets a colour if it lists a known sample. */
  lemma {:induction false} MarkAllMeaning(p: Palette, key: string, vals: seq<string>)
    ensures MarkAll(p, key, vals).meta.Keys == p.meta.Keys
    ensures forall s :: s in p.meta ==>
      MarkAll(p, key, vals).meta[s] == if s in vals then Some(key) else p.meta[s]
    ensures forall c :: c in MarkAll(p, key, vals).colours <==>
      c in p.colours || (c == Some(key) && exists t :: t in vals && t in p.meta)
    decreases |vals|
  {
    if |vals| > 0 {
      var front := vals[..|vals| - 1];
      MarkAllMeaning(p, key, front);
      assert vals == front + [vals[|vals| - 1]];
      forall c
        ensures c in MarkAll(p, key, vals).colours <==>
          c in p.colours || (c == Some(key) && exists t :: t in vals && t in p.meta)
      {
        if c == Some(key) && c !in p.colours {
          if exists t :: t in vals && t in p.meta {
            var t :| t in vals && t in p.meta;
            if t != vals[|vals| - 1] {
              assert t in front;
            }
          }
        }
      }
    }
  }

  /** After the rows, each sample has the category of the last row that lists it (none if
      no row does), and the coloured categories are exactly the used ones (before grey). */
  lemma {:induction false} MarkRowsMeaning(samples: seq<string>, rows: seq<MetaRow>)
    ensures MarkRows(Initial(samples), rows).meta.Keys == Known(samples)
    ensures forall s :: s in samples ==> MarkRows(Initial(samples), rows).meta[s] == LastCategory(rows, s)
    ensures forall key :: Some(key) in MarkRows(Initial(samples), rows).colours <==> Used(rows, Known(samples), key)
    decreases |rows|
  {
    if |rows| > 0 {
      var front, last := rows[..|rows| - 1], rows[|rows| - 1];
      MarkRowsMeaning(samples, front);
      MarkAllMeaning(MarkRows(Initial(samples), front), last.key, Words(last.samples));
    }
  }

  /** With the grey added: a sample's colour is its last category's, or grey. */
  lemma PalettesMeaning(samples: seq<string>, rows: seq<MetaRow>)
    ensures forall s :: s in samples ==> s in Palettes(samples, rows).meta && Palettes(samples, rows).meta[s] == LastCategory(rows, s)
    ensures forall key :: Some(key) in Palettes(samples, rows).colours <==> Used(rows, Known(samples), key)
    ensures None in Palettes(samples, rows).colours <==> exists s :: s in samples && LastCategory(rows, s) == None
  {
    MarkRowsMeaning(samples, rows);
    var p0 := MarkRows(Initial(samples), rows);
    if exists s :: s in p0.meta && p0.meta[s] == None {
      var s :| s in p0.meta && p0.meta[s] == None;
      assert s in samples;
    }
    PalettesColours(samples, rows);
  }
}
