/** The category sheet: for every category of a two-column table (sample file, category),
    the samples in it and the samples not in it. Python sets are held as duplicate-free
    sequences; only their sorted contents are ever printed. */
module SampleCategories {
  import Seqs
  import opened Text
  import opened ReadNames

  /** How a sample file is named; the script uses `ReadNames.CategoryBasename`. */
  type Naming = string -> string

  /** One table row: the sample file and its category. */
  datatype Row = Row(file: string, category: string)

  /** `cat_dict` with its keys in insertion order, and `all_items`. */
  datatype Table = Table(order: seq<string>, members: map<string, seq<string>>, all: seq<string>)

  lemma PrefixTrans(a: seq<string>, b: seq<string>, c: seq<string>)
    requires a <= b && b <= c
    ensures a <= c
  {
    assert a == b[..|a|] == c[..|a|];
  }

  /** `s.add(x)`. */
  function Add(s: seq<string>, x: string): (r: seq<string>)
    ensures forall y :: y in r <==> y in s || y == x
  {
    if x in s then s else s + [x]
  }

  predicate Distinct(s: seq<string>)
  {
    forall i, j :: 0 <= i < j < |s| ==> s[i] != s[j]
  }

  /** The tables after the loop over the rows. */
  function Categorised(rows: seq<Row>, name: Naming): Table
    decreases |rows|
  {
    if |rows| == 0 then Table([], map[], [])
    else
      var row := rows[|rows| - 1];
      Record(Categorised(rows[..|rows| - 1], name), row.category, name(row.file))
  }

  /** One pass of the loop: category `c` gets a set if it has none, and `base` is added to
      it and to `all_items`. */
  function Record(t: Table, c: string, base: string): Table
  {
    var v := if c in t.members then t.members[c] else [];
    Table(if c in t.members then t.order else t.order + [c], t.members[c := Add(v, base)], Add(t.all, base))
  }

  /** `[cat for _, cat in rows]`. */
  function CategoriesOf(rows: seq<Row>): seq<string>
    decreases |rows|
  {
    if |rows| == 0 then [] else CategoriesOf(rows[..|rows| - 1]) + [rows[|rows| - 1].category]
  }

  /** `[get_basename(name) for name, _ in rows]`. */
  function NamesOf(rows: seq<Row>, name: Naming): seq<string>
    decreases |rows|
  {
    if |rows| == 0 then [] else NamesOf(rows[..|rows| - 1], name) + [name(rows[|rows| - 1].file)]
  }

  /** `[get_basename(name) for name, cat in rows if cat == c]`. */
  function LabelsOf(rows: seq<Row>, name: Naming, c: string): seq<string>
    decreases |rows|
  {
    if |rows| == 0 then []
    else
      var front := LabelsOf(rows[..|rows| - 1], name, c);
      if rows[|rows| - 1].category == c then front + [name(rows[|rows| - 1].file)] else front
  }

  /** The categories are the keys, listed once each, and are those of the rows. */
  lemma {:induction false} CategorisedKeys(rows: seq<Row>, name: Naming)
    ensures forall c :: c in Categorised(rows, name).members <==> c in Categorised(rows, name).order
    ensures forall c :: c in Categorised(rows, name).order <==> c in CategoriesOf(rows)
    decreases |rows|
  {
    if |rows| > 0 {
      var front, row := rows[..|rows| - 1], rows[|rows| - 1];
      CategorisedKeys(front, name);
      var t0, t := Categorised(front, name), Categorised(rows, name);
      assert t == Record(t0, row.category, name(row.file));
      forall k
        ensures k in t.order <==> k in t0.order || k == row.category
        ensures k in CategoriesOf(rows) <==> k in CategoriesOf(front) || k == row.category
      {
        Seqs.InAppend(k, t0.order, [row.category]);
        Seqs.InAppend(k, CategoriesOf(front), [row.category]);
      }
    }
  }

  /** Every set holds exactly the samples the table gives it: a category's set the samples
      of its rows, `all_items` every sample. */
  lemma {:induction false} CategorisedMembers(rows: seq<Row>, name: Naming)
    ensures forall c, x :: c in Categorised(rows, name).members ==>
      (x in Categorised(rows, name).members[c] <==> x in LabelsOf(rows, name, c))
    ensures forall x :: x in Categorised(rows, name).all <==> x in NamesOf(rows, name)
    decreases |rows|
  {
    if |rows| > 0 {
      var front, row := rows[..|rows| - 1], rows[|rows| - 1];
      var base := name(row.file);
      CategorisedMembers(front, name);
      CategorisedKeys(front, name);
      var t0, t := Categorised(front, name), Categorised(rows, name);
      assert t == Record(t0, row.category, base);
      if row.category !in t0.members {
        LabelsAbsent(front, name, row.category);
      }
      forall c, x
        ensures x in LabelsOf(rows, name, c) <==> x in LabelsOf(front, name, c) || (c == row.category && x == base)
        ensures x in NamesOf(rows, name) <==> x in NamesOf(front, name) || x == base
      {
        Seqs.InAppend(x, LabelsOf(front, name, c), [base]);
        Seqs.InAppend(x, NamesOf(front, name), [base]);
      }
    }
  }

  /** A category without rows labels nothing. */
  lemma {:induction false} LabelsAbsent(rows: seq<Row>, name: Naming, c: string)
    requires c !in CategoriesOf(rows)
    ensures LabelsOf(rows, name, c) == []
    decreases |rows|
  {
    if |rows| > 0 {
      var front := rows[..|rows| - 1];
      Seqs.InAppend(c, CategoriesOf(front), [rows[|rows| - 1].category]);
      LabelsAbsent(front, name, c);
    }
  }

  /** Categories are listed once each and no set holds a sample twice. */
  lemma {:induction false} CategorisedDistinct(rows: seq<Row>, name: Naming)
    ensures Distinct(Categorised(rows, name).order)
    ensures Distinct(Categorised(rows, name).all)
    ensures forall c :: c in Categorised(rows, name).members ==> Distinct(Categorised(rows, name).members[c])
    decreases |rows|
  {
    if |rows| > 0 {
      var front, row := rows[..|rows| - 1], rows[|rows| - 1];
      CategorisedDistinct(front, name);
      CategorisedKeys(front, name);
      RecordDistinct(Categorised(front, name), row.category, name(row.file));
    }
  }

  /** Adding to a duplicate-free sequence keeps it duplicate-free. */
  lemma AddDistinct(s: seq<string>, x: string)
    requires Distinct(s)
    ensures Distinct(Add(s, x))
  {
  }

  /** One pass of the loop keeps the key order and every set duplicate-free. */
  lemma RecordDistinct(t: Table, c: string, base: string)
    requires Distinct(t.order) && Distinct(t.all)
    requires forall k :: k in t.members ==> Distinct(t.members[k])
    requires forall k :: k in t.members <==> k in t.order
    ensures var r := Record(t, c, base);
      && Distinct(r.order) && Distinct(r.all)
      && forall k :: k in r.members ==> Distinct(r.members[k])
  {
    AddDistinct(t.all, base);
    var v := if c in t.members then t.members[c] else [];
    AddDistinct(v, base);
  }

  /** One more row only appends to the key order. */
  lemma CategorisedGrows(rows: seq<Row>, name: Naming)
    requires |rows| > 0
    ensures Categorised(rows[..|rows| - 1], name).order <= Categorised(rows, name).order
  {
  }

  /** Categories are only ever appended to the key order, so they stand in the order of
      their first rows. */
  lemma {:induction false} CategorisedPrefix(rows: seq<Row>, name: Naming, n: nat)
    requires n <= |rows|
    ensures Categorised(rows[..n], name).order <= Categorised(rows, name).order
    decreases |rows|
  {
    if n < |rows| {
      var front := rows[..|rows| - 1];
      Seqs.TakeTake(rows, |rows| - 1, n);
      CategorisedPrefix(front, name, n);
      CategorisedGrows(rows, name);
      assert front[..n] == rows[..n];
      var a, b, c := Categorised(rows[..n], name).order, Categorised(front, name).order, Categorised(rows, name).order;
      PrefixTrans(a, b, c);
    } else {
      assert rows[..n] == rows;
    }
  }

  /** The loop of the script. */
  lemma CategorisedNext(rows: seq<Row>, name: Naming, i: nat)
    requires i < |rows|
    ensures Categorised(rows[..i + 1], name) == Record(Categorised(rows[..i], name), rows[i].category, name(rows[i].file))
  {
    Seqs.TakeTake(rows, i + 1, i);
    assert rows[..i + 1][i] == rows[i];
  }

  /** The body of the loop for one row. */
  method RecordRow(order0: seq<string>, members0: map<string, seq<string>>, all0: seq<string>, c: string, base: string)
    returns (order: seq<string>, members: map<string, seq<string>>, all: seq<string>)
    ensures Table(order, members, all) == Record(Table(order0, members0, all0), c, base)
  {
    order, members, all := order0, members0, all0;
    if c !in members {
      order := order + [c];
      members := members[c := []];
    }
    members := members[c := Add(members[c], base)];
    all := Add(all, base);
  }

  method CollectCategories(rows: seq<Row>, name: Naming) returns (order: seq<string>, members: map<string, seq<string>>, all: seq<string>)
    ensures Table(order, members, all) == Categorised(rows, name)
  {
    order, members, all := [], map[], [];
    var i := 0;
    while i < |rows|
      invariant i <= |rows|
      invariant Table(order, members, all) == Categorised(rows[..i], name)
    {
      order, members, all := RecordRow(order, members, all, rows[i].category, name(rows[i].file));
      CategorisedNext(rows, name, i);
      i := i + 1;
    }
    assert rows[..i] == rows;
  }

  // ---------------------------------------------------------------------------
  // Output
  // ---------------------------------------------------------------------------

  /** `all_items - v`, in the order of `all_items`. */
  function Minus(all: seq<string>, v: seq<string>): (r: seq<string>)
    ensures forall x :: x in r <==> x in all && x !in v
    decreases |all|
  {
    if |all| == 0 then []
    else
      var front := Minus(all[..|all| - 1], v);
      var x := all[|all| - 1];
      assert all == all[..|all| - 1] + [x];
      if x in v then front else front + [x]
  }

  /** The three prints of one category: its name, its samples, the other samples. */
  function CategoryLine(c: string, v: seq<string>, all: seq<string>): string
  {
    c + "\t" + Join(Sorted(v), ' ') + "\t" + Join(Sorted(Minus(all, v)), ' ')
  }

  lemma SortedMembers(s: seq<string>, x: string)
    ensures x in Sorted(s) <==> x in s
  {
    assert x in Sorted(s) <==> multiset(Sorted(s))[x] > 0;
  }

  /** A category's line lists, each in ascending order, exactly the samples that carry
      the category and exactly the samples of the table that never carry it; so the two
      lists are disjoint and together hold every sample. */
  lemma CategoryColumns(rows: seq<Row>, name: Naming, c: string)
    requires c in Categorised(rows, name).members
    ensures var t := Categorised(rows, name);
      var inside, outside := Sorted(t.members[c]), Sorted(Minus(t.all, t.members[c]));
      && SortedStrings(inside) && SortedStrings(outside)
      && (forall x :: x in inside <==> x in LabelsOf(rows, name, c))
      && (forall x :: x in outside <==> x in NamesOf(rows, name) && x !in LabelsOf(rows, name, c))
  {
    CategorisedMembers(rows, name);
    var t := Categorised(rows, name);
    forall x
      ensures x in Sorted(t.members[c]) <==> x in t.members[c]
      ensures x in Sorted(Minus(t.all, t.members[c])) <==> x in Minus(t.all, t.members[c])
    {
      SortedMembers(t.members[c], x);
      SortedMembers(Minus(t.all, t.members[c]), x);
    }
  }

  /** The line reads back as the category and its two space-separated lists when the
      names hold no tab. */
  lemma CategoryLineFields(c: string, v: seq<string>, all: seq<string>)
    requires '\t' !in c
    requires forall x :: x in all ==> '\t' !in x
    requires forall x :: x in v ==> '\t' !in x
    ensures Split(CategoryLine(c, v, all), '\t')
      == [c, Join(Sorted(v), ' '), Join(Sorted(Minus(all, v)), ' ')]
  {
    var a, b := Join(Sorted(v), ' '), Join(Sorted(Minus(all, v)), ' ');
    forall x | x in Sorted(v) ensures '\t' !in x { SortedMembers(v, x); }
    forall x | x in Sorted(Minus(all, v)) ensures '\t' !in x { SortedMembers(Minus(all, v), x); }
    JoinFree(Sorted(v));
    JoinFree(Sorted(Minus(all, v)));
    var parts := [c, a, b];
    assert parts[1..] == [a, b] && parts[1..][1..] == [b];
    assert Join([b], '\t') == b;
    assert Join([a, b], '\t') == a + "\t" + b;
    assert Join(parts, '\t') == c + "\t" + (a + "\t" + b);
    Seqs.AppendAssoc(c + "\t", a + "\t", b);
    Seqs.AppendAssoc(c + "\t", a, "\t");
    SplitJoin(parts, '\t');
  }

  /** Joining with spaces adds no tab. */
  lemma {:induction false} JoinFree(parts: seq<string>)
    requires forall x :: x in parts ==> '\t' !in x
    ensures '\t' !in Join(parts, ' ')
    decreases |parts|
  {
    if |parts| > 1 {
      JoinFree(parts[1..]);
      Seqs.InAppend('\t', parts[0] + [' '], Join(parts[1..], ' '));
      Seqs.InAppend('\t', parts[0], [' ']);
    }
  }

  predicate Keyed(order: seq<string>, members: map<string, seq<string>>)
  {
    forall c :: c in order ==> c in members
  }

  /** The lines printed for the categories of `order`, one each, in that order. */
  function CategoryLines(order: seq<string>, members: map<string, seq<string>>, all: seq<string>): (r: seq<string>)
    requires Keyed(order, members)
    ensures |r| == |order|
    decreases |order|
  {
    if |order| == 0 then []
    else
      var c := order[|order| - 1];
      CategoryLines(order[..|order| - 1], members, all) + [CategoryLine(c, members[c], all)]
  }

  /** The `i`-th line printed is that of the `i`-th category. */
  lemma {:induction false} CategoryLinesAt(order: seq<string>, members: map<string, seq<string>>, all: seq<string>)
    requires Keyed(order, members)
    ensures forall i :: 0 <= i < |order| ==> CategoryLines(order, members, all)[i] == CategoryLine(order[i], members[order[i]], all)
    decreases |order|
  {
    if |order| > 0 {
      var front := order[..|order| - 1];
      CategoryLinesAt(front, members, all);
    }
  }

  lemma CategoryLinesNext(order: seq<string>, members: map<string, seq<string>>, all: seq<string>, i: nat)
    requires Keyed(order, members) && i < |order|
    ensures Keyed(order[..i], members) && Keyed(order[..i + 1], members)
    ensures CategoryLines(order[..i + 1], members, all)
      == CategoryLines(order[..i], members, all) + [CategoryLine(order[i], members[order[i]], all)]
  {
    Seqs.TakeTake(order, i + 1, i);
    assert order[..i + 1][i] == order[i];
  }

  /** The output loop: one line per category, in key order. */
  method PrintCategories(order: seq<string>, members: map<string, seq<string>>, all: seq<string>) returns (lines: seq<string>)
    requires Keyed(order, members)
    ensures lines == CategoryLines(order, members, all)
  {
    lines := [];
    for i := 0 to |order|
      invariant lines == CategoryLines(order[..i], members, all)
    {
      CategoryLinesNext(order, members, all, i);
      lines := lines + [CategoryLine(order[i], members[order[i]], all)];
    }
    assert order[..|order|] == order;
  }

  /** The whole script on the rows of its table. */
  method ParseSamplesCategories(rows: seq<Row>) returns (lines: seq<string>)
    ensures var t := Categorised(rows, CategoryBasename);
      && |lines| == |t.order|
      && forall i :: 0 <= i < |t.order| ==> t.order[i] in t.members && lines[i] == CategoryLine(t.order[i], t.members[t.order[i]], t.all)
  {
    var order, members, all := CollectCategories(rows, CategoryBasename);
    CategorisedKeys(rows, CategoryBasename);
    lines := PrintCategories(order, members, all);
    CategoryLinesAt(order, members, all);
  }
}
