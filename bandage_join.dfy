/** The second half of the serialiser: for every class, read that class's k-mer catalog
    (a FASTA file of two-line entries) and write an S record for every k-mer whose
    feature some split of the ensemble uses. */
module BandageJoin {
  import opened Wrappers
  import opened Seqs
  import opened Text
  import opened BandageRecords

  /** One catalog entry as the reader takes it: a header line and the line after it, both
      with their newline; the second is empty when the file ends after the header. */
  datatype Entry = Entry(header: string, body: string)

  /** The entries of a catalog, read two lines at a time until the end of the file. */
  function Entries(text: string): (entries: seq<Entry>)
    ensures forall i :: 0 <= i < |entries| ==> |entries[i].header| > 0
    decreases |text|
  {
    if |text| == 0 then []
    else
      var (header, rest) := SplitLine(text);
      var (body, after) := SplitLine(rest);
      [Entry(header, body)] + Entries(after)
  }

  /** The text the entries were read from. */
  function Concat(entries: seq<Entry>): string
    decreases |entries|
  {
    if |entries| == 0 then "" else entries[0].header + entries[0].body + Concat(entries[1..])
  }

  /** The reader consumes the whole file and loses nothing of it. */
  lemma {:induction false} EntriesCover(text: string)
    ensures Concat(Entries(text)) == text
    decreases |text|
  {
    if |text| > 0 {
      var (header, rest) := SplitLine(text);
      var (body, after) := SplitLine(rest);
      EntriesCover(after);
      var entries := Entries(text);
      assert entries[1..] == Entries(after);
    }
  }

  /** `fClass + "_" + line[1:].split("_")[0]`: the feature a header stands for. */
  function FeatureKey(cls: string, header: string): (key: string)
    requires |header| > 0
    ensures |key| > |cls| && key[..|cls| + 1] == cls + "_"
    ensures '_' !in key[|cls| + 1..]
  {
    var key := cls + "_" + Split(header[1..], '_')[0];
    assert key[|cls| + 1..] == Split(header[1..], '_')[0];
    key
  }

  /** A header `>id_rest` (any first character, an id without '_') stands for the
      feature `cls_id`. */
  lemma FeatureKeyOfHeader(cls: string, marker: char, id: string, rest: string)
    requires '_' !in id
    ensures FeatureKey(cls, [marker] + id + "_" + rest) == cls + "_" + id
  {
    var header := [marker] + id + "_" + rest;
    assert header[1..] == id + ("_" + rest);
    SplitPrepend(id, "_" + rest, '_');
    assert Split("_" + rest, '_')[0] == "";
  }

  /** The S records one catalog contributes: an entry is kept exactly when its feature is
      registered, and its k-mer is the body line without its last character. */
  function JoinEntries(entries: seq<Entry>, cls: string, registry: map<string, seq<nat>>): seq<Record>
    requires forall i :: 0 <= i < |entries| ==> |entries[i].header| > 0
    decreases |entries|
  {
    if |entries| == 0 then []
    else
      var key := FeatureKey(cls, entries[0].header);
      (if key in registry then [Segment(key, DropLast(entries[0].body))] else [])
        + JoinEntries(entries[1..], cls, registry)
  }

  /** A record is written exactly for the entries whose feature is registered. */
  lemma {:induction false} JoinExact(entries: seq<Entry>, cls: string, registry: map<string, seq<nat>>, r: Record)
    requires forall i :: 0 <= i < |entries| ==> |entries[i].header| > 0
    ensures r in JoinEntries(entries, cls, registry) <==>
      exists i :: 0 <= i < |entries|
        && r == Segment(FeatureKey(cls, entries[i].header), DropLast(entries[i].body))
        && r.feature in registry
    decreases |entries|
  {
    if |entries| > 0 {
      var tail := entries[1..];
      JoinExact(tail, cls, registry, r);
      if exists i :: 0 <= i < |tail|
          && r == Segment(FeatureKey(cls, tail[i].header), DropLast(tail[i].body))
          && r.feature in registry {
        var i :| 0 <= i < |tail|
          && r == Segment(FeatureKey(cls, tail[i].header), DropLast(tail[i].body))
          && r.feature in registry;
        assert entries[i + 1] == tail[i];
      }
      forall i | 1 <= i < |entries| ensures entries[i] == tail[i - 1] { }
    }
  }

  /** `sourceDir + "/contigs_" + fClass + "/kmers_fasta/component.fasta"`. */
  function CatalogPath(sourceDir: string, cls: string): string
  {
    sourceDir + "/contigs_" + cls + "/kmers_fasta/component.fasta"
  }

  /** The S records written for the given classes, in class order, from the files the
      file system holds; opening a missing catalog ends the run with an error naming its
      class, after the records of the classes before it. */
  function JoinAll(sourceDir: string, classes: seq<string>, files: map<string, string>, registry: map<string, seq<nat>>): (r: (seq<Record>, Option<string>))
    decreases |classes|
  {
    if |classes| == 0 then ([], None)
    else
      var (segments, missing) := JoinAll(sourceDir, classes[..|classes| - 1], files, registry);
      var cls := classes[|classes| - 1];
      var path := CatalogPath(sourceDir, cls);
      if missing.Some? then (segments, missing)
      else if path !in files then (segments, Some(cls))
      else (segments + JoinCatalog(files[path], cls, registry), None)
  }

  /** `classes[i]` is the first class without a catalog. */
  predicate FirstMissing(sourceDir: string, classes: seq<string>, files: map<string, string>, i: int)
  {
    && 0 <= i < |classes|
    && CatalogPath(sourceDir, classes[i]) !in files
    && forall j :: 0 <= j < i ==> CatalogPath(sourceDir, classes[j]) in files
  }

  /** The join fails exactly when a class has no catalog, and then it names the first
      such class. */
  lemma {:induction false} JoinAllMissing(sourceDir: string, classes: seq<string>, files: map<string, string>, registry: map<string, seq<nat>>)
    ensures var missing := JoinAll(sourceDir, classes, files, registry).1;
      && (missing.None? <==> forall i :: 0 <= i < |classes| ==> CatalogPath(sourceDir, classes[i]) in files)
      && (missing.Some? ==> exists i :: FirstMissing(sourceDir, classes, files, i) && classes[i] == missing.value)
    decreases |classes|
  {
    if |classes| > 0 {
      var front := classes[..|classes| - 1];
      JoinAllMissing(sourceDir, front, files, registry);
      forall j | 0 <= j < |front| ensures front[j] == classes[j] { }
    }
  }

  /** Every record of the join is an S record for a registered feature of one of the
      classes. */
  lemma {:induction false} JoinAllSegments(sourceDir: string, classes: seq<string>, files: map<string, string>, registry: map<string, seq<nat>>)
    ensures forall r :: r in JoinAll(sourceDir, classes, files, registry).0 ==>
      r.Segment? && r.feature in registry
    decreases |classes|
  {
    if |classes| > 0 {
      var front := classes[..|classes| - 1];
      JoinAllSegments(sourceDir, front, files, registry);
      var cls := classes[|classes| - 1];
      var path := CatalogPath(sourceDir, cls);
      if path in files {
        var entries := Entries(files[path]);
        forall r | r in JoinEntries(entries, cls, registry) ensures r.Segment? && r.feature in registry {
          JoinExact(entries, cls, registry, r);
        }
      }
    }
  }

  /** The S records one catalog file contributes. */
  function JoinCatalog(text: string, cls: string, registry: map<string, seq<nat>>): seq<Record>
  {
    JoinEntries(Entries(text), cls, registry)
  }

  /** One step of the reader: the header line, the line after it, and the rest. */
  lemma JoinCatalogStep(text: string, cls: string, registry: map<string, seq<nat>>)
    requires |text| > 0
    ensures var (header, rest) := SplitLine(text);
      var (body, after) := SplitLine(rest);
      var key := FeatureKey(cls, header);
      && |after| < |text|
      && JoinCatalog(text, cls, registry)
         == (if key in registry then [Segment(key, DropLast(body))] else [])
            + JoinCatalog(after, cls, registry)
  {
    var (header, rest) := SplitLine(text);
    var (body, after) := SplitLine(rest);
    var entries := Entries(text);
    assert entries == [Entry(header, body)] + Entries(after);
    assert entries[1..] == Entries(after);
  }

  /** The read loop over one catalog: a header line, the k-mer line after it, an S record
      when the header's feature is registered, until a read returns nothing. `unread` is
      what the file still holds. */
  method EmitSegments(text: string, cls: string, registry: map<string, seq<nat>>, out0: seq<Record>)
    returns (out: seq<Record>)
    ensures out == out0 + JoinCatalog(text, cls, registry)
  {
    out := out0;
    var unread := text;
    while |unread| > 0
      invariant out + JoinCatalog(unread, cls, registry) == out0 + JoinCatalog(text, cls, registry)
      decreases |unread|
    {
      var line := SplitLine(unread).0;
      var rest := SplitLine(unread).1;
      var feature := FeatureKey(cls, line);
      var body := SplitLine(rest).0;
      var after := SplitLine(rest).1;
      var kmer := DropLast(body);
      JoinCatalogStep(unread, cls, registry);
      ghost var tail := JoinCatalog(after, cls, registry);
      if feature in registry {
        AppendAssoc(out, [Segment(feature, kmer)], tail);
        out := out + [Segment(feature, kmer)];
      } else {
        assert JoinCatalog(unread, cls, registry) == tail;
      }
      unread := after;
    }
    assert JoinCatalog(unread, cls, registry) == [];
  }

  /** `for fClass in classes`: open each class's catalog and join it, in class order. */
  method EmitCatalogs(sourceDir: string, classes: seq<string>, files: map<string, string>, registry: map<string, seq<nat>>, out0: seq<Record>)
    returns (out: seq<Record>, missing: Option<string>)
    ensures out == out0 + JoinAll(sourceDir, classes, files, registry).0
    ensures missing == JoinAll(sourceDir, classes, files, registry).1
  {
    out := out0;
    missing := None;
    var i := 0;
    while i < |classes|
      invariant 0 <= i <= |classes|
      invariant out == out0 + JoinAll(sourceDir, classes[..i], files, registry).0
      invariant JoinAll(sourceDir, classes[..i], files, registry).1 == None
    {
      var cls := classes[i];
      var path := CatalogPath(sourceDir, cls);
      assert classes[..i + 1][..i] == classes[..i];
      if path !in files {
        missing := Some(cls);
        JoinAllStops(sourceDir, classes, i + 1, files, registry);
        return;
      }
      AppendAssoc(out0, JoinAll(sourceDir, classes[..i], files, registry).0, JoinCatalog(files[path], cls, registry));
      out := EmitSegments(files[path], cls, registry, out);
      i := i + 1;
    }
    assert classes[..i] == classes;
  }

  /** Once a class's catalog is missing, the classes after it change nothing. */
  lemma {:induction false} JoinAllStops(sourceDir: string, classes: seq<string>, n: nat, files: map<string, string>, registry: map<string, seq<nat>>)
    requires 0 < n <= |classes|
    requires JoinAll(sourceDir, classes[..n], files, registry).1.Some?
    ensures JoinAll(sourceDir, classes, files, registry) == JoinAll(sourceDir, classes[..n], files, registry)
    decreases |classes| - n
  {
    if n < |classes| {
      assert classes[..n + 1][..n] == classes[..n];
      JoinAllStops(sourceDir, classes, n + 1, files, registry);
    } else {
      assert classes[..n] == classes;
    }
  }
}
