# MetaFX helper scripts: a verified model

MetaFX is a feature-extraction pipeline for metagenomes. It turns read files into k-mer
features, fits tree ensembles to them and draws the results. Around its main programs sit
small Python scripts. They build sample sheets, stitch assembly graphs together, cut
contigs out of graphs, and serialise a fitted forest as a graph for the Bandage viewer.

This project models those scripts in Dafny and proves what they do on every input:

- **Bandage serialiser** (`build_model_for_bandage.py`). Every tree of a fitted ensemble
  is walked breadth-first from its root with a FIFO queue, and every node id is offset by
  the node counts of the trees before it. Each node writes tab-separated `N`, `C` and, for
  a split, `F` records. A registry maps each split feature to the ids of the nodes that
  use it. The k-mer catalog of each class is then read two lines at a time. An `S` record
  is written for each k-mer whose feature is in the registry. The modules are
  `BandageShape` (the tree arrays), `BandageRecords` (records, their rendering and the
  registry), `BandageTree` (one node, the walk and its exactly-once proof), `BandageJoin`
  (the catalog join) and `Bandage` (the loops and the three ensemble kinds).
- **Sample names** (`parse_samples_for_spades.py`, `parse_samples_categories.py`). A
  read-file path is reduced to its sample name: the directory is dropped, then a trailing
  `<mate>.<extension><compression>` is removed (`ReadNames`). The SPAdes sheet groups
  files by sample and requires exactly two files per sample (`SpadesSamples`). The
  category sheet lists, per category, the samples in it and the samples not in it
  (`SampleCategories`).
- **Banner printer** (`pretty_print.py`, module `PrettyPrint`). Words are wrapped greedily
  into lines of at most 100 characters. Each line is centred inside a 120-wide frame of
  delimiters.
- **GFA joiner** (`join_gfa.py`, module `JoinGfa`). Segment (`S`) lines of the i-th graph
  get the name prefix `i_`. Link (`L`) lines are rewritten through the shared renaming map.
- **Contig extractor** (`graph2contigs.py`, module `GraphToContigs`). `S` lines of a GFA
  graph become FASTA records named `<component>_<index>`.
- **Feature selection** (`select_samples_by_feature.py`, module `SelectSamples`). The
  feature argument's quotes are stripped and it is split into category and id. The FASTA
  records whose name starts with that id are copied.
- **PCA legend colours** (`pca.py`, module `PcaColors`). Samples are mapped to metadata
  categories. Categories get colours from a fixed cycle of nine, and unassigned samples
  are gray.

Shared modules:

- `Text` holds the Python string operations: `split`, `join`, `readline`, `strip`,
  `os.path.basename`, `*`, anchored suffix substitution and `sorted`.
- `Numbers` holds `str` and `int` on integers and the two-decimal rendering of a
  threshold.
- `Seqs` and `Wrappers` hold small sequence facts and `Option`.

Python exceptions are modelled as error values. A loop that would raise stops, keeps the
output written before it, and reports the fault. Printing is modelled as a returned
sequence of lines or records. Files are read as their text, and a directory of catalogs
is a map from paths to texts.

Every loop of the scripts is a Dafny method. Each method is proved equal to a
specification function, which is a fold over the input. The properties the scripts
promise are proved as lemmas about those functions.

## Model

| member | source | states |
|---|---|---|
| BandageShape.ArgMax | bin/metafx-scripts/build_model_for_bandage.py:105 | `np.argmax`: the index holds a maximal entry and every earlier entry is strictly smaller (the first maximum) |
| BandageShape.LeafClass | bin/metafx-scripts/build_model_for_bandage.py:101-106 | the class a leaf predicts, `classes[argmax(value)]` over `value[n][0]` or `value[n].T[0]`, is always one of the classes |
| BandageShape.Left | bin/metafx-scripts/build_model_for_bandage.py:108 | a split's left child is numbered after it and lies inside the tree |
| BandageShape.Right | bin/metafx-scripts/build_model_for_bandage.py:112 | a split's right child is numbered after it, lies inside the tree and differs from the left one |
| BandageShape.LeafVector | bin/metafx-scripts/build_model_for_bandage.py:101-104 | the value vector read at a leaf is never empty, so argmax is defined |
| BandageRecords.Render | bin/metafx-scripts/build_model_for_bandage.py:98-120 | every record is written as one newline-terminated line |
| BandageRecords.RenderSplits | bin/metafx-scripts/build_model_for_bandage.py:98-120 | a written line splits on tabs back into the record's fields; node lines end in an empty field because of `end="\t"` |
| BandageRecords.DigitsTabFree | bin/metafx-scripts/build_model_for_bandage.py:98 | numerals hold no tab, so ids never break the tab-separated layout |
| BandageRecords.IdsOfConcat | bin/metafx-scripts/build_model_for_bandage.py:93-124 | the ids of records of one kind in two consecutive outputs are those of the first followed by those of the second |
| BandageRecords.RegistryAppend | bin/metafx-scripts/build_model_for_bandage.py:121-124 | writing one more record changes the `features` registry only for an F record, by appending its id to its feature's list |
| BandageRecords.RegistryExact | bin/metafx-scripts/build_model_for_bandage.py:121-124 | a feature is a registry key exactly when some F record names it, and its list is the ids of those records in output order |
| BandageRecords.SplitsOnMembers | bin/metafx-scripts/build_model_for_bandage.py:121-124 | an id is listed under a feature if and only if an F record for that feature carries the id |
| BandageTree.NodeRecords | bin/metafx-scripts/build_model_for_bandage.py:98-124 | a leaf writes `N id` and a `C` record naming one of the classes; a split writes `N id left right` with offset child ids, `C` with the feature's text before the first `_`, and `F` with the feature and its threshold |
| BandageTree.Children | bin/metafx-scripts/build_model_for_bandage.py:99-114 | a leaf appends nothing to the queue; a split appends two nodes numbered after it, inside the tree |
| BandageTree.Next | bin/metafx-scripts/build_model_for_bandage.py:96-114 | popping the head and appending its children stays inside the tree and strictly reduces the work left, so the walk terminates |
| BandageTree.WeightConcat | bin/metafx-scripts/build_model_for_bandage.py:96 | the work left in two queues one after the other is the sum of their work |
| BandageTree.WeightPop | bin/metafx-scripts/build_model_for_bandage.py:97-114 | one pass of the FIFO loop leaves strictly less work |
| BandageTree.WalkStep | bin/metafx-scripts/build_model_for_bandage.py:96-114 | the walk writes the head's records and then walks the queue the head leaves behind: breadth-first order |
| BandageTree.WalkAdvance | bin/metafx-scripts/build_model_for_bandage.py:96-114 | after one pass of the loop, the output so far followed by the rest of the walk is unchanged |
| BandageTree.VisitOrder | bin/metafx-scripts/build_model_for_bandage.py:96-97 | the nodes in the order the walk pops them are all nodes of the tree |
| BandageTree.VisitStep | bin/metafx-scripts/build_model_for_bandage.py:96-97 | the pop order is the head followed by the pop order of the next queue |
| BandageTree.Shift | bin/metafx-scripts/build_model_for_bandage.py:98 | offsetting ids by the prefix keeps their number |
| BandageTree.ShiftCons | bin/metafx-scripts/build_model_for_bandage.py:98 | offsetting a list is offsetting its head and its tail |
| BandageTree.ShiftCount | bin/metafx-scripts/build_model_for_bandage.py:98 | an id occurs in an offset list as often as the id minus the prefix occurs in the list, and ids below the prefix never occur |
| BandageTree.IdsOfTwo | bin/metafx-scripts/build_model_for_bandage.py:98-106 | the ids of kind k in a two-record block are those of each record in turn |
| BandageTree.IdsOfThree | bin/metafx-scripts/build_model_for_bandage.py:98-120 | the ids of kind k in a three-record block are those of each record in turn |
| BandageTree.BlockIds | bin/metafx-scripts/build_model_for_bandage.py:98-120 | a node's block holds one N and one C record for its id, and one split-N and one F record for it exactly when it is a split |
| BandageTree.BlockThenIds | bin/metafx-scripts/build_model_for_bandage.py:98-120 | the same ids in front of any following records |
| BandageTree.WalkStepIds | bin/metafx-scripts/build_model_for_bandage.py:96-120 | the ids of each kind along the walk are the head's ids followed by those of the rest of the walk |
| BandageTree.WalkNodeIds | bin/metafx-scripts/build_model_for_bandage.py:96-98 | the N records carry the popped nodes in pop order, each offset by the prefix |
| BandageTree.WalkNoteIds | bin/metafx-scripts/build_model_for_bandage.py:98-120 | along a walk every N record is matched, in the same order, by one C record for its id, and the F records are exactly those of the splits |
| BandageTree.BlockInRange | bin/metafx-scripts/build_model_for_bandage.py:98-120 | every record of a node's block is about an id in `[prefix, prefix + node_count)`, and a split's children come after it in that range |
| BandageTree.WalkInRange | bin/metafx-scripts/build_model_for_bandage.py:95-125 | every record of a tree's walk is about an id in `[prefix, prefix + node_count)`, with forward child edges inside that range |
| BandageTree.OccAllConcat | bin/metafx-scripts/build_model_for_bandage.py:96 | occurrences in the unfolding of two queues add up |
| BandageTree.OccPop | bin/metafx-scripts/build_model_for_bandage.py:97-114 | popping the head removes its own occurrence and hands the rest of its subtree to its children |
| BandageTree.VisitCount | bin/metafx-scripts/build_model_for_bandage.py:96-114 | the walk visits each node as often as it occurs in the unfoldings of the queue |
| BandageTree.OccBelow | bin/metafx-scripts/build_model_for_bandage.py:108-113 | no node numbered before x occurs in the subtree of x |
| BandageTree.OccOutside | bin/metafx-scripts/build_model_for_bandage.py:108-113 | no id outside the tree occurs in it |
| BandageTree.OccSelf | bin/metafx-scripts/build_model_for_bandage.py:95-97 | a node occurs once at the top of its own subtree |
| BandageTree.OccParent | bin/metafx-scripts/build_model_for_bandage.py:108-113 | in a tree, a node occurs below x as often as its parent does |
| BandageTree.OccRoot | bin/metafx-scripts/build_model_for_bandage.py:95 | in a tree, every node occurs exactly once below the root |
| BandageTree.VisitedOnce | bin/metafx-scripts/build_model_for_bandage.py:95-114 | the walk from root 0 visits every node of a tree exactly once and nothing else |
| BandageTree.WalkNodeIdsExact | bin/metafx-scripts/build_model_for_bandage.py:95-98 | a tree's N records carry each id of `[prefix, prefix + node_count)` exactly once and no other id |
| BandageJoin.Entries | bin/metafx-scripts/build_model_for_bandage.py:129-135 | the catalog is read as header/line pairs, and every header is non-empty |
| BandageJoin.EntriesCover | bin/metafx-scripts/build_model_for_bandage.py:129-135 | the reader consumes the whole catalog and loses nothing of it |
| BandageJoin.FeatureKey | bin/metafx-scripts/build_model_for_bandage.py:131 | the key is the class, `_`, then a `_`-free id |
| BandageJoin.FeatureKeyOfHeader | bin/metafx-scripts/build_model_for_bandage.py:131 | a header `>id_rest` stands for the feature `class_id` |
| BandageJoin.JoinExact | bin/metafx-scripts/build_model_for_bandage.py:131-134 | an `S` record is written exactly for the entries whose key is registered, with the k-mer line minus its last character |
| BandageJoin.JoinAllMissing | bin/metafx-scripts/build_model_for_bandage.py:127-128 | the join fails exactly when a class has no catalog file, and then it names the first such class |
| BandageJoin.JoinAllSegments | bin/metafx-scripts/build_model_for_bandage.py:127-135 | every record of the join is an `S` record for a registered feature |
| BandageJoin.JoinCatalogStep | bin/metafx-scripts/build_model_for_bandage.py:129-135 | one pass of the read loop: the header line, the k-mer line after it, a record iff the key is registered, then the rest of the file |
| BandageJoin.EmitSegments | bin/metafx-scripts/build_model_for_bandage.py:129-135 | the `readline` loop appends exactly the catalog's join to the output |
| BandageJoin.EmitCatalogs | bin/metafx-scripts/build_model_for_bandage.py:127-135 | the class loop writes the join of every class in class order and stops at the first missing catalog |
| BandageJoin.JoinAllStops | bin/metafx-scripts/build_model_for_bandage.py:128 | once a catalog is missing, later classes change nothing |
| Bandage.FlattenIndex | bin/metafx-scripts/build_model_for_bandage.py:146-147 | tree j of stage i is visited at position `Offset(i) + j`: stage-major order |
| Bandage.FlattenMembers | bin/metafx-scripts/build_model_for_bandage.py:146-147 | a tree is visited exactly when it belongs to some stage |
| Bandage.FlattenPrefix | bin/metafx-scripts/build_model_for_bandage.py:146-147 | the trees of earlier stages are visited first |
| Bandage.StageWellFormed | bin/metafx-scripts/build_model_for_bandage.py:146-148 | each stage's trees are well formed when the whole ensemble is |
| Bandage.WellFormedConcat | bin/metafx-scripts/build_model_for_bandage.py:93 | well-formed ensembles concatenate |
| Bandage.EnsembleLast | bin/metafx-scripts/build_model_for_bandage.py:93-125 | the last tree's walk comes after those of the trees before it, offset by their node count |
| Bandage.EnsembleAppend | bin/metafx-scripts/build_model_for_bandage.py:93-125 | appending a tree appends its walk offset by the running prefix, and the prefix grows by its `node_count` |
| Bandage.EnsembleHasWalk | bin/metafx-scripts/build_model_for_bandage.py:93-125 | every record of tree k's walk is written by the tree loop |
| Bandage.EnsembleFindWalk | bin/metafx-scripts/build_model_for_bandage.py:93-125 | every record of the tree loop comes from the walk of some tree |
| Bandage.EnsembleBlocks | bin/metafx-scripts/build_model_for_bandage.py:93-125 | a record is written iff it belongs to some tree's walk, offset by the trees before it |
| Bandage.TotalNodesPrefix | bin/metafx-scripts/build_model_for_bandage.py:125 | tree k's range ends no later than the total node count |
| Bandage.EnsembleInRange | bin/metafx-scripts/build_model_for_bandage.py:88-125 | every record of the tree loop is about an id below the total node count, and every child edge points forward inside the ensemble |
| Bandage.EnsembleNodeIds | bin/metafx-scripts/build_model_for_bandage.py:88-125 | for real trees, every id below the total node count gets exactly one N record and no other id gets one: the trees occupy disjoint consecutive ranges |
| Bandage.EnsembleNotes | bin/metafx-scripts/build_model_for_bandage.py:93-125 | across the ensemble every N record is matched by a C record for the same id in the same order, and F records are exactly those of the splits |
| Bandage.EmitNode | bin/metafx-scripts/build_model_for_bandage.py:97-124 | one pass of the FIFO loop appends the node's records, keeps the registry equal to that of the output, and returns the node's children |
| Bandage.EmitTree | bin/metafx-scripts/build_model_for_bandage.py:94-124 | the FIFO loop over one tree appends exactly its breadth-first walk and keeps the registry in step with the output |
| Bandage.EmitTreesNext | bin/metafx-scripts/build_model_for_bandage.py:93-125 | one more pass of the tree loop appends the next tree's walk and adds its node count to the prefix |
| Bandage.EmitTrees | bin/metafx-scripts/build_model_for_bandage.py:93-125 | the tree loop writes the walks of all trees in order and ends with the prefix at the total node count and the registry of its output |
| Bandage.PrintModelBase | bin/metafx-scripts/build_model_for_bandage.py:86-136 | `printModelBase` writes the ensemble's walks followed by the catalog join against the registry of those walks, or stops at the first missing catalog |
| Bandage.PrintModelGradientBoosting | bin/metafx-scripts/build_model_for_bandage.py:139-190 | the boosted variant writes the same as the base printer on the trees flattened stage by stage, with one running prefix |
| Bandage.ForestType | bin/metafx-scripts/build_model_for_bandage.py:257-261 | a forest type is accepted exactly when it is 0, 1 or 2 |
| Bandage.ForestTypeRoundTrip | bin/metafx-scripts/build_model_for_bandage.py:197-211 | codes and ensemble kinds correspond one to one |
| Bandage.BuildAndPrintModel | bin/metafx-scripts/build_model_for_bandage.py:193-211 | type 1 goes to the boosting printer and 0 and 2 to the base printer; either way the output is the walks of all trees in visiting order followed by the catalog join |
| ReadNames.SpadesBasename | bin/metafx-scripts/parse_samples_for_spades.py:8-14 | the sample name is a prefix of the file name after the last `/` |
| ReadNames.CategoryBasename | bin/metafx-scripts/parse_samples_categories.py:9-12 | the sample name is a prefix of the file name after the last `/` |
| ReadNames.BasenameAfterSlash | bin/metafx-scripts/parse_samples_for_spades.py:9 | the file name of `dir/name` is `name` when `name` holds no slash |
| ReadNames.LastDotSplit | bin/metafx-scripts/parse_samples_for_spades.py:13 | splitting at the last dot gives two parts that rebuild the word, the second dot-free |
| ReadNames.LastDotOf | bin/metafx-scripts/parse_samples_for_spades.py:13 | a dot followed by dot-free text is the last dot |
| ReadNames.FormStemOf | bin/metafx-scripts/parse_samples_for_spades.py:13 | a suffix the pattern matches determines its mate marker |
| ReadNames.NoFormBeforeMate | bin/metafx-scripts/parse_samples_for_spades.py:13 | text followed by a mate marker and an extension is not itself a match unless the mate list allows it |
| ReadNames.FormAfterName | bin/metafx-scripts/parse_samples_for_spades.py:13 | the suffix after the sample name is a match of the pattern |
| ReadNames.NoFormInName | bin/metafx-scripts/parse_samples_for_spades.py:13 | no match starts inside the sample name |
| ReadNames.StripMate | bin/metafx-scripts/parse_samples_for_spades.py:13 | the substitution removes exactly the mate, extension and compression suffix |
| ReadNames.NoSlash | bin/metafx-scripts/parse_samples_for_spades.py:9 | a name built from slash-free pieces holds no slash |
| ReadNames.SpadesUnambiguous | bin/metafx-scripts/parse_samples_for_spades.py:13 | the SPAdes pattern's extension and compression lists split at a dot without ambiguity |
| ReadNames.CategoryUnambiguous | bin/metafx-scripts/parse_samples_categories.py:10 | the category pattern's extension and compression lists split at a dot without ambiguity |
| ReadNames.SpadesMateLast | bin/metafx-scripts/parse_samples_for_spades.py:13 | no SPAdes mate marker ends with another non-empty one |
| ReadNames.CategoryMateLast | bin/metafx-scripts/parse_samples_categories.py:10 | no category mate marker ends with another non-empty one |
| ReadNames.ExtensionsSlashFree | bin/metafx-scripts/parse_samples_for_spades.py:13 | the extensions and compression suffixes hold no slash |
| ReadNames.SpadesPairName | bin/metafx-scripts/parse_samples_for_spades.py:8-14 | both files of a pair, `<n>_1.<ext>[.gz]` and `<n>_2.<ext>[.gz]` or the `_r`/`_R` spellings, give the sample name `<n>` wherever they are stored |
| ReadNames.CategoryPairName | bin/metafx-scripts/parse_samples_categories.py:9-12 | `<n>_r1`/`_R2`-style files with any extension and `.gz`/`.bz2` give the sample name `<n>` |
| SpadesSamples.FilesOfCount | bin/metafx-scripts/parse_samples_for_spades.py:21-25 | every input file lands in its own sample's list as often as it was given, and in no other list |
| SpadesSamples.GroupedFiles | bin/metafx-scripts/parse_samples_for_spades.py:21-25 | each entry holds exactly its sample's files in input order, with the flag of the first of them; a sample is a key iff some file belongs to it |
| SpadesSamples.GroupedDistinct | bin/metafx-scripts/parse_samples_for_spades.py:23-24 | each sample name is listed once |
| SpadesSamples.GroupedPrefix | bin/metafx-scripts/parse_samples_for_spades.py:23-24 | names are only ever appended, so samples stand in first-appearance order |
| SpadesSamples.GroupFiles | bin/metafx-scripts/parse_samples_for_spades.py:21-25 | the grouping loop builds exactly the sheet the specification fold describes |
| SpadesSamples.PairLinesStops | bin/metafx-scripts/parse_samples_for_spades.py:28-29 | after the error, later samples change nothing |
| SpadesSamples.PairLinesMeaning | bin/metafx-scripts/parse_samples_for_spades.py:27-30 | the printed lines are those of the leading two-file samples in order; the loop fails iff it stops early, and then on the first bad sample with its file count |
| SpadesSamples.PairLinesFail | bin/metafx-scripts/parse_samples_for_spades.py:27-30 | the script fails iff some sample does not have exactly two files |
| SpadesSamples.PairLineFields | bin/metafx-scripts/parse_samples_for_spades.py:30 | a printed line reads back as the flag, the sample and its two files |
| SpadesSamples.MessageInjective | bin/metafx-scripts/parse_samples_for_spades.py:29 | the RuntimeError text determines the sample and its file count: two failures with the same message are the same failure, whatever characters the sample name holds |
| SpadesSamples.CountedInjective | bin/metafx-scripts/parse_samples_for_spades.py:29 | in `... obtained: <count>` the count is the digits after the last blank, so text and count are read back uniquely |
| SpadesSamples.PrintPairs | bin/metafx-scripts/parse_samples_for_spades.py:27-30 | the print loop produces the lines and the error of the specification |
| SpadesSamples.ParseSamplesForSpades | bin/metafx-scripts/parse_samples_for_spades.py:17-30 | the whole script groups with `get_basename` and then prints, or raises on the first bad sample |
| SampleCategories.Add | bin/metafx-scripts/parse_samples_categories.py:24-25 | `set.add`: the result holds exactly the old members and the new one |
| SampleCategories.CategorisedKeys | bin/metafx-scripts/parse_samples_categories.py:20-23 | the categories are the dictionary keys and exactly those of the rows |
| SampleCategories.CategorisedMembers | bin/metafx-scripts/parse_samples_categories.py:20-25 | each category's set holds exactly the sample names of its rows, and `all_items` holds every row's sample name |
| SampleCategories.LabelsAbsent | bin/metafx-scripts/parse_samples_categories.py:22-24 | a category without rows has no samples |
| SampleCategories.CategorisedDistinct | bin/metafx-scripts/parse_samples_categories.py:20-25 | categories are listed once and no set holds a sample twice |
| SampleCategories.RecordDistinct | bin/metafx-scripts/parse_samples_categories.py:22-25 | one pass of the loop keeps the keys and every set duplicate-free |
| SampleCategories.CategorisedGrows | bin/metafx-scripts/parse_samples_categories.py:22-23 | one more row only appends to the key order |
| SampleCategories.CategorisedPrefix | bin/metafx-scripts/parse_samples_categories.py:22-23 | categories stand in the order of their first rows |
| SampleCategories.CategorisedNext | bin/metafx-scripts/parse_samples_categories.py:20-25 | the table after one more row is that row recorded into the table before it |
| SampleCategories.RecordRow | bin/metafx-scripts/parse_samples_categories.py:21-25 | the loop body creates the category's set when it is new and adds the sample name to it and to `all_items` |
| SampleCategories.CollectCategories | bin/metafx-scripts/parse_samples_categories.py:20-25 | the row loop builds exactly the table of the specification fold |
| SampleCategories.Minus | bin/metafx-scripts/parse_samples_categories.py:30 | `all_items - v` holds exactly the samples of `all_items` not in `v` |
| SampleCategories.SortedMembers | bin/metafx-scripts/parse_samples_categories.py:29-30 | `sorted` keeps exactly the members |
| SampleCategories.CategoryColumns | bin/metafx-scripts/parse_samples_categories.py:27-30 | both lists of a category's line are sorted; the first holds exactly its samples, the second exactly the other samples of the table |
| SampleCategories.CategoryLineFields | bin/metafx-scripts/parse_samples_categories.py:28-30 | a category's line reads back as the category and its two lists when names hold no tab |
| SampleCategories.JoinFree | bin/metafx-scripts/parse_samples_categories.py:29 | joining with spaces adds no tab |
| SampleCategories.CategoryLines | bin/metafx-scripts/parse_samples_categories.py:27-30 | one line per category |
| SampleCategories.CategoryLinesAt | bin/metafx-scripts/parse_samples_categories.py:27-30 | the i-th line is that of the i-th category |
| SampleCategories.CategoryLinesNext | bin/metafx-scripts/parse_samples_categories.py:27-30 | one more category appends its line |
| SampleCategories.PrintCategories | bin/metafx-scripts/parse_samples_categories.py:27-30 | the print loop writes the specification's lines |
| SampleCategories.ParseSamplesCategories | bin/metafx-scripts/parse_samples_categories.py:15-30 | one line per distinct category, in order of first appearance, each with the category's samples and the other samples |
| PrettyPrint.CentreAll | bin/metafx-scripts/pretty_print.py:16-26 | one framed line per wrapped line, each the centring of that line |
| PrettyPrint.WrappedNext | bin/metafx-scripts/pretty_print.py:16-23 | one more word is one more step of the wrap |
| PrettyPrint.CentreAllSnoc | bin/metafx-scripts/pretty_print.py:20 | framing one more line appends its framing |
| PrettyPrint.PrettyPrint | bin/metafx-scripts/pretty_print.py:10-28 | the script prints the top rule, the framed wrapped lines and the bottom rule |
| PrettyPrint.JoinSnoc | bin/metafx-scripts/pretty_print.py:21 | a flushed line followed by a new one joins with a space between |
| PrettyPrint.JoinExtendLast | bin/metafx-scripts/pretty_print.py:23 | extending the last line by a space and a word is joining one more word |
| PrettyPrint.WrappedWords | bin/metafx-scripts/pretty_print.py:14-26 | no word is lost, doubled or moved: the printed lines joined by spaces are the words joined by spaces behind one leading space |
| PrettyPrint.BannerKeepsComment | bin/metafx-scripts/pretty_print.py:14-26 | the printed lines give the whole comment back |
| PrettyPrint.WrappedWidth | bin/metafx-scripts/pretty_print.py:17-23 | a line is longer than 100 only when it is a single word that is |
| PrettyPrint.CentreFits | bin/metafx-scripts/pretty_print.py:18-20 | for a line of at most 110 characters the left padding is the right one or one less, the frame is `10*len(delim)+110` wide, and the line sits right after the left frame and padding |
| PrettyPrint.CentreLong | bin/metafx-scripts/pretty_print.py:18-20 | a longer line is framed without padding |
| PrettyPrint.CentredWidth | bin/metafx-scripts/pretty_print.py:24-26 | with a one-character delimiter, lines of at most 110 characters are framed to 120 |
| PrettyPrint.BannerWidth | bin/metafx-scripts/pretty_print.py:12-28 | with a one-character delimiter and no word over 110, the rules are 120 delimiters plus a newline and every framed line is 120 wide |
| JoinGfa.JoinLinesStops | bin/metafx-scripts/join_gfa.py:13-21 | once a line has raised, later lines change nothing |
| JoinGfa.JoinLinesFaulty | bin/metafx-scripts/join_gfa.py:13 | a failed run is left as it is |
| JoinGfa.JoinFilesStops | bin/metafx-scripts/join_gfa.py:11-13 | once a file has raised, later files change nothing |
| JoinGfa.JoinLinesNext | bin/metafx-scripts/join_gfa.py:13-21 | one more line applies the line rule to the state before it |
| JoinGfa.JoinFilesNext | bin/metafx-scripts/join_gfa.py:11-13 | the k-th file (counting from 1) is joined with number k on the shared map |
| JoinGfa.JoinFile | bin/metafx-scripts/join_gfa.py:13-21 | the line loop over one file computes the specification fold |
| JoinGfa.JoinGraphs | bin/metafx-scripts/join_gfa.py:9-21 | the file loop writes the specification's output and fault |
| JoinGfa.PrefixTabFree | bin/metafx-scripts/join_gfa.py:16 | prefixing a tab-free name keeps it tab-free |
| JoinGfa.SegmentLine | bin/metafx-scripts/join_gfa.py:14-18 | an S line fails iff it does not have exactly 5 fields; otherwise its name becomes `<cat>_<name>`, the map records it, and the line is written with the other fields unchanged |
| JoinGfa.LinkLine | bin/metafx-scripts/join_gfa.py:19-21 | an L line fails on a field count other than 6 and on an unknown first or second end (in that order); otherwise both ends are renamed through the map, the rest is unchanged, and the map is not touched |
| JoinGfa.OtherLine | bin/metafx-scripts/join_gfa.py:14-21 | a blank line raises; any other line is dropped |
| JoinGfa.JoinLineTabFree | bin/metafx-scripts/join_gfa.py:14-21 | the map's new names stay tab-free |
| JoinGfa.JoinLineRenamed | bin/metafx-scripts/join_gfa.py:16 | every name the map holds is renamed with the prefix of one of the files read so far |
| JoinGfa.JoinLinesInvariant | bin/metafx-scripts/join_gfa.py:13-21 | over a file the map stays tab-free and renamed from files read so far |
| JoinGfa.JoinFilesInvariant | bin/metafx-scripts/join_gfa.py:9-21 | after n files every mapped name is `<i>_<name>` for some 1 ≤ i ≤ n, and tab-free |
| GraphToContigs.RenderAll | bin/metafx-scripts/graph2contigs.py:20-21 | two output lines per contig |
| GraphToContigs.RenderAllSnoc | bin/metafx-scripts/graph2contigs.py:20-21 | one more contig appends its header and sequence |
| GraphToContigs.ScannedNext | bin/metafx-scripts/graph2contigs.py:11-19 | one more line advances the scan state |
| GraphToContigs.ScannedStops | bin/metafx-scripts/graph2contigs.py:11-15 | once a line has raised, later lines change nothing |
| GraphToContigs.NumberSegment | bin/metafx-scripts/graph2contigs.py:14-21 | one S line moves the run counter and index exactly as one step of the specification scan does, and the output stays the rendering of the records so far |
| GraphToContigs.NumberSegments | bin/metafx-scripts/graph2contigs.py:9-21 | the line loop writes the records of the specification scan and reports its fault |
| GraphToContigs.GraphToFasta | bin/metafx-scripts/graph2contigs.py:9-21 | the script with the GFA line reader |
| GraphToContigs.AdvanceNumbered | bin/metafx-scripts/graph2contigs.py:16-19 | each step keeps the numbering invariant: contigs follow each other, and the state holds the last contig's component and index |
| GraphToContigs.ScannedNumbering | bin/metafx-scripts/graph2contigs.py:9-19 | the numbering invariant holds after every prefix of the graph |
| GraphToContigs.FollowsBefore | bin/metafx-scripts/graph2contigs.py:16-19 | contigs that follow each other stand in strictly increasing (component, index) order |
| GraphToContigs.ScannedOrdered | bin/metafx-scripts/graph2contigs.py:16-20 | emitted (comp, comp_i) pairs are pairwise distinct and comp never decreases |
| GraphToContigs.RunsKeepNumbers | bin/metafx-scripts/graph2contigs.py:15-18 | when the parsed numbers start at 0 and go up by at most one, the printed component equals the parsed number |
| GraphToContigs.LineRecords | bin/metafx-scripts/graph2contigs.py:12-21 | an S line adds one contig with its name, its sequence and its parsed number; another line changes nothing; a blank line raises |
| GraphToContigs.IntToStringFree | bin/metafx-scripts/graph2contigs.py:20 | a numeral holds no character other than digits and the minus sign |
| GraphToContigs.HeaderFields | bin/metafx-scripts/graph2contigs.py:20 | a header reads back as `>comp_i` and the original name |
| GraphToContigs.LabelInjective | bin/metafx-scripts/graph2contigs.py:20 | distinct (comp, comp_i) pairs give distinct labels |
| SelectSamples.StripQuotesQuoted | bin/metafx-scripts/select_samples_by_feature.py:37-40 | a quoted argument loses exactly its two quotes |
| SelectSamples.StripQuotesPlain | bin/metafx-scripts/select_samples_by_feature.py:37-40 | an unquoted argument is kept |
| SelectSamples.StripQuotesInside | bin/metafx-scripts/select_samples_by_feature.py:37-40 | stripping removes at most one character at each end |
| SelectSamples.ParseFeature | bin/metafx-scripts/select_samples_by_feature.py:37-42 | category and id are `_`-free |
| SelectSamples.ParseFeatureOf | bin/metafx-scripts/select_samples_by_feature.py:37-42 | a feature `<category>_<id>[_...]`, quoted or not, gives back its category and id |
| SelectSamples.SelectSequences | bin/metafx-scripts/select_samples_by_feature.py:62-74 | the `readline` loop writes exactly the selection and ends when `readline` returns nothing |
| SelectSamples.SelectFeature | bin/metafx-scripts/select_samples_by_feature.py:35-74 | a malformed feature argument raises; otherwise the output is the selection for its id |
| SelectSamples.SelectedPairs | bin/metafx-scripts/select_samples_by_feature.py:68-74 | the output is header/sequence pairs, each header `>` + a name whose first `_`-field is the id |
| SelectSamples.SplitLineOf | bin/metafx-scripts/select_samples_by_feature.py:63 | `readline` on a line followed by a newline returns that line |
| SelectSamples.StripLine | bin/metafx-scripts/select_samples_by_feature.py:69-72 | `strip` removes only the newline of a line without blanks at its ends |
| SelectSamples.ReadRecord | bin/metafx-scripts/select_samples_by_feature.py:63-72 | the loop reads a well-formed record as its header line and its sequence line |
| SelectSamples.SelectedFasta | bin/metafx-scripts/select_samples_by_feature.py:62-74 | on a well-formed FASTA file the output is exactly the records with the id, in file order |
| PcaColors.MarkAllNext | bin/metafx-scripts/pca.py:29-34 | one more value is one more step |
| PcaColors.MarkRowsNext | bin/metafx-scripts/pca.py:28-34 | one more metadata row marks its whitespace-split values |
| PcaColors.MarkSamples | bin/metafx-scripts/pca.py:29-34 | the inner loop computes the specification fold |
| PcaColors.AssignColours | bin/metafx-scripts/pca.py:24-36 | the script computes `meta_dict`, `colors_dict` and the colour order of the specification |
| PcaColors.NextIt | bin/metafx-scripts/pca.py:34 | the colour cycle is the count of coloured categories mod 9 |
| PcaColors.MarkOldCategory | bin/metafx-scripts/pca.py:30-32 | marking a sample of an already coloured category keeps the colouring invariant |
| PcaColors.MarkNewCategory | bin/metafx-scripts/pca.py:30-34 | colouring a new category keeps the colouring invariant |
| PcaColors.MarkCoherent | bin/metafx-scripts/pca.py:29-34 | every step keeps the invariant: samples unchanged, each assigned category coloured, colours distinct in cycle order |
| PcaColors.MarkAllCoherent | bin/metafx-scripts/pca.py:29-34 | the inner loop keeps the invariant |
| PcaColors.MarkRowsCoherent | bin/metafx-scripts/pca.py:27-34 | the row loop keeps the invariant |
| PcaColors.PalettesColours | bin/metafx-scripts/pca.py:24-43 | every sample's category has a colour, so the lookup at line 43 never fails; the colour keys are the order's, listed once; the i-th category gets `base_colors[i % 9]`; gray is present iff some sample is unassigned, and then last |
| PcaColors.MarkAllMeaning | bin/metafx-scripts/pca.py:29-34 | a row maps exactly its known values to its key, and colours its key iff one of them is known |
| PcaColors.MarkRowsMeaning | bin/metafx-scripts/pca.py:26-34 | the samples start unassigned, each ends with the key of the last row naming it, and a key is coloured iff some row with it names a known sample |
| PcaColors.PalettesMeaning | bin/metafx-scripts/pca.py:24-36 | each sample's category is the last row naming it, the coloured keys are those used, and gray is there iff some sample has no category |
| Numbers.NatToString | bin/metafx-scripts/graph2contigs.py:20 | `str(n)` is non-empty, all digits, without a leading zero |
| Numbers.NatToStringRoundTrip | bin/metafx-scripts/graph2contigs.py:20 | the digits denote the number |
| Numbers.NatToStringInjective | bin/metafx-scripts/graph2contigs.py:20 | distinct numbers are written differently |
| Numbers.IntToString | bin/metafx-scripts/graph2contigs.py:20 | `str(i)` is a minus exactly when `i` is negative, followed by the digits of its magnitude without a leading zero (never `-0` or `007`) |
| Numbers.ParseInt | bin/metafx-scripts/graph2contigs.py:15 | `int(s)` succeeds exactly on a non-empty digit string, optionally behind one `-` or `+` (leading zeros allowed), and gives its signed decimal value |
| Numbers.ParseIntRoundTrip | bin/metafx-scripts/graph2contigs.py:15-20 | `int(str(i)) == i` |
| Numbers.FormatHundredths | bin/metafx-scripts/build_model_for_bandage.py:120 | `"{:.2f}"`: digits behind an optional minus, a point, and exactly two digits |
| Numbers.FormatHundredthsRoundTrip | bin/metafx-scripts/build_model_for_bandage.py:120 | the two-decimal text gives the threshold back |
| Text.Split | bin/metafx-scripts/join_gfa.py:15 | `split(sep)` gives at least one field, none holding the separator |
| Text.JoinSplit | bin/metafx-scripts/pretty_print.py:14 | joining the fields with the separator gives the text back |
| Text.SplitJoin | bin/metafx-scripts/join_gfa.py:18 | fields without the separator survive a join then a split |
| Text.SplitLine | bin/metafx-scripts/select_samples_by_feature.py:63 | `readline` returns the text up to and including the first newline, and nothing is lost |
| Text.DropLast | bin/metafx-scripts/build_model_for_bandage.py:132 | `s[:-1]` drops exactly the last character, and nothing from the empty string |
| Text.Strip | bin/metafx-scripts/select_samples_by_feature.py:69 | `strip` returns the contiguous piece of the input left after removing all leading and all trailing white space, and that piece has no white space at either end |
| Text.FirstToken | bin/metafx-scripts/join_gfa.py:14 | `split()[0]` is missing exactly for blank text, and otherwise the first run of non-blanks |
| Text.Basename | bin/metafx-scripts/parse_samples_for_spades.py:9 | the text after the last `/` |
| Text.Repeat | bin/metafx-scripts/pretty_print.py:12 | `s * n` has length `n * len(s)` (empty when `n <= 0`), and its i-th character is `s[i % len(s)]`, so it is `n` copies of `s` for a delimiter of any length |
| Text.StripForm | bin/metafx-scripts/parse_samples_for_spades.py:13 | the substitution removes the leftmost matching suffix, and leaves the text unchanged when none matches |
| Text.Sorted | bin/metafx-scripts/parse_samples_categories.py:29-30 | `sorted` is ascending and a permutation |

## Left out

- The model fitters (`buildModelRandomForest`, `buildModelGradientBoosting`, `buildModelAdaBoost`), joblib, reading the metadata table with pandas, and the class-name sniffing of a loaded model. These are calls into scikit-learn and pandas. The fitted trees are taken as given arrays.
- Floating point in the serialiser. Thresholds are integers in hundredths, so the rounding of `"{:.2f}"` is not modelled. Value vectors are integers, so argmax ties behave as in NumPy but values are not floats.
- Bandage.EmitTree, Bandage.EnsembleNodeIds: the walk requires children numbered after their parent (`ValidTree`) so that it terminates. Exactly-once visiting further requires the arrays to be a tree (`IsTree`). scikit-learn builds trees of this kind; arrays of another shape are not modelled.
- Files, paths and `getopt`. Input files are passed in as text or lines, output is returned, and catalog paths are keys of a map. Opening a missing catalog is modelled; other I/O errors are not.
- `cv.py`, `fit.py`, `fit_predict.py`, `predict.py`, `metafx_torch.py`, `tax_to_csv.py`, `join_feature_vectors.py`, `get_samples_categories.py`, `get_samples_labels_for_colored.py`. They are wrappers over machine-learning, taxonomy-database and pandas calls.
- pca.py lines 39-59: the PCA fit, the plot and the legend. Only the colour assignment and the lookup it must satisfy are modelled. The metadata table's keys and sample lists are taken as strings, without pandas type coercion. A missing metadata file is the same as no rows.
- select_samples_by_feature.py lines 52-57: the pandas threshold filter and the sample list. `--work-dir` and `--res-dir` are stripped by the same rule as `--feature` (`SelectSamples.StripQuotes`); their use as paths is not modelled.
- select_samples_by_feature.py lines 66-67: the `len(line)==0` test can never succeed after the test before it, so it has no counterpart.
- Numbers.ParseInt: Python's `int` also accepts surrounding white space and `_` between digits; those inputs are errors here.
- Text.IsSpace: only ASCII white space is recognised; Unicode white space is not.
- ReadNames.SpadesBasename: the contract only says the result is a prefix of the file name. What it removes is stated by `Text.StripForm`, and the pair lemmas `SpadesPairName` and `StripMate` give the result for real pairs.
- ReadNames.CategoryBasename: the same, with `CategoryPairName`.
- Text.StripForm: the `$` of the regular expressions also matches before a final newline; file names with a trailing newline are not modelled.
- Text.Words: `str.split()` has no contract of its own; it is used only to read the metadata's sample lists.
- GraphToContigs.RenderAll: the contract gives only the length; `RenderAllSnoc` and `HeaderFields` give the content.
- GraphToContigs.GraphToFasta: the component counter counts runs of equal numbers and does not copy the parsed number, as the script does. `RunsKeepNumbers` states when the two agree.
- PrettyPrint.PrettyPrint: the first framed line starts with a space (`"" + " " + word`), and a first word over 99 characters flushes an empty line first. Both are modelled as the script behaves; `WrappedWords` accounts for the leading space.
