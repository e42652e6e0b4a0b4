/** The records the ensemble-to-Bandage serialiser writes, one per line, tab-separated,
    and the `features` registry built from them. */
module BandageRecords {
  import opened Text
  import opened Numbers

  datatype Record =
    | LeafNode(id: nat)                                      // N <id>
    | InnerNode(id: nat, left: nat, right: nat)              // N <id> <left> <right>
    | ClassNote(id: nat, className: string)                   // C <id> <className>
    | FeatureNote(id: nat, feature: string, threshold: int)  // F <id> <feature> <threshold>
    | Segment(feature: string, kmer: string)                 // S <feature> <kmer>

  /** The fields of a record's line. Node lines are printed with `end="\t"` before the
      newline, so their last field is empty. The threshold is held in hundredths. */
  function Fields(r: Record): seq<string>
  {
    match r
    case LeafNode(id) => ["N", NatToString(id), ""]
    case InnerNode(id, left, right) => ["N", NatToString(id), NatToString(left), NatToString(right), ""]
    case ClassNote(id, className) => ["C", NatToString(id), className]
    case FeatureNote(id, feature, threshold) => ["F", NatToString(id), feature, FormatHundredths(threshold)]
    case Segment(feature, kmer) => ["S", feature, kmer]
  }

  /** The line a record is written as. */
  function Render(r: Record): (line: string)
    ensures |line| > 0 && line[|line| - 1] == '\n'
  {
    Join(Fields(r), '\t') + "\n"
  }

  /** The free-text fields of a record hold no tab, so the line splits back into its fields. */
  predicate TabFree(r: Record)
  {
    match r
    case ClassNote(_, className) => '\t' !in className
    case FeatureNote(_, feature, _) => '\t' !in feature
    case Segment(feature, kmer) => '\t' !in feature && '\t' !in kmer
    case _ => true
  }

  lemma DigitsTabFree(s: string)
    requires forall k :: 0 <= k < |s| ==> IsDigit(s[k]) || s[k] == '-'
    ensures '\t' !in s
  {
    assert forall k :: 0 <= k < |s| ==> s[k] != '\t';
  }

  /** Splitting a written line (without its newline) on tabs gives back the record's
      fields; in particular node lines end in an empty field. */
  lemma RenderSplits(r: Record)
    requires TabFree(r)
    ensures var line := Render(r); Split(line[..|line| - 1], '\t') == Fields(r)
  {
    var fields := Fields(r);
    forall i | 0 <= i < |fields| ensures '\t' !in fields[i] {
      match r {
        case LeafNode(id) =>
          DigitsTabFree(NatToString(id));
        case InnerNode(id, left, right) =>
          DigitsTabFree(NatToString(id));
          DigitsTabFree(NatToString(left));
          DigitsTabFree(NatToString(right));
        case ClassNote(id, _) =>
          DigitsTabFree(NatToString(id));
        case FeatureNote(id, _, threshold) =>
          DigitsTabFree(NatToString(id));
          var t := FormatHundredths(threshold);
          assert forall k :: 0 <= k < |t| ==> t[k] != '\t';
        case Segment(_, _) =>
      }
    }
    var line := Render(r);
    assert line[..|line| - 1] == Join(fields, '\t');
    SplitJoin(fields, '\t');
  }

  // ---------------------------------------------------------------------------
  // Projections: the ids that records of one kind are about, in output order
  // ---------------------------------------------------------------------------

  datatype Kind = NodeKind | InnerKind | ClassKind | FeatureKind

  predicate HasKind(r: Record, k: Kind)
  {
    match k
    case NodeKind => r.LeafNode? || r.InnerNode?
    case InnerKind => r.InnerNode?
    case ClassKind => r.ClassNote?
    case FeatureKind => r.FeatureNote?
  }

  /** The id of a record of kind `k`, or nothing for a record of another kind. */
  function IdOf(r: Record, k: Kind): seq<nat>
  {
    if HasKind(r, k) then [r.id] else []
  }

  /** The ids of the records of kind `k`, in output order. */
  function IdsOf(recs: seq<Record>, k: Kind): (ids: seq<nat>)
    ensures |ids| <= |recs|
    decreases |recs|
  {
    if |recs| == 0 then []
    else IdOf(recs[0], k) + IdsOf(recs[1..], k)
  }

  lemma {:induction false} IdsOfConcat(a: seq<Record>, b: seq<Record>, k: Kind)
    ensures IdsOf(a + b, k) == IdsOf(a, k) + IdsOf(b, k)
    decreases |a|
  {
    if |a| > 0 {
      assert (a + b)[0] == a[0];
      assert (a + b)[1..] == a[1..] + b;
      IdsOfConcat(a[1..], b, k);
    } else {
      assert a + b == b;
    }
  }

  // ---------------------------------------------------------------------------
  // The `features` dictionary
  // ---------------------------------------------------------------------------

  /** `features[feature].append(id)`, or a fresh one-element list. */
  function Register(registry: map<string, seq<nat>>, feature: string, id: nat): map<string, seq<nat>>
  {
    if feature in registry then registry[feature := registry[feature] + [id]]
    else registry[feature := [id]]
  }

  /** The `features` dictionary after the given records were written: every F record
      adds its node id to the list of its feature. */
  function RegistryOf(recs: seq<Record>): map<string, seq<nat>>
    decreases |recs|
  {
    if |recs| == 0 then map[]
    else
      var registry := RegistryOf(recs[..|recs| - 1]);
      var last := recs[|recs| - 1];
      if last.FeatureNote? then Register(registry, last.feature, last.id) else registry
  }

  /** Writing one more record registers it when it is an F record and changes nothing
      otherwise. */
  lemma RegistryAppend(recs: seq<Record>, r: Record)
    ensures RegistryOf(recs + [r])
         == if r.FeatureNote? then Register(RegistryOf(recs), r.feature, r.id) else RegistryOf(recs)
  {
    assert (recs + [r])[..|recs|] == recs;
  }

  /** The ids of the F records naming `feature`, in output order. */
  function SplitsOn(recs: seq<Record>, feature: string): seq<nat>
    decreases |recs|
  {
    if |recs| == 0 then []
    else
      var last := recs[|recs| - 1];
      SplitsOn(recs[..|recs| - 1], feature)
        + (if last.FeatureNote? && last.feature == feature then [last.id] else [])
  }

  /** A feature is a key exactly when some F record names it, and its list holds the ids
      of those records in the order they were written. */
  lemma {:induction false} RegistryExact(recs: seq<Record>, feature: string)
    ensures feature in RegistryOf(recs) <==> |SplitsOn(recs, feature)| > 0
    ensures feature in RegistryOf(recs) ==> RegistryOf(recs)[feature] == SplitsOn(recs, feature)
    decreases |recs|
  {
    if |recs| > 0 {
      RegistryExact(recs[..|recs| - 1], feature);
    }
  }

  /** The ids listed under a feature are exactly those of the F records naming it. */
  lemma {:induction false} SplitsOnMembers(recs: seq<Record>, feature: string, id: nat)
    ensures id in SplitsOn(recs, feature)
        <==> exists i :: 0 <= i < |recs| && recs[i] .FeatureNote? && recs[i].feature == feature && recs[i].id == id
    decreases |recs|
  {
    if |recs| > 0 {
      var front := recs[..|recs| - 1];
      SplitsOnMembers(front, feature, id);
      if exists i :: 0 <= i < |front| && front[i].FeatureNote? && front[i].feature == feature && front[i].id == id {
        var i :| 0 <= i < |front| && front[i].FeatureNote? && front[i].feature == feature && front[i].id == id;
        assert recs[i] == front[i];
      }
    }
  }
}
