/**
  The vulnerability summariser: a list of findings (JSON objects) becomes
  a risk report whose sections are, in order, the total, the counts by
  severity, the ten most severe findings, the ten most common root causes
  and the counts by asset. The report's Markdown text is abstracted into
  the `Section` values; `findings` that is present but not a list stops
  the tool with exit status 2 before anything is written.
 */
module VulnToRiskReport {
  import opened Wrappers
  import opened Text
  import opened Records
  import opened Seqs
  import opened Sorting
  import opened Grouping

  /** The known severities and their ranks. */
  const SevOrder: map<string, int> := map["critical" := 4, "high" := 3, "medium" := 2, "low" := 1, "info" := 0]

  /** `sev_key`: the rank of the stripped, lower-cased label, or -1 for a missing or unknown one. */
  function SevKey(sev: Option<string>): (rank: int)
    ensures -1 <= rank <= 4
  {
    var name := Normalize(OrEmpty(sev));
    if name in SevOrder then SevOrder[name] else -1
  }

  /** A finding's severity label, as the severity counter keys it: lower-cased, not stripped, `unknown` when missing or empty. */
  function SeverityLabel(f: Row): string {
    Lower(OrDefault(Get(f, "severity", "unknown"), "unknown"))
  }

  /** A finding's root-cause label: lower-cased, not stripped, `unspecified` when missing or empty. */
  function RootCauseLabel(f: Row): string {
    Lower(OrDefault(Get(f, "root_cause", "unspecified"), "unspecified"))
  }

  /** A finding's asset: `unknown` only when the key is absent, so a JSON `null` asset is a group of its own. */
  function AssetKey(f: Row): Option<string> {
    Get(f, "asset", "unknown")
  }

  /** The sort key of the top findings: most severe first, then by title, a missing title sorting as "". */
  function TopKey(f: Row): Key {
    Key(-SevKey(Lookup(f, "severity")), OrEmpty(Lookup(f, "title")))
  }

  /** The sort key of the severity breakdown: the rank of the label, highest first. */
  function BreakdownKey(entry: (string, nat)): Key {
    Key(-SevKey(Some(entry.0)), "")
  }

  /** The sort key of a count in descending order, as `most_common` and the asset listing sort. */
  function CountKey<K>(entry: (K, nat)): Key {
    Key(-(entry.1 as int), "")
  }

  /** `Counter(severity label of f for f in findings)`, in first-seen order. */
  function SeverityCounts(findings: seq<Row>): seq<(string, nat)> {
    Counts(GroupBy(findings, SeverityLabel))
  }

  function RootCauseCounts(findings: seq<Row>): seq<(string, nat)> {
    Counts(GroupBy(findings, RootCauseLabel))
  }

  /** The severity breakdown: the severity counts sorted by rank, highest first. */
  function Breakdown(findings: seq<Row>): seq<(string, nat)> {
    StableSort(SeverityCounts(findings), BreakdownKey)
  }

  /** The ten most severe findings. */
  function Top(findings: seq<Row>): seq<Row> {
    Take(StableSort(findings, TopKey), 10)
  }

  /** `Counter.most_common(n)`: the `n` highest counts, ties in first-seen order. */
  function MostCommon<K(==)>(counts: seq<(K, nat)>, n: nat): seq<(K, nat)> {
    Take(StableSort(counts, CountKey), n)
  }

  /** The findings per asset, largest group first. */
  function AssetCounts(findings: seq<Row>): seq<(Option<string>, nat)> {
    StableSort(Counts(GroupBy(findings, AssetKey)), CountKey)
  }

  /** The sections of the report, abstracted from their Markdown text. */
  datatype Section =
    | TotalFindings(count: nat)
    | SeverityBreakdown(severities: seq<(string, nat)>)
    | TopFindings(top: seq<Row>)
    | CommonRootCauses(causes: seq<(string, nat)>)
    | FindingsByAsset(assets: seq<(Option<string>, nat)>)

  /** The value of the input's `findings` key. */
  datatype FindingsField =
    | Absent
    | NotAList
    | Findings(items: seq<Row>)

  datatype Outcome =
    | InvalidFindings
    | Written(sections: seq<Section>)

  function Sections(findings: seq<Row>): seq<Section> {
    [ TotalFindings(|findings|),
      SeverityBreakdown(Breakdown(findings)),
      TopFindings(Top(findings)),
      CommonRootCauses(MostCommon(RootCauseCounts(findings), 10)),
      FindingsByAsset(AssetCounts(findings)) ]
  }

  /** `data.get("findings", [])`, the type check, then the report. */
  function Summarize(field: FindingsField): Outcome {
    match field
    case Absent => Written(Sections([]))
    case NotAList => InvalidFindings
    case Findings(items) => Written(Sections(items))
  }

  function ExitCode(outcome: Outcome): (code: int)
    ensures code in {0, 2}
    ensures code == 2 <==> outcome == InvalidFindings
  {
    if outcome.InvalidFindings? then 2 else 0
  }

  /** The loop filling `by_asset`: each finding is appended to its asset's list, a new asset's list going last. */
  method GroupByAsset(findings: seq<Row>) returns (byAsset: Groups<Option<string>, Row>)
    ensures byAsset == GroupBy(findings, AssetKey)
  {
    byAsset := [];
    var i := 0;
    while i < |findings|
      invariant 0 <= i <= |findings|
      invariant byAsset == GroupBy(findings[..i], AssetKey)
    {
      var f := findings[i];
      assert findings[..i + 1][..i] == findings[..i];
      byAsset := AddTo(byAsset, AssetKey(f), f);
      i := i + 1;
    }
    assert findings[..i] == findings;
  }

  /** `main` after reading the input: the type check, the counters and the sort, then the report built section by section. */
  method SummarizeFindings(field: FindingsField) returns (outcome: Outcome)
    ensures outcome == Summarize(field)
  {
    hide StableSort, GroupBy, Counts, Take;
    var findings: seq<Row>;
    match field {
      case Absent => findings := [];
      case NotAList => return InvalidFindings;
      case Findings(items) => findings := items;
    }
    var severities := Counts(GroupBy(findings, SeverityLabel));
    var rootCauses := Counts(GroupBy(findings, RootCauseLabel));
    var top := Take(StableSort(findings, TopKey), 10);
    var byAsset := GroupByAsset(findings);
    var md: seq<Section> := [];
    md := md + [TotalFindings(|findings|)];
    md := md + [SeverityBreakdown(StableSort(severities, BreakdownKey))];
    md := md + [TopFindings(top)];
    md := md + [CommonRootCauses(MostCommon(rootCauses, 10))];
    md := md + [FindingsByAsset(StableSort(Counts(byAsset), CountKey))];
    return Written(md);
  }

  // ---------------------------------------------------------------------
  // Severity ranks

  /** A label has a known rank exactly when, stripped and lower-cased, it is that severity's name. */
  lemma SevKeyIff(sev: Option<string>, name: string)
    requires name in SevOrder
    ensures SevKey(sev) == SevOrder[name] <==> Normalize(OrEmpty(sev)) == name
  {
  }

  /** Any other label, and a missing one, ranks -1: below `info`, the lowest known severity. */
  lemma SevKeyUnranked(sev: Option<string>)
    ensures SevKey(sev) == -1 <==> Normalize(OrEmpty(sev)) !in SevOrder
    ensures SevKey(sev) == -1 ==> forall name :: name in SevOrder ==> SevKey(sev) < SevOrder[name]
  {
  }

  /** An upper-case label ranks as its lower-case name. */
  lemma SevKeyHighExamples()
    ensures SevKey(Some("HIGH")) == 3 && SevKey(Some("high")) == 3
  {
    assert "HIGH" == "" + Upper("high") + "";
    NormalizePaddedUpper("", "high", "");
    TrimNoPadding("high");
    LowerNoCapitals("high");
  }

  lemma SevKeyLowExample()
    ensures SevKey(Some("low")) == 1
  {
    TrimNoPadding("low");
    LowerNoCapitals("low");
  }

  /** An unknown, a missing and an empty label all rank -1. */
  lemma SevKeyUnrankedExamples()
    ensures SevKey(Some("severe")) == -1 && SevKey(None) == -1 && SevKey(Some("")) == -1
  {
    TrimNoPadding("severe");
    LowerNoCapitals("severe");
  }

  // ---------------------------------------------------------------------
  // Labels

  /** A missing, `null` or empty severity is labelled `unknown`; any other is lower-cased as it is. */
  lemma SeverityLabelSpec(f: Row)
    ensures !Truthy(Lookup(f, "severity")) ==> SeverityLabel(f) == "unknown"
    ensures Truthy(Lookup(f, "severity")) ==> SeverityLabel(f) == Lower(Lookup(f, "severity").value)
  {
    LowerNoCapitals("unknown");
  }

  /** A missing, `null` or empty root cause is labelled `unspecified`; any other is lower-cased as it is. */
  lemma RootCauseLabelSpec(f: Row)
    ensures !Truthy(Lookup(f, "root_cause")) ==> RootCauseLabel(f) == "unspecified"
    ensures Truthy(Lookup(f, "root_cause")) ==> RootCauseLabel(f) == Lower(Lookup(f, "root_cause").value)
  {
    LowerNoCapitals("unspecified");
  }

  /**
    Labels are not stripped: " high" and "high" are counted apart, though
    both rank as `high`.
   */
  lemma UnstrippedLabel()
    ensures SeverityLabel(map["severity" := Some(" high")]) == " high"
    ensures SeverityLabel(map["severity" := Some("high")]) == "high"
    ensures SevKey(Some(" high")) == SevKey(Some("high")) == 3
  {
    LowerNoCapitals(" high");
    TrimNoPadding("high");
    assert " high" == " " + "high" + "";
    TrimPadding(" ", "high", "");
  }

  /** The asset defaults to `unknown` only when the key is absent: a `null` asset keeps its own key. */
  lemma AssetKeySpec(f: Row)
    ensures "asset" !in f ==> AssetKey(f) == Some("unknown")
    ensures "asset" in f ==> AssetKey(f) == f["asset"]
  {
  }

  // ---------------------------------------------------------------------
  // Counts

  /** Each label appears once, with the number of findings that carry it, and the counts add up to the number of findings. */
  lemma LabelCounts<K(!new)>(findings: seq<Row>, labelOf: Row -> K)
    ensures forall i, j :: 0 <= i < j < |Counts(GroupBy(findings, labelOf))| ==>
      Counts(GroupBy(findings, labelOf))[i].0 != Counts(GroupBy(findings, labelOf))[j].0
    ensures forall i :: 0 <= i < |Counts(GroupBy(findings, labelOf))| ==>
      Counts(GroupBy(findings, labelOf))[i].1 == |FilterBy(findings, labelOf, Counts(GroupBy(findings, labelOf))[i].0)| > 0
    ensures forall f :: f in findings ==> exists i :: 0 <= i < |Counts(GroupBy(findings, labelOf))| && Counts(GroupBy(findings, labelOf))[i].0 == labelOf(f)
    ensures Total(Counts(GroupBy(findings, labelOf))) == |findings|
  {
    var g := GroupBy(findings, labelOf);
    forall i | 0 <= i < |g|
      ensures |g[i].1| > 0
    {
      assert g[i].0 in Keys(g);
    }
    forall f | f in findings
      ensures labelOf(f) in Keys(g)
    {
      var i :| 0 <= i < |findings| && findings[i] == f;
      var i' := FilterByMember(findings, labelOf, i);
    }
    CountsTotal(findings, labelOf);
  }

  lemma SeverityCountsTotal(findings: seq<Row>)
    ensures Total(SeverityCounts(findings)) == |findings|
  {
    LabelCounts(findings, SeverityLabel);
  }

  lemma RootCauseCountsTotal(findings: seq<Row>)
    ensures Total(RootCauseCounts(findings)) == |findings|
  {
    LabelCounts(findings, RootCauseLabel);
  }

  /** Sorting counted entries by any key keeps equal keys in the order their labels were first seen. */
  lemma SortedCountsTies<K(!new)>(findings: seq<Row>, labelOf: Row -> K, sortKey: ((K, nat)) -> Key, i: nat, j: nat)
    requires i < j < |StableSort(Counts(GroupBy(findings, labelOf)), sortKey)|
    requires sortKey(StableSort(Counts(GroupBy(findings, labelOf)), sortKey)[i]) == sortKey(StableSort(Counts(GroupBy(findings, labelOf)), sortKey)[j])
    ensures FirstIndex(findings, labelOf, StableSort(Counts(GroupBy(findings, labelOf)), sortKey)[i].0)
      < FirstIndex(findings, labelOf, StableSort(Counts(GroupBy(findings, labelOf)), sortKey)[j].0)
  {
    CountsOrder(findings, labelOf);
    hide Counts, GroupBy, FirstIndex;
    var c := Counts(GroupBy(findings, labelOf));
    var m := (e: (K, nat)) => FirstIndex(findings, labelOf, e.0);
    assert forall a, b :: 0 <= a < b < |c| ==> m(c[a]) < m(c[b]);
    StableSortKeepsOrder(c, sortKey, m, i, j);
  }

  // ---------------------------------------------------------------------
  // The severity breakdown

  /** The breakdown lists every severity count once, highest rank first, and its counts add up to the number of findings. */
  lemma BreakdownSpec(findings: seq<Row>)
    ensures multiset(Breakdown(findings)) == multiset(SeverityCounts(findings))
    ensures forall i, j :: 0 <= i < j < |Breakdown(findings)| ==>
      SevKey(Some(Breakdown(findings)[i].0)) >= SevKey(Some(Breakdown(findings)[j].0))
    ensures Total(Breakdown(findings)) == |findings|
  {
    var b := Breakdown(findings);
    assert forall i, j :: 0 <= i < j < |b| ==> KeyLe(BreakdownKey(b[i]), BreakdownKey(b[j]));
    TotalPermutation(b, SeverityCounts(findings));
    SeverityCountsTotal(findings);
  }

  /** Labels of equal rank keep the order in which they were first seen. */
  lemma BreakdownTies(findings: seq<Row>, i: nat, j: nat)
    requires i < j < |Breakdown(findings)|
    requires SevKey(Some(Breakdown(findings)[i].0)) == SevKey(Some(Breakdown(findings)[j].0))
    ensures FirstIndex(findings, SeverityLabel, Breakdown(findings)[i].0) < FirstIndex(findings, SeverityLabel, Breakdown(findings)[j].0)
  {
    SortedCountsTies(findings, SeverityLabel, BreakdownKey, i, j);
  }

  // ---------------------------------------------------------------------
  // The top findings

  /**
    The top holds `min(10, n)` of the findings, and they are the most
    severe: no finding left out sorts before one that is kept.
   */
  lemma TopSelects(findings: seq<Row>)
    ensures |Top(findings)| == if |findings| < 10 then |findings| else 10
    ensures multiset(Top(findings)) <= multiset(findings)
    ensures forall x, y :: x in multiset(findings) - multiset(Top(findings)) && y in Top(findings) ==>
      KeyLe(TopKey(y), TopKey(x))
  {
    SortedTakeBest(findings, TopKey, 10);
  }

  /** The top is ordered by severity, highest first, and by title within a severity. */
  lemma TopOrder(findings: seq<Row>)
    ensures forall i, j :: 0 <= i < j < |Top(findings)| ==>
      var a, b := Top(findings)[i], Top(findings)[j];
      SevKey(Lookup(a, "severity")) > SevKey(Lookup(b, "severity")) ||
      (SevKey(Lookup(a, "severity")) == SevKey(Lookup(b, "severity")) && StrLe(OrEmpty(Lookup(a, "title")), OrEmpty(Lookup(b, "title"))))
  {
    hide StableSort;
    var r := StableSort(findings, TopKey);
    var t := Top(findings);
    forall i, j | 0 <= i < j < |t|
      ensures KeyLe(TopKey(t[i]), TopKey(t[j]))
    {
      assert t[i] == r[i] && t[j] == r[j];
    }
  }

  /** Findings with the same severity and title keep their input order. */
  lemma TopStable(findings: seq<Row>, k: Key)
    ensures FilterBy(Top(findings), TopKey, k) <= FilterBy(findings, TopKey, k)
  {
    SortedTakeStable(findings, TopKey, 10, k);
  }

  // ---------------------------------------------------------------------
  // Most common root causes and the asset counts

  /** `most_common(n)`: at most `n` entries, and none left out has a higher count than one kept. */
  lemma MostCommonSelects<K>(counts: seq<(K, nat)>, n: nat)
    ensures |MostCommon(counts, n)| == if |counts| < n then |counts| else n
    ensures multiset(MostCommon(counts, n)) <= multiset(counts)
    ensures forall x, y :: x in multiset(counts) - multiset(MostCommon(counts, n)) && y in MostCommon(counts, n) ==> x.1 <= y.1
  {
    SortedTakeBest(counts, CountKey, n);
  }

  /** `most_common(n)` lists the highest count first. */
  lemma MostCommonOrder<K>(counts: seq<(K, nat)>, n: nat)
    ensures forall i, j :: 0 <= i < j < |MostCommon(counts, n)| ==> MostCommon(counts, n)[i].1 >= MostCommon(counts, n)[j].1
  {
    hide StableSort;
    var r := StableSort(counts, CountKey);
    var t := MostCommon(counts, n);
    forall i, j | 0 <= i < j < |t|
      ensures t[i].1 >= t[j].1
    {
      assert t[i] == r[i] && t[j] == r[j];
      assert KeyLe(CountKey(r[i]), CountKey(r[j]));
    }
  }

  /** Root causes with equal counts keep the order in which they were first seen. */
  lemma RootCausesTies(findings: seq<Row>, i: nat, j: nat)
    requires i < j < |MostCommon(RootCauseCounts(findings), 10)|
    requires MostCommon(RootCauseCounts(findings), 10)[i].1 == MostCommon(RootCauseCounts(findings), 10)[j].1
    ensures FirstIndex(findings, RootCauseLabel, MostCommon(RootCauseCounts(findings), 10)[i].0)
      < FirstIndex(findings, RootCauseLabel, MostCommon(RootCauseCounts(findings), 10)[j].0)
  {
    var r := StableSort(RootCauseCounts(findings), CountKey);
    assert MostCommon(RootCauseCounts(findings), 10)[i] == r[i] && MostCommon(RootCauseCounts(findings), 10)[j] == r[j];
    SortedCountsTies(findings, RootCauseLabel, CountKey, i, j);
  }

  /** Every asset group is listed once, largest first, and the group sizes add up to the number of findings. */
  lemma AssetCountsSpec(findings: seq<Row>)
    ensures multiset(AssetCounts(findings)) == multiset(Counts(GroupBy(findings, AssetKey)))
    ensures forall i, j :: 0 <= i < j < |AssetCounts(findings)| ==> AssetCounts(findings)[i].1 >= AssetCounts(findings)[j].1
    ensures Total(AssetCounts(findings)) == |findings|
  {
    var a := AssetCounts(findings);
    assert forall i, j :: 0 <= i < j < |a| ==> KeyLe(CountKey(a[i]), CountKey(a[j]));
    TotalPermutation(a, Counts(GroupBy(findings, AssetKey)));
    CountsTotal(findings, AssetKey);
  }

  /** Assets with equally many findings keep the order in which they were first seen. */
  lemma AssetCountsTies(findings: seq<Row>, i: nat, j: nat)
    requires i < j < |AssetCounts(findings)|
    requires AssetCounts(findings)[i].1 == AssetCounts(findings)[j].1
    ensures FirstIndex(findings, AssetKey, AssetCounts(findings)[i].0) < FirstIndex(findings, AssetKey, AssetCounts(findings)[j].0)
  {
    SortedCountsTies(findings, AssetKey, CountKey, i, j);
  }

  // ---------------------------------------------------------------------
  // The outcome

  /**
    Only a `findings` value that is not a list stops the tool, with exit
    status 2; a missing one gives the report of no findings.
   */
  lemma SummarizeOutcome(field: FindingsField)
    ensures ExitCode(Summarize(field)) == 2 <==> field.NotAList?
    ensures field.Absent? ==> Summarize(field) == Summarize(Findings([]))
    ensures !field.NotAList? ==> |Summarize(field).sections| == 5 && Summarize(field).sections[0].TotalFindings?
  {
  }

  /** The report of no findings: a total of zero and every other section empty. */
  lemma NoFindings()
    ensures Sections([]) == [TotalFindings(0), SeverityBreakdown([]), TopFindings([]), CommonRootCauses([]), FindingsByAsset([])]
  {
  }

  // ---------------------------------------------------------------------
  // An example

  const F1: Row := map["id" := Some("F1"), "title" := Some("X"), "severity" := Some("HIGH"), "asset" := Some("a1")]
  const F2: Row := map["id" := Some("F2"), "title" := Some("Y"), "severity" := Some("low"), "asset" := Some("a1"), "root_cause" := Some("misconfig")]

  lemma ExampleSeverityLabels()
    ensures SeverityLabel(F1) == "high" && SeverityLabel(F2) == "low"
  {
  }

  lemma ExampleTopKeys()
    ensures TopKey(F1) == Key(-3, "X") && TopKey(F2) == Key(-1, "Y")
  {
    SevKeyHighExamples();
    SevKeyLowExample();
  }

  /** A high and a low finding: one group of each severity, in the order seen. */
  lemma ExampleSeverityGroups()
    ensures GroupBy([F1, F2], SeverityLabel) == [("high", [F1]), ("low", [F2])]
  {
    ExampleSeverityLabels();
    hide SeverityLabel;
    GroupBySnoc([], F1, SeverityLabel);
    GroupBySnoc([F1], F2, SeverityLabel);
    AddToNew([], "high", F1);
    AddToNew([("high", [F1])], "low", F2);
    hide GroupBy, AddTo;
    assert [] + [F1] == [F1] && [F1] + [F2] == [F1, F2];
  }

  lemma ExampleSeverityCounts()
    ensures SeverityCounts([F1, F2]) == [("high", 1), ("low", 1)]
  {
    ExampleSeverityGroups();
    hide GroupBy;
  }

  /** The breakdown of the same findings lists the high one first. */
  lemma ExampleBreakdown()
    ensures Breakdown([F1, F2]) == [("high", 1), ("low", 1)]
  {
    ExampleSeverityCounts();
    SevKeyHighExamples();
    SevKeyLowExample();
    hide SeverityCounts, SevKey;
    assert BreakdownKey(("high", 1)) == Key(-3, "") && BreakdownKey(("low", 1)) == Key(-1, "");
    StableSortSorted([("high", 1), ("low", 1)], BreakdownKey);
  }

  /** The high finding comes before the low one. */
  lemma ExampleTop()
    ensures Top([F1, F2]) == [F1, F2]
  {
    ExampleTopKeys();
    hide TopKey;
    StableSortSorted([F1, F2], TopKey);
  }

  /** Both findings are counted for their asset. */
  lemma ExampleAssetGroups()
    ensures GroupBy([F1, F2], AssetKey) == [(Some("a1"), [F1, F2])]
  {
    assert AssetKey(F1) == AssetKey(F2) == Some("a1");
    hide AssetKey;
    GroupBySnoc([], F1, AssetKey);
    GroupBySnoc([F1], F2, AssetKey);
    AddToNew([], Some("a1"), F1);
    AddToExisting([(Some("a1"), [F1])], 0, F2);
    hide GroupBy, AddTo;
    assert [] + [F1] == [F1] && [F1] + [F2] == [F1, F2];
  }

  lemma ExampleAssets()
    ensures AssetCounts([F1, F2]) == [(Some("a1"), 2)]
  {
    ExampleAssetGroups();
    hide GroupBy;
    assert Counts(GroupBy([F1, F2], AssetKey)) == [(Some("a1"), 2)];
    StableSortSorted([(Some("a1"), 2)], CountKey);
  }
}
