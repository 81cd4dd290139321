/**
  The firewall rule linter: a CSV of rules is checked row by row for an ANY
  source or destination, a wide or unreadable port specification, a
  missing owner or comment, and an old or missing `date_added`. A rule
  with at least one issue becomes a finding; the exit status is 2 for a
  file without the required columns, 1 when there are findings and 0
  otherwise. `today` and the age limit are parameters.
 */
module FirewallLinter {
  import opened Wrappers
  import opened Text
  import opened Records
  import opened Dates
  import opened Seqs

  /** The address values that mean "any address". */
  const AnyValues: set<string> := {"any", "0.0.0.0/0", "::/0", "*"}

  /** The columns a rules file must declare. */
  const RequiredColumns: set<string> := {"rule_id", "src", "dst", "port", "protocol", "action"}

  /** `is_any(s)`: the value, stripped and lower-cased, is one of the ANY values. */
  predicate IsAny(s: Option<string>) {
    Normalize(OrEmpty(s)) in AnyValues
  }

  /** `[x.strip() for x in parts if x.strip()]`: the non-blank parts, stripped. */
  function StrippedParts(parts: seq<string>): (r: seq<string>)
    ensures |r| <= |parts|
    ensures forall k :: 0 <= k < |r| ==> Unpadded(r[k])
  {
    if parts == [] then []
    else
      var p, x := parts[..|parts| - 1], parts[|parts| - 1];
      TrimSpec(x);
      StrippedParts(p) + (if Trim(x) != "" then [Trim(x)] else [])
  }

  /**
    `port_is_wide(port)`: a blank, `any` or `*` port is wide; a text with a
    `-` is a range; otherwise a text with a `,` is a list; otherwise it is a
    single port, wide unless it is an integer.
   */
  predicate PortIsWide(port: Option<string>) {
    var p := Normalize(OrEmpty(port));
    if p == "" || p == "any" || p == "*" then true
    else if '-' in p then RangeIsWide(p)
    else if ',' in p then ListIsWide(p)
    else ParseInt(p).None?
  }

  /**
    A range `a-b`, split at the first `-`: wide when either end is not an
    integer, when it spans 1000 ports or more, or when it is `0-65535`.
   */
  predicate RangeIsWide(p: string)
    requires '-' in p
  {
    var i := IndexOf(p, '-');
    var a, b := ParseInt(Trim(p[..i])), ParseInt(Trim(p[i + 1..]));
    if a.Some? && b.Some? then b.value - a.value >= 1000 || (a.value == 0 && b.value == 65535)
    else true
  }

  /** A list `a,b,...`: wide from 20 non-blank entries on. */
  predicate ListIsWide(p: string) {
    |StrippedParts(Split(p, ','))| >= 20
  }

  /** What the linter reports about one rule. */
  datatype Issue =
    | SourceIsAny
    | DestinationIsAny
      /** The port exactly as the row holds it (`None` for a short row). */
    | WidePort(port: Option<string>)
    | MissingOwner
    | MissingComment
    | RuleIsOld(age: int, maxAge: int)
    | MissingDate

  /** A rule with issues: its id, its issues in the order they were found, and the row. */
  datatype Finding = Finding(ruleId: string, issues: seq<Issue>, row: Row)

  datatype Outcome =
    | SchemaError(missing: set<string>)
    | Report(findings: seq<Finding>)

  // The fields of a row, read as the loop of `main` reads them.

  function Source(row: Row): Option<string> { Get(row, "src", "") }
  function Destination(row: Row): Option<string> { Get(row, "dst", "") }
  function Port(row: Row): Option<string> { Get(row, "port", "") }
  function Owner(row: Row): string { Trim(OrEmpty(Lookup(row, "owner"))) }
  function Comment(row: Row): string { Trim(OrEmpty(Lookup(row, "comment"))) }
  function DateAdded(row: Row): Option<int> { ParseDate(Get(row, "date_added", "")) }

  /** The stripped `rule_id`, or `<no-id>` when it is missing or blank. */
  function RuleId(row: Row): (id: string)
    ensures id != ""
    ensures Trim(OrEmpty(Lookup(row, "rule_id"))) != "" ==> id == Trim(OrEmpty(Lookup(row, "rule_id")))
    ensures Trim(OrEmpty(Lookup(row, "rule_id"))) == "" ==> id == "<no-id>"
  {
    var t := Trim(OrEmpty(Lookup(row, "rule_id")));
    if t == "" then "<no-id>" else t
  }

  /** The age check: old beyond `maxAge` days, or, with a `date_added` column, no readable date. */
  function DateIssues(date: Option<int>, hasDateColumn: bool, today: int, maxAge: int): seq<Issue> {
    if date.Some? then
      if today - date.value > maxAge then [RuleIsOld(today - date.value, maxAge)] else []
    else if hasDateColumn then [MissingDate]
    else []
  }

  /**
    The outcome of each check on one rule, computed from the fields as the
    loop of `main` reads them; `port` is kept to be quoted in the report.
   */
  datatype RuleChecks = RuleChecks(
    sourceIsAny: bool,
    destinationIsAny: bool,
    port: Option<string>,
    portIsWide: bool,
    ownerMissing: bool,
    commentMissing: bool,
    dateAdded: Option<int>)

  function Checks(row: Row): RuleChecks {
    RuleChecks(IsAny(Source(row)), IsAny(Destination(row)), Port(row), PortIsWide(Port(row)),
               Owner(row) == "", Comment(row) == "", DateAdded(row))
  }

  /** All six checks of one rule, every one applied, in their fixed order. */
  function IssuesOf(c: RuleChecks, hasDateColumn: bool, today: int, maxAge: int): seq<Issue> {
    When(c.sourceIsAny, SourceIsAny)
    + When(c.destinationIsAny, DestinationIsAny)
    + When(c.portIsWide, WidePort(c.port))
    + When(c.ownerMissing, MissingOwner)
    + When(c.commentMissing, MissingComment)
    + DateIssues(c.dateAdded, hasDateColumn, today, maxAge)
  }

  function RuleIssues(row: Row, hasDateColumn: bool, today: int, maxAge: int): seq<Issue> {
    IssuesOf(Checks(row), hasDateColumn, today, maxAge)
  }

  /** The finding for one rule: its id, its issues and the row, when it has issues. */
  function RuleFinding(row: Row, hasDateColumn: bool, today: int, maxAge: int): Option<Finding> {
    var issues := RuleIssues(row, hasDateColumn, today, maxAge);
    if issues == [] then None else Some(Finding(RuleId(row), issues, row))
  }

  function RuleFindingOf(hasDateColumn: bool, today: int, maxAge: int): Row -> Option<Finding> {
    row => RuleFinding(row, hasDateColumn, today, maxAge)
  }

  /** The findings for `rows`, one per rule with issues, in row order. */
  function FlaggedRules(rows: seq<Row>, hasDateColumn: bool, today: int, maxAge: int): seq<Finding> {
    Collect(rows, RuleFindingOf(hasDateColumn, today, maxAge))
  }

  /** One more row adds its finding, if any, at the end. */
  lemma FlaggedRulesSnoc(rows: seq<Row>, i: nat, hasDateColumn: bool, today: int, maxAge: int)
    requires i < |rows|
    ensures FlaggedRules(rows[..i + 1], hasDateColumn, today, maxAge) == FlaggedRules(rows[..i], hasDateColumn, today, maxAge)
      + (if RuleFinding(rows[i], hasDateColumn, today, maxAge).Some? then [RuleFinding(rows[i], hasDateColumn, today, maxAge).value] else [])
  {
    assert rows[..i + 1][..i] == rows[..i];
  }

  /** The linter's result: the schema error, or the findings of every row. */
  function Lint(fieldnames: seq<string>, rows: seq<Row>, today: int, maxAge: int): Outcome {
    var missing := MissingColumns(RequiredColumns, fieldnames);
    if missing != {} then SchemaError(missing)
    else Report(FlaggedRules(rows, "date_added" in fieldnames, today, maxAge))
  }

  /** The exit status of `main`. */
  function ExitCode(outcome: Outcome): (code: int)
    ensures code in {0, 1, 2}
    ensures code == 0 <==> outcome == Report([])
  {
    match outcome
    case SchemaError(_) => 2
    case Report(findings) => if findings == [] then 0 else 1
  }

  /** The checks of one rule, appending each issue as it is found. */
  method CheckRule(row: Row, hasDateColumn: bool, today: int, maxAge: int) returns (issues: seq<Issue>)
    ensures issues == RuleIssues(row, hasDateColumn, today, maxAge)
  {
    hide Checks;
    var c := Checks(row);
    issues := [];
    if c.sourceIsAny {
      issues := issues + [SourceIsAny];
    }
    assert issues == When(c.sourceIsAny, SourceIsAny);
    if c.destinationIsAny {
      issues := issues + [DestinationIsAny];
    }
    assert issues == When(c.sourceIsAny, SourceIsAny) + When(c.destinationIsAny, DestinationIsAny);
    if c.portIsWide {
      issues := issues + [WidePort(c.port)];
    }
    assert issues == When(c.sourceIsAny, SourceIsAny) + When(c.destinationIsAny, DestinationIsAny)
      + When(c.portIsWide, WidePort(c.port));
    if c.ownerMissing {
      issues := issues + [MissingOwner];
    }
    assert issues == When(c.sourceIsAny, SourceIsAny) + When(c.destinationIsAny, DestinationIsAny)
      + When(c.portIsWide, WidePort(c.port)) + When(c.ownerMissing, MissingOwner);
    if c.commentMissing {
      issues := issues + [MissingComment];
    }
    assert issues == When(c.sourceIsAny, SourceIsAny) + When(c.destinationIsAny, DestinationIsAny)
      + When(c.portIsWide, WidePort(c.port)) + When(c.ownerMissing, MissingOwner)
      + When(c.commentMissing, MissingComment);
    if c.dateAdded.Some? {
      var age := today - c.dateAdded.value;
      if age > maxAge {
        issues := issues + [RuleIsOld(age, maxAge)];
      }
    } else if hasDateColumn {
      issues := issues + [MissingDate];
    }
  }

  /** The body of the loop of `main` for one row: the rule's id and its checks, kept when there are issues. */
  method LintRow(row: Row, hasDateColumn: bool, today: int, maxAge: int) returns (finding: Option<Finding>)
    ensures finding == RuleFinding(row, hasDateColumn, today, maxAge)
  {
    var rid := RuleId(row);
    var issues := CheckRule(row, hasDateColumn, today, maxAge);
    if issues != [] {
      finding := Some(Finding(rid, issues, row));
    } else {
      finding := None;
    }
  }

  /** The schema check, then the loop over the rows collecting findings. */
  method LintRules(fieldnames: seq<string>, rows: seq<Row>, today: int, maxAge: int) returns (outcome: Outcome)
    ensures outcome == Lint(fieldnames, rows, today, maxAge)
  {
    // What one row yields is `LintRow`'s contract; the checks themselves are not needed here.
    hide RuleFinding;
    var missing := MissingColumns(RequiredColumns, fieldnames);
    if missing != {} {
      return SchemaError(missing);
    }
    var hasDateColumn := "date_added" in fieldnames;
    var findings: seq<Finding> := [];
    var i := 0;
    while i < |rows|
      invariant 0 <= i <= |rows|
      invariant findings == FlaggedRules(rows[..i], hasDateColumn, today, maxAge)
    {
      var finding := LintRow(rows[i], hasDateColumn, today, maxAge);
      if finding.Some? {
        findings := findings + [finding.value];
      }
      FlaggedRulesSnoc(rows, i, hasDateColumn, today, maxAge);
      i := i + 1;
    }
    assert rows[..i] == rows;
    return Report(findings);
  }

  // ---------------------------------------------------------------------
  // The ANY test

  /**
    A value is ANY exactly when it is one of the ANY values in some mix of
    letter cases, padded with whitespace.
   */
  lemma IsAnyIff(s: string)
    ensures IsAny(Some(s)) <==> exists w1, t, w2 :: s == w1 + t + w2 && AllSpace(w1) && AllSpace(w2) && Lower(t) in AnyValues
  {
    NormalizeIn(s, AnyValues);
  }

  /** Text already stripped and without capitals is ANY exactly when it is one of the ANY values. */
  lemma IsAnyPlain(v: string)
    requires v == [] || (!IsSpace(v[0]) && !IsSpace(v[|v| - 1]))
    requires forall i :: 0 <= i < |v| ==> !('A' <= v[i] <= 'Z')
    ensures IsAny(Some(v)) <==> v in AnyValues
  {
    TrimNoPadding(v);
    LowerNoCapitals(v);
  }

  lemma IsAnyExamples()
    ensures IsAny(Some("0.0.0.0/0")) && IsAny(Some("::/0"))
    ensures !IsAny(Some("10.0.0.0/8")) && !IsAny(None) && !IsAny(Some(""))
  {
    IsAnyPlain("0.0.0.0/0");
    IsAnyPlain("::/0");
    IsAnyPlain("10.0.0.0/8");
    IsAnyPlain("");
  }

  lemma IsAnyPaddedExample()
    ensures IsAny(Some(" ANY "))
  {
    assert " ANY " == " " + Upper("any") + " ";
    NormalizePaddedUpper(" ", "any", " ");
    IsAnyPlain("any");
  }

  // ---------------------------------------------------------------------
  // The port classifier

  /** A missing, blank, `any` or `*` port is wide, in any letter case and with any padding. */
  lemma PortWildcardWide(w1: string, t: string, w2: string)
    requires AllSpace(w1) && AllSpace(w2)
    requires Lower(t) in {"", "any", "*"}
    ensures PortIsWide(None)
    ensures PortIsWide(Some(w1 + t + w2))
  {
    hide RangeIsWide, ListIsWide;
    var s := w1 + t + w2;
    if t == "" {
      TrimPadding(w1, "", w2);
      assert w1 + "" + w2 == s;
    } else {
      NormalizeIn(s, {"any", "*"});
    }
  }

  lemma LowerAnyExample()
    ensures Lower("aNy") == "any"
  {
    assert Lower("aNy")[1] == 'n';
  }

  /** Whitespace around a port specification never changes whether it is wide. */
  lemma PortPadding(w1: string, s: string, w2: string)
    requires AllSpace(w1) && AllSpace(w2)
    ensures PortIsWide(Some(w1 + s + w2)) == PortIsWide(Some(s))
  {
    hide RangeIsWide, ListIsWide;
    TrimPadding(w1, s, w2);
  }

  /** `" 022 "` is the narrow port 22, and `+5` is the narrow port 5. */
  lemma PortSignedPaddedExample()
    ensures !PortIsWide(Some(" 022 ")) && !PortIsWide(Some("+5"))
  {
    hide PortIsWide;
    PortPadding(" ", "022", " ");
    assert " " + "022" + " " == " 022 ";
    PortCharsPlain("022");
    PortSingleToken("022");
    assert ParseTrimmedInt("022").Some?;
    assert PlainPort("+5");
    PortSingleToken("+5");
    assert ParseTrimmedInt("+5").Some?;
  }

  /** `" aNy "` is a wildcard port. */
  lemma PortMixedCaseExample()
    ensures PortIsWide(Some(" aNy "))
  {
    hide PortIsWide, Normalize, Trim, Lower;
    LowerAnyExample();
    PortWildcardWide(" ", "aNy", " ");
    assert " " + "aNy" + " " == " aNy ";
  }

  /**
    Text without padding, capitals or a wildcard value: `port_is_wide`
    normalises it to itself and sends it to its branch as it is.
   */
  predicate PlainPort(s: string) {
    && s != [] && !IsSpace(s[0]) && !IsSpace(s[|s| - 1])
    && (forall i :: 0 <= i < |s| ==> !('A' <= s[i] <= 'Z'))
    && s != "any" && s != "*"
  }

  lemma PortTextBranch(s: string)
    requires PlainPort(s)
    ensures PortIsWide(Some(s)) <==>
      if '-' in s then RangeIsWide(s) else if ',' in s then ListIsWide(s) else ParseInt(s).None?
  {
    hide RangeIsWide, ListIsWide, ParseInt;
    TrimNoPadding(s);
    LowerNoCapitals(s);
  }

  /** Text made of digits, `-` and `,` only, as numeric port specifications are. */
  predicate PortChars(s: string) {
    forall i :: 0 <= i < |s| ==> IsDigit(s[i]) || s[i] == '-' || s[i] == ','
  }

  lemma PortCharsPlain(s: string)
    requires s != [] && PortChars(s)
    ensures PlainPort(s)
  {
    assert !IsSpace(s[0]) && !IsSpace(s[|s| - 1]);
    assert s[0] != 'a' && s[0] != '*';
  }

  /** A single token, neither a range nor a list, is narrow exactly when it is an integer. */
  lemma PortSingleToken(s: string)
    requires PlainPort(s) && '-' !in s && ',' !in s
    ensures PortIsWide(Some(s)) <==> ParseInt(s).None?
  {
    PortTextBranch(s);
  }

  lemma PortTokenExamples()
    ensures !PortIsWide(Some("22")) && PortIsWide(Some(" * "))
  {
    hide PortIsWide;
    PortSingleNumber(22);
    assert IntToString(22) == "22";
    LowerNoCapitals("*");
    PortWildcardWide(" ", "*", " ");
    assert " " + "*" + " " == " * ";
  }

  lemma PortWordExample()
    ensures PortIsWide(Some("abc"))
  {
    hide PortIsWide;
    assert PlainPort("abc");
    PortSingleToken("abc");
    TrimNoPadding("abc");
    assert ParseTrimmedInt("abc") == None;
  }

  /** The text of a number: digits, after a `-` when it is negative. */
  lemma NumberText(n: int)
    ensures IntToString(n) != [] && PortChars(IntToString(n)) && ',' !in IntToString(n)
    ensures n >= 0 ==> '-' !in IntToString(n)
    ensures n < 0 ==> IntToString(n)[0] == '-'
  {
    var d := NatToString(if n < 0 then -n else n);
    if n < 0 {
      assert IntToString(n) == "-" + d;
    }
  }

  /** A single number is a narrow port when it is non-negative; `-5` reads as a range with no start and is wide. */
  lemma PortSingleNumber(n: int)
    ensures PortIsWide(Some(IntToString(n))) <==> n < 0
  {
    var s := IntToString(n);
    NumberText(n);
    PortCharsPlain(s);
    PortTextBranch(s);
    if n >= 0 {
      ParseIntToString(n);
    } else {
      assert IndexOf(s, '-') == 0;
      assert Trim(s[..0]) == "";
    }
  }

  lemma TrimParse(s: string)
    ensures ParseInt(Trim(s)) == ParseInt(s)
  {
    TrimSpec(s);
    TrimNoPadding(Trim(s));
  }

  /** The range branch on `a-b` for two numbers. */
  lemma RangeNumbers(a: nat, b: int)
    ensures '-' in NatToString(a) + "-" + IntToString(b)
    ensures RangeIsWide(NatToString(a) + "-" + IntToString(b)) <==> b - a >= 1000 || (a == 0 && b == 65535)
  {
    var da, db := NatToString(a), IntToString(b);
    var s := da + "-" + db;
    NumberText(a);
    IndexOfJoin(da, '-', db);
    assert s[..|da|] == da && s[|da| + 1..] == db;
    TrimParse(da);
    TrimParse(db);
    ParseIntToString(a);
    ParseIntToString(b);
  }

  lemma PortCharsConcat(x: string, y: string)
    requires PortChars(x) && PortChars(y)
    ensures PortChars(x + y)
  {
  }

  /** A range `a-b` of two numbers is wide exactly when it spans 1000 ports or more, or is `0-65535`. */
  lemma PortRangeNumbers(a: nat, b: int)
    ensures PortIsWide(Some(NatToString(a) + "-" + IntToString(b))) <==> b - a >= 1000 || (a == 0 && b == 65535)
  {
    hide RangeIsWide, ListIsWide, NatToString, IntToString, ParseInt;
    var s := NatToString(a) + "-" + IntToString(b);
    NumberText(a);
    NumberText(b);
    RangeNumbers(a, b);
    assert PortChars("-");
    PortCharsConcat(NatToString(a), "-");
    PortCharsConcat(NatToString(a) + "-", IntToString(b));
    PortCharsPlain(s);
    PortTextBranch(s);
  }

  /** The texts of the numbers in the range examples. */
  lemma SmallNumberTexts()
    ensures NatToString(0) == "0" && NatToString(1) == "1" && IntToString(5) == "5"
  {
  }

  lemma ThousandTexts()
    ensures NatToString(1000) == "1000" && IntToString(2000) == "2000"
  {
    assert NatToString(1) == "1" && NatToString(2) == "2";
    assert NatToString(10) == "10" && NatToString(20) == "20";
    assert NatToString(100) == "100" && NatToString(200) == "200";
  }

  lemma PortTextFull()
    ensures IntToString(65535) == "65535"
  {
    assert NatToString(6) == "6";
    assert NatToString(65) == "65";
    assert NatToString(655) == "655";
    assert NatToString(6553) == "6553";
  }

  lemma PortRangeNarrowExample()
    ensures !PortIsWide(Some("1-5"))
  {
    hide PortIsWide, NatToString, IntToString;
    PortRangeNumbers(1, 5);
    SmallNumberTexts();
    assert NatToString(1) + "-" + IntToString(5) == "1-5";
  }

  lemma PortRangeFullExample()
    ensures PortIsWide(Some("0-65535"))
  {
    hide PortIsWide, NatToString, IntToString;
    PortRangeNumbers(0, 65535);
    SmallNumberTexts();
    PortTextFull();
    assert NatToString(0) + "-" + IntToString(65535) == "0-65535";
  }

  lemma PortRangeSpanExample()
    ensures PortIsWide(Some("1000-2000"))
  {
    hide PortIsWide, NatToString, IntToString;
    PortRangeNumbers(1000, 2000);
    ThousandTexts();
    assert NatToString(1000) + "-" + IntToString(2000) == "1000-2000";
  }

  /** A range whose start or end, either side of the first `-`, is not an integer is wide. */
  lemma RangeUnreadable(p: string)
    requires '-' in p
    requires ParseInt(Trim(p[..IndexOf(p, '-')])).None? || ParseInt(Trim(p[IndexOf(p, '-') + 1..])).None?
    ensures RangeIsWide(p)
  {
  }

  /** A range whose end is not an integer is wide. */
  lemma PortRangeUnreadable()
    ensures PortIsWide(Some("1-2-3"))
  {
    hide PortIsWide, RangeIsWide;
    PortCharsPlain("1-2-3");
    PortTextBranch("1-2-3");
    assert IndexOf("1-2-3", '-') == 1;
    assert "1-2-3"[2..] == "2-3";
    TrimNoPadding("2-3");
    assert ParseTrimmedInt("2-3") == None;
    RangeUnreadable("1-2-3");
  }

  /** A `-` takes priority over a `,`: `1-5,7` is a range whose end `5,7` is not an integer. */
  lemma PortRangeBeforeList()
    ensures PortIsWide(Some("1-5,7"))
  {
    hide PortIsWide, RangeIsWide;
    PortCharsPlain("1-5,7");
    PortTextBranch("1-5,7");
    assert IndexOf("1-5,7", '-') == 1;
    assert "1-5,7"[2..] == "5,7";
    TrimNoPadding("5,7");
    assert ParseTrimmedInt("5,7") == None;
    RangeUnreadable("1-5,7");
  }

  /** Non-empty text without whitespace at either end: what `strip()` leaves unchanged. */
  predicate Unpadded(s: string) {
    s != [] && !IsSpace(s[0]) && !IsSpace(s[|s| - 1])
  }

  /** Parts that are already stripped and non-blank are kept as they are. */
  lemma {:induction false} StrippedPartsAll(parts: seq<string>)
    requires forall k :: 0 <= k < |parts| ==> Unpadded(parts[k])
    ensures StrippedParts(parts) == parts
  {
    if parts != [] {
      var p, x := parts[..|parts| - 1], parts[|parts| - 1];
      assert Unpadded(x);
      TrimNoPadding(x);
      assert forall k :: 0 <= k < |p| ==> Unpadded(p[k]) by {
        forall k | 0 <= k < |p| ensures Unpadded(p[k]) { assert p[k] == parts[k]; }
      }
      StrippedPartsAll(p);
      hide Unpadded, Trim;
      assert p + [x] == parts;
    }
  }

  /** The numbers `ns` written as a comma-separated list. */
  function NumberList(ns: seq<nat>): (s: string)
    requires |ns| >= 1
  {
    Join(seq(|ns|, k requires 0 <= k < |ns| => NatToString(ns[k])), ',')
  }

  lemma {:induction false} StrippedPartsConcat(a: seq<string>, b: seq<string>)
    ensures StrippedParts(a + b) == StrippedParts(a) + StrippedParts(b)
    decreases |b|
  {
    if b == [] {
      assert a + b == a;
    } else {
      var n := |b| - 1;
      assert (a + b)[..|a + b| - 1] == a + b[..n];
      StrippedPartsConcat(a, b[..n]);
    }
  }

  /** A lone blank entry leaves nothing. */
  lemma StrippedPartsBlankOne(w: string)
    requires AllSpace(w)
    ensures StrippedParts([w]) == []
  {
    TrimPadding(w, "", "");
    assert w + "" + "" == w;
    assert [w][..0] == [];
  }

  /** A blank entry anywhere in a list is dropped. */
  lemma StrippedPartsBlank(a: seq<string>, w: string, b: seq<string>)
    requires AllSpace(w)
    ensures StrippedParts(a + [w] + b) == StrippedParts(a + b)
  {
    StrippedPartsConcat(a + [w], b);
    StrippedPartsConcat(a, [w]);
    StrippedPartsConcat(a, b);
    StrippedPartsBlankOne(w);
  }

  /** The list branch counts the entries of a list of stripped tokens, whatever the tokens are. */
  lemma ListTokens(parts: seq<string>)
    requires |parts| >= 1
    requires forall k :: 0 <= k < |parts| ==> Unpadded(parts[k]) && ',' !in parts[k]
    ensures ListIsWide(Join(parts, ',')) <==> |parts| >= 20
  {
    SplitJoin(parts, ',');
    StrippedPartsAll(parts);
  }

  lemma ListNumbers(ns: seq<nat>)
    requires |ns| >= 1
    ensures ListIsWide(NumberList(ns)) <==> |ns| >= 20
  {
    var parts := seq(|ns|, k requires 0 <= k < |ns| => NatToString(ns[k]));
    forall k | 0 <= k < |parts|
      ensures Unpadded(parts[k]) && ',' !in parts[k]
    {
      var d := parts[k];
      assert IsDigit(d[0]) && IsDigit(d[|d| - 1]);
    }
    ListTokens(parts);
  }

  /** A list of two or more numbers is wide exactly when it has 20 entries or more. */
  lemma PortList(ns: seq<nat>)
    requires |ns| >= 2
    ensures PortIsWide(Some(NumberList(ns))) <==> |ns| >= 20
  {
    hide ListIsWide;
    var parts := seq(|ns|, k requires 0 <= k < |ns| => NatToString(ns[k]));
    var s := NumberList(ns);
    JoinChars(parts, ',', c => IsDigit(c) || c == ',');
    JoinEnds(parts, ',');
    assert s == parts[0] + [','] + Join(parts[1..], ',');
    assert s[|parts[0]|] == ',';
    assert '-' !in s;
    PortCharsPlain(s);
    PortTextBranch(s);
    ListNumbers(ns);
  }

  // ---------------------------------------------------------------------
  // One rule

  /** The issues of a rule come in the fixed order of the checks, each at most once. */
  function Rank(issue: Issue): nat {
    match issue
    case SourceIsAny => 0
    case DestinationIsAny => 1
    case WidePort(_) => 2
    case MissingOwner => 3
    case MissingComment => 4
    case RuleIsOld(_, _) => 5
    case MissingDate => 5
  }

  /** Six pieces of at most one issue each, of ranks 0 to 5, make an ascending sequence. */
  lemma RankedPieces(p0: seq<Issue>, p1: seq<Issue>, p2: seq<Issue>, p3: seq<Issue>, p4: seq<Issue>, p5: seq<Issue>)
    requires |p0| <= 1 && forall i :: 0 <= i < |p0| ==> Rank(p0[i]) == 0
    requires |p1| <= 1 && forall i :: 0 <= i < |p1| ==> Rank(p1[i]) == 1
    requires |p2| <= 1 && forall i :: 0 <= i < |p2| ==> Rank(p2[i]) == 2
    requires |p3| <= 1 && forall i :: 0 <= i < |p3| ==> Rank(p3[i]) == 3
    requires |p4| <= 1 && forall i :: 0 <= i < |p4| ==> Rank(p4[i]) == 4
    requires |p5| <= 1 && forall i :: 0 <= i < |p5| ==> Rank(p5[i]) == 5
    ensures RankedBelow(p0 + p1 + p2 + p3 + p4 + p5, Rank, 6)
  {
    hide RankedBelow;
    RankedEmpty(Rank);
    assert [] + p0 == p0;
    RankedAppend([], Rank, 0, p0);
    RankedAppend(p0, Rank, 1, p1);
    RankedAppend(p0 + p1, Rank, 2, p2);
    RankedAppend(p0 + p1 + p2, Rank, 3, p3);
    RankedAppend(p0 + p1 + p2 + p3, Rank, 4, p4);
    RankedAppend(p0 + p1 + p2 + p3 + p4, Rank, 5, p5);
  }

  lemma IssuesOfOrdered(c: RuleChecks, hasDateColumn: bool, today: int, maxAge: int)
    ensures |IssuesOf(c, hasDateColumn, today, maxAge)| <= 6
    ensures forall i, j :: 0 <= i < j < |IssuesOf(c, hasDateColumn, today, maxAge)| ==>
      Rank(IssuesOf(c, hasDateColumn, today, maxAge)[i]) < Rank(IssuesOf(c, hasDateColumn, today, maxAge)[j])
  {
    RankedPieces(When(c.sourceIsAny, SourceIsAny), When(c.destinationIsAny, DestinationIsAny),
      When(c.portIsWide, WidePort(c.port)), When(c.ownerMissing, MissingOwner),
      When(c.commentMissing, MissingComment), DateIssues(c.dateAdded, hasDateColumn, today, maxAge));
    RankedIncreasing(IssuesOf(c, hasDateColumn, today, maxAge), Rank, 6);
  }

  /** An issue is reported when its own check fails, and only then. */
  lemma IssuesOfMember(c: RuleChecks, hasDateColumn: bool, today: int, maxAge: int, x: Issue)
    ensures x in IssuesOf(c, hasDateColumn, today, maxAge) <==>
      || (c.sourceIsAny && x == SourceIsAny)
      || (c.destinationIsAny && x == DestinationIsAny)
      || (c.portIsWide && x == WidePort(c.port))
      || (c.ownerMissing && x == MissingOwner)
      || (c.commentMissing && x == MissingComment)
      || x in DateIssues(c.dateAdded, hasDateColumn, today, maxAge)
  {
    WhenMember(c.sourceIsAny, SourceIsAny, x);
    WhenMember(c.destinationIsAny, DestinationIsAny, x);
    WhenMember(c.portIsWide, WidePort(c.port), x);
    WhenMember(c.ownerMissing, MissingOwner, x);
    WhenMember(c.commentMissing, MissingComment, x);
    hide DateIssues, When;
  }

  /**
    Every check is applied independently of the others: an issue is
    reported exactly when its own check fails (this lemma and the next
    three), and the wide-port issue quotes the port as the row holds it.
   */
  lemma IssuesOfAddresses(c: RuleChecks, hasDateColumn: bool, today: int, maxAge: int)
    ensures SourceIsAny in IssuesOf(c, hasDateColumn, today, maxAge) <==> c.sourceIsAny
    ensures DestinationIsAny in IssuesOf(c, hasDateColumn, today, maxAge) <==> c.destinationIsAny
  {
    IssuesOfMember(c, hasDateColumn, today, maxAge, SourceIsAny);
    IssuesOfMember(c, hasDateColumn, today, maxAge, DestinationIsAny);
    hide IssuesOf;
  }

  lemma IssuesOfPort(c: RuleChecks, hasDateColumn: bool, today: int, maxAge: int)
    ensures forall p :: WidePort(p) in IssuesOf(c, hasDateColumn, today, maxAge) <==> c.portIsWide && p == c.port
  {
    forall p
      ensures WidePort(p) in IssuesOf(c, hasDateColumn, today, maxAge) <==> c.portIsWide && p == c.port
    {
      IssuesOfMember(c, hasDateColumn, today, maxAge, WidePort(p));
    }
  }

  lemma IssuesOfGovernance(c: RuleChecks, hasDateColumn: bool, today: int, maxAge: int)
    ensures MissingOwner in IssuesOf(c, hasDateColumn, today, maxAge) <==> c.ownerMissing
    ensures MissingComment in IssuesOf(c, hasDateColumn, today, maxAge) <==> c.commentMissing
  {
    IssuesOfMember(c, hasDateColumn, today, maxAge, MissingOwner);
    IssuesOfMember(c, hasDateColumn, today, maxAge, MissingComment);
    hide IssuesOf;
  }

  /**
    The age check: a rule is old exactly when it has a date more than
    `maxAge` days before `today`, and the issue carries the age in days; a
    missing or unreadable date is reported only when the file has a
    `date_added` column.
   */
  lemma IssuesOfDate(c: RuleChecks, hasDateColumn: bool, today: int, maxAge: int)
    ensures forall age, m :: RuleIsOld(age, m) in IssuesOf(c, hasDateColumn, today, maxAge) <==>
      c.dateAdded.Some? && age == today - c.dateAdded.value > maxAge && m == maxAge
    ensures MissingDate in IssuesOf(c, hasDateColumn, today, maxAge) <==> c.dateAdded.None? && hasDateColumn
  {
    forall age, m
      ensures RuleIsOld(age, m) in IssuesOf(c, hasDateColumn, today, maxAge) <==>
        c.dateAdded.Some? && age == today - c.dateAdded.value > maxAge && m == maxAge
    {
      IssuesOfMember(c, hasDateColumn, today, maxAge, RuleIsOld(age, m));
    }
    IssuesOfMember(c, hasDateColumn, today, maxAge, MissingDate);
  }

  /** Each issue of a row, and the age it reports, against the check on its fields. */
  lemma RuleIssuesChecks(row: Row, hasDateColumn: bool, today: int, maxAge: int)
    ensures SourceIsAny in RuleIssues(row, hasDateColumn, today, maxAge) <==> IsAny(Source(row))
    ensures DestinationIsAny in RuleIssues(row, hasDateColumn, today, maxAge) <==> IsAny(Destination(row))
    ensures WidePort(Port(row)) in RuleIssues(row, hasDateColumn, today, maxAge) <==> PortIsWide(Port(row))
    ensures MissingOwner in RuleIssues(row, hasDateColumn, today, maxAge) <==> Owner(row) == ""
    ensures MissingComment in RuleIssues(row, hasDateColumn, today, maxAge) <==> Comment(row) == ""
    ensures forall age, m :: RuleIsOld(age, m) in RuleIssues(row, hasDateColumn, today, maxAge) <==>
      DateAdded(row).Some? && age == today - DateAdded(row).value > maxAge && m == maxAge
    ensures MissingDate in RuleIssues(row, hasDateColumn, today, maxAge) <==> DateAdded(row).None? && hasDateColumn
  {
    hide IsAny, PortIsWide;
    IssuesOfAddresses(Checks(row), hasDateColumn, today, maxAge);
    IssuesOfPort(Checks(row), hasDateColumn, today, maxAge);
    IssuesOfGovernance(Checks(row), hasDateColumn, today, maxAge);
    IssuesOfDate(Checks(row), hasDateColumn, today, maxAge);
  }

  /** The age limit is strict: a rule exactly `maxAge` days old is not old. */
  lemma RuleAgeBoundary(c: RuleChecks, hasDateColumn: bool, today: int, maxAge: int)
    requires c.dateAdded == Some(today - maxAge)
    ensures forall age, m :: RuleIsOld(age, m) !in IssuesOf(c, hasDateColumn, today, maxAge)
    ensures MissingDate !in IssuesOf(c, hasDateColumn, today, maxAge)
  {
    IssuesOfDate(c, hasDateColumn, today, maxAge);
  }

  /** A `date_added` in the ISO form is read as that date. */
  lemma DateAddedIso(row: Row, y: nat, m: nat, d: nat)
    requires ValidDate(y, m, d)
    requires "date_added" in row && row["date_added"] == Some(FormatIsoDate(y, m, d))
    ensures DateAdded(row) == Some(Ordinal(y, m, d))
  {
    ParseFormattedDate(y, m, d);
  }

  /** A rule added on an ISO date more than `maxAge` days before `today` is reported old. */
  lemma RuleOldOnIsoDate(row: Row, y: nat, m: nat, d: nat, hasDateColumn: bool, today: int, maxAge: int)
    requires ValidDate(y, m, d)
    requires "date_added" in row && row["date_added"] == Some(FormatIsoDate(y, m, d))
    requires today - Ordinal(y, m, d) > maxAge
    ensures RuleIsOld(today - Ordinal(y, m, d), maxAge) in RuleIssues(row, hasDateColumn, today, maxAge)
  {
    hide IsAny, PortIsWide, DateAdded;
    DateAddedIso(row, y, m, d);
    IssuesOfDate(Checks(row), hasDateColumn, today, maxAge);
  }

  // ---------------------------------------------------------------------
  // All rules

  /** The findings of consecutive blocks of rows are consecutive blocks of findings. */
  lemma FlaggedRulesConcat(a: seq<Row>, b: seq<Row>, hasDateColumn: bool, today: int, maxAge: int)
    ensures FlaggedRules(a + b, hasDateColumn, today, maxAge) == FlaggedRules(a, hasDateColumn, today, maxAge) + FlaggedRules(b, hasDateColumn, today, maxAge)
  {
    CollectConcat(a, b, RuleFindingOf(hasDateColumn, today, maxAge));
  }

  /** Every rule with issues is reported, with its id, its issues and its row. */
  lemma FlaggedRulesComplete(rows: seq<Row>, hasDateColumn: bool, today: int, maxAge: int, i: nat)
    requires i < |rows| && RuleIssues(rows[i], hasDateColumn, today, maxAge) != []
    ensures Finding(RuleId(rows[i]), RuleIssues(rows[i], hasDateColumn, today, maxAge), rows[i]) in FlaggedRules(rows, hasDateColumn, today, maxAge)
  {
    CollectComplete(rows, RuleFindingOf(hasDateColumn, today, maxAge), i);
  }

  /** Every finding is the report of one of the rows, with that row's id and its issues, which are not empty. */
  lemma FlaggedRulesSound(rows: seq<Row>, hasDateColumn: bool, today: int, maxAge: int, f: Finding) returns (i: nat)
    requires f in FlaggedRules(rows, hasDateColumn, today, maxAge)
    ensures i < |rows| && f == Finding(RuleId(rows[i]), RuleIssues(rows[i], hasDateColumn, today, maxAge), rows[i])
    ensures f.issues != []
  {
    i := CollectSound(rows, RuleFindingOf(hasDateColumn, today, maxAge), f);
  }

  /** The linter stops with 2 on a missing column, and otherwise exits 1 exactly when some rule has an issue. */
  lemma ExitCodeIff(fieldnames: seq<string>, rows: seq<Row>, today: int, maxAge: int)
    ensures ExitCode(Lint(fieldnames, rows, today, maxAge)) == 2 <==> !(RequiredColumns <= set f | f in fieldnames)
    ensures ExitCode(Lint(fieldnames, rows, today, maxAge)) == 1 <==>
      RequiredColumns <= (set f | f in fieldnames) &&
      exists i :: 0 <= i < |rows| && RuleFinding(rows[i], "date_added" in fieldnames, today, maxAge).Some?
  {
    var missing := MissingColumns(RequiredColumns, fieldnames);
    assert missing == {} <==> RequiredColumns <= set f | f in fieldnames;
    CollectEmpty(rows, RuleFindingOf("date_added" in fieldnames, today, maxAge));
  }

  /** A rule with an ANY source, no owner and no comment, in a file with no `date_added` column. */
  const OpenRule: Row := map["rule_id" := Some(" R1 "), "src" := Some("any"), "dst" := Some("10.0.0.5"),
                             "port" := Some("22"), "protocol" := Some("tcp"), "action" := Some("allow")]

  lemma OpenRuleAddresses()
    ensures IsAny(Source(OpenRule)) && !IsAny(Destination(OpenRule))
  {
    assert Source(OpenRule) == Some("any") && Destination(OpenRule) == Some("10.0.0.5");
    hide Source, Destination;
    IsAnyPlain("any");
    IsAnyPlain("10.0.0.5");
  }

  lemma OpenRulePort()
    ensures Port(OpenRule) == Some("22") && !PortIsWide(Port(OpenRule))
  {
    assert Port(OpenRule) == Some("22");
    hide Port, PortIsWide;
    PortSingleNumber(22);
    assert IntToString(22) == "22";
  }

  lemma OpenRuleFields()
    ensures Owner(OpenRule) == "" && Comment(OpenRule) == "" && DateAdded(OpenRule) == None
  {
  }

  lemma OpenRuleChecks()
    ensures Checks(OpenRule) == RuleChecks(true, false, Some("22"), false, true, true, None)
  {
    OpenRuleAddresses();
    OpenRulePort();
    OpenRuleFields();
    hide IsAny, PortIsWide, Source, Destination, Port, Owner, Comment, DateAdded;
  }

  lemma OpenRuleId()
    ensures RuleId(OpenRule) == "R1"
  {
    assert Trim(" R1 ") == "R1" by {
      assert " R1 " == " " + "R1" + " ";
      TrimNoPadding("R1");
      TrimPadding(" ", "R1", " ");
    }
  }

  /** Without a `date_added` column the rule is not checked for age. */
  lemma OpenRuleIssues(today: int, maxAge: int)
    ensures RuleIssues(OpenRule, false, today, maxAge) == [SourceIsAny, MissingOwner, MissingComment]
  {
    OpenRuleChecks();
    hide Checks;
    assert RuleIssues(OpenRule, false, today, maxAge) == [SourceIsAny] + [] + [] + [MissingOwner] + [MissingComment] + [];
  }

  lemma OpenRuleExample(today: int, maxAge: int)
    ensures Lint(["rule_id", "src", "dst", "port", "protocol", "action"], [OpenRule], today, maxAge)
      == Report([Finding("R1", [SourceIsAny, MissingOwner, MissingComment], OpenRule)])
  {
    OpenRuleIssues(today, maxAge);
    OpenRuleId();
    hide RuleIssues, RuleId;
    var fieldnames := ["rule_id", "src", "dst", "port", "protocol", "action"];
    assert MissingColumns(RequiredColumns, fieldnames) == {};
    assert "date_added" !in fieldnames;
    assert RuleFinding(OpenRule, false, today, maxAge) == Some(Finding("R1", [SourceIsAny, MissingOwner, MissingComment], OpenRule));
    assert [OpenRule][..0] == [];
  }
}
