# Security audit tools, modelled in Dafny

The repository holds three command-line audit scripts. Each wraps a small,
deterministic record classifier in CSV or JSON input and output:

- `tools/firewall_linter.py` reads a CSV of firewall rules. It flags each
  rule that has any of these issues:
  - an ANY source or destination;
  - a wide or unreadable port specification;
  - a missing owner or comment;
  - an old or missing `date_added`.
- `tools/iam_review.py` reads a CSV export of IAM accounts. It skips
  accounts that are not active and flags each active one for:
  - privileged access;
  - inactivity, or a missing last login;
  - a service account without an owner;
  - a username that looks shared.
- `tools/vuln_to_risk_report.py` reads a JSON list of vulnerability findings.
  It writes a report with these sections, in this order:
  1. the total;
  2. the counts by severity, ranked;
  3. the ten most severe findings;
  4. the ten most common root causes;
  5. the counts by asset.

The model keeps each classifier and its exit decision. A CSV row or a JSON
object is a `map<string, Option<string>>`, where `None` is Python's `None`.
A date is its proleptic Gregorian ordinal, and `today` is a parameter.

## Modules

- **Text** models Python's string operations:
  - `str.strip` with exactly the characters `str.isspace` accepts;
  - ASCII `str.lower`;
  - the substring test `in`;
  - `str.split` and `str.index`;
  - `int()` and `str()` on integers;
  - string order.
- **Dates** models `parse_date`: `strptime(s, "%Y-%m-%d")` on the stripped
  text, with the field patterns CPython's `_strptime` compiles, followed by
  `date.toordinal()`.
- **Records** models `dict.get` and `x or default`.
- **Seqs** holds the filtered, in-order collection of a loop's results.
- **Sorting** models Python's stable `sorted`, as an insertion sort on a key
  `(int, string)`, and slicing `[:n]`.
- **Grouping** models `defaultdict(list)` and `Counter`. Both are
  insertion-ordered dictionaries, modelled as sequences of entries.
- **FirewallLinter**, **IamReview** and **VulnToRiskReport** model the three
  tools.

Each row loop is a method with a `while` loop. Each loop is proved equal to
a function that states what the loop computes. The lemmas state the
properties of those functions.

Four behaviours of the code are easy to misread; the model follows the
code:

- The report tool writes an empty report when the `findings` key is
  absent. Only a value that is not a list is an error.
- The severity breakdown is sorted by rank alone. Labels of equal rank keep
  the order in which they were first seen; they are not ordered by label.
- Severity and root-cause labels are lower-cased but not stripped. So
  `" high"` and `"high"` are counted apart, though both rank as `high`.
- The firewall port list drops blank entries before it counts.

## Model

| member | source | states |
|---|---|---|
| Text.NormalizeIn | tools/firewall_linter.py:59-60 | `(s or "").strip().lower() in values` holds exactly when `s` is a value in some mix of letter cases, padded with whitespace |
| Text.TrimSpec | tools/firewall_linter.py:35 | `strip()` leaves no whitespace at either end and does not lengthen the text |
| Text.TrimPadding | tools/firewall_linter.py:35 | whitespace added at either end does not change what `strip()` returns |
| Text.ContainsOccurrence | tools/iam_review.py:79 | `sub in s` holds exactly when `sub` occurs in `s` at some position |
| Text.SplitJoin | tools/firewall_linter.py:48 | splitting at the separator recovers the parts that were joined with it, when no part contains it |
| Text.ParseIntToString | tools/firewall_linter.py:52-54 | `int()` reads back every integer `str()` prints, negative ones included |
| Text.IndexOfSpec | tools/firewall_linter.py:41 | the position where `split("-", 1)` cuts holds a `-`, and no `-` comes before it |
| Dates.ParseFields | tools/firewall_linter.py:23-30 | every text of the `YYYY-MM-DD` shape parses to the date's ordinal exactly when it names a real date, so `2023-02-29`, `2024-13-05`, `2024-01-00` and `0000-01-01` give `None` |
| Dates.Pad2Month | tools/firewall_linter.py:28 | two digits are a month `%m` accepts exactly when they name 1 to 12, and they are read as that month |
| Dates.Pad2Day | tools/firewall_linter.py:28 | two digits are a day `%d` accepts exactly when they name 1 to 31, and they are read as that day |
| Dates.ParseFormattedDate | tools/iam_review.py:21-28 | `parse_date` reads back every valid date written in the ISO form |
| Dates.ParseDateBlank | tools/iam_review.py:22-24 | a missing or blank value is no date |
| Dates.OrdinalNextDay | tools/firewall_linter.py:116 | `(today - d).days` counts days: the calendar day after a date has the next ordinal, across month and year ends and leap years |
| Sorting.StableSort | tools/vuln_to_risk_report.py:44 | `sorted` returns a key-ordered permutation of its input, and the elements of each key keep their input order |
| Sorting.StableSortKeepsOrder | tools/vuln_to_risk_report.py:44 | `sorted` is stable: elements with equal keys keep their input order |
| Sorting.SortedTakeBest | tools/vuln_to_risk_report.py:44 | `sorted(...)[:n]` keeps `n` of the elements, and no element left out sorts before one that is kept |
| Sorting.StableSortSorted | tools/vuln_to_risk_report.py:56 | sorting a sequence already in key order leaves it unchanged |
| Grouping.GroupBy | tools/vuln_to_risk_report.py:47-49 | each key has one entry, the entry holds exactly the elements with that key in input order, and a key has an entry exactly when some element has it |
| Grouping.GroupByOrder | tools/vuln_to_risk_report.py:47-49 | the entries are in the order in which their keys are first seen |
| Grouping.AddToNew | tools/vuln_to_risk_report.py:49 | `by_asset[k].append(x)` for a new key adds the entry `(k, [x])` last |
| Grouping.AddToExisting | tools/vuln_to_risk_report.py:49 | `by_asset[k].append(x)` for a key seen before appends `x` to its entry and changes no other entry |
| Grouping.CountsTotal | tools/vuln_to_risk_report.py:40 | the counts of a `Counter` add up to the number of elements counted |
| FirewallLinter.IsAnyIff | tools/firewall_linter.py:59-60 | `is_any` holds exactly when the value is one of the ANY values in some mix of letter cases, padded with whitespace |
| FirewallLinter.IsAnyPlain | tools/firewall_linter.py:20 | text without padding or capitals is ANY exactly when it is one of `any`, `0.0.0.0/0`, `::/0`, `*` |
| FirewallLinter.IsAnyExamples | tools/firewall_linter.py:59-60 | `0.0.0.0/0` and `::/0` are ANY; `10.0.0.0/8`, a missing value and an empty one are not |
| FirewallLinter.IsAnyPaddedExample | tools/firewall_linter.py:59-60 | `" ANY "` is ANY |
| FirewallLinter.PortWildcardWide | tools/firewall_linter.py:35-37 | a missing port is wide, and so is any text that lower-cases to blank, `any` or `*`, whatever its letter case and whitespace padding |
| FirewallLinter.PortPadding | tools/firewall_linter.py:35 | whitespace around any port specification never changes whether it is wide, since it is stripped first |
| FirewallLinter.PortSignedPaddedExample | tools/firewall_linter.py:35-56 | `" 022 "` and `+5` are narrow, as `int()` reads them |
| FirewallLinter.PortMixedCaseExample | tools/firewall_linter.py:35-37 | `" aNy "` is wide |
| FirewallLinter.PortTextBranch | tools/firewall_linter.py:39-56 | a port text with a `-` is judged as a range only, otherwise one with a `,` as a list only, otherwise as a single port |
| FirewallLinter.PortSingleToken | tools/firewall_linter.py:51-56 | a single token is wide exactly when it is not an integer |
| FirewallLinter.PortSingleNumber | tools/firewall_linter.py:39-56 | a number is a narrow port when it is non-negative; `-5` is a range with no start, so it is wide |
| FirewallLinter.PortTokenExamples | tools/firewall_linter.py:33-56 | `22` is narrow and `" * "` is wide |
| FirewallLinter.PortWordExample | tools/firewall_linter.py:52-56 | `abc` is wide |
| FirewallLinter.PortRangeNumbers | tools/firewall_linter.py:39-43 | a range `a-b` of a non-negative start and an integer end is wide exactly when `b - a >= 1000` or it is `0-65535` |
| FirewallLinter.RangeUnreadable | tools/firewall_linter.py:40-45 | a range whose start or end, either side of the first `-`, is not an integer is wide |
| FirewallLinter.PortRangeNarrowExample | tools/firewall_linter.py:43 | `1-5` is narrow |
| FirewallLinter.PortRangeFullExample | tools/firewall_linter.py:43 | `0-65535` is wide |
| FirewallLinter.PortRangeSpanExample | tools/firewall_linter.py:43 | `1000-2000` is wide |
| FirewallLinter.PortRangeUnreadable | tools/firewall_linter.py:41-45 | `1-2-3` is wide, because its end `2-3` is not an integer |
| FirewallLinter.PortRangeBeforeList | tools/firewall_linter.py:39-50 | `1-5,7` is judged as a range, not as a list, and is wide |
| FirewallLinter.StrippedParts | tools/firewall_linter.py:48 | every kept entry is stripped and non-blank, and there are no more entries than parts |
| FirewallLinter.StrippedPartsAll | tools/firewall_linter.py:48 | entries that are already stripped and non-blank are kept as they are |
| FirewallLinter.StrippedPartsBlank | tools/firewall_linter.py:48 | a blank entry anywhere in a list is dropped |
| FirewallLinter.ListTokens | tools/firewall_linter.py:47-50 | a list of stripped entries is wide exactly when it has 20 entries or more, whatever the entries are |
| FirewallLinter.PortList | tools/firewall_linter.py:47-50 | a list of two or more non-negative numbers is wide exactly when it has 20 entries or more |
| FirewallLinter.RuleId | tools/firewall_linter.py:94 | the id is never empty: it is the stripped `rule_id` when that is not blank, and `<no-id>` otherwise |
| Records.MissingColumns | tools/firewall_linter.py:87-88 | a column is missing exactly when it is required and the header lacks it; the IAM review uses the same check at tools/iam_review.py lines 59-60 |
| FirewallLinter.ExitCode | tools/firewall_linter.py:125-137 | the status is 0, 1 or 2, and it is 0 exactly for a report with no findings |
| FirewallLinter.CheckRule | tools/firewall_linter.py:102-120 | appending each issue as its check fails gives the rule's issue list |
| FirewallLinter.LintRow | tools/firewall_linter.py:94-123 | one pass of the loop records the rule's id, issues and row exactly when it has issues |
| FirewallLinter.LintRules | tools/firewall_linter.py:85-123 | the schema check, then the loop, gives the schema error or the findings of every row in row order |
| FirewallLinter.FlaggedRulesSnoc | tools/firewall_linter.py:122-123 | one more row adds its finding, if it has one, at the end |
| FirewallLinter.IssuesOfOrdered | tools/firewall_linter.py:104-120 | a rule has at most six issues, each at most once, in the fixed order of the checks |
| FirewallLinter.IssuesOfMember | tools/firewall_linter.py:104-120 | an issue is reported exactly when its own check fails: no check short-circuits another |
| FirewallLinter.IssuesOfAddresses | tools/firewall_linter.py:104-107 | the ANY-source and ANY-destination issues are reported exactly when their checks fail |
| FirewallLinter.IssuesOfPort | tools/firewall_linter.py:108-109 | the wide-port issue is reported exactly when the port is wide, and it quotes the port as the row holds it |
| FirewallLinter.IssuesOfGovernance | tools/firewall_linter.py:110-113 | the missing-owner and missing-comment issues are reported exactly when the stripped field is empty |
| FirewallLinter.IssuesOfDate | tools/firewall_linter.py:115-120 | a rule is old exactly when its date is more than `maxAge` days before `today`, with that age; a missing or bad date is reported only when the header has a `date_added` column |
| FirewallLinter.RuleIssuesChecks | tools/firewall_linter.py:94-120 | each of the six issues, the old-rule age and limit included, is reported exactly when its check on the row's fields fails |
| FirewallLinter.RuleAgeBoundary | tools/firewall_linter.py:117 | a rule exactly `maxAge` days old is not old |
| FirewallLinter.DateAddedIso | tools/firewall_linter.py:100 | a `date_added` in the ISO form is read as that date |
| FirewallLinter.RuleOldOnIsoDate | tools/firewall_linter.py:100-118 | a rule added on an ISO date more than `maxAge` days before `today` is reported old, with its age |
| FirewallLinter.FlaggedRulesConcat | tools/firewall_linter.py:93-123 | the findings of consecutive blocks of rows are consecutive blocks of findings |
| FirewallLinter.FlaggedRulesComplete | tools/firewall_linter.py:122-123 | every rule with issues is reported, with its id, its issues and its row |
| FirewallLinter.FlaggedRulesSound | tools/firewall_linter.py:122-123 | every finding is the report of one row, with that row's id and non-empty issues |
| FirewallLinter.ExitCodeIff | tools/firewall_linter.py:87-137 | the status is 2 exactly when a required column is missing, and otherwise 1 exactly when some rule has an issue |
| FirewallLinter.OpenRuleAddresses | tools/firewall_linter.py:95-96 | in the example rule the source `any` is ANY and the destination `10.0.0.5` is not |
| FirewallLinter.OpenRulePort | tools/firewall_linter.py:97 | in the example rule the port `22` is narrow |
| FirewallLinter.OpenRuleFields | tools/firewall_linter.py:98-100 | the example rule has no owner, no comment and no date |
| FirewallLinter.OpenRuleChecks | tools/firewall_linter.py:94-100 | the example rule's fields, as the loop reads them |
| FirewallLinter.OpenRuleId | tools/firewall_linter.py:94 | the id `" R1 "` is read as `R1` |
| FirewallLinter.OpenRuleIssues | tools/firewall_linter.py:102-120 | without a `date_added` column the example rule has the ANY-source, missing-owner and missing-comment issues, in that order |
| FirewallLinter.OpenRuleExample | tools/firewall_linter.py:85-123 | the file of that one rule gives exactly that one finding |
| IamReview.AsBoolIff | tools/iam_review.py:31-32 | `as_bool` holds exactly when the value is one of `true`, `1`, `yes`, `y` in some mix of letter cases, padded with whitespace |
| IamReview.AsBoolPlain | tools/iam_review.py:31-32 | text without padding or capitals is true exactly when it is literally one of the true values |
| IamReview.AsBoolExamples | tools/iam_review.py:31-32 | `1` and `y` are true; `no`, an empty value and a missing one are not |
| IamReview.AsBoolPaddedExample | tools/iam_review.py:31-32 | `" YES "` is true |
| IamReview.ExitCode | tools/iam_review.py:98-109 | the status is 0, 1 or 2, and it is 0 exactly for a report with no flagged account |
| IamReview.CheckAccount | tools/iam_review.py:74-93 | appending each reason as its check fails gives the account's reason list |
| IamReview.ReviewAccounts | tools/iam_review.py:57-96 | the schema check, then the loop that skips accounts that are not active, gives the schema error or the flagged accounts in row order |
| IamReview.FlaggedAccountsSnoc | tools/iam_review.py:95-96 | one more row adds its entry, if it has one, at the end |
| IamReview.InactiveSkipped | tools/iam_review.py:76-77 | an account whose status is not `active` adds nothing, whatever its other fields |
| IamReview.ActiveFlagged | tools/iam_review.py:95-96 | an active account is flagged, with its username, reasons and row, exactly when it has a reason |
| IamReview.ReasonsOfOrdered | tools/iam_review.py:79-93 | an account has at most four reasons, each at most once, in the fixed order of the checks |
| IamReview.ReasonsOfFlags | tools/iam_review.py:79-93 | the privileged, service-owner and shared reasons are given exactly when their checks fail |
| IamReview.ReasonsOfLogin | tools/iam_review.py:82-87 | an account is inactive exactly when its last login is `inactiveDays` or more days before `today`, with that age; a missing or bad last login is always reported, whatever the limit |
| IamReview.LoginReasonsMembers | tools/iam_review.py:82-87 | the login check alone gives the inactive reason or the missing-login reason, as above |
| IamReview.InactiveBoundary | tools/iam_review.py:84 | an account exactly `inactiveDays` days out is inactive |
| IamReview.AccountReasonsChecks | tools/iam_review.py:66-93 | each reason is given exactly when its check on the row's fields fails: `is_admin` or an admin role, no last login, an unowned service account, a shared-looking name |
| IamReview.FlaggedAccountsConcat | tools/iam_review.py:65-96 | the flagged accounts of consecutive blocks of rows are consecutive blocks |
| IamReview.InactiveRowIgnored | tools/iam_review.py:76-77 | inserting an account that is not active anywhere in the export changes nothing |
| IamReview.FlaggedAccountsComplete | tools/iam_review.py:95-96 | every active account with a reason is flagged, with its username, reasons and row |
| IamReview.FlaggedAccountsSound | tools/iam_review.py:95-96 | every flagged account is an active row, with that row's username and non-empty reasons |
| IamReview.ExitCodeIff | tools/iam_review.py:59-109 | the status is 2 exactly when a required column is missing, and otherwise 1 exactly when some account is flagged |
| IamReview.ServiceRowNames | tools/iam_review.py:66-71 | the example account's username, role and owner, as the loop reads them |
| IamReview.ServiceRowKinds | tools/iam_review.py:70-72 | the example account is an active service account |
| IamReview.ServiceRowFlags | tools/iam_review.py:68-69 | the example account is not an admin and has no last login |
| IamReview.EngineerNotAdmin | tools/iam_review.py:79 | the role `engineer` does not contain `admin` |
| IamReview.SvcSharedShared | tools/iam_review.py:92 | the username `svc_shared` contains `shared` |
| IamReview.ServiceRowWords | tools/iam_review.py:79-92 | the example account has no admin role and a shared-looking name |
| IamReview.ServiceRowChecks | tools/iam_review.py:66-93 | the outcome of each check on the example account |
| IamReview.ServiceRowFlagged | tools/iam_review.py:74-96 | the example account is flagged for its missing last login, its missing owner and its name, in that order |
| IamReview.ServiceRowReview | tools/iam_review.py:98-109 | the review of that account exits 1 |
| VulnToRiskReport.SevKey | tools/vuln_to_risk_report.py:22-23 | a rank lies between -1 and 4 |
| VulnToRiskReport.SevKeyIff | tools/vuln_to_risk_report.py:19-23 | a label has a known severity's rank exactly when, stripped and lower-cased, it is that severity's name |
| VulnToRiskReport.SevKeyUnranked | tools/vuln_to_risk_report.py:22-23 | any other label, and a missing one, ranks -1, below every known severity |
| VulnToRiskReport.SevKeyHighExamples | tools/vuln_to_risk_report.py:22-23 | `HIGH` and `high` both rank 3 |
| VulnToRiskReport.SevKeyLowExample | tools/vuln_to_risk_report.py:22-23 | `low` ranks 1 |
| VulnToRiskReport.SevKeyUnrankedExamples | tools/vuln_to_risk_report.py:22-23 | `severe`, a missing label and an empty one rank -1 |
| VulnToRiskReport.SeverityLabelSpec | tools/vuln_to_risk_report.py:40 | a missing, `null` or empty severity is labelled `unknown`; any other is lower-cased as it is |
| VulnToRiskReport.RootCauseLabelSpec | tools/vuln_to_risk_report.py:41 | a missing, `null` or empty root cause is labelled `unspecified`; any other is lower-cased as it is |
| VulnToRiskReport.UnstrippedLabel | tools/vuln_to_risk_report.py:40 | `" high"` and `"high"` are different labels with the same rank |
| VulnToRiskReport.AssetKeySpec | tools/vuln_to_risk_report.py:49 | the asset is `unknown` only when the key is absent, so a `null` asset keeps its own key |
| VulnToRiskReport.LabelCounts | tools/vuln_to_risk_report.py:40-41 | each label appears once, with the number of findings that carry it; every finding's label appears; the counts add up to the number of findings |
| VulnToRiskReport.SeverityCountsTotal | tools/vuln_to_risk_report.py:40 | the severity counts add up to the number of findings |
| VulnToRiskReport.RootCauseCountsTotal | tools/vuln_to_risk_report.py:41 | the root-cause counts add up to the number of findings |
| VulnToRiskReport.SortedCountsTies | tools/vuln_to_risk_report.py:56 | counted labels that sort equal keep the order in which they were first seen |
| VulnToRiskReport.BreakdownSpec | tools/vuln_to_risk_report.py:56-57 | the breakdown lists every severity count once, highest rank first, and its counts add up to the number of findings |
| VulnToRiskReport.BreakdownTies | tools/vuln_to_risk_report.py:56 | labels of equal rank keep the order in which they were first seen |
| VulnToRiskReport.TopSelects | tools/vuln_to_risk_report.py:44 | the top holds `min(10, n)` of the findings, and no finding left out sorts before one that is kept |
| VulnToRiskReport.TopOrder | tools/vuln_to_risk_report.py:44 | the top is ordered by rank, highest first, then by title, a missing title counting as empty |
| VulnToRiskReport.TopStable | tools/vuln_to_risk_report.py:44 | findings with the same rank and title keep their input order |
| VulnToRiskReport.MostCommonSelects | tools/vuln_to_risk_report.py:74 | `most_common(n)` keeps `min(n, len)` entries, and no entry left out has a higher count than one kept |
| VulnToRiskReport.MostCommonOrder | tools/vuln_to_risk_report.py:74 | `most_common(n)` lists the highest count first |
| VulnToRiskReport.RootCausesTies | tools/vuln_to_risk_report.py:74 | root causes with equal counts keep the order in which they were first seen |
| VulnToRiskReport.AssetCountsSpec | tools/vuln_to_risk_report.py:79-80 | every asset group is listed once, largest first, and the sizes add up to the number of findings |
| VulnToRiskReport.AssetCountsTies | tools/vuln_to_risk_report.py:79 | assets with equally many findings keep the order in which they were first seen |
| VulnToRiskReport.ExitCode | tools/vuln_to_risk_report.py:36-38 | the status is 0 or 2, and it is 2 exactly when `findings` is not a list |
| VulnToRiskReport.GroupByAsset | tools/vuln_to_risk_report.py:47-49 | the loop appending each finding to its asset's list builds the grouping by asset |
| VulnToRiskReport.SummarizeFindings | tools/vuln_to_risk_report.py:35-81 | the type check, the counters, the sort and the sections appended in order give the report of the findings |
| VulnToRiskReport.SummarizeOutcome | tools/vuln_to_risk_report.py:35-38 | only a `findings` value that is not a list exits 2; a missing one gives the report of no findings; a report has its five sections, the total first |
| VulnToRiskReport.NoFindings | tools/vuln_to_risk_report.py:51-81 | the report of no findings has a total of zero and every other section empty |
| VulnToRiskReport.ExampleSeverityLabels | tools/vuln_to_risk_report.py:40 | in the example, `HIGH` is labelled `high` and `low` is labelled `low` |
| VulnToRiskReport.ExampleTopKeys | tools/vuln_to_risk_report.py:44 | the example findings' sort keys |
| VulnToRiskReport.ExampleSeverityGroups | tools/vuln_to_risk_report.py:40 | the example has one finding of each severity, in the order seen |
| VulnToRiskReport.ExampleSeverityCounts | tools/vuln_to_risk_report.py:40 | the example counts one `high` and one `low` |
| VulnToRiskReport.ExampleBreakdown | tools/vuln_to_risk_report.py:56 | the example's breakdown lists `high` before `low` |
| VulnToRiskReport.ExampleTop | tools/vuln_to_risk_report.py:44 | the example's top lists the high finding before the low one |
| VulnToRiskReport.ExampleAssetGroups | tools/vuln_to_risk_report.py:47-49 | both example findings fall in the group of asset `a1`, in input order |
| VulnToRiskReport.ExampleAssets | tools/vuln_to_risk_report.py:79-80 | the example's asset listing is `a1` with 2 findings |

## Left out

- Argument parsing, the usage messages and the exits for them, the check
  that the input file exists, and the flag values that are not integers.
  These are I/O glue.
- Reading the files. `csv.DictReader` and `json.loads` are not modelled: the
  header and the rows, or the `findings` value, are inputs. Malformed JSON,
  or a top level that is not an object, makes the code crash, so it is not
  modelled.
- JSON values that are not strings or `null`, and findings that are not
  objects. A falsy value such as `false`, `0` or `[]` is read like `null`
  by the `or` defaults of the severity rank, the two labels and the title
  (tools/vuln_to_risk_report.py lines 23, 40, 41 and 44), so the model's
  `None` gives the same result there. As an asset it would stay a key of
  its own, which the model cannot express. A truthy one crashes in
  `.lower()` or `.strip()`, or in the sort when it is compared with a
  string title, or is only printed through `str()`.
- `date.today()`. It is the `today` parameter, an ordinal.
- The printed and written text: the messages, the emoji, the Markdown
  layout, `str.title()` and the context line of each finding. Issues and
  reasons are datatype values, and the report is a sequence of sections.
  The wide-port issue keeps the raw port, as the message quotes it.
- Unicode. `lower()` and `upper()` map ASCII letters only. `strptime` and
  `int()` accept only ASCII digits here, where Python's `\d` and `int()`
  also accept other decimal digits. `int()` also accepts underscores between
  digits; that is not modelled.
- Text.ParseInt: does not refuse texts of more than 4300 digits, as
  CPython 3.11 and later do, because no port number comes near that
  length.
- `strptime`'s `%Y` accepts the year `0000` and `date` then refuses it. The
  model reads every four-digit year and refuses year 0 as an invalid date,
  which gives the same `None`.
- `Counter.most_common(n)` is modelled as a stable sort by descending count
  truncated to `n`. CPython documents that order for ties, and this is what
  its `heapq.nlargest` returns.
- `sorted(..., reverse=True)` on the group size is modelled as a stable
  ascending sort on the negated size. Python keeps equal elements in input
  order in both cases.
