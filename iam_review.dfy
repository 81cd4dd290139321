/**
  The IAM access review: every active account of a CSV export is checked
  for privileged access, inactivity or a missing last login, a service
  account without an owner, and a shared-looking username. An account with
  at least one reason is flagged; accounts whose status is not `active` are
  skipped. The exit status is 2 for a file without the required columns, 1
  when accounts are flagged and 0 otherwise. `today` and the inactivity
  limit are parameters.
 */
module IamReview {
  import opened Wrappers
  import opened Text
  import opened Records
  import opened Dates
  import opened Seqs

  /** The values `as_bool` reads as true. */
  const TrueValues: set<string> := {"true", "1", "yes", "y"}

  /** The columns an export must declare. */
  const RequiredColumns: set<string> := {"username", "role", "is_admin", "last_login", "account_type", "owner", "status"}

  /** `as_bool(s)`: the value, stripped and lower-cased, is one of the true values. */
  predicate AsBool(s: Option<string>) {
    Normalize(OrEmpty(s)) in TrueValues
  }

  /** Why an account needs review. */
  datatype Reason =
    | Privileged
      /** Days since the last login. */
    | Inactive(age: int)
    | MissingLastLogin
    | ServiceWithoutOwner
    | SharedAccount

  /** A flagged account: its username, its reasons in the order they were found, and the row. */
  datatype Flagged = Flagged(username: string, reasons: seq<Reason>, row: Row)

  datatype Outcome =
    | SchemaError(missing: set<string>)
    | Report(flagged: seq<Flagged>)

  // The fields of a row, read as the loop of `main` reads them.

  function Username(row: Row): string { Trim(OrEmpty(Lookup(row, "username"))) }
  function Role(row: Row): string { Trim(OrEmpty(Lookup(row, "role"))) }
  predicate IsAdmin(row: Row) { AsBool(Lookup(row, "is_admin")) }
  function LastLogin(row: Row): Option<int> { ParseDate(Lookup(row, "last_login")) }
  function AccountType(row: Row): string { Normalize(OrEmpty(Lookup(row, "account_type"))) }
  function Owner(row: Row): string { Trim(OrEmpty(Lookup(row, "owner"))) }
  function Status(row: Row): string { Normalize(OrEmpty(Lookup(row, "status"))) }

  /** The outcome of each check on an active account. */
  datatype AccountChecks = AccountChecks(
    privileged: bool,
    lastLogin: Option<int>,
    serviceWithoutOwner: bool,
    shared: bool)

  function Checks(row: Row): AccountChecks {
    AccountChecks(
      IsAdmin(row) || Contains(Lower(Role(row)), "admin"),
      LastLogin(row),
      AccountType(row) == "service" && Owner(row) == "",
      Contains(Lower(Username(row)), "shared"))
  }

  /** The login check: inactive from `inactiveDays` days on, or no readable last login. */
  function LoginReasons(lastLogin: Option<int>, today: int, inactiveDays: int): seq<Reason> {
    if lastLogin.Some? then
      When(today - lastLogin.value >= inactiveDays, Inactive(today - lastLogin.value))
    else [MissingLastLogin]
  }

  /** The four checks of an active account, every one applied, in their fixed order. */
  function ReasonsOf(c: AccountChecks, today: int, inactiveDays: int): seq<Reason> {
    When(c.privileged, Privileged)
    + LoginReasons(c.lastLogin, today, inactiveDays)
    + When(c.serviceWithoutOwner, ServiceWithoutOwner)
    + When(c.shared, SharedAccount)
  }

  function AccountReasons(row: Row, today: int, inactiveDays: int): seq<Reason> {
    ReasonsOf(Checks(row), today, inactiveDays)
  }

  /** What one row adds to the flagged list: nothing for an inactive account or one without reasons. */
  function AccountFlag(row: Row, today: int, inactiveDays: int): Option<Flagged> {
    if Status(row) != "active" then None
    else
      var reasons := AccountReasons(row, today, inactiveDays);
      if reasons == [] then None else Some(Flagged(Username(row), reasons, row))
  }

  function AccountFlagOf(today: int, inactiveDays: int): Row -> Option<Flagged> {
    row => AccountFlag(row, today, inactiveDays)
  }

  /** The flagged accounts of `rows`, in row order. */
  function FlaggedAccounts(rows: seq<Row>, today: int, inactiveDays: int): seq<Flagged> {
    Collect(rows, AccountFlagOf(today, inactiveDays))
  }

  /** The review's result: the schema error, or the flagged accounts. */
  function Review(fieldnames: seq<string>, rows: seq<Row>, today: int, inactiveDays: int): Outcome {
    var missing := MissingColumns(RequiredColumns, fieldnames);
    if missing != {} then SchemaError(missing)
    else Report(FlaggedAccounts(rows, today, inactiveDays))
  }

  /** The exit status of `main`. */
  function ExitCode(outcome: Outcome): (code: int)
    ensures code in {0, 1, 2}
    ensures code == 0 <==> outcome == Report([])
  {
    match outcome
    case SchemaError(_) => 2
    case Report(flagged) => if flagged == [] then 0 else 1
  }

  /** The checks of one active account, appending each reason as it is found. */
  method CheckAccount(row: Row, today: int, inactiveDays: int) returns (reasons: seq<Reason>)
    ensures reasons == AccountReasons(row, today, inactiveDays)
  {
    hide Checks;
    var c := Checks(row);
    reasons := [];
    if c.privileged {
      reasons := reasons + [Privileged];
    }
    assert reasons == When(c.privileged, Privileged);
    if c.lastLogin.Some? {
      var age := today - c.lastLogin.value;
      if age >= inactiveDays {
        reasons := reasons + [Inactive(age)];
      }
    } else {
      reasons := reasons + [MissingLastLogin];
    }
    assert reasons == When(c.privileged, Privileged) + LoginReasons(c.lastLogin, today, inactiveDays);
    if c.serviceWithoutOwner {
      reasons := reasons + [ServiceWithoutOwner];
    }
    assert reasons == When(c.privileged, Privileged) + LoginReasons(c.lastLogin, today, inactiveDays)
      + When(c.serviceWithoutOwner, ServiceWithoutOwner);
    if c.shared {
      reasons := reasons + [SharedAccount];
    }
  }

  /** One more row adds its entry, if any, at the end. */
  lemma FlaggedAccountsSnoc(rows: seq<Row>, i: nat, today: int, inactiveDays: int)
    requires i < |rows|
    ensures FlaggedAccounts(rows[..i + 1], today, inactiveDays) == FlaggedAccounts(rows[..i], today, inactiveDays)
      + (if AccountFlag(rows[i], today, inactiveDays).Some? then [AccountFlag(rows[i], today, inactiveDays).value] else [])
  {
    assert rows[..i + 1][..i] == rows[..i];
  }

  /** An account that is not active is skipped, whatever its other fields. */
  lemma InactiveSkipped(row: Row, today: int, inactiveDays: int)
    requires Status(row) != "active"
    ensures AccountFlag(row, today, inactiveDays) == None
  {
  }

  /** An active account is flagged with its username and reasons exactly when it has a reason. */
  lemma ActiveFlagged(row: Row, today: int, inactiveDays: int)
    requires Status(row) == "active"
    ensures AccountFlag(row, today, inactiveDays).Some? <==> AccountReasons(row, today, inactiveDays) != []
    ensures AccountFlag(row, today, inactiveDays).Some? ==>
      AccountFlag(row, today, inactiveDays).value == Flagged(Username(row), AccountReasons(row, today, inactiveDays), row)
  {
    hide AccountReasons;
  }

  /** The schema check, then the loop over the rows, skipping accounts that are not active. */
  method ReviewAccounts(fieldnames: seq<string>, rows: seq<Row>, today: int, inactiveDays: int) returns (outcome: Outcome)
    ensures outcome == Review(fieldnames, rows, today, inactiveDays)
  {
    // What one row yields is stated by the lemmas above; the checks themselves are not needed here.
    hide AccountFlag;
    var missing := MissingColumns(RequiredColumns, fieldnames);
    if missing != {} {
      return SchemaError(missing);
    }
    var flagged: seq<Flagged> := [];
    var i := 0;
    while i < |rows|
      invariant 0 <= i <= |rows|
      invariant flagged == FlaggedAccounts(rows[..i], today, inactiveDays)
    {
      var row := rows[i];
      FlaggedAccountsSnoc(rows, i, today, inactiveDays);
      i := i + 1;
      if Status(row) != "active" {
        InactiveSkipped(row, today, inactiveDays);
        continue;
      }
      ActiveFlagged(row, today, inactiveDays);
      var reasons := CheckAccount(row, today, inactiveDays);
      if reasons != [] {
        flagged := flagged + [Flagged(Username(row), reasons, row)];
      }
    }
    assert rows[..i] == rows;
    return Report(flagged);
  }

  // ---------------------------------------------------------------------
  // The truthy-string parser

  /** A value is true exactly when it is one of the true values in some mix of letter cases, padded with whitespace. */
  lemma AsBoolIff(s: string)
    ensures AsBool(Some(s)) <==> exists w1, t, w2 :: s == w1 + t + w2 && AllSpace(w1) && AllSpace(w2) && Lower(t) in TrueValues
  {
    NormalizeIn(s, TrueValues);
  }

  /** A value without padding or capitals is true exactly when it is literally one of the true values. */
  lemma AsBoolPlain(v: string)
    requires v == [] || (!IsSpace(v[0]) && !IsSpace(v[|v| - 1]))
    requires forall i :: 0 <= i < |v| ==> !('A' <= v[i] <= 'Z')
    ensures AsBool(Some(v)) <==> v in TrueValues
  {
    TrimNoPadding(v);
    LowerNoCapitals(v);
  }

  lemma AsBoolExamples()
    ensures AsBool(Some("1")) && AsBool(Some("y"))
    ensures !AsBool(Some("no")) && !AsBool(Some("")) && !AsBool(None)
  {
    AsBoolPlain("1");
    AsBoolPlain("y");
    AsBoolPlain("no");
    AsBoolPlain("");
  }

  lemma AsBoolPaddedExample()
    ensures AsBool(Some(" YES "))
  {
    assert " YES " == " " + Upper("yes") + " ";
    NormalizePaddedUpper(" ", "yes", " ");
    AsBoolPlain("yes");
  }

  // ---------------------------------------------------------------------
  // One account

  /** The reasons of an account come in the fixed order of the checks, each at most once. */
  function Rank(reason: Reason): nat {
    match reason
    case Privileged => 0
    case Inactive(_) => 1
    case MissingLastLogin => 1
    case ServiceWithoutOwner => 2
    case SharedAccount => 3
  }

  lemma RankedPieces(p0: seq<Reason>, p1: seq<Reason>, p2: seq<Reason>, p3: seq<Reason>)
    requires |p0| <= 1 && forall i :: 0 <= i < |p0| ==> Rank(p0[i]) == 0
    requires |p1| <= 1 && forall i :: 0 <= i < |p1| ==> Rank(p1[i]) == 1
    requires |p2| <= 1 && forall i :: 0 <= i < |p2| ==> Rank(p2[i]) == 2
    requires |p3| <= 1 && forall i :: 0 <= i < |p3| ==> Rank(p3[i]) == 3
    ensures RankedBelow(p0 + p1 + p2 + p3, Rank, 4)
  {
    hide RankedBelow;
    RankedEmpty(Rank);
    assert [] + p0 == p0;
    RankedAppend([], Rank, 0, p0);
    RankedAppend(p0, Rank, 1, p1);
    RankedAppend(p0 + p1, Rank, 2, p2);
    RankedAppend(p0 + p1 + p2, Rank, 3, p3);
  }

  lemma ReasonsOfOrdered(c: AccountChecks, today: int, inactiveDays: int)
    ensures |ReasonsOf(c, today, inactiveDays)| <= 4
    ensures forall i, j :: 0 <= i < j < |ReasonsOf(c, today, inactiveDays)| ==>
      Rank(ReasonsOf(c, today, inactiveDays)[i]) < Rank(ReasonsOf(c, today, inactiveDays)[j])
  {
    RankedPieces(When(c.privileged, Privileged), LoginReasons(c.lastLogin, today, inactiveDays),
      When(c.serviceWithoutOwner, ServiceWithoutOwner), When(c.shared, SharedAccount));
    RankedIncreasing(ReasonsOf(c, today, inactiveDays), Rank, 4);
  }

  /** Every check is applied independently of the others: a reason is given exactly when its own check fails. */
  lemma ReasonsOfFlags(c: AccountChecks, today: int, inactiveDays: int)
    ensures Privileged in ReasonsOf(c, today, inactiveDays) <==> c.privileged
    ensures ServiceWithoutOwner in ReasonsOf(c, today, inactiveDays) <==> c.serviceWithoutOwner
    ensures SharedAccount in ReasonsOf(c, today, inactiveDays) <==> c.shared
  {
  }

  /**
    The login check: an account is inactive exactly when it has a last
    login `inactiveDays` days or more before `today` (the reason carries
    the days); a missing or unreadable last login is always reported,
    whatever the limit.
   */
  lemma ReasonsOfLogin(c: AccountChecks, today: int, inactiveDays: int)
    ensures forall age :: Inactive(age) in ReasonsOf(c, today, inactiveDays) <==>
      c.lastLogin.Some? && age == today - c.lastLogin.value >= inactiveDays
    ensures MissingLastLogin in ReasonsOf(c, today, inactiveDays) <==> c.lastLogin.None?
  {
    var front := When(c.privileged, Privileged);
    var login := LoginReasons(c.lastLogin, today, inactiveDays);
    var back := When(c.serviceWithoutOwner, ServiceWithoutOwner) + When(c.shared, SharedAccount);
    assert ReasonsOf(c, today, inactiveDays) == front + login + back;
    assert forall x: Reason :: x in front + back ==> !x.Inactive? && !x.MissingLastLogin?;
    hide When, LoginReasons, ReasonsOf;
    LoginMembers(front, login, back);
    LoginReasonsMembers(c.lastLogin, today, inactiveDays);
  }

  /** Only the login check gives login reasons. */
  lemma LoginMembers(front: seq<Reason>, login: seq<Reason>, back: seq<Reason>)
    requires forall x: Reason :: x in front + back ==> !x.Inactive? && !x.MissingLastLogin?
    ensures forall x: Reason :: x.Inactive? || x.MissingLastLogin? ==> (x in front + login + back <==> x in login)
  {
    forall x: Reason | x.Inactive? || x.MissingLastLogin?
      ensures x in front + login + back <==> x in login
    {
      assert x !in front + back;
    }
  }

  lemma LoginReasonsMembers(lastLogin: Option<int>, today: int, inactiveDays: int)
    ensures forall age :: Inactive(age) in LoginReasons(lastLogin, today, inactiveDays) <==>
      lastLogin.Some? && age == today - lastLogin.value >= inactiveDays
    ensures MissingLastLogin in LoginReasons(lastLogin, today, inactiveDays) <==> lastLogin.None?
  {
  }

  /** The inactivity limit is inclusive: an account exactly `inactiveDays` days out is inactive. */
  lemma InactiveBoundary(c: AccountChecks, today: int, inactiveDays: int)
    requires c.lastLogin == Some(today - inactiveDays)
    ensures Inactive(inactiveDays) in ReasonsOf(c, today, inactiveDays)
  {
    ReasonsOfLogin(c, today, inactiveDays);
  }

  /** The same checks, for the fields of a row. */
  lemma AccountReasonsChecks(row: Row, today: int, inactiveDays: int)
    ensures Privileged in AccountReasons(row, today, inactiveDays) <==> IsAdmin(row) || Contains(Lower(Role(row)), "admin")
    ensures MissingLastLogin in AccountReasons(row, today, inactiveDays) <==> LastLogin(row).None?
    ensures ServiceWithoutOwner in AccountReasons(row, today, inactiveDays) <==> AccountType(row) == "service" && Owner(row) == ""
    ensures SharedAccount in AccountReasons(row, today, inactiveDays) <==> Contains(Lower(Username(row)), "shared")
  {
    hide AsBool, Contains, Normalize, Trim, Lower, LastLogin;
    ReasonsOfFlags(Checks(row), today, inactiveDays);
    ReasonsOfLogin(Checks(row), today, inactiveDays);
  }

  // ---------------------------------------------------------------------
  // All accounts

  lemma FlaggedAccountsConcat(a: seq<Row>, b: seq<Row>, today: int, inactiveDays: int)
    ensures FlaggedAccounts(a + b, today, inactiveDays) == FlaggedAccounts(a, today, inactiveDays) + FlaggedAccounts(b, today, inactiveDays)
  {
    CollectConcat(a, b, AccountFlagOf(today, inactiveDays));
  }

  /** Inserting an account that is not active anywhere in the export changes nothing. */
  lemma InactiveRowIgnored(a: seq<Row>, row: Row, b: seq<Row>, today: int, inactiveDays: int)
    requires Status(row) != "active"
    ensures FlaggedAccounts(a + [row] + b, today, inactiveDays) == FlaggedAccounts(a + b, today, inactiveDays)
  {
    hide AccountFlag;
    FlaggedAccountsConcat(a + [row], b, today, inactiveDays);
    FlaggedAccountsConcat(a, [row], today, inactiveDays);
    FlaggedAccountsConcat(a, b, today, inactiveDays);
    InactiveSkipped(row, today, inactiveDays);
    assert [row][..0] == [];
  }

  /** Every active account with a reason is flagged, with its username, its reasons and its row. */
  lemma FlaggedAccountsComplete(rows: seq<Row>, today: int, inactiveDays: int, i: nat)
    requires i < |rows| && Status(rows[i]) == "active" && AccountReasons(rows[i], today, inactiveDays) != []
    ensures Flagged(Username(rows[i]), AccountReasons(rows[i], today, inactiveDays), rows[i]) in FlaggedAccounts(rows, today, inactiveDays)
  {
    hide AccountReasons;
    CollectComplete(rows, AccountFlagOf(today, inactiveDays), i);
  }

  /** Every flagged account is an active row of the export, with that row's username and its reasons, which are not empty. */
  lemma FlaggedAccountsSound(rows: seq<Row>, today: int, inactiveDays: int, f: Flagged) returns (i: nat)
    requires f in FlaggedAccounts(rows, today, inactiveDays)
    ensures i < |rows| && Status(rows[i]) == "active"
    ensures f == Flagged(Username(rows[i]), AccountReasons(rows[i], today, inactiveDays), rows[i]) && f.reasons != []
  {
    hide AccountReasons;
    i := CollectSound(rows, AccountFlagOf(today, inactiveDays), f);
  }

  /** The review stops with 2 on a missing column, and otherwise exits 1 exactly when some account is flagged. */
  lemma ExitCodeIff(fieldnames: seq<string>, rows: seq<Row>, today: int, inactiveDays: int)
    ensures ExitCode(Review(fieldnames, rows, today, inactiveDays)) == 2 <==> !(RequiredColumns <= set f | f in fieldnames)
    ensures ExitCode(Review(fieldnames, rows, today, inactiveDays)) == 1 <==>
      RequiredColumns <= (set f | f in fieldnames) &&
      exists i :: 0 <= i < |rows| && AccountFlag(rows[i], today, inactiveDays).Some?
  {
    hide AccountFlag;
    var missing := MissingColumns(RequiredColumns, fieldnames);
    assert missing == {} <==> RequiredColumns <= set f | f in fieldnames;
    CollectEmpty(rows, AccountFlagOf(today, inactiveDays));
  }

  // ---------------------------------------------------------------------
  // An example

  /** An active service account named like a shared one, with no owner and no last login. */
  const ServiceRow: Row := map["username" := Some("svc_shared"), "role" := Some("engineer"), "is_admin" := Some("false"),
                               "last_login" := Some(""), "account_type" := Some("service"), "owner" := Some(""),
                               "status" := Some("active")]

  lemma ServiceRowNames()
    ensures Username(ServiceRow) == "svc_shared" && Role(ServiceRow) == "engineer" && Owner(ServiceRow) == ""
  {
    TrimNoPadding("svc_shared");
    TrimNoPadding("engineer");
  }

  lemma ServiceRowKinds()
    ensures AccountType(ServiceRow) == "service" && Status(ServiceRow) == "active"
  {
    TrimNoPadding("service");
    LowerNoCapitals("service");
    TrimNoPadding("active");
    LowerNoCapitals("active");
  }

  lemma ServiceRowFlags()
    ensures !IsAdmin(ServiceRow) && LastLogin(ServiceRow) == None
  {
    AsBoolPlain("false");
    ParseDateBlank("");
  }

  /** `engineer` is no admin role. */
  lemma EngineerNotAdmin()
    ensures !Contains(Lower("engineer"), "admin")
  {
    LowerNoCapitals("engineer");
    ContainsFirstChar("engineer", "admin");
  }

  /** `svc_shared` looks shared. */
  lemma SvcSharedShared()
    ensures Contains(Lower("svc_shared"), "shared")
  {
    LowerNoCapitals("svc_shared");
    assert "svc_shared"[4..10] == "shared";
    ContainsAt("svc_shared", "shared", 4);
  }

  lemma ServiceRowWords()
    ensures !Contains(Lower(Role(ServiceRow)), "admin") && Contains(Lower(Username(ServiceRow)), "shared")
  {
    ServiceRowNames();
    EngineerNotAdmin();
    SvcSharedShared();
    hide Username, Role, Lower, Contains;
  }

  lemma ServiceRowChecks()
    ensures Checks(ServiceRow) == AccountChecks(false, None, true, true)
  {
    ServiceRowNames();
    ServiceRowKinds();
    ServiceRowFlags();
    ServiceRowWords();
    hide Username, Role, Owner, AccountType, Status, IsAdmin, LastLogin, Contains, Lower;
  }

  /** The account is flagged for its missing login, its missing owner and its name, in that order. */
  lemma ServiceRowFlagged(today: int, inactiveDays: int)
    ensures AccountFlag(ServiceRow, today, inactiveDays)
      == Some(Flagged("svc_shared", [MissingLastLogin, ServiceWithoutOwner, SharedAccount], ServiceRow))
  {
    ServiceRowChecks();
    ServiceRowNames();
    ServiceRowKinds();
    hide Checks, Username, Status;
    var reasons := [MissingLastLogin, ServiceWithoutOwner, SharedAccount];
    assert AccountReasons(ServiceRow, today, inactiveDays) == [] + [MissingLastLogin] + [ServiceWithoutOwner] + [SharedAccount];
    assert [] + [MissingLastLogin] + [ServiceWithoutOwner] + [SharedAccount] == reasons;
  }

  /** With every required column present, the review of that account exits 1. */
  lemma ServiceRowReview(today: int, inactiveDays: int)
    ensures ExitCode(Review(["username", "role", "is_admin", "last_login", "account_type", "owner", "status"], [ServiceRow], today, inactiveDays)) == 1
  {
    ServiceRowFlagged(today, inactiveDays);
    hide AccountFlag;
    assert MissingColumns(RequiredColumns, ["username", "role", "is_admin", "last_login", "account_type", "owner", "status"]) == {};
    assert [ServiceRow][..0] == [];
  }
}
