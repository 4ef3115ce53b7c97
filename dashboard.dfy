/** The admin dashboard page: the admin gate, the load of the weekly reports and the
    shaping of those reports into summary tiles, table rows and chart series. */
module Dashboard {
  import opened Text

  // ---------------------------------------------------------------------------
  // Values read from the document store

  /** A numeric report field. JavaScript numbers are modelled as integers; NaN, the
      infinities and an absent field are kept apart because the page treats them apart. */
  datatype Num = Finite(value: int) | NaN | Infinite | Missing

  /** One weekly_reports document, with the five fields the page copies out of it. */
  datatype Report = Report(
    weekLabel: Option<string>,
    newUsers: Num,
    activeUsers: Num,
    totalTransactions: Num,
    createdAt: int)

  /** Text of a number cell: the literal "0", or the locale rendering of an integer
      (toLocaleString itself is not modelled). */
  datatype Shown = ZeroText | Localized(n: int)

  /** The number a reader sees in a cell. */
  function Reading(s: Shown): int {
    match s
    case ZeroText => 0
    case Localized(n) => n
  }

  /** JavaScript truthiness of a numeric field. */
  predicate Truthy(v: Num) {
    (v.Finite? && v.value != 0) || v.Infinite?
  }

  /** The expression `v || 0`. */
  function OrZero(v: Num): (r: Num)
    ensures Truthy(v) ==> r == v
    ensures !Truthy(v) ==> r == Finite(0)
  {
    if Truthy(v) then v else Finite(0)
  }

  /** formatNumber: only a finite number reaches locale formatting; anything else is "0". */
  function FormatNumber(v: Num): (r: Shown)
    ensures r == ZeroText <==> !v.Finite?
    ensures v.Finite? ==> r == Localized(v.value)
  {
    if v.Finite? then Localized(v.value) else ZeroText
  }

  /** A summary tile: formatNumber(field || 0). */
  function TileText(v: Num): Shown {
    FormatNumber(OrZero(v))
  }

  /** A tile reads 0 exactly when the field is not a non-zero finite number, and a falsy
      field (absent, 0 or NaN) is rendered as the formatted number 0. */
  lemma TileReadsZero(v: Num)
    ensures Reading(TileText(v)) == 0 <==> !(v.Finite? && v.value != 0)
    ensures !Truthy(v) ==> TileText(v) == Localized(0)
    ensures v.Finite? && v.value != 0 ==> TileText(v) == Localized(v.value)
  {
  }

  datatype Kpis = Kpis(totalUsers: Shown, newUsers: Shown, activeUsers: Shown, totalTransactions: Shown)

  /** updateKpis: the four tiles from the latest report, or from the zero fallback. */
  function KpisOf(latest: Option<Report>): (k: Kpis)
    ensures k.totalUsers == k.activeUsers
    ensures latest.None? ==> k == Kpis(Localized(0), Localized(0), Localized(0), Localized(0))
    ensures latest.Some? ==>
      && Reading(k.newUsers) == (if latest.value.newUsers.Finite? then latest.value.newUsers.value else 0)
      && Reading(k.activeUsers) == (if latest.value.activeUsers.Finite? then latest.value.activeUsers.value else 0)
      && Reading(k.totalTransactions)
         == (if latest.value.totalTransactions.Finite? then latest.value.totalTransactions.value else 0)
  {
    match latest
    case None =>
      Kpis(TileText(Finite(0)), TileText(Finite(0)), TileText(Finite(0)), TileText(Finite(0)))
    case Some(data) =>
      Kpis(TileText(data.activeUsers), TileText(data.newUsers), TileText(data.activeUsers),
           TileText(data.totalTransactions))
  }

  // ---------------------------------------------------------------------------
  // Table rows

  datatype Row = Row(week: string, newUsers: Shown, activeUsers: Shown, totalTransactions: Shown)

  /** `weekLabel || "-"`: an absent or empty label shows as a dash. */
  function LabelOrDash(week: Option<string>): (r: string)
    ensures r != []
    ensures week.Some? && week.value != [] ==> r == week.value
    ensures week.None? || week.value == [] ==> r == "-"
  {
    if week.Some? && week.value != [] then week.value else "-"
  }

  function RowOf(r: Report): Row {
    Row(LabelOrDash(r.weekLabel), FormatNumber(r.newUsers), FormatNumber(r.activeUsers),
        FormatNumber(r.totalTransactions))
  }

  /** The rows renderTable leaves in the table body: one per report, in input order. */
  function TableOf(reports: seq<Report>): (rows: seq<Row>)
    ensures |rows| == |reports|
    ensures forall i :: 0 <= i < |reports| ==> rows[i] == RowOf(reports[i])
  {
    seq(|reports|, i requires 0 <= i < |reports| => RowOf(reports[i]))
  }

  // ---------------------------------------------------------------------------
  // Chart series and the descending/chronological window

  function Reverse<T>(s: seq<T>): (r: seq<T>)
    ensures |r| == |s|
  {
    if s == [] then [] else Reverse(s[1..]) + [s[0]]
  }

  lemma {:induction false} ReverseAt<T>(s: seq<T>, k: int)
    requires 0 <= k < |s|
    ensures Reverse(s)[k] == s[|s| - 1 - k]
  {
    if k < |s| - 1 {
      ReverseAt(s[1..], k);
    }
  }

  lemma ReverseReverse<T>(s: seq<T>)
    ensures Reverse(Reverse(s)) == s
  {
    var r := Reverse(s);
    forall k | 0 <= k < |s| ensures Reverse(r)[k] == s[k] {
      ReverseAt(r, k);
      ReverseAt(s, |s| - 1 - k);
    }
  }

  /** The four arrays renderChart hands to the chart: labels and three data series. */
  datatype Series = Series(
    labels: seq<Option<string>>,
    newUsers: seq<Num>,
    activeUsers: seq<Num>,
    transactions: seq<Num>)

  function SeriesOf(reports: seq<Report>): (s: Series)
    ensures |s.labels| == |s.newUsers| == |s.activeUsers| == |s.transactions| == |reports|
    ensures forall i :: 0 <= i < |reports| ==>
      && s.labels[i] == reports[i].weekLabel
      && s.newUsers[i] == reports[i].newUsers
      && s.activeUsers[i] == reports[i].activeUsers
      && s.transactions[i] == reports[i].totalTransactions
  {
    Series(seq(|reports|, i requires 0 <= i < |reports| => reports[i].weekLabel),
           seq(|reports|, i requires 0 <= i < |reports| => reports[i].newUsers),
           seq(|reports|, i requires 0 <= i < |reports| => reports[i].activeUsers),
           seq(|reports|, i requires 0 <= i < |reports| => reports[i].totalTransactions))
  }

  /** The chart of a descending batch runs oldest first: its k-th point is the batch's
      k-th report counted from the end. */
  lemma {:induction false} ChartIsChronological(desc: seq<Report>, k: int)
    requires 0 <= k < |desc|
    ensures var s := SeriesOf(Reverse(desc));
      && |s.labels| == |desc|
      && s.labels[k] == desc[|desc| - 1 - k].weekLabel
      && s.newUsers[k] == desc[|desc| - 1 - k].newUsers
      && s.activeUsers[k] == desc[|desc| - 1 - k].activeUsers
      && s.transactions[k] == desc[|desc| - 1 - k].totalTransactions
  {
    ReverseAt(desc, k);
  }

  /** The newest report is the chart's last point and the oldest its first. */
  lemma ChartNewestLast(desc: seq<Report>)
    requires desc != []
    ensures SeriesOf(Reverse(desc)).labels[|desc| - 1] == desc[0].weekLabel
    ensures SeriesOf(Reverse(desc)).labels[0] == desc[|desc| - 1].weekLabel
  {
    ChartIsChronological(desc, |desc| - 1);
    ChartIsChronological(desc, 0);
  }

  // ---------------------------------------------------------------------------
  // The identity provider and the document store, as oracles

  datatype User = User(email: Option<string>)

  /** What a forced token refresh gives: the truthiness of the admin claim, or a failure. */
  datatype TokenResult = Token(adminClaim: bool) | RefreshFails

  datatype AdminStatus = IsAdmin(admin: bool) | CheckThrows

  /** getAdminStatus: an absent user is not an admin; a present one is an admin exactly
      when the refreshed token carries the claim; a failed refresh propagates. */
  function GetAdminStatus(user: Option<User>, token: TokenResult): (r: AdminStatus)
    ensures r == IsAdmin(true) <==> user.Some? && token == Token(true)
    ensures r == CheckThrows <==> user.Some? && token == RefreshFails
  {
    if user.None? then IsAdmin(false)
    else match token
      case RefreshFails => CheckThrows
      case Token(claim) => IsAdmin(claim)
  }

  /** The answer of the weekly_reports query (newest first, at most ReportLimit documents). */
  datatype FetchResult = Fetched(docs: seq<Report>) | Failed(code: string)

  const ReportLimit: nat := 8
  const RedirectDelayMs: nat := 1200

  datatype StatusKind = Plain | Success | Error

  const AuthMissingMessage := "Auth not initialized."
  const DbMissingMessage := "Firestore not initialized."
  const LoadingMessage := "Loading latest weekly reports..."
  const EmptyMessage := "No reports found."
  const RulesMessage := "Permission error: check Firestore rules."
  const RetryMessage := "Error loading data. Please retry."
  const CheckingMessage := "Checking permissions..."
  const DeniedMessage := "Access denied. Admin only."

  /** The status shown after a failed fetch: the rules hint for permission-denied,
      the retry prompt for anything else. */
  function FailureMessage(code: string): (m: string)
    ensures m == RulesMessage <==> code == "permission-denied"
    ensures m == RetryMessage <==> code != "permission-denied"
  {
    if code == "permission-denied" then RulesMessage else RetryMessage
  }

  /** `user.email || "Admin"` */
  function EmailText(user: User): (r: string)
    ensures r != []
    ensures user.email.Some? && user.email.value != [] ==> r == user.email.value
    ensures !(user.email.Some? && user.email.value != []) ==> r == "Admin"
  {
    if user.email.Some? && user.email.value != [] then user.email.value else "Admin"
  }

  /** A chart built by the page; `destroyed` records a destroy() call on it. */
  datatype ChartInstance = ChartInstance(series: Series, destroyed: bool)

  // ---------------------------------------------------------------------------
  // The page

  class DashboardPage {
    /** Whether the page found the identity wrapper and the document store. */
    const hasAuth: bool
    const hasDb: bool

    var hasLoaded: bool
    var statusText: string
    var statusKind: StatusKind
    var userEmail: string
    /** None while the tiles still show the page's own markup. */
    var tiles: Option<Kpis>
    var rows: seq<Row>
    /** The growthChart variable. */
    var chart: Option<ChartInstance>
    var chartsCreated: nat
    var chartsDestroyed: nat
    /** Calls into the document store, the identity provider and the browser location. */
    var fetches: nat
    var signOuts: nat
    var redirects: nat
    var scheduledRedirects: nat

    predicate LiveChart()
      reads this
    {
      chart.Some? && !chart.value.destroyed
    }

    /** Every chart but the current one has been destroyed, and the reports are fetched
        at most once per page instance, only after the guard flag was set. */
    ghost predicate Valid()
      reads this
    {
      && chartsCreated == chartsDestroyed + (if LiveChart() then 1 else 0)
      && fetches <= 1
      && (fetches == 1 ==> hasLoaded && hasDb)
    }

    /** Module initialisation: the status reports a missing identity wrapper. */
    constructor (hasAuth: bool, hasDb: bool)
      ensures Valid()
      ensures this.hasAuth == hasAuth && this.hasDb == hasDb
      ensures !hasLoaded && rows == [] && tiles.None? && chart.None?
      ensures userEmail == "" && chartsCreated == 0 && chartsDestroyed == 0
      ensures fetches == 0 && signOuts == 0 && redirects == 0 && scheduledRedirects == 0
      ensures statusText == (if hasAuth then "" else AuthMissingMessage)
      ensures statusKind == (if hasAuth then Plain else Error)
    {
      this.hasAuth := hasAuth;
      this.hasDb := hasDb;
      hasLoaded := false;
      userEmail := "";
      tiles := None;
      rows := [];
      chart := None;
      chartsCreated, chartsDestroyed := 0, 0;
      fetches, signOuts, redirects, scheduledRedirects := 0, 0, 0, 0;
      if hasAuth {
        statusText, statusKind := "", Plain;
      } else {
        statusText, statusKind := AuthMissingMessage, Error;
      }
    }

    method SetStatus(message: string, kind: StatusKind)
      modifies this`statusText, this`statusKind
      ensures statusText == message && statusKind == kind
    {
      statusText, statusKind := message, kind;
    }

    method UpdateKpis(latest: Option<Report>)
      modifies this`tiles
      ensures tiles == Some(KpisOf(latest))
    {
      tiles := Some(KpisOf(latest));
    }

    /** renderTable: clears the body, then appends one row per report. */
    method RenderTable(reports: seq<Report>)
      modifies this`rows
      ensures rows == TableOf(reports)
    {
      rows := [];
      var i := 0;
      while i < |reports|
        invariant 0 <= i <= |reports|
        invariant rows == TableOf(reports[..i])
      {
        rows := rows + [RowOf(reports[i])];
        i := i + 1;
        assert reports[..i] == reports[..i - 1] + [reports[i - 1]];
      }
      assert reports[..i] == reports;
    }

    /** growthChart.destroy() on the current chart. */
    method DestroyChart()
      requires Valid() && chart.Some?
      modifies this`chart, this`chartsDestroyed
      ensures Valid()
      ensures chart == Some(old(chart.value).(destroyed := true))
      ensures chartsDestroyed == old(chartsDestroyed) + (if old(LiveChart()) then 1 else 0)
    {
      if !chart.value.destroyed {
        chartsDestroyed := chartsDestroyed + 1;
      }
      chart := Some(chart.value.(destroyed := true));
    }

    /** renderChart: destroys any previous chart, then builds one over the given reports. */
    method RenderChart(chronological: seq<Report>)
      requires Valid()
      modifies this`chart, this`chartsCreated, this`chartsDestroyed
      ensures Valid()
      ensures chart == Some(ChartInstance(SeriesOf(chronological), false))
      ensures chartsCreated == old(chartsCreated) + 1
      ensures chartsDestroyed == old(chartsDestroyed) + (if old(LiveChart()) then 1 else 0)
    {
      var series := SeriesOf(chronological);
      if chart.Some? {
        DestroyChart();
      }
      chart := Some(ChartInstance(series, false));
      chartsCreated := chartsCreated + 1;
    }

    /** What loadReports leaves behind, given the store's answer. */
    twostate predicate LoadEffect(result: FetchResult)
      reads this
    {
      if !hasDb then
        && statusText == DbMissingMessage && statusKind == Error
        && fetches == old(fetches) && rows == old(rows) && tiles == old(tiles)
        && chart == old(chart) && chartsCreated == old(chartsCreated)
        && chartsDestroyed == old(chartsDestroyed)
      else
        && fetches == old(fetches) + 1
        && match result
           case Failed(code) =>
             && statusText == FailureMessage(code) && statusKind == Error
             && rows == [] && tiles == old(tiles) && chart == old(chart)
             && chartsCreated == old(chartsCreated) && chartsDestroyed == old(chartsDestroyed)
           case Fetched(docs) =>
             if docs == [] then
               && statusText == EmptyMessage && statusKind == Success
               && tiles == Some(KpisOf(None)) && rows == []
               && chart == (if old(chart).Some? then Some(old(chart).value.(destroyed := true)) else None)
               && chartsCreated == old(chartsCreated)
               && chartsDestroyed == old(chartsDestroyed) + (if old(LiveChart()) then 1 else 0)
             else
               && statusText == "" && statusKind == Plain
               && tiles == Some(KpisOf(Some(docs[0])))
               && rows == TableOf(docs)
               && chart == Some(ChartInstance(SeriesOf(Reverse(docs)), false))
               && chartsCreated == old(chartsCreated) + 1
               && chartsDestroyed == old(chartsDestroyed) + (if old(LiveChart()) then 1 else 0)
    }

    /** The empty-snapshot branch of loadReports. */
    method ShowEmpty()
      requires Valid()
      modifies this`tiles, this`rows, this`chart, this`chartsDestroyed, this`statusText, this`statusKind
      ensures Valid()
      ensures statusText == EmptyMessage && statusKind == Success
      ensures tiles == Some(KpisOf(None)) && rows == []
      ensures chart == (if old(chart).Some? then Some(old(chart).value.(destroyed := true)) else None)
      ensures chartsDestroyed == old(chartsDestroyed) + (if old(LiveChart()) then 1 else 0)
    {
      UpdateKpis(None);
      RenderTable([]);
      if chart.Some? {
        DestroyChart();
      }
      SetStatus(EmptyMessage, Success);
    }

    /** The non-empty branch of loadReports: tiles from the newest report, the table
        newest first, the chart oldest first. */
    method ShowReports(docs: seq<Report>)
      requires Valid() && docs != []
      modifies this`tiles, this`rows, this`chart, this`chartsCreated, this`chartsDestroyed,
        this`statusText, this`statusKind
      ensures Valid()
      ensures statusText == "" && statusKind == Plain
      ensures tiles == Some(KpisOf(Some(docs[0])))
      ensures rows == TableOf(docs)
      ensures chart == Some(ChartInstance(SeriesOf(Reverse(docs)), false))
      ensures chartsCreated == old(chartsCreated) + 1
      ensures chartsDestroyed == old(chartsDestroyed) + (if old(LiveChart()) then 1 else 0)
    {
      UpdateKpis(Some(docs[0]));
      RenderTable(docs);
      RenderChart(Reverse(docs));
      SetStatus("", Plain);
    }

    /** The catch branch of loadReports: the message depends on the error code only. */
    method ShowFailure(code: string)
      modifies this`statusText, this`statusKind
      ensures statusText == FailureMessage(code) && statusKind == Error
    {
      if code == "permission-denied" {
        SetStatus(RulesMessage, Error);
      } else {
        SetStatus(RetryMessage, Error);
      }
    }

    /** Turning a user away: the error status, a sign-out, and the login page later. */
    method Deny(message: string)
      modifies this`statusText, this`statusKind, this`signOuts, this`scheduledRedirects
      ensures statusText == message && statusKind == Error
      ensures signOuts == old(signOuts) + 1 && scheduledRedirects == old(scheduledRedirects) + 1
    {
      SetStatus(message, Error);
      signOuts := signOuts + 1;
      scheduledRedirects := scheduledRedirects + 1;
    }

    /** loadReports; its only caller has just set the guard flag. */
    method LoadReports(result: FetchResult)
      requires Valid() && hasLoaded && fetches == 0
      modifies this
      ensures Valid()
      ensures LoadEffect(result)
      ensures hasLoaded && userEmail == old(userEmail)
      ensures signOuts == old(signOuts) && redirects == old(redirects)
      ensures scheduledRedirects == old(scheduledRedirects)
    {
      if !hasDb {
        SetStatus(DbMissingMessage, Error);
        return;
      }
      SetStatus(LoadingMessage, Plain);
      rows := [];
      fetches := fetches + 1;
      match result {
        case Failed(code) =>
          ShowFailure(code);
        case Fetched(docs) =>
          if docs == [] {
            ShowEmpty();
          } else {
            ShowReports(docs);
          }
      }
    }

    /** handleAuth, run on every auth-state change the identity provider reports. It is
        subscribed only when the identity wrapper exists. */
    method HandleAuth(user: Option<User>, token: TokenResult, result: FetchResult)
      requires Valid() && hasAuth
      modifies this
      ensures Valid()
      // an absent user: straight to the login page, nothing else
      ensures user.None? ==>
        && redirects == old(redirects) + 1
        && statusText == old(statusText) && statusKind == old(statusKind)
        && signOuts == old(signOuts) && scheduledRedirects == old(scheduledRedirects)
        && fetches == old(fetches) && hasLoaded == old(hasLoaded)
        && rows == old(rows) && tiles == old(tiles) && chart == old(chart)
        && userEmail == old(userEmail)
        && chartsCreated == old(chartsCreated) && chartsDestroyed == old(chartsDestroyed)
      // denied or a failed check: sign out, redirect later, never load
      ensures user.Some? && GetAdminStatus(user, token) != IsAdmin(true) ==>
        && signOuts == old(signOuts) + 1
        && scheduledRedirects == old(scheduledRedirects) + 1
        && redirects == old(redirects)
        && fetches == old(fetches) && hasLoaded == old(hasLoaded)
        && rows == old(rows) && tiles == old(tiles) && chart == old(chart)
        && userEmail == old(userEmail)
        && chartsCreated == old(chartsCreated) && chartsDestroyed == old(chartsDestroyed)
        && statusKind == Error
        && statusText == (if token == RefreshFails then RulesMessage else DeniedMessage)
      // an admin: the load runs only on the first admin event of the page
      ensures GetAdminStatus(user, token) == IsAdmin(true) ==>
        && hasLoaded
        && userEmail == EmailText(user.value)
        && signOuts == old(signOuts) && redirects == old(redirects)
        && scheduledRedirects == old(scheduledRedirects)
        && (!old(hasLoaded) ==> LoadEffect(result))
        && (old(hasLoaded) ==>
              && fetches == old(fetches) && rows == old(rows) && tiles == old(tiles)
              && chart == old(chart) && statusText == CheckingMessage && statusKind == Plain)
    {
      if user.None? {
        redirects := redirects + 1;
        return;
      }
      SetStatus(CheckingMessage, Plain);
      var status := GetAdminStatus(user, token);
      match status {
        case CheckThrows =>
          Deny(RulesMessage);
        case IsAdmin(admin) =>
          if !admin {
            Deny(DeniedMessage);
            return;
          }
          userEmail := EmailText(user.value);
          if !hasLoaded {
            hasLoaded := true;
            LoadReports(result);
          }
      }
    }

    /** The logout button: sign out when the wrapper exists, then go to the login page.
        The handler awaits the sign-out without catching, so a rejected sign-out ends it
        before the redirect. */
    method Logout(signOutRejects: bool)
      modifies this`signOuts, this`redirects
      ensures signOuts == old(signOuts) + (if hasAuth then 1 else 0)
      ensures redirects == old(redirects) + (if hasAuth && signOutRejects then 0 else 1)
    {
      if hasAuth {
        signOuts := signOuts + 1;
        if signOutRejects {
          return;
        }
      }
      redirects := redirects + 1;
    }
  }
}
