/** The batch run `process_all_tickets`: list and fetch the emails, then classify each
    ticket and append it to the tab of its category, counting processed and skipped
    tickets. */
module Pipeline {
  import opened Wrappers
  import opened Failures
  import GmailClient
  import GroqModel
  import SheetsClient
  import Config

  /** The completion service as seen while handling the ticket at a given position. */
  type Services = nat -> GroqModel.Completion

  /** Everything the handling of one ticket depends on besides the ticket itself. */
  datatype Context = Context(
    services: Services,
    parse: GroqModel.JsonParser,
    spreadsheetId: string,
    execute: SheetsClient.Executor)

  /** A ticket either ends up as an executed append request or is skipped with the error
      that stopped it. */
  datatype ItemOutcome = Appended(request: SheetsClient.AppendRequest) | Skipped(error: Error)

  /** The final `processed` and `skipped` counts, and what happened to each ticket. */
  datatype Report = Report(processed: nat, skipped: nat, outcomes: seq<ItemOutcome>)

  /** The body of the `try` for the ticket at position i, once its classification is
      known: build the row request and run it; any error skips the ticket. */
  function HandleClassified(i: nat, e: GmailClient.Email, a: Result<GroqModel.Classification, Error>, ctx: Context): ItemOutcome {
    match a
    case Failure(err) => Skipped(err)
    case Success(c) =>
      match SheetsClient.AppendTicketRow(ctx.spreadsheetId, c.category, e.subject, c.urgency, c.summary)
      case Failure(err) => Skipped(err)
      case Success(request) =>
        match ctx.execute(i, request)
        case Pass => Appended(request)
        case Fail(reason) => Skipped(AppendFailed(reason))
  }

  /** The classification of the ticket at position i. */
  function Classify(i: nat, e: GmailClient.Email, ctx: Context): (r: Result<GroqModel.Classification, Error>)
    ensures r.Success? ==> r.value.category in Config.CategoryToSheet && r.value.urgency in Config.UrgencyLevels
  {
    GroqModel.Analysis(e.subject, e.body, ctx.services(i), ctx.parse)
  }

  /** The body of the `try` for the ticket at position i. */
  function HandleEmail(i: nat, e: GmailClient.Email, ctx: Context): ItemOutcome {
    HandleClassified(i, e, Classify(i, e, ctx), ctx)
  }

  function CountAppended(outcomes: seq<ItemOutcome>): (n: nat)
    ensures n <= |outcomes|
  {
    if outcomes == [] then 0
    else CountAppended(outcomes[..|outcomes| - 1]) + (if outcomes[|outcomes| - 1].Appended? then 1 else 0)
  }

  lemma PrefixSnoc<T>(s: seq<T>, i: nat)
    requires i < |s|
    ensures s[..i + 1] == s[..i] + [s[i]]
  {
  }

  /** One more outcome adds one to the count exactly when it is an appended ticket. */
  lemma CountAppendedSnoc(outcomes: seq<ItemOutcome>, o: ItemOutcome)
    ensures CountAppended(outcomes + [o]) == CountAppended(outcomes) + (if o.Appended? then 1 else 0)
  {
    assert (outcomes + [o])[..|outcomes|] == outcomes;
  }

  /** Every ticket is counted once: all of them are processed exactly when none is
      skipped. */
  lemma {:induction false} CountAppendedAll(outcomes: seq<ItemOutcome>)
    ensures CountAppended(outcomes) == |outcomes| <==> forall i | 0 <= i < |outcomes| :: outcomes[i].Appended?
  {
    if outcomes != [] {
      var init := outcomes[..|outcomes| - 1];
      CountAppendedAll(init);
      assert forall i | 0 <= i < |init| :: init[i] == outcomes[i];
    }
  }

  /** The `try` body for one ticket: `analyze_ticket`, then `append_ticket_row`. It is a
      method because it runs AnalyzeTicket; HandleEmail is the value it computes, which
      the reports and the lemmas use. */
  method HandleTicket(i: nat, e: GmailClient.Email, ctx: Context) returns (outcome: ItemOutcome)
    ensures outcome == HandleEmail(i, e, ctx)
  {
    var analysis, _ := GroqModel.AnalyzeTicket(e.subject, e.body, ctx.services(i), ctx.parse);
    assert analysis == Classify(i, e, ctx);
    if analysis.Failure? {
      return Skipped(analysis.error);
    }
    var c := analysis.value;
    // the category is a normalised one, so the `KeyError` of an unknown one cannot arise
    var request := SheetsClient.AppendTicketRow(ctx.spreadsheetId, c.category, e.subject, c.urgency, c.summary).value;
    var ran := ctx.execute(i, request);
    outcome := if ran.Pass? then Appended(request) else Skipped(AppendFailed(ran.error));
  }

  /** The `for` loop of `process_all_tickets`: each ticket is handled on its own, so that
      one ticket's failure skips only that ticket, and every ticket is counted once. */
  method ProcessEmails(emails: seq<GmailClient.Email>, ctx: Context) returns (report: Report)
    ensures report.outcomes == Outcomes(emails, ctx)
    ensures report.processed == CountAppended(report.outcomes)
    ensures report.processed + report.skipped == |emails|
  {
    var processed, skipped := 0, 0;
    var outcomes: seq<ItemOutcome> := [];
    ghost var all := Outcomes(emails, ctx);
    for i := 0 to |emails|
      invariant outcomes == all[..i]
      invariant processed == CountAppended(outcomes) && processed + skipped == i
    {
      var outcome := HandleTicket(i, emails[i], ctx);
      assert outcome == all[i];
      if outcome.Appended? {
        processed := processed + 1;
      } else {
        skipped := skipped + 1;
      }
      CountAppendedSnoc(outcomes, outcome);
      PrefixSnoc(all, i);
      outcomes := outcomes + [outcome];
    }
    assert all[..|emails|] == all;
    report := Report(processed, skipped, outcomes);
  }

  /** `process_all_tickets`: the first failure while fetching an email propagates, before
      any ticket is handled; otherwise every gathered email is handled in order. */
  method ProcessAllTickets(pages: seq<GmailClient.ListPage>, limit: Option<int>,
                           fetch: string -> Result<GmailClient.Message, Error>,
                           htmlToText: string -> Option<string>, ctx: Context)
    returns (r: Result<Report, Error>)
    requires GmailClient.ListingEnds(pages)
    ensures var ids := GmailClient.ListedIds(pages, limit);
            r.Failure? <==> exists i | 0 <= i < |ids| :: GmailClient.EmailOf(ids[i], fetch, htmlToText).Failure?
    ensures var ids := GmailClient.ListedIds(pages, limit);
            r.Failure? ==> exists i | 0 <= i < |ids| ::
                             && GmailClient.EmailOf(ids[i], fetch, htmlToText) == Failure(r.error)
                             && forall j | 0 <= j < i :: GmailClient.EmailOf(ids[j], fetch, htmlToText).Success?
    ensures var ids := GmailClient.ListedIds(pages, limit);
            r.Success? ==> && |r.value.outcomes| == |ids|
                           && forall i | 0 <= i < |ids| ::
                                r.value.outcomes[i] == HandleEmail(i, GmailClient.EmailOf(ids[i], fetch, htmlToText).value, ctx)
    ensures r.Success? ==> r.value.processed == CountAppended(r.value.outcomes)
    ensures r.Success? ==> r.value.processed + r.value.skipped == |r.value.outcomes|
  {
    var emails := GmailClient.GetAllEmails(pages, limit, fetch, htmlToText);
    if emails.Failure? {
      return Failure(emails.error);
    }
    var report := ProcessEmails(emails.value, ctx);
    r := Success(report);
  }

  /** A normalised category always has a tab, so no ticket is ever skipped for want of
      one. */
  lemma NeverUnknownCategory(i: nat, e: GmailClient.Email, ctx: Context, key: string)
    ensures HandleEmail(i, e, ctx) != Skipped(UnknownCategory(key))
  {
    var a := Classify(i, e, ctx);
    if a.Success? {
      assert SheetsClient.AppendTicketRow(ctx.spreadsheetId, a.value.category, e.subject, a.value.urgency, a.value.summary).Success?;
    }
  }

  /** A ticket is appended exactly when its classification succeeded and its request
      ran; the row then goes to the tab of the category the classification chose, and
      holds the ticket's subject with the classification's urgency (one of the five
      levels) and summary. */
  lemma AppendedIff(i: nat, e: GmailClient.Email, ctx: Context)
    ensures var a := Classify(i, e, ctx);
            HandleEmail(i, e, ctx).Appended? <==>
              && a.Success?
              && var request := SheetsClient.AppendTicketRow(ctx.spreadsheetId, a.value.category, e.subject,
                                                             a.value.urgency, a.value.summary).value;
                 && ctx.execute(i, request).Pass?
                 && HandleEmail(i, e, ctx) == Appended(request)
                 && SheetsClient.SheetOfRange(request.range) == Some(Config.CategoryToSheet[a.value.category])
                 && request.values == [[e.subject, a.value.urgency, a.value.summary]]
                 && a.value.urgency in Config.UrgencyLevels
  {
  }

  /** A skipped ticket carries the error of its classification, or the reason its append
      request failed. */
  lemma SkippedCause(i: nat, e: GmailClient.Email, ctx: Context)
    requires HandleEmail(i, e, ctx).Skipped?
    ensures var a := Classify(i, e, ctx);
            || a == Failure(HandleEmail(i, e, ctx).error)
            || (&& a.Success?
                && var request := SheetsClient.AppendTicketRow(ctx.spreadsheetId, a.value.category, e.subject,
                                                               a.value.urgency, a.value.summary).value;
                   && ctx.execute(i, request).Fail?
                   && HandleEmail(i, e, ctx).error == AppendFailed(ctx.execute(i, request).error))
  {
  }

  // ---------------------------------------------------------------------------------
  // The loop as written

  /** What the loop as written does: it names `RateLimitError` in its first `except`
      clause without importing it, so the first error inside the `try`, whatever it is,
      raises `NameError` while the clause is matched, and the run stops there. The rows
      appended before it stay appended. */
  datatype AsWrittenRun = AsWrittenRun(appended: seq<SheetsClient.AppendRequest>, error: Option<Error>)

  /** The loop as written, over the outcomes of the tickets' `try` bodies in order. */
  function RunAsWritten(outcomes: seq<ItemOutcome>): (r: AsWrittenRun)
    ensures r.error.Some? ==> r.error.value == NameError("RateLimitError")
    ensures r.error.None? <==> forall i | 0 <= i < |outcomes| :: outcomes[i].Appended?
    ensures |r.appended| <= |outcomes|
  {
    if outcomes == [] then AsWrittenRun([], None)
    else
      match outcomes[0]
      case Skipped(_) => AsWrittenRun([], Some(NameError("RateLimitError")))
      case Appended(request) =>
        var rest := RunAsWritten(outcomes[1..]);
        assert forall i | 1 <= i < |outcomes| :: outcomes[i] == outcomes[1..][i - 1];
        AsWrittenRun([request] + rest.appended, rest.error)
  }

  /** The outcomes of all tickets, handled one by one. */
  function Outcomes(emails: seq<GmailClient.Email>, ctx: Context): (r: seq<ItemOutcome>)
    ensures |r| == |emails|
  {
    seq(|emails|, i requires 0 <= i < |emails| => HandleEmail(i, emails[i], ctx))
  }

  /** `process_all_tickets` as written, once the emails are gathered. */
  function ProcessAsWritten(emails: seq<GmailClient.Email>, ctx: Context): AsWrittenRun {
    RunAsWritten(Outcomes(emails, ctx))
  }

  /** The requests of the appended tickets, in order. */
  function AppendedRequests(outcomes: seq<ItemOutcome>): seq<SheetsClient.AppendRequest> {
    if outcomes == [] then []
    else (if outcomes[0].Appended? then [outcomes[0].request] else []) + AppendedRequests(outcomes[1..])
  }

  /** As written, the first skipped ticket ends the run with `NameError`, after the rows
      of the tickets before it and before any ticket after it is looked at. */
  lemma {:induction false} AsWrittenStopsAtFirstSkip(outcomes: seq<ItemOutcome>, k: nat)
    requires k < |outcomes|
    requires forall j | 0 <= j < k :: outcomes[j].Appended?
    requires outcomes[k].Skipped?
    ensures RunAsWritten(outcomes) == AsWrittenRun(AppendedRequests(outcomes[..k]), Some(NameError("RateLimitError")))
  {
    if k > 0 {
      AsWrittenStopsAtFirstSkip(outcomes[1..], k - 1);
      assert outcomes[..k][1..] == outcomes[1..][..k - 1];
    }
  }

  /** Without any failure the loop as written appends every ticket, as the intended one
      does: the defect shows only once a ticket fails. */
  lemma {:induction false} AsWrittenWithoutFailures(outcomes: seq<ItemOutcome>)
    requires forall j | 0 <= j < |outcomes| :: outcomes[j].Appended?
    ensures RunAsWritten(outcomes) == AsWrittenRun(AppendedRequests(outcomes), None)
  {
    if outcomes != [] {
      AsWrittenWithoutFailures(outcomes[1..]);
    }
  }

  /** Two tickets: the completion service fails on the first, the second classifies and
      appends. As written, the run stops with `NameError` and appends nothing; handled as
      intended, the first is skipped and the second appended. */
  lemma NameErrorCounterexample()
    ensures var emails := [GmailClient.Email("1", "a", "x"), GmailClient.Email("2", "b", "y")];
            var ctx := Context(
              (i: nat) => (u: string, n: nat) => if i == 0 then GroqModel.Failed("unavailable") else GroqModel.Reply(Some("{}")),
              (s: string) => Some(GroqModel.JObject(map[])),
              "sheet",
              (i: nat, request: SheetsClient.AppendRequest) => Pass);
            && ProcessAsWritten(emails, ctx) == AsWrittenRun([], Some(NameError("RateLimitError")))
            && Outcomes(emails, ctx)[0].Skipped?
            && Outcomes(emails, ctx)[1].Appended?
  {
    var emails := [GmailClient.Email("1", "a", "x"), GmailClient.Email("2", "b", "y")];
    var ctx := Context(
      (i: nat) => (u: string, n: nat) => if i == 0 then GroqModel.Failed("unavailable") else GroqModel.Reply(Some("{}")),
      (s: string) => Some(GroqModel.JObject(map[])),
      "sheet",
      (i: nat, request: SheetsClient.AppendRequest) => Pass);
    FirstCallFailedSkips(0, emails[0], ctx);
    assert GroqModel.Normalise(GroqModel.JObject(map[])).Success?;
    FirstReplyAppends(1, emails[1], ctx, "{}", GroqModel.JObject(map[]));
    var outcomes := Outcomes(emails, ctx);
    assert outcomes[0] == HandleEmail(0, emails[0], ctx);
    assert outcomes[1] == HandleEmail(1, emails[1], ctx);
  }

  /** A ticket whose first completion call fails with an error other than a rate limit
      is skipped. */
  lemma FirstCallFailedSkips(i: nat, e: GmailClient.Email, ctx: Context)
    requires ctx.services(i)(GroqModel.UserContent(e.subject, e.body), 0).Failed?
    ensures HandleEmail(i, e, ctx).Skipped?
  {
    GroqModel.OtherErrorNotRetried(ctx.services(i), GroqModel.UserContent(e.subject, e.body));
  }

  /** A ticket whose first completion call answers with JSON that normalises is appended
      when the append requests run. */
  lemma FirstReplyAppends(i: nat, e: GmailClient.Email, ctx: Context, text: string, data: GroqModel.Json)
    requires ctx.services(i)(GroqModel.UserContent(e.subject, e.body), 0) == GroqModel.Reply(Some(text))
    requires ctx.parse(text) == Some(data) && GroqModel.Normalise(data).Success?
    requires forall request :: ctx.execute(i, request).Pass?
    ensures HandleEmail(i, e, ctx).Appended?
  {
    var u := GroqModel.UserContent(e.subject, e.body);
    assert GroqModel.FirstAnswered(ctx.services(i), u, 0) == 0;
    assert GroqModel.Retry(ctx.services(i), u).response == Success(Some(text));
    assert Classify(i, e, ctx) == GroqModel.Normalise(data);
  }
}
