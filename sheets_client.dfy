/** Writing one classified ticket as a row of the spreadsheet tab of its category. */
module SheetsClient {
  import opened Wrappers
  import opened Failures
  import Config

  /** The `spreadsheets().values().append(...)` request, before `execute()`. */
  datatype AppendRequest = AppendRequest(
    spreadsheetId: string,
    range: string,
    valueInputOption: string,
    insertDataOption: string,
    values: seq<seq<string>>)

  /** Running an append request, `get_sheets_service()` and `execute()` together (OAuth,
      the service and the network included): the model sees only whether it failed, and
      why. The first argument tells which ticket the request is for, so that runs may
      succeed and fail independently. */
  type Executor = (nat, AppendRequest) -> Outcome<string>

  const RangeSuffix: string := "'!A:C"

  /** The A1 range of the first three columns of a tab, quoted because the tab names hold
      spaces and accents: `f"'{sheet_name}'!A:C"`. */
  function RangeFor(sheetName: string): (r: string)
    ensures |r| == |sheetName| + 6
    ensures r[0] == '\'' && r[1..|r| - 5] == sheetName && r[|r| - 5..] == RangeSuffix
  {
    "'" + sheetName + RangeSuffix
  }

  /** The tab a range of that form names. */
  function SheetOfRange(range: string): Option<string> {
    if 6 <= |range| && range[0] == '\'' && range[|range| - 5..] == RangeSuffix
    then Some(range[1..|range| - 5])
    else None
  }

  /** The tab can be read back from the range it was written to. */
  lemma SheetOfRangeFor(sheetName: string)
    ensures SheetOfRange(RangeFor(sheetName)) == Some(sheetName)
  {
  }

  /** Distinct tabs are addressed by distinct ranges. */
  lemma RangeForInjective(a: string, b: string)
    ensures RangeFor(a) == RangeFor(b) <==> a == b
  {
    if RangeFor(a) == RangeFor(b) {
      SheetOfRangeFor(a);
      SheetOfRangeFor(b);
    }
  }

  /** No configured tab name holds an apostrophe, which would end the quoted name early
      (an apostrophe in a quoted A1 name has to be doubled). */
  lemma SheetNamesUnquoted()
    ensures forall k | k in Config.CategoryToSheet :: '\'' !in Config.CategoryToSheet[k]
  {
    Config.CategoryKeys();
    FirstTabsUnquoted();
    LastTabsUnquoted();
  }

  lemma FirstTabsUnquoted()
    ensures '\'' !in "Problème technique informatique"
    ensures '\'' !in "Demande administrative"
  {
  }

  lemma LastTabsUnquoted()
    ensures '\'' !in "Problème d’accès / authentification"
    ensures '\'' !in "Demande de support utilisateur"
  {
  }

  /** `append_ticket_row`: the row holds subject, urgency and summary, in that order, and
      goes as raw values into freshly inserted rows of the category's tab. A category that
      is not a key of the table raises `KeyError` before any request is built. */
  function AppendTicketRow(spreadsheetId: string, categoryKey: string, subject: string, urgency: string,
                           summary: string): (r: Result<AppendRequest, Error>)
    ensures r.Failure? <==> categoryKey !in Config.CategoryToSheet
    ensures r.Failure? ==> r.error == UnknownCategory(categoryKey)
    ensures r.Success? ==> && r.value.spreadsheetId == spreadsheetId
                           && SheetOfRange(r.value.range) == Some(Config.CategoryToSheet[categoryKey])
                           && r.value.valueInputOption == "RAW"
                           && r.value.insertDataOption == "INSERT_ROWS"
                           && r.value.values == [[subject, urgency, summary]]
  {
    if categoryKey !in Config.CategoryToSheet then Failure(UnknownCategory(categoryKey))
    else
      var sheetName := Config.CategoryToSheet[categoryKey];
      SheetOfRangeFor(sheetName);
      Success(AppendRequest(spreadsheetId, RangeFor(sheetName), "RAW", "INSERT_ROWS", [[subject, urgency, summary]]))
  }

  /** Two categories land in the same tab exactly when the table maps them to the same
      name; bug reports share the tab of technical problems, every other pair is apart. */
  lemma SameTabIff(spreadsheetId: string, k1: string, k2: string, row1: seq<string>, row2: seq<string>)
    requires k1 in Config.CategoryToSheet && k2 in Config.CategoryToSheet
    requires |row1| == 3 && |row2| == 3
    ensures var r1 := AppendTicketRow(spreadsheetId, k1, row1[0], row1[1], row1[2]);
            var r2 := AppendTicketRow(spreadsheetId, k2, row2[0], row2[1], row2[2]);
            r1.value.range == r2.value.range <==> Config.CategoryToSheet[k1] == Config.CategoryToSheet[k2]
  {
    RangeForInjective(Config.CategoryToSheet[k1], Config.CategoryToSheet[k2]);
  }

  /** The request for a bug report targets the tab of technical problems. */
  lemma BugReportsShareTechnicalTab(spreadsheetId: string, subject: string, urgency: string, summary: string)
    ensures AppendTicketRow(spreadsheetId, "bug_service", subject, urgency, summary).Success?
    ensures AppendTicketRow(spreadsheetId, "bug_service", subject, urgency, summary)
         == AppendTicketRow(spreadsheetId, "probleme_technique", subject, urgency, summary)
  {
    Config.CategoryKeys();
  }
}
