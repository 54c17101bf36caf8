/** The three list-handling routes of the worker: `list` partitions the
    spreadsheet rows into valid rules and rows to report, `diff` compares
    the candidate bulk list with the published one, and `publish` uploads
    the candidate list. Fetching rows and talking to the store are
    parameters: the rows arrive as a sequence, the store as a function
    from the uploaded list to its reply. */
module Controller {
  import opened Wrappers
  import opened Types
  import Seqs
  import JsNumber
  import Validators
  import Outputs
  import Globals

  /** `processSheetRow`: a validated redirect, or `None` for a row that is
      deleted or invalid. Its definition is not part of this model. */
  type RowProcessor = RawRedirectProps -> Option<RedirectProps>

  /** `ruleInList(rule, list)`: whether `list` holds a rule matching
      `rule`. Its definition is not part of this model. */
  type RuleMatcher = (BulkRedirectListItem, seq<BulkRedirectListItem>) -> bool

  // ----- list -----

  /** `rows.flatMap(row => processSheetRow(row) ?? [])`: the rules the
      processed rows yield, in row order. */
  function ValidRules(rows: seq<RawRedirectProps>, process: RowProcessor): (r: seq<RedirectProps>)
    ensures |r| <= |rows|
    ensures forall rule :: rule in r <==> exists k :: 0 <= k < |rows| && process(rows[k]) == Some(rule)
  {
    if |rows| == 0 then []
    else
      var head := match process(rows[0]) case Some(rule) => [rule] case None => [];
      var tail := ValidRules(rows[1..], process);
      assert forall rule :: rule in tail <==> exists k :: 1 <= k < |rows| && process(rows[k]) == Some(rule) by {
        forall rule
          ensures rule in tail <==> exists k :: 1 <= k < |rows| && process(rows[k]) == Some(rule)
        {
          if rule in tail {
            var j :| 0 <= j < |rows| - 1 && process(rows[1..][j]) == Some(rule);
            assert rows[1..][j] == rows[j + 1];
          }
          if exists k :: 1 <= k < |rows| && process(rows[k]) == Some(rule) {
            var k :| 1 <= k < |rows| && process(rows[k]) == Some(rule);
            assert rows[1..][k - 1] == rows[k];
          }
        }
      }
      head + tail
  }

  /** A row the processor rejected that is not marked deleted: reported. */
  function IsBad(process: RowProcessor): RawRedirectProps -> bool {
    row => process(row).None? && !Validators.ValidateBoolean(row.deleted, false)
  }

  /** A row the processor rejected that is marked deleted: dropped silently. */
  function IsSkipped(process: RowProcessor): RawRedirectProps -> bool {
    row => process(row).None? && Validators.ValidateBoolean(row.deleted, false)
  }

  /** The rows `list` reports as errors, in row order: a row is reported
      exactly when it yielded no rule and is not marked deleted. */
  function BadRows(rows: seq<RawRedirectProps>, process: RowProcessor): seq<RawRedirectProps> {
    Seqs.Filter(IsBad(process), rows)
  }

  /** The summary line of `list`. */
  function ListMessage(validCount: nat, badCount: nat): string {
    CountLine("Google sheet contains ", validCount, "valid rules and " + JsNumber.NumberText(badCount) + " rows with errors.")
  }

  /** A summary line: `before`, the decimal count, a space, `after`. */
  function CountLine(before: string, n: nat, after: string): string {
    before + JsNumber.NumberText(n) + " " + after
  }

  /** What `list` responds with. */
  datatype ListReport = ListReport(messages: seq<string>, inputRows: seq<RedirectProps>, invalidRules: seq<RawRedirectProps>)

  /** The `flatMap` pass of `list`: one walk over the rows, keeping each
      processed rule and collecting each rejected row that is not marked
      deleted. */
  method List(rows: seq<RawRedirectProps>, process: RowProcessor) returns (report: ListReport)
    ensures report.inputRows == ValidRules(rows, process)
    ensures report.invalidRules == BadRows(rows, process)
    ensures report.messages == [ListMessage(|report.inputRows|, |report.invalidRules|)]
  {
    var valid: seq<RedirectProps> := [];
    var bad: seq<RawRedirectProps> := [];
    var i := 0;
    while i < |rows|
      invariant 0 <= i <= |rows|
      invariant valid == ValidRules(rows[..i], process)
      invariant bad == BadRows(rows[..i], process)
    {
      var row := rows[i];
      assert rows[..i + 1] == rows[..i] + [row];
      ListStep(rows[..i], row, process);
      var output := process(row);
      if output.Some? {
        valid := valid + [output.value];
      } else if !Validators.ValidateBoolean(row.deleted, false) {
        bad := bad + [row];
      }
      i := i + 1;
    }
    assert rows[..|rows|] == rows;
    report := ListReport([ListMessage(|valid|, |bad|)], valid, bad);
  }

  /** One row's effect on the two outputs of `list`. */
  lemma ListStep(done: seq<RawRedirectProps>, row: RawRedirectProps, process: RowProcessor)
    ensures ValidRules(done + [row], process)
            == ValidRules(done, process) + (if process(row).Some? then [process(row).value] else [])
    ensures BadRows(done + [row], process)
            == BadRows(done, process) + (if IsBad(process)(row) then [row] else [])
  {
    ValidRulesStep(done, row, process);
    Seqs.FilterAppend(IsBad(process), done, [row]);
  }

  lemma ValidRulesStep(done: seq<RawRedirectProps>, row: RawRedirectProps, process: RowProcessor)
    ensures ValidRules(done + [row], process)
            == ValidRules(done, process) + (if process(row).Some? then [process(row).value] else [])
  {
    ValidRulesAppend(done, [row], process);
    assert [row][1..] == [];
  }

  /** Processing distributes over concatenation of row blocks. */
  lemma {:induction false} ValidRulesAppend(a: seq<RawRedirectProps>, b: seq<RawRedirectProps>, process: RowProcessor)
    ensures ValidRules(a + b, process) == ValidRules(a, process) + ValidRules(b, process)
  {
    if |a| == 0 {
      assert a + b == b;
    } else {
      assert (a + b)[0] == a[0];
      assert (a + b)[1..] == a[1..] + b;
      ValidRulesAppend(a[1..], b, process);
    }
  }

  /** Every row is accounted for exactly once: as a valid rule, as a
      reported row, or as a deleted row dropped silently. */
  lemma {:induction false} ListAccountsForEveryRow(rows: seq<RawRedirectProps>, process: RowProcessor)
    ensures |ValidRules(rows, process)| + |BadRows(rows, process)| + |Seqs.Filter(IsSkipped(process), rows)| == |rows|
  {
    if |rows| > 0 {
      ListAccountsForEveryRow(rows[1..], process);
    }
  }

  /** A row is reported exactly when it yielded no rule and is not marked
      deleted. */
  lemma BadRowsAreRejectedLiveRows(rows: seq<RawRedirectProps>, process: RowProcessor)
    ensures forall row :: row in BadRows(rows, process) <==>
              (row in rows && process(row).None? && !Validators.ValidateBoolean(row.deleted, false))
  {
  }

  /** `processSheetRow` yields nothing for a row marked deleted; given
      that, dropping the deleted rows first changes no rule. */
  lemma {:induction false} DeletedRowsContributeNothing(rows: seq<RawRedirectProps>, process: RowProcessor)
    requires forall row: RawRedirectProps :: Validators.ValidateBoolean(row.deleted, false) ==> process(row).None?
    ensures ValidRules(Seqs.Filter(IsLive(), rows), process) == ValidRules(rows, process)
  {
    if |rows| > 0 {
      DeletedRowsContributeNothing(rows[1..], process);
      var head := if IsLive()(rows[0]) then [rows[0]] else [];
      var rest := Seqs.Filter(IsLive(), rows[1..]);
      ValidRulesAppend(head, rest, process);
      if IsLive()(rows[0]) {
        assert head[1..] == [];
      }
    }
  }

  /** A row not marked deleted. */
  function IsLive(): RawRedirectProps -> bool {
    (row: RawRedirectProps) => !Validators.ValidateBoolean(row.deleted, false)
  }

  /** The count in a summary line reads back: the text after `before`
      parses to `n`. */
  lemma CountReadsBack(before: string, n: nat, after: string)
    ensures var m := CountLine(before, n, after);
      && m[..|before|] == before
      && JsNumber.ParseInt(m[|before|..]) == Some(n)
  {
    var ds := JsNumber.NumberText(n);
    var m := CountLine(before, n, after);
    assert m[..|before|] == before;
    assert m[|before|..] == "" + ds + (" " + after);
    assert ds == JsNumber.DecimalString(n);
    JsNumber.ParseIntDecimalPrefix("", ds, " " + after);
  }

  /** The `list` summary names the number of valid rules. */
  lemma ListMessageCountsRules(validCount: nat, badCount: nat)
    ensures var m := ListMessage(validCount, badCount);
      var prefix := "Google sheet contains ";
      && m[..|prefix|] == prefix
      && JsNumber.ParseInt(m[|prefix|..]) == Some(validCount)
  {
    CountReadsBack("Google sheet contains ", validCount, "valid rules and " + JsNumber.NumberText(badCount) + " rows with errors.");
  }

  // ----- the candidate list -----

  /** The candidate bulk list `diff` and `publish` build from the rows. */
  function Candidate(rows: seq<RawRedirectProps>, process: RowProcessor, configured: Option<string>, fullUrl: Outputs.UrlMaker)
    : (r: seq<BulkRedirectListItem>)
    ensures |r| >= |ValidRules(rows, process)|
    ensures forall item :: item in r ==>
              exists k :: 0 <= k < |rows| && process(rows[k]).Some?
                && item in Outputs.RuleItems(process(rows[k]).value, Globals.Locales,
                                             Outputs.EffectiveDefaultLocale(configured), fullUrl)
  {
    var valid := ValidRules(rows, process);
    var r := Outputs.MakeBulkList(valid, configured, fullUrl);
    assert forall item :: item in r ==>
              exists k :: 0 <= k < |rows| && process(rows[k]).Some?
                && item in Outputs.RuleItems(process(rows[k]).value, Globals.Locales,
                                             Outputs.EffectiveDefaultLocale(configured), fullUrl) by {
      forall item | item in r
        ensures exists k :: 0 <= k < |rows| && process(rows[k]).Some?
                  && item in Outputs.RuleItems(process(rows[k]).value, Globals.Locales,
                                               Outputs.EffectiveDefaultLocale(configured), fullUrl)
      {
        var j :| 0 <= j < |valid|
                 && item in Outputs.RuleItems(valid[j], Globals.Locales, Outputs.EffectiveDefaultLocale(configured), fullUrl);
        assert valid[j] in valid;
        var k :| 0 <= k < |rows| && process(rows[k]) == Some(valid[j]);
      }
    }
    r
  }

  /** The candidate list of two row blocks is the two lists joined. */
  lemma CandidateAppend(
    a: seq<RawRedirectProps>, b: seq<RawRedirectProps>, process: RowProcessor, configured: Option<string>, fullUrl: Outputs.UrlMaker)
    ensures Candidate(a + b, process, configured, fullUrl)
            == Candidate(a, process, configured, fullUrl) + Candidate(b, process, configured, fullUrl)
  {
    ValidRulesAppend(a, b, process);
    Outputs.MakeBulkListAppend(ValidRules(a, process), ValidRules(b, process), configured, fullUrl);
  }

  // ----- diff -----

  /** What `diff` responds with. */
  datatype DiffReport = DiffReport(messages: seq<string>, addedRules: seq<BulkRedirectListItem>, removedRules: seq<BulkRedirectListItem>)

  /** `!ruleInList(_, list)`, as a filter predicate. */
  function NotIn(inList: RuleMatcher, list: seq<BulkRedirectListItem>): BulkRedirectListItem -> bool {
    rule => !inList(rule, list)
  }

  /** The first `diff` summary line. */
  function AddedMessage(n: nat): string {
    CountLine("There are ", n, "rules to add (in spreadsheet but not published).")
  }

  /** The second `diff` summary line. */
  function RemovedMessage(n: nat): string {
    CountLine("There are ", n, "rules to remove (published but not in spreadsheet).")
  }

  /** The comparison at the heart of `diff`: the published rules with no
      match among the candidates are to be removed, the candidates with no
      match among the published rules are to be added; both keep their
      list order. */
  function Reconcile(published: seq<BulkRedirectListItem>, candidate: seq<BulkRedirectListItem>, inList: RuleMatcher)
    : (d: DiffReport)
    ensures forall x :: x in d.removedRules <==> x in published && !inList(x, candidate)
    ensures forall x :: x in d.addedRules <==> x in candidate && !inList(x, published)
    ensures |d.removedRules| <= |published| && |d.addedRules| <= |candidate|
    ensures d.messages == [AddedMessage(|d.addedRules|), RemovedMessage(|d.removedRules|)]
  {
    var removed := Seqs.Filter(NotIn(inList, candidate), published);
    var added := Seqs.Filter(NotIn(inList, published), candidate);
    DiffReport([AddedMessage(|added|), RemovedMessage(|removed|)], added, removed)
  }

  /** `diff` end to end, the published list given. */
  function Diff(
    rows: seq<RawRedirectProps>, process: RowProcessor, configured: Option<string>, fullUrl: Outputs.UrlMaker,
    published: seq<BulkRedirectListItem>, inList: RuleMatcher)
    : (d: DiffReport)
    ensures forall x :: x in d.addedRules ==> x in Candidate(rows, process, configured, fullUrl)
    ensures forall x :: x in d.removedRules ==> x in published
  {
    Reconcile(published, Candidate(rows, process, configured, fullUrl), inList)
  }

  /** When `ruleInList` finds every rule matching some list member, no
      added rule matches a removed one, in either direction. */
  lemma ReconcileDisjoint(
    published: seq<BulkRedirectListItem>, candidate: seq<BulkRedirectListItem>, inList: RuleMatcher,
    same: (BulkRedirectListItem, BulkRedirectListItem) -> bool)
    requires forall x, list: seq<BulkRedirectListItem>, k :: 0 <= k < |list| && same(x, list[k]) ==> inList(x, list)
    ensures var d := Reconcile(published, candidate, inList);
      forall a, b :: a in d.addedRules && b in d.removedRules ==> !same(a, b) && !same(b, a)
  {
    var d := Reconcile(published, candidate, inList);
    forall a, b | a in d.addedRules && b in d.removedRules ensures !same(a, b) && !same(b, a) {
      var i :| 0 <= i < |published| && published[i] == b;
      var j :| 0 <= j < |candidate| && candidate[j] == a;
      assert same(a, published[i]) ==> inList(a, published);
      assert same(b, candidate[j]) ==> inList(b, candidate);
    }
  }

  /** When `ruleInList` finds every member of a list, a rule present on
      both sides is neither added nor removed, and a list compared with
      itself yields no change. */
  lemma ReconcileCommon(published: seq<BulkRedirectListItem>, candidate: seq<BulkRedirectListItem>, inList: RuleMatcher)
    requires forall x, list: seq<BulkRedirectListItem> :: x in list ==> inList(x, list)
    ensures var d := Reconcile(published, candidate, inList);
      forall x :: x in published && x in candidate ==> x !in d.addedRules && x !in d.removedRules
    ensures Reconcile(published, published, inList).addedRules == []
    ensures Reconcile(published, published, inList).removedRules == []
  {
    var d := Reconcile(published, published, inList);
    assert forall k :: 0 <= k < |published| ==> inList(published[k], published);
    Seqs.FilterNone(NotIn(inList, published), published);
  }

  /** Against an empty store every candidate is added, in order, and
      nothing is removed. */
  lemma ReconcileFirstPublish(candidate: seq<BulkRedirectListItem>, inList: RuleMatcher)
    requires forall x :: !inList(x, [])
    ensures Reconcile([], candidate, inList).addedRules == candidate
    ensures Reconcile([], candidate, inList).removedRules == []
  {
    Seqs.FilterAll(NotIn(inList, []), candidate);
  }

  /** A reference `redirectCompare`, as the repository's tests pin it
      (test/processing.test.ts:169-242): two list items are the same rule
      when source, target and status code agree; `id` and the timestamps
      take no part. */
  predicate SameRule(a: BulkRedirectListItem, b: BulkRedirectListItem)
    ensures SameRule(a, b) <==>
              && a.redirect.sourceUrl == b.redirect.sourceUrl
              && a.redirect.targetUrl == b.redirect.targetUrl
              && a.redirect.statusCode == b.redirect.statusCode
  {
    a.redirect == b.redirect
  }

  /** A reference `ruleInList`, as the repository's tests pin it
      (test/processing.test.ts:244-292): some member of `list` is the same
      rule as `x`. That nothing is in the empty list is a modelling
      assumption the tests do not exercise. */
  predicate RuleInList(x: BulkRedirectListItem, list: seq<BulkRedirectListItem>)
    ensures x in list ==> RuleInList(x, list)
    ensures |list| == 0 ==> !RuleInList(x, list)
  {
    exists k :: 0 <= k < |list| && SameRule(x, list[k])
  }

  /** No member of `list` redirects like `x`. */
  ghost predicate NoSameRedirect(x: BulkRedirectListItem, list: seq<BulkRedirectListItem>) {
    forall k :: 0 <= k < |list| ==> list[k].redirect != x.redirect
  }

  /** The reference `ruleInList` has the three properties the lemmas
      above assume of the matcher: a match with a member means membership,
      every member is in its list, and nothing is in the empty list. */
  lemma RuleInListMeetsAssumptions()
    ensures forall x, list: seq<BulkRedirectListItem>, k :: 0 <= k < |list| && SameRule(x, list[k]) ==> RuleInList(x, list)
    ensures forall x, list: seq<BulkRedirectListItem> :: x in list ==> RuleInList(x, list)
    ensures forall x :: !RuleInList(x, [])
  {
    forall x, list: seq<BulkRedirectListItem> | x in list ensures RuleInList(x, list) {
      var k :| 0 <= k < |list| && list[k] == x;
      assert SameRule(x, list[k]);
    }
  }

  /** `diff` with the reference `ruleInList`: a rule is added exactly when
      no published rule has its source, target and status code, and removed
      exactly when no candidate has them. */
  lemma ReconcileByRedirect(published: seq<BulkRedirectListItem>, candidate: seq<BulkRedirectListItem>)
    ensures var d := Reconcile(published, candidate, RuleInList);
      forall x :: x in d.addedRules <==> x in candidate && NoSameRedirect(x, published)
    ensures var d := Reconcile(published, candidate, RuleInList);
      forall x :: x in d.removedRules <==> x in published && NoSameRedirect(x, candidate)
  {
    var d := Reconcile(published, candidate, RuleInList);
    forall x ensures x in d.addedRules <==> x in candidate && NoSameRedirect(x, published) {
      assert RuleInList(x, published) <==> !NoSameRedirect(x, published);
    }
    forall x ensures x in d.removedRules <==> x in published && NoSameRedirect(x, candidate) {
      assert RuleInList(x, candidate) <==> !NoSameRedirect(x, candidate);
    }
  }

  /** With the reference `ruleInList`, no added rule redirects like a
      removed one, a rule on both sides is in neither list, and against an
      empty store every candidate is added. */
  lemma DiffByRedirect(published: seq<BulkRedirectListItem>, candidate: seq<BulkRedirectListItem>)
    ensures var d := Reconcile(published, candidate, RuleInList);
      forall a, b :: a in d.addedRules && b in d.removedRules ==> a.redirect != b.redirect
    ensures var d := Reconcile(published, candidate, RuleInList);
      forall x :: x in published && x in candidate ==> x !in d.addedRules && x !in d.removedRules
    ensures Reconcile([], candidate, RuleInList).addedRules == candidate
    ensures Reconcile([], candidate, RuleInList).removedRules == []
  {
    RuleInListMeetsAssumptions();
    ReconcileDisjoint(published, candidate, RuleInList, SameRule);
    ReconcileCommon(published, candidate, RuleInList);
    ReconcileFirstPublish(candidate, RuleInList);
  }

  /** The `diff` summary names the number of rules to add. */
  lemma AddedMessageCounts(n: nat)
    ensures var prefix := "There are ";
      && AddedMessage(n)[..|prefix|] == prefix
      && JsNumber.ParseInt(AddedMessage(n)[|prefix|..]) == Some(n)
  {
    CountReadsBack("There are ", n, "rules to add (in spreadsheet but not published).");
  }

  /** The `diff` summary names the number of rules to remove. */
  lemma RemovedMessageCounts(n: nat)
    ensures var prefix := "There are ";
      && RemovedMessage(n)[..|prefix|] == prefix
      && JsNumber.ParseInt(RemovedMessage(n)[|prefix|..]) == Some(n)
  {
    CountReadsBack("There are ", n, "rules to remove (published but not in spreadsheet).");
  }

  // ----- publish -----

  /** `publish`: upload the candidate list and return the report, the
      store's reply given as a function of the uploaded list. */
  function Publish(
    rows: seq<RawRedirectProps>, process: RowProcessor, configured: Option<string>, fullUrl: Outputs.UrlMaker,
    store: seq<BulkRedirectListItem> -> StoreResponse)
    : (u: Outputs.Upload)
    ensures u.report.success == store(Candidate(rows, process, configured, fullUrl)).success
    ensures forall x :: Some(x) in u.report.invalidRules ==> x in Candidate(rows, process, configured, fullUrl)
  {
    var candidate := Candidate(rows, process, configured, fullUrl);
    Outputs.InvalidRulesUploaded(candidate, store(candidate));
    Outputs.UploadBulkList(candidate, store(candidate))
  }

  /** Every rule `publish` reports invalid traces back to a spreadsheet row
      that the processor accepted. */
  lemma PublishInvalidRulesFromRows(
    rows: seq<RawRedirectProps>, process: RowProcessor, configured: Option<string>, fullUrl: Outputs.UrlMaker,
    store: seq<BulkRedirectListItem> -> StoreResponse)
    ensures forall x :: Some(x) in Publish(rows, process, configured, fullUrl, store).report.invalidRules ==>
              exists k :: 0 <= k < |rows| && process(rows[k]).Some?
                && x in Outputs.RuleItems(process(rows[k]).value, Globals.Locales,
                                          Outputs.EffectiveDefaultLocale(configured), fullUrl)
  {
  }
}
