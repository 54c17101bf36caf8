/** The bulk list builder: validated redirects become entries of the
    bulk-redirect list, fanned out per locale; and the report built from
    the store's reply to an upload. */
module Outputs {
  import opened Wrappers
  import opened Types
  import opened JsString
  import Seqs
  import Globals

  /** `makeFullURL(path, locale?)`: resolves a path, optionally under a
      locale segment, to an absolute URL. Its definition is not part of
      this model. */
  type UrlMaker = (string, Option<string>) -> string

  /** `DEFAULT_LOCALE || 'en-US'`. */
  function EffectiveDefaultLocale(configured: Option<string>): (r: string)
    ensures r != ""
    ensures configured.Some? && configured.value != "" ==> r == configured.value
    ensures configured.None? || configured == Some("") ==> r == Globals.FallbackLocale
  {
    if configured.Some? && configured.value != "" then configured.value else Globals.FallbackLocale
  }

  /** Locale tags that collate equal at base sensitivity, approximated as
      ASCII case-insensitive equality. */
  predicate SameLocale(a: string, b: string) {
    ToLowerAscii(a) == ToLowerAscii(b)
  }

  /** Collating equal compares two tags character by character, ignoring
      ASCII case, and is an equivalence. */
  lemma SameLocaleCharwise(a: string, b: string, c: string)
    ensures SameLocale(a, b) <==>
              |a| == |b| && forall k :: 0 <= k < |a| ==> LowerChar(a[k]) == LowerChar(b[k])
    ensures SameLocale(a, a)
    ensures SameLocale(a, b) ==> SameLocale(b, a)
    ensures SameLocale(a, b) && SameLocale(b, c) ==> SameLocale(a, c)
  {
    if |a| == |b| && forall k :: 0 <= k < |a| ==> LowerChar(a[k]) == LowerChar(b[k]) {
      assert ToLowerAscii(a) == ToLowerAscii(b);
    }
  }

  /** "`l` is the default locale", as a filter predicate. */
  function IsDefault(defaultLocale: string): string -> bool {
    l => SameLocale(l, defaultLocale)
  }

  /** "`l` is not the default locale", as a filter predicate. */
  function IsOther(defaultLocale: string): string -> bool {
    l => !SameLocale(l, defaultLocale)
  }

  /** The locales among `locales` that get a prefixed entry, in order. */
  function KeptLocales(locales: seq<string>, defaultLocale: string): seq<string> {
    Seqs.Filter(IsOther(defaultLocale), locales)
  }

  /** The `{ redirect: ... }` envelope, with none of the store's metadata. */
  function Entry(sourceUrl: string, targetUrl: string, code: RedirectCode): BulkRedirectListItem {
    BulkRedirectListItem(None, BulkRedirectListItemDetails(sourceUrl, targetUrl, code), None, None)
  }

  /** The entry without a locale segment, emitted for every redirect. */
  function PlainItem(rule: RedirectProps, fullUrl: UrlMaker): BulkRedirectListItem {
    Entry(fullUrl(rule.source, None), fullUrl(rule.destination, None), rule.code)
  }

  /** The entry under one locale's path segment. */
  function LocaleItem(rule: RedirectProps, locale: string, fullUrl: UrlMaker): BulkRedirectListItem {
    Entry(fullUrl(rule.source, Some(locale)), fullUrl(rule.destination, Some(locale)), rule.code)
  }

  /** The `for (const locale of Locales)` loop: one entry per locale, the
      default locale skipped. */
  function LocalizedItems(rule: RedirectProps, locales: seq<string>, defaultLocale: string, fullUrl: UrlMaker)
    : (r: seq<BulkRedirectListItem>)
    ensures |r| <= |locales|
    ensures forall item :: item in r ==> item == Entry(item.redirect.sourceUrl, item.redirect.targetUrl, rule.code)
  {
    if |locales| == 0 then []
    else
      (if SameLocale(locales[0], defaultLocale) then [] else [LocaleItem(rule, locales[0], fullUrl)])
      + LocalizedItems(rule, locales[1..], defaultLocale, fullUrl)
  }

  /** The entries one redirect contributes to the bulk list, given the
      locale list and the default locale. */
  function RuleItems(rule: RedirectProps, locales: seq<string>, defaultLocale: string, fullUrl: UrlMaker)
    : (r: seq<BulkRedirectListItem>)
    ensures |r| >= 1 && r[0] == PlainItem(rule, fullUrl)
    ensures !rule.localized ==> r == [PlainItem(rule, fullUrl)]
    ensures forall item :: item in r ==> item == Entry(item.redirect.sourceUrl, item.redirect.targetUrl, rule.code)
  {
    [PlainItem(rule, fullUrl)]
    + (if rule.localized then LocalizedItems(rule, locales, defaultLocale, fullUrl) else [])
  }

  /** `input.flatMap(...)` over the rules, with the default locale fixed. */
  function ExpandAll(rules: seq<RedirectProps>, locales: seq<string>, defaultLocale: string, fullUrl: UrlMaker)
    : (r: seq<BulkRedirectListItem>)
    ensures |r| >= |rules|
    ensures forall item :: item in r ==>
              exists k :: 0 <= k < |rules| && item in RuleItems(rules[k], locales, defaultLocale, fullUrl)
  {
    if |rules| == 0 then []
    else
      var head := RuleItems(rules[0], locales, defaultLocale, fullUrl);
      var tail := ExpandAll(rules[1..], locales, defaultLocale, fullUrl);
      assert forall item :: item in tail ==>
               exists k :: 1 <= k < |rules| && item in RuleItems(rules[k], locales, defaultLocale, fullUrl) by {
        forall item | item in tail
          ensures exists k :: 1 <= k < |rules| && item in RuleItems(rules[k], locales, defaultLocale, fullUrl)
        {
          var j :| 0 <= j < |rules| - 1 && item in RuleItems(rules[1..][j], locales, defaultLocale, fullUrl);
          assert rules[1..][j] == rules[j + 1];
        }
      }
      head + tail
  }

  /** `makeBulkList`: every rule's entries in rule order, each carrying only
      a redirect and no store metadata. */
  function MakeBulkList(rules: seq<RedirectProps>, configured: Option<string>, fullUrl: UrlMaker)
    : (r: seq<BulkRedirectListItem>)
    ensures |rules| == 0 ==> r == []
    ensures |r| >= |rules|
    ensures forall item :: item in r ==>
              exists k :: 0 <= k < |rules|
                && item in RuleItems(rules[k], Globals.Locales, EffectiveDefaultLocale(configured), fullUrl)
  {
    ExpandAll(rules, Globals.Locales, EffectiveDefaultLocale(configured), fullUrl)
  }

  /** The locale loop emits exactly one entry per kept locale, in the
      order of the locale list. */
  lemma {:induction false} LocalizedItemsFollowKeptLocales(
    rule: RedirectProps, locales: seq<string>, defaultLocale: string, fullUrl: UrlMaker)
    ensures var r := LocalizedItems(rule, locales, defaultLocale, fullUrl);
      var kept := KeptLocales(locales, defaultLocale);
      && |r| == |kept|
      && forall k :: 0 <= k < |kept| ==> r[k] == LocaleItem(rule, kept[k], fullUrl)
  {
    if |locales| > 0 {
      LocalizedItemsFollowKeptLocales(rule, locales[1..], defaultLocale, fullUrl);
    }
  }

  /** A localized redirect yields its unprefixed entry first, then one
      entry per non-default locale in locale-list order. */
  lemma RuleItemsLocalized(rule: RedirectProps, locales: seq<string>, defaultLocale: string, fullUrl: UrlMaker)
    requires rule.localized
    ensures var r := RuleItems(rule, locales, defaultLocale, fullUrl);
      var kept := KeptLocales(locales, defaultLocale);
      && |r| == 1 + |kept|
      && r[0] == PlainItem(rule, fullUrl)
      && forall k :: 0 <= k < |kept| ==> r[k + 1] == LocaleItem(rule, kept[k], fullUrl)
  {
    var r := RuleItems(rule, locales, defaultLocale, fullUrl);
    var li := LocalizedItems(rule, locales, defaultLocale, fullUrl);
    var kept := KeptLocales(locales, defaultLocale);
    assert r == [PlainItem(rule, fullUrl)] + li;
    LocalizedItemsFollowKeptLocales(rule, locales, defaultLocale, fullUrl);
    forall k | 0 <= k < |kept| ensures r[k + 1] == LocaleItem(rule, kept[k], fullUrl) {
      assert r[k + 1] == li[k];
    }
  }

  /** The fan-out size: one entry plus one per locale that is not the
      default, so as many entries as locales exactly when the default
      occurs once among them. */
  lemma FanOutSize(rule: RedirectProps, locales: seq<string>, defaultLocale: string, fullUrl: UrlMaker)
    requires rule.localized
    ensures |RuleItems(rule, locales, defaultLocale, fullUrl)|
            == 1 + |locales| - |Seqs.Filter(IsDefault(defaultLocale), locales)|
  {
    RuleItemsLocalized(rule, locales, defaultLocale, fullUrl);
    Seqs.FilterPartition(IsDefault(defaultLocale), IsOther(defaultLocale), locales);
  }

  /** What a tag matching any casing of `en-us` looks like: five
      characters, `e`, `n` and `u` at positions 0, 1 and 3, up to case. */
  lemma EnUsShape(l: string, d: string)
    requires ToLowerAscii(d) == "en-us"
    requires SameLocale(l, d)
    ensures |l| == 5 && LowerChar(l[0]) == 'e' && LowerChar(l[1]) == 'n' && LowerChar(l[3]) == 'u'
  {
    assert ToLowerAscii(l)[0] == ToLowerAscii(d)[0];
    assert ToLowerAscii(l)[1] == ToLowerAscii(d)[1];
    assert ToLowerAscii(l)[3] == ToLowerAscii(d)[3];
  }

  /** No lower-case tag of `locales` without that shape matches `d`. */
  lemma NoEnUs(locales: seq<string>, d: string)
    requires ToLowerAscii(d) == "en-us"
    requires forall k :: 0 <= k < |locales| ==>
      !(|locales[k]| == 5 && locales[k][0] == 'e' && locales[k][1] == 'n' && locales[k][3] == 'u')
    requires forall k :: 0 <= k < |locales| ==> forall j :: 0 <= j < |locales[k]| ==> !('A' <= locales[k][j] <= 'Z')
    ensures Seqs.Filter(IsDefault(d), locales) == []
  {
    forall k | 0 <= k < |locales| ensures !IsDefault(d)(locales[k]) {
      if SameLocale(locales[k], d) {
        EnUsShape(locales[k], d);
        assert false;
      }
    }
    Seqs.FilterNone(IsDefault(d), locales);
  }

  /** A locale list whose only tag matching `d` sits at position `i`. */
  lemma {:induction false} OccursOnceAt(ls: seq<string>, i: nat, d: string)
    requires ToLowerAscii(d) == "en-us"
    requires i < |ls| && SameLocale(ls[i], d)
    requires Seqs.Filter(IsDefault(d), ls[..i]) == []
    requires Seqs.Filter(IsDefault(d), ls[i + 1..]) == []
    ensures Seqs.Filter(IsDefault(d), ls) == [ls[i]]
  {
    var p := IsDefault(d);
    assert ls == ls[..i] + [ls[i]] + ls[i + 1..];
    Seqs.FilterAppend(p, ls[..i] + [ls[i]], ls[i + 1..]);
    Seqs.FilterAppend(p, ls[..i], [ls[i]]);
  }

  /** No tag before `en-us` in `Locales` matches it. */
  lemma EnUsNotBefore(d: string)
    requires ToLowerAscii(d) == "en-us"
    ensures Seqs.Filter(IsDefault(d), Globals.Locales[..5]) == []
  {
    NoEnUs(Globals.Locales[..5], d);
  }

  /** No tag after `en-us` in `Locales` matches it. */
  lemma EnUsNotAfter(d: string)
    requires ToLowerAscii(d) == "en-us"
    ensures Seqs.Filter(IsDefault(d), Globals.Locales[6..]) == []
  {
    NoEnUs(Globals.Locales[6..], d);
  }

  /** A default locale spelled `en-us` in any casing matches exactly one
      entry of `Locales`. */
  lemma EnUsOccursOnce(d: string)
    requires ToLowerAscii(d) == "en-us"
    ensures |Seqs.Filter(IsDefault(d), Globals.Locales)| == 1
  {
    EnUsNotBefore(d);
    EnUsNotAfter(d);
    assert ToLowerAscii(Globals.Locales[5]) == "en-us";
    OccursOnceAt(Globals.Locales, 5, d);
  }

  /** A single rule's bulk list is that rule's entries. */
  lemma MakeBulkListSingle(rule: RedirectProps, configured: Option<string>, fullUrl: UrlMaker)
    ensures MakeBulkList([rule], configured, fullUrl)
            == RuleItems(rule, Globals.Locales, EffectiveDefaultLocale(configured), fullUrl)
  {
    ExpandAllSingle(rule, Globals.Locales, EffectiveDefaultLocale(configured), fullUrl);
  }

  lemma ExpandAllSingle(rule: RedirectProps, locales: seq<string>, defaultLocale: string, fullUrl: UrlMaker)
    ensures ExpandAll([rule], locales, defaultLocale, fullUrl) == RuleItems(rule, locales, defaultLocale, fullUrl)
  {
    assert [rule][1..] == [];
    assert ExpandAll([rule][1..], locales, defaultLocale, fullUrl) == [];
  }

  /** With `DEFAULT_LOCALE` unset, empty, or any casing of `en-US`, a
      localized redirect yields exactly `|Locales|` entries. */
  lemma EnUsFanOut(rule: RedirectProps, configured: Option<string>, fullUrl: UrlMaker)
    requires rule.localized
    requires configured.None? || configured == Some("") || ToLowerAscii(configured.value) == "en-us"
    ensures |MakeBulkList([rule], configured, fullUrl)| == |Globals.Locales|
  {
    var d := EffectiveDefaultLocale(configured);
    assert ToLowerAscii(Globals.FallbackLocale) == "en-us";
    EnUsOccursOnce(d);
    FanOutSize(rule, Globals.Locales, d, fullUrl);
    MakeBulkListSingle(rule, configured, fullUrl);
  }

  /** Expanding a concatenation expands each part in turn. */
  lemma {:induction false} ExpandAllAppend(
    a: seq<RedirectProps>, b: seq<RedirectProps>, locales: seq<string>, defaultLocale: string, fullUrl: UrlMaker)
    ensures ExpandAll(a + b, locales, defaultLocale, fullUrl)
            == ExpandAll(a, locales, defaultLocale, fullUrl) + ExpandAll(b, locales, defaultLocale, fullUrl)
  {
    if |a| == 0 {
      assert a + b == b;
    } else {
      assert (a + b)[0] == a[0];
      assert (a + b)[1..] == a[1..] + b;
      ExpandAllAppend(a[1..], b, locales, defaultLocale, fullUrl);
    }
  }

  /** `makeBulkList` is a flat map: the list of a concatenation of rule
      sets is the concatenation of their lists. */
  lemma MakeBulkListAppend(a: seq<RedirectProps>, b: seq<RedirectProps>, configured: Option<string>, fullUrl: UrlMaker)
    ensures MakeBulkList(a + b, configured, fullUrl)
            == MakeBulkList(a, configured, fullUrl) + MakeBulkList(b, configured, fullUrl)
  {
    ExpandAllAppend(a, b, Globals.Locales, EffectiveDefaultLocale(configured), fullUrl);
  }

  /** Without localized rules the list has exactly one unprefixed entry
      per rule, in rule order. */
  lemma {:induction false} NonLocalizedOneToOne(
    rules: seq<RedirectProps>, locales: seq<string>, defaultLocale: string, fullUrl: UrlMaker)
    requires forall k :: 0 <= k < |rules| ==> !rules[k].localized
    ensures var r := ExpandAll(rules, locales, defaultLocale, fullUrl);
      && |r| == |rules|
      && forall k :: 0 <= k < |rules| ==> r[k] == PlainItem(rules[k], fullUrl)
  {
    if |rules| > 0 {
      NonLocalizedOneToOne(rules[1..], locales, defaultLocale, fullUrl);
      var tail := ExpandAll(rules[1..], locales, defaultLocale, fullUrl);
      var r := ExpandAll(rules, locales, defaultLocale, fullUrl);
      assert r == [PlainItem(rules[0], fullUrl)] + tail;
      forall k | 1 <= k < |rules| ensures r[k] == PlainItem(rules[k], fullUrl) {
        assert r[k] == tail[k - 1];
        assert rules[1..][k - 1] == rules[k];
      }
    }
  }

  /** Two redirects that differ at most in `deleted` and `description`,
      the fields the bulk list does not carry. */
  predicate SameRedirect(a: RedirectProps, b: RedirectProps) {
    a.source == b.source && a.destination == b.destination && a.code == b.code && a.localized == b.localized
  }

  lemma {:induction false} LocalizedItemsSameRedirect(
    a: RedirectProps, b: RedirectProps, locales: seq<string>, defaultLocale: string, fullUrl: UrlMaker)
    requires SameRedirect(a, b)
    ensures LocalizedItems(a, locales, defaultLocale, fullUrl) == LocalizedItems(b, locales, defaultLocale, fullUrl)
  {
    if |locales| > 0 {
      LocalizedItemsSameRedirect(a, b, locales[1..], defaultLocale, fullUrl);
    }
  }

  /** The bulk list ignores `deleted` and `description`: rule sets that
      agree on every other field give the same list. */
  lemma {:induction false} ExpandAllIgnoresBookkeeping(
    a: seq<RedirectProps>, b: seq<RedirectProps>, locales: seq<string>, defaultLocale: string, fullUrl: UrlMaker)
    requires |a| == |b|
    requires forall k :: 0 <= k < |a| ==> SameRedirect(a[k], b[k])
    ensures ExpandAll(a, locales, defaultLocale, fullUrl) == ExpandAll(b, locales, defaultLocale, fullUrl)
  {
    if |a| > 0 {
      LocalizedItemsSameRedirect(a[0], b[0], locales, defaultLocale, fullUrl);
      assert forall k :: 0 <= k < |a| - 1 ==> a[1..][k] == a[k + 1] && b[1..][k] == b[k + 1];
      ExpandAllIgnoresBookkeeping(a[1..], b[1..], locales, defaultLocale, fullUrl);
    }
  }

  // ----- The upload report -----

  /** `list[i]` in JavaScript: `None` (`undefined`) outside the list. */
  function ElementAt<T>(list: seq<T>, i: int): (r: Option<T>)
    ensures r.Some? <==> 0 <= i < |list|
    ensures r.Some? ==> r.value == list[i]
  {
    if 0 <= i < |list| then Some(list[i]) else None
  }

  const OperationPrefix := "Cloudflare API provided operation ID "

  /** The message recording the store's operation id; a missing id is
      interpolated as the text `undefined`. */
  function OperationMessage(operationId: Option<string>): (m: string)
    ensures |OperationPrefix| <= |m| && m[..|OperationPrefix|] == OperationPrefix
    ensures operationId.Some? ==> m[|OperationPrefix|..] == operationId.value
    ensures operationId.None? ==> m[|OperationPrefix|..] == "undefined"
  {
    OperationPrefix + ValueOr(operationId, "undefined")
  }

  /** The outcome of `uploadBulkList` once the store has replied: the
      report, and whether the list description is then stamped. */
  datatype Upload = Upload(report: UploadReport, stampsDescription: bool)

  /** The report tail of `uploadBulkList`. A non-empty error list maps each
      error to the uploaded item it names; otherwise the operation id is
      appended to the messages and the list description is stamped. */
  function UploadBulkList(list: seq<BulkRedirectListItem>, response: StoreResponse): (u: Upload)
    ensures u.report.success == response.success
    ensures u.report.errors == ValueOr(response.errors, [])
    ensures u.stampsDescription <==> |u.report.errors| == 0
    ensures u.stampsDescription ==>
              && u.report.invalidRules == []
              && u.report.messages == ValueOr(response.messages, []) + [OperationMessage(response.operationId)]
    ensures !u.stampsDescription ==>
              && u.report.messages == ValueOr(response.messages, [])
              && |u.report.invalidRules| == |u.report.errors|
              && forall i :: 0 <= i < |u.report.errors| ==>
                   (u.report.invalidRules[i].Some? <==> 0 <= u.report.errors[i].valueIndex < |list|)
    ensures forall i :: 0 <= i < |u.report.invalidRules| && u.report.invalidRules[i].Some? ==>
              u.report.invalidRules[i].value == list[u.report.errors[i].valueIndex]
  {
    var errors := ValueOr(response.errors, []);
    var messages := ValueOr(response.messages, []);
    if |errors| > 0 then
      Upload(UploadReport(response.success, errors, messages,
                          seq(|errors|, i requires 0 <= i < |errors| => ElementAt(list, errors[i].valueIndex))),
             false)
    else
      Upload(UploadReport(response.success, errors, messages + [OperationMessage(response.operationId)], []),
             true)
  }

  /** Every rule the report calls invalid was part of the upload, and there
      is at most one per store error. */
  lemma InvalidRulesUploaded(list: seq<BulkRedirectListItem>, response: StoreResponse)
    ensures var r := UploadBulkList(list, response).report;
      && |r.invalidRules| <= |r.errors|
      && forall x :: Some(x) in r.invalidRules ==> x in list
  {
    var r := UploadBulkList(list, response).report;
    forall x | Some(x) in r.invalidRules ensures x in list {
      var i :| 0 <= i < |r.invalidRules| && r.invalidRules[i] == Some(x);
    }
  }

  /** The report adds exactly one message, the operation id, and only on
      an upload without errors; the store's own messages keep their order. */
  lemma UploadMessages(list: seq<BulkRedirectListItem>, response: StoreResponse)
    ensures var r := UploadBulkList(list, response).report;
      var given := ValueOr(response.messages, []);
      && |r.messages| == |given| + (if |r.errors| == 0 then 1 else 0)
      && r.messages[..|given|] == given
  {
    var r := UploadBulkList(list, response).report;
    var given := ValueOr(response.messages, []);
    if |r.errors| == 0 {
      assert (given + [OperationMessage(response.operationId)])[..|given|] == given;
    } else {
      assert given[..|given|] == given;
    }
  }

  /** One store error naming the second of two uploaded items reports that
      item as the one invalid rule, and adds no message. */
  lemma UploadErrorNamesItem(
    first: BulkRedirectListItem, second: BulkRedirectListItem, err: StoreError, id: Option<string>)
    requires err.valueIndex == 1
    ensures var u := UploadBulkList([first, second], StoreResponse(Some(true), Some([err]), Some([]), id));
      && u.report.success == Some(true)
      && u.report.messages == []
      && u.report.errors == [err]
      && u.report.invalidRules == [Some(second)]
      && !u.stampsDescription
  {
    var u := UploadBulkList([first, second], StoreResponse(Some(true), Some([err]), Some([]), id));
    assert u.report.invalidRules[0] == Some(second);
  }

  /** An empty reply body reports no success flag, no errors, and the
      operation id as `undefined`. */
  lemma UploadEmptyReply(list: seq<BulkRedirectListItem>)
    ensures var u := UploadBulkList(list, StoreResponse(None, None, None, None));
      && u.report.success == None
      && u.report.errors == []
      && u.report.messages == ["Cloudflare API provided operation ID undefined"]
      && u.report.invalidRules == []
      && u.stampsDescription
  {
    var u := UploadBulkList(list, StoreResponse(None, None, None, None));
    assert OperationMessage(None) == "Cloudflare API provided operation ID undefined";
    assert u.report.messages == [] + [OperationMessage(None)];
  }
}
