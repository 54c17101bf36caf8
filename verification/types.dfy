/** The records the worker passes between the spreadsheet, its own
    pipeline and the rule store. */
module Types {
  import opened Wrappers

  /** The allowed HTTP redirect statuses. */
  predicate IsRedirectCode(c: int) {
    c == 301 || c == 302 || c == 307 || c == 308
  }

  type RedirectCode = c: int | IsRedirectCode(c) witness 302

  /** A loose spreadsheet cell: missing, text, or a boolean. A numeric cell
      is represented by its decimal text (see `JsNumber.NumberText`). */
  datatype Cell = Undefined | Str(text: string) | Bool(flag: bool)

  /** A raw spreadsheet row that could be a redirect. */
  datatype RawRedirectProps = RawRedirectProps(
    source: string,
    destination: string,
    code: Cell,
    localized: Cell,
    deleted: Cell,
    description: Option<string>)

  /** A validated and sanitized redirect. */
  datatype RedirectProps = RedirectProps(
    source: string,
    destination: string,
    code: RedirectCode,
    localized: bool,
    deleted: bool,
    description: string)

  /** One redirect as the bulk-list API stores it. */
  datatype BulkRedirectListItemDetails = BulkRedirectListItemDetails(
    sourceUrl: string,
    targetUrl: string,
    statusCode: RedirectCode)

  /** An entry of the bulk redirect list: the redirect plus store metadata
      this worker never sets. */
  datatype BulkRedirectListItem = BulkRedirectListItem(
    id: Option<string>,
    redirect: BulkRedirectListItemDetails,
    createdOn: Option<string>,
    modifiedOn: Option<string>)

  /** One per-item error the store returns from an upload; `valueIndex` is
      the `source.parameter_value_index` naming the offending item. */
  datatype StoreError = StoreError(
    code: Option<int>,
    message: Option<string>,
    valueIndex: int)

  /** The parsed body of the store's reply to an upload; every field may be
      missing, `operationId` standing for `result.operation_id`. */
  datatype StoreResponse = StoreResponse(
    success: Option<bool>,
    errors: Option<seq<StoreError>>,
    messages: Option<seq<string>>,
    operationId: Option<string>)

  /** What `uploadBulkList` reports. An entry of `invalidRules` is `None`
      when the store's index points outside the uploaded list, where
      JavaScript yields `undefined`. */
  datatype UploadReport = UploadReport(
    success: Option<bool>,
    errors: seq<StoreError>,
    messages: seq<string>,
    invalidRules: seq<Option<BulkRedirectListItem>>)
}
