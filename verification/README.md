# Amazon review-request pipeline, modelled in Dafny

The system asks Amazon buyers for a product review some days after their
order has shipped. It exists twice, in Laravel and in CakePHP, and both
versions follow the same steps:

1. Orders are fetched from Amazon's Selling Partner API (SP-API) and
   flattened into one record per line item.
2. Each record is folded into the seller's order table.
   - ASINs on the seller's exclusion list are skipped.
   - Duplicates on (seller, order id, ASIN) are skipped.
   - Each new row records once and for all whether a request may be sent.
3. A periodic sweep visits each enabled seller inside that seller's sending
   hours.
   - It picks the seller's pending orders.
   - It resolves a template for each one.
   - It substitutes placeholders into the subject and body.
   - It mails the buyer and marks the order as sent.

The model keeps the two stacks as separate modules:

| module | what it models |
|---|---|
| `Common` | shared vocabulary: optional values, integer clock, PHP truthiness, outgoing mail, first/last row matching a condition |
| `Text` | PHP `str_replace`, for one search string and for an array of them |
| `SpApiService` | `AmazonSpApiService::processOrdersData` |
| `ServiceModel` | the Laravel records and database |
| `Ingestion` | `AmazonEmailService::processNewOrders` |
| `Templates` | `AmazonEmailService::getEmailTemplate` |
| `Placeholders` | `AmazonEmailService::replacePlaceholders` |
| `Dispatch` | `sendPendingEmails` and `sendOrderEmail` |
| `CakeTables` | the CakePHP tables and their validators |
| `CakeFetch` | `FetchAmazonOrdersCommand::execute` |
| `CakeSend` | `SendReviewEmailsCommand::execute`, `replaceVariables` and the BCC subject |
| `CakeSendAsWritten` | `SendReviewEmailsCommand::execute` with its general-template lookup as written (see "## Findings") |

How the outside world is represented:

- **Time.** An instant is an integer number of seconds.
  - The hour of the day is `HourOf(now)`.
  - "`n` days ago" is `now - n * 86400`.
  - A CakePHP `shipping_date` is a day number, and the days since shipping
    are `DayOf(now) - shippingDay`.
- **Delivery.** Mail delivery is an oracle `deliver: Mail -> bool`. It is
  false where the framework's send would throw.
- **Date formatting.** The formatted order date (`d/m/Y`) is an oracle
  `fmt: int -> string`.
- **API calls.** The two SP-API lookups, the order items and the buyer
  e-mail, are function parameters.
- **Copy ordering.** The Laravel send and sweeps take a `CopyOrder`.
  `CopyBeforeRecord` is the source's ordering: the copy-to-self mail goes
  out before the log record and the `email_sent` update.
  `CopyAfterRecord` records first (see "## Findings").
- **Tables.** Every table is a sequence in insertion order. Rows are only
  appended, so a row's position serves as its primary key.
  - A query's `->first()` is the earliest match in table order.
  - Cake's keyed collections keep the latest match.

`SpApiService.NormalizeOrder` turns every fetched item into a draft and
drops none (app/Services/AmazonSpApiService.php:157-168).

## Model

| member | source | states |
|---|---|---|
| `Common.HourOf` | app/Services/AmazonEmailService.php:103 | the hour is in 0..23 and is the whole hours elapsed since the instant's midnight |
| `Common.DayOf` | cakephp-sendmail.php:592 | the day number is the day whose midnight is at or before the instant, with the next midnight after it |
| `Common.FirstIndex` | app/Services/AmazonEmailService.php:196-198 | `->first()` gives the position of a matching row with no match before it, and nothing exactly when no row matches |
| `Common.LastIndex` | cakephp-sendmail.php:550-554 | a keyed collection keeps the position of a matching row with no match after it, and nothing exactly when no row matches |
| `Text.ReplaceAllAbsent` | app/Services/AmazonEmailService.php:265 | `str_replace` leaves text alone when the search string does not occur in it |
| `Text.ReplaceAllWhole` | app/Services/AmazonEmailService.php:265 | a text that is exactly the search string becomes the replacement |
| `Text.ReplaceAllJoin` | app/Services/AmazonEmailService.php:265 | pieces that cannot hold the search string, joined by it, come out joined by the replacement instead: every occurrence is replaced |
| `Text.ReplaceSequentialAbsent` | app/Services/AmazonEmailService.php:265 | array `str_replace` leaves text alone when none of its search strings occurs |
| `Text.ReplaceSequentialSplit` | app/Services/AmazonEmailService.php:265 | array `str_replace` applies its pairs one after the other, each to the previous result |
| `Text.StagedStep` | app/Services/AmazonEmailService.php:265 | on a template cut into prose and tokens, one `str_replace` pass replaces exactly the written occurrences of its token, provided no occurrence can start in prose, in an earlier replacement or inside a later token |
| `Text.StagedSequential` | app/Services/AmazonEmailService.php:265 | when each pass replaces exactly its own tokens, the array `str_replace` turns the written template into the template with every token replaced and the prose kept |
| `Text.ReplaceSequentialSingle` | app/Services/AmazonEmailService.php:256-265 | a text that is exactly the k-th search string becomes the k-th replacement when earlier pairs cannot match it and later ones cannot match inside the replacement |
| `Text.ReplaceSequentialLone` | cakephp-sendmail.php:661-667 | the same conclusion, given that no earlier search string occurs in the text and no later one occurs in the replacement |
| `SpApiService.NormalizeOrder` | app/Services/AmazonSpApiService.php:133-169 | an order whose item fetch is null or empty gives nothing. Otherwise there is one draft per item: ASIN, title and `IsGift` (default false) come from the item, and order id, dates, FBA flag (exactly `FulfillmentChannel` = `AFN`), cancelled flag (exactly `OrderStatus` = `Canceled`) and buyer e-mail (inline, else the lookup) come from the order. All drafts share the header |
| `SpApiService.ProcessOrders` | app/Services/AmazonSpApiService.php:133-172 | the output has exactly the total item count of the non-skipped orders, and every draft comes from one of the orders |
| `SpApiService.ProcessOrdersData` | app/Services/AmazonSpApiService.php:124-131 | a response without `Orders` gives the empty list; otherwise the length is the total item count |
| `SpApiService.ProcessOrdersAppend` | app/Services/AmazonSpApiService.php:133-170 | input order is preserved: the drafts of concatenated order lists are the concatenated drafts |
| `SpApiService.SkippedOrderContributesNothing` | app/Services/AmazonSpApiService.php:135-139 | removing an order whose item fetch is null or empty does not change the output |
| `ServiceModel.CountSentAppend` | app/Services/AmazonEmailService.php:165-177 | the count of sent rows is additive over concatenated tables |
| `ServiceModel.CountSentMark` | app/Services/AmazonEmailService.php:176-177 | marking one unsent row as sent raises the count of sent rows by exactly one |
| `ServiceModel.CountSentNoneSent` | app/Services/AmazonEmailService.php:76 | rows created with `email_sent = false` add nothing to the count of sent rows |
| `Ingestion.ShouldSendEmail` | app/Services/AmazonEmailService.php:54-63 | the elseif chain equals `send_emails ∧ ¬(fba ∧ ¬send_fba) ∧ ¬(¬fba ∧ ¬send_self_ship) ∧ ¬(used ∧ ¬send_used_items)`; a seller without settings gets false |
| `Ingestion.ExcludedFor` | app/Services/AmazonEmailService.php:35 | the plucked list holds exactly the ASINs the seller has excluded |
| `Ingestion.Ingest` | app/Services/AmazonEmailService.php:37-82 | the old table is a prefix, and the count equals the rows added. Every new row belongs to the seller, is unsent, has a non-excluded ASIN and is the row built from some draft. Key uniqueness is kept, and every non-excluded draft ends up stored |
| `Ingestion.IngestNothingNew` | app/Services/AmazonEmailService.php:39-51 | a batch whose every draft is excluded or already stored changes nothing and counts zero |
| `Ingestion.IngestIdempotent` | app/Services/AmazonEmailService.php:43-51 | ingesting the same batch again adds no row |
| `Ingestion.ExcludedBatchAddsNothing` | app/Services/AmazonEmailService.php:38-41 | excluded ASINs never add a row or raise the count |
| `Ingestion.ProcessNewOrders` | app/Services/AmazonEmailService.php:26-85 | only the order table changes. Old rows are untouched, the returned count is the number of rows added, key uniqueness is kept, and there is still one log record per sent row |
| `Templates.ResolveTemplate` | app/Services/AmazonEmailService.php:193-244 | the precedence, step by step: the first ASIN template's own text when subject and content are both truthy; then the template it references by a non-zero id, looked up among all sellers; then the seller's first default; then the seller's first template; none exactly when no step applies |
| `Templates.ReferenceCrossesSellers` | app/Services/AmazonEmailService.php:211 | a referenced template owned by another seller is used |
| `Templates.PrecedenceLadder` | app/Services/AmazonEmailService.php:200-243 | on one seller holding every kind of template, each step beats all later ones |
| `Templates.ZeroReferenceFallsThrough` | app/Services/AmazonEmailService.php:210 | a reference to template id 0 is falsy and skipped, even when a template with id 0 exists: the seller's default is used |
| `Placeholders.ReplacePlaceholders` | app/Services/AmazonEmailService.php:254-266 | text holding none of the six tokens, including text with unknown `{...}` tokens, is returned unchanged |
| `Placeholders.SingleTokenReplaced` | app/Services/AmazonEmailService.php:256-263 | each token becomes its value, and `{customer_name}` becomes the empty string |
| `Placeholders.ValuesAreSubstitutedAgain` | app/Services/AmazonEmailService.php:265 | replacement is sequential: whatever the values, a product name that is exactly `{order_id}` makes the product-name token come out as the order id |
| `Placeholders.TemplateFilled` | app/Services/AmazonEmailService.php:254-266 | for any template of brace-free prose and the six tokens, and values without `{`: every token becomes its value, the prose between tokens is kept, and none of the six tokens is left in the result |
| `Dispatch.InWindow` | app/Services/AmazonEmailService.php:106-108 | a seller is processed exactly when start ≤ hour ≤ end; when start > end no hour qualifies |
| `Dispatch.PendingOrders` | app/Services/AmazonEmailService.php:113-120 | an index is pending exactly when the row is the seller's, marked for sending, unsent, not cancelled, has a buyer e-mail and a shipping date no later than now minus the delay; indices ascend |
| `Dispatch.RecordSent` | app/Services/AmazonEmailService.php:165-177 | on success exactly one log record with the substituted texts is appended. Only `email_sent` of that row changes, to true, and one record per sent row is kept |
| `Dispatch.SendOrderEmailAsWritten` | app/Services/AmazonEmailService.php:140-184 | as written: the send succeeds exactly when a template exists, the buyer's mail goes out and, with copy-to-self on, the copy goes out. A failure changes nothing |
| `Dispatch.CopyFailureRemailsBuyer` | app/Services/AmazonEmailService.php:156-182 | as written, a failing copy leaves the mailed buyer's order pending and unlogged, and the next attempt mails the buyer again |
| `Dispatch.SendOrderEmail` | app/Services/AmazonEmailService.php:140-184 | corrected: no template or a failed buyer mail changes nothing. The order is logged and marked exactly when the buyer's mail went out, whatever happens to the copy |
| `Dispatch.Send` | app/Services/AmazonEmailService.php:140-184 | one send under either ordering of the copy: it succeeds exactly when a template resolves, the buyer's mail goes out and, with the copy before the record, the copy goes out. A failure changes nothing; a success appends the record and marks the row |
| `Dispatch.PlainTextUnchanged` | app/Services/AmazonEmailService.php:254-266 | a text without `{` is never changed by placeholder substitution |
| `Dispatch.SendEach` | app/Services/AmazonEmailService.php:122-126 | the count equals the log records added. A row changes only by being marked sent, only at a listed index and only when its send succeeds. Conversely, every listed row whose send succeeds ends marked, with its record in the log. Sent rows are never touched |
| `Dispatch.SweepUser` | app/Services/AmazonEmailService.php:101-127 | outside the sending hours nothing happens. A row changes only if it is due for the seller and its send succeeds; every due row whose send succeeds ends marked and logged. The count equals the log growth |
| `Dispatch.SweepUsers` | app/Services/AmazonEmailService.php:101-129 | a changed row is now sent, was due for some visited seller and its send succeeded; conversely every row due for a visited seller whose send succeeds ends marked and logged |
| `Dispatch.SelectedUsers` | app/Services/AmazonEmailService.php:97-99 | the sweep visits exactly the active sellers whose settings have `send_emails` on |
| `Dispatch.SendPendingEmails` | app/Services/AmazonEmailService.php:92-130 | the returned count equals the records added to the log. A row changes only by being marked sent, and only if it was due for a selected seller inside its hours and its send succeeded. Every such row ends marked and logged. Already-sent rows are untouched and the log stays consistent |
| `Dispatch.OutOfWindowSellerUntouched` | app/Services/AmazonEmailService.php:106-108 | a seller outside its sending hours has none of its orders changed by a sweep |
| `Dispatch.SecondSweepNeverResends` | app/Services/AmazonEmailService.php:115 | an order sent by one sweep is left alone by the next |
| `CakeTables.SaveUser` | cakephp-sendmail.php:30-90 | a seller is saved exactly when its fields pass their rules and its e-mail is unused; a saved seller's hours lie in [7, 23]; e-mail uniqueness is kept |
| `CakeTables.SaveExcluded` | cakephp-sendmail.php:236-244 | an excluded ASIN is saved exactly when it is 1..10 characters long and not yet excluded for that seller; per-seller uniqueness is kept |
| `CakeTables.SaveOrder` | cakephp-sendmail.php:271-330 | a row is appended when it passes the order rules and silently dropped otherwise; a table of valid rows stays valid |
| `CakeTables.SaveTemplate` | cakephp-sendmail.php:114-146 | a template is saved exactly when name, subject and content pass their rules. A saved one is appended, becomes the last template under its (seller, days) key, and a table of valid templates stays valid |
| `CakeTables.SaveAsinTemplate` | cakephp-sendmail.php:170-202 | an ASIN template is saved exactly when its ASIN (1..10 characters), subject and content pass their rules. A saved one is appended, becomes the last one under its (seller, ASIN, days) key, and a table of valid ASIN templates stays valid |
| `CakeTables.ExcludeTwiceRejected` | cakephp-sendmail.php:241-243 | excluding the same ASIN twice for one seller is refused the second time |
| `CakeTables.SaveAllExcluded` | cakephp-sendmail.php:236-244 | successive saves never create a duplicate exclusion, and every well-formed ASIN ends up excluded |
| `CakeFetch.CakeEligibility` | cakephp-sendmail.php:399-411 | starting from true, the flag is `¬(fba ∧ ¬send_to_fba) ∧ ¬(¬fba ∧ ¬send_to_self_shipping) ∧ ¬(used ∧ ¬send_to_used_products)` |
| `CakeFetch.CakeIngest` | cakephp-sendmail.php:373-427 | the old table is a prefix. New rows are the seller's, unsent with no sent date, non-excluded, valid, and each is the row built from some fetched order. Key uniqueness and validity are kept, and every non-excluded order that passes validation ends up stored |
| `CakeFetch.IngestOne` | cakephp-sendmail.php:375-426 | one fetched order adds its row exactly when its triple is not stored, its ASIN is not excluded and the row passes validation; it is stored afterwards whenever it is not excluded and valid |
| `CakeFetch.CakeIngestNothingNew` | cakephp-sendmail.php:375-396 | orders that are stored or excluded add nothing |
| `CakeFetch.CakeIngestInvalidSkipped` | cakephp-sendmail.php:413-426 | orders whose row the validator refuses add nothing either |
| `CakeFetch.CakeIngestIdempotent` | cakephp-sendmail.php:373-427 | fetching the same orders again changes nothing |
| `CakeFetch.ExcludedOrderAddsNothing` | cakephp-sendmail.php:384-396 | an excluded ASIN never creates a row |
| `CakeFetch.EligibilityAcrossStacks` | cakephp-sendmail.php:399-411 | for the same three switches, Laravel's flag is Cake's flag together with `send_emails` |
| `CakeFetch.FetchAll` | cakephp-sendmail.php:351-440 | the old table is a prefix; every new row is unsent and was built from an order in the successful fetch of a seller with a token. Every such order that is neither excluded nor refused ends up stored. Key uniqueness and validity are kept |
| `CakeFetch.FetchOne` | cakephp-sendmail.php:351-427 | a seller without a token, or whose fetch fails, adds nothing; otherwise the new rows come from that seller's batch and every non-excluded valid order of it ends up stored |
| `CakeSend.TemplatesByDays` | cakephp-sendmail.php:550-554 | every entry of the index is the seller's template for exactly that day count |
| `CakeSend.AsinTemplatesByAsin` | cakephp-sendmail.php:563-569 | every entry of the nested index is the seller's template for exactly that ASIN and day count |
| `CakeSend.TemplatesByDaysLastWins` | cakephp-sendmail.php:550-554 | the indexed template for a day count is the seller's last one registered with it |
| `CakeSend.AsinTemplatesLastWins` | cakephp-sendmail.php:563-569 | the indexed ASIN template for (ASIN, days) is the seller's last one registered with that key |
| `CakeSend.DaysAfterShipping` | cakephp-sendmail.php:592 | the day count is the whole number of days from the shipping day to the day of `now` |
| `CakeSend.SelectTemplate` | cakephp-sendmail.php:595-606 | the corrected lookup (see "## Findings"): no template is found exactly when neither index holds the key |
| `CakeSend.ChooseTemplate` | cakephp-sendmail.php:549-606 | the corrected lookup, on the tables themselves: the seller's last ASIN template for the ASIN and exact day count wins; otherwise the seller's last general template for the day count; otherwise none |
| `CakeSend.ChosenTemplateFilled` | cakephp-sendmail.php:595-606 | on tables whose rows passed the template validators, a chosen template has a non-empty subject and content |
| `CakeSend.ReplaceVariables` | cakephp-sendmail.php:659-668 | text holding none of `%%注文ID%%`, `%%商品名%%`, `%%ASIN%%` is returned verbatim |
| `CakeSend.CakeTokensApart` | cakephp-sendmail.php:661-665 | no search string of `replaceVariables` occurs inside a later one |
| `CakeSend.VariableReplaced` | cakephp-sendmail.php:661-667 | each token on its own becomes the order id, the product name and the ASIN respectively |
| `CakeSend.NoPercentVerbatim` | cakephp-sendmail.php:659-668 | text without `%` is returned verbatim |
| `CakeSend.VariablesFilled` | cakephp-sendmail.php:659-668 | for any body of non-empty, `%`-free prose and the three tokens, where what follows a token cannot complete another, and fields without `%`: every token becomes its field, the prose is kept, and no token is left |
| `CakeSend.VariableReadAcrossBoundary` | cakephp-sendmail.php:659-668 | without that condition a token is read across a boundary: `%%ASIN%%注文ID%%ASIN%%` comes out as `%%ASIN` + order id + `ASIN%%`, not as the ASIN, the prose and the ASIN |
| `CakeSend.BccSubject` | cakephp-sendmail.php:714 | the BCC subject is `[BCC] `, then the subject, then ` - Đơn hàng: `, then the order id |
| `CakeSend.StripBcc` | cakephp-sendmail.php:714 | a recovered subject has exactly the length the BCC format implies |
| `CakeSend.BccRoundTrip` | cakephp-sendmail.php:714 | stripping the BCC format off a BCC subject gives back the original subject |
| `CakeSend.StripBccSound` | cakephp-sendmail.php:714 | whatever the stripping accepts is the BCC subject of what it returns |
| `CakeSend.SendOne` | cakephp-sendmail.php:618-648 | a failed buyer mail changes nothing. After a buyer mail the row is marked sent with `email_sent_date` now, whatever the BCC copy does; no other row changes; the mails are the buyer's first and at most the BCC copy |
| `CakeSend.BccFailureKeepsSent` | cakephp-sendmail.php:641-648 | the order table after a send does not depend on whether the BCC copy goes out |
| `CakeSend.CakeInWindow` | cakephp-sendmail.php:532-535 | a seller is processed exactly when start ≤ hour ≤ end; with validated hours that means 7 ≤ hour ≤ 23 |
| `CakeSend.EarlyHoursNeverSend` | cakephp-sendmail.php:62-70 | a seller with validated hours is never processed before 07:00 |
| `CakeSend.CakeCandidates` | cakephp-sendmail.php:539-545 | an index is a candidate exactly when the row is the seller's, marked for sending and unsent, with no cancel or shipping filter; indices ascend |
| `CakeSend.CakeStep` | cakephp-sendmail.php:592-648 | one candidate: its row is marked sent at now exactly when a template applies and the buyer's mail goes out, and no other row changes |
| `CakeSend.SendEachCake` | cakephp-sendmail.php:590-653 | rows change only by being marked sent at now, only at listed indices whose template applies and whose buyer mail goes out; every such listed row ends marked. Row validity is kept |
| `CakeSend.CakeSweepUser` | cakephp-sendmail.php:528-653 | outside the hours nothing happens. A row changes exactly when it is the seller's candidate, the hour is inside the window, a template applies and the buyer's mail goes out |
| `CakeSend.CakeSweepUsers` | cakephp-sendmail.php:528-654 | a changed row was marked for sending and unsent, had a template and a delivered mail, and belongs to a visited seller inside that seller's hours; conversely every such row of a visited seller ends marked |
| `CakeSend.CakeSelectedUsers` | cakephp-sendmail.php:520-526 | the command visits exactly the sellers with e-mailing enabled and an Amazon token |
| `CakeSend.CakeSendAll` | cakephp-sendmail.php:513-657 | a row changes only by being marked sent at now, and only if it was a candidate of a selected seller inside that seller's hours with a template and a delivered mail; every such row ends marked. Validity is kept |
| `CakeSend.CakeSecondRunNeverResends` | cakephp-sendmail.php:543 | a row one run marks sent is left alone by any later run |
| `CakeSendAsWritten.SelectTemplateAsWritten` | cakephp-sendmail.php:598-604 | as written, the lookup raises exactly when the ASIN index has no entry for the key, whatever the general templates hold; otherwise it agrees with the corrected lookup |
| `CakeSendAsWritten.StopAt` | cakephp-sendmail.php:590-604 | the leading listed rows that have an ASIN template, up to the first one without: where the as-written loop stops |
| `CakeSendAsWritten.CakeStepAsWritten` | cakephp-sendmail.php:592-648 | one candidate as written: the command stops, with nothing changed, exactly when the row has no ASIN template; otherwise it is the corrected step |
| `CakeSendAsWritten.SendEachCakeAsWritten` | cakephp-sendmail.php:590-653 | the as-written loop is the corrected loop over the candidates before the first one without an ASIN template, and stops exactly when there is such a candidate |
| `CakeSendAsWritten.CakeSweepUserAsWritten` | cakephp-sendmail.php:528-653 | outside the hours nothing happens; inside them the command stops exactly when a candidate lacks an ASIN template. A changed row is a candidate marked sent at now with an ASIN template and a delivered mail; without a stop the turn is the corrected one |
| `CakeSendAsWritten.CakeSweepUsersAsWritten` | cakephp-sendmail.php:528-654 | the seller loop stops exactly when some visited seller blocks; rows of a seller visited only after a blocking seller are untouched; a changed row had an ASIN template; without a stop the loop is the corrected one |
| `CakeSendAsWritten.CakeSendAllAsWritten` | cakephp-sendmail.php:513-657 | the command as written stops exactly when a selected seller inside its hours has a candidate without an ASIN template. It only ever sends with ASIN templates, and without a stop it equals `CakeSend.CakeSendAll` |
| `CakeSendAsWritten.GeneralTemplateStopsRun` | cakephp-sendmail.php:598-604 | a visited seller's candidate that has only a general template stops the command as written and is not mailed; the corrected command sends it with that general template |

## Left out

- HTTP and SP-API transport, and access-token refresh and caching: these
  are network I/O. The order-item and buyer-e-mail fetches are parameters
  of `SpApiService`, and a Cake seller's fetch is a parameter of
  `CakeFetch.FetchAll`.
- The Cake stub in `fetchOrdersFromAmazon` and the hard-coded sender
  address of `sendViaAmazon` are placeholders, not logic. `sendViaAmazon`
  (cakephp-sendmail.php:670-707) is itself a stub that always returns
  `true` and never throws. The `deliver` oracle for `CakeSend.CakeBuyerMail`
  over-approximates it: for the code as shipped the buyer's mail always
  "goes out", and `CakeSend.CakeSucceeds` reduces to "a template is found".
- The Redis guards in both Cake commands (a per-seller fetch cache, cached
  credentials and a per-order "already sent" key) are not modelled. They
  are an external key-value store; the model behaves as with `debug` on or
  an empty cache.
- The mail itself (the `OrderReviewRequest` mailable, its Blade view,
  queueing, the Cake `Mailer`) is reduced to the `deliver` oracle.
- Carbon parsing, time zones and daylight saving are not modelled. A day
  is always 86400 seconds. The Cake day difference is therefore always a
  whole number, whereas PHP would produce a fraction across a
  daylight-saving change.
- The `d/m/Y` formatting is the `fmt` oracle.
- Laravel reads `Carbon::now()` separately for the hour, the ready date
  and the log's sent date. Cake reads the date once per order. The model
  uses one instant `now` per sweep.
- `sleep(1)`, console output and logging are not modelled.
- Console command orchestration, the scheduler, JWT authentication, the
  order endpoint and the routes are not modelled.
- Concurrency is not modelled. Both stacks check and then save without
  atomicity, and the model is one sequential run.
- An exception thrown by a database save is not modelled. Only delivery
  can fail.
- `in_array`'s loose comparison and the database's case-insensitive string
  collation are not modelled. ASINs and order ids compare as exact
  strings.
- `Ingestion.ShouldSendEmail`: for a seller without a settings row the
  model returns false and ingestion carries on. The source reads
  `send_fba` of null at app/Services/AmazonEmailService.php:57. Laravel
  turns that warning into an exception, and neither `processNewOrders` nor
  its caller (app/Console/Commands/SendReviewEmails.php:106) catches it, so
  the command stops at the first new draft.
- `SpApiService.NormalizeOrder`: an absent `OrderStatus` is read as "not
  cancelled", and an item always has an ASIN and a title. In the source a
  missing key raises an exception at
  app/Services/AmazonSpApiService.php:160-167. The `catch` at lines 111-114
  turns it into a failed fetch, so that seller's whole batch is skipped.
- `Placeholders.TemplateFilled`, `CakeSend.VariablesFilled`: only templates
  cut into prose and tokens as stated are covered. In Laravel a value
  holding `{` can form a later token (`Placeholders.ValuesAreSubstitutedAgain`).
  In Cake a token can also be read across a boundary
  (`CakeSend.VariableReadAcrossBoundary`).
- `CakeTables.SaveUser`: the `email()` syntax rule is not modelled. Only a
  non-empty address is required.
- `CakeSend.SelectTemplate`, `CakeSend.ChooseTemplate`: the fallback to the
  seller's general template is the intended behaviour, not the code's.
  `->all()->indexBy(...)` at cakephp-sendmail.php:550-554 yields a
  collection object, not an array, and `isset` on it at line 602 raises an
  `Error`. No `try` surrounds it, and the `catch` at line 646 takes only
  `\Exception`. So the command stops at the first candidate without an
  ASIN template. Every sweep of `CakeSend` (`CakeStep`, `SendEachCake`,
  `CakeSweepUser`, `CakeSweepUsers`, `CakeSendAll`) uses the corrected
  lookup. `CakeSendAsWritten` models the code as written (see
  "## Findings").
- The integer columns' widths (`INT`, `VARCHAR`) beyond the validators'
  own length rules are not modelled.

## Findings

| source | as written | input that shows it | evidently intended | confidence | as-written member | corrected member |
|---|---|---|---|---|---|---|
| app/Services/AmazonEmailService.php:156-183 | The copy-to-self mail is sent after the buyer's mail and before the log record and the `email_sent` update, inside the same `try`. A failing copy makes the send return false with the buyer already mailed, no log record and the order still pending. | A seller with `send_copy_to_self` on, a pending order with a default template, and delivery that fails only for the copy. | The order is logged and marked sent once the buyer's mail has gone out; the copy's failure does not undo that (as the Cake BCC copy is handled, after the save). | not executed | `Dispatch.SendOrderEmailAsWritten`, with `Dispatch.CopyFailureRemailsBuyer`; the sweeps run with `CopyBeforeRecord` | `Dispatch.SendOrderEmail`; the sweeps run with `CopyAfterRecord` |
| cakephp-sendmail.php:550-604 | The general templates are indexed with `->all()->indexBy('days_after_shipping')`, which returns a collection object, not an array. The fallback `isset($emailTemplates[$daysAfterShipping])` therefore raises an `Error`, outside any `try`, and the command stops. | A seller with e-mailing on, inside its hours, with a pending order that has a general template for its day count but no ASIN template. | The order is mailed with the seller's general template for that day count, and the sweep carries on with the other orders and sellers. | not executed | `CakeSendAsWritten.CakeSendAllAsWritten`, with `CakeSendAsWritten.GeneralTemplateStopsRun` | `CakeSend.ChooseTemplate`, used by `CakeSend.CakeSendAll` |
