/** The CakePHP stack's tables and the rules their `validationDefault`
    methods install. The validator runs when an entity is built from request
    data (`newEntity`); `Table::save()` then refuses an entity carrying
    errors and returns false without writing, so saving a new row is
    modelled as "append when valid, otherwise leave the table as it is". A
    row loaded from the table and changed field by field is not validated
    again on save. Rows are sequences in insertion order; days are whole
    day numbers. */
module CakeTables {
  import opened Common

  /** `users`: the seller together with its sending switches. */
  datatype CakeUser = CakeUser(
    id: nat,
    name: string,
    email: string,
    shopName: string,
    emailEnabled: bool,
    bccEnabled: bool,
    hourStart: int,
    hourEnd: int,
    sendToFba: bool,
    sendToSelfShipping: bool,
    sendToUsedProducts: bool,
    amazonToken: Option<string>)

  /** `orders`: `shippingDay` is the `shipping_date` column as a day number,
      `emailSentDate` the instant of a successful send. */
  datatype CakeOrder = CakeOrder(
    userId: nat,
    orderId: string,
    asin: string,
    productName: string,
    buyerEmail: string,
    shippingDay: int,
    isFba: bool,
    isUsed: bool,
    sendEmail: bool,
    emailSent: bool,
    emailSentDate: Option<int>)

  /** `email_templates`: a seller's template for one number of days after shipping. */
  datatype CakeTemplate = CakeTemplate(userId: nat, name: string, subject: string, content: string, daysAfterShipping: int)

  /** `asin_templates`: a template for one ASIN and one number of days after shipping. */
  datatype CakeAsinTemplate = CakeAsinTemplate(userId: nat, asin: string, subject: string, content: string, daysAfterShipping: int)

  /** `excluded_asins`. */
  datatype CakeExcluded = CakeExcluded(userId: nat, asin: string)

  /** The tables one run of the commands reads and writes. */
  datatype CakeDb = CakeDb(
    users: seq<CakeUser>,
    orders: seq<CakeOrder>,
    templates: seq<CakeTemplate>,
    asinTemplates: seq<CakeAsinTemplate>,
    excluded: seq<CakeExcluded>)

  function CakeTripleOf(o: CakeOrder): Triple {
    Triple(o.userId, o.orderId, o.asin)
  }

  /** A non-empty string of at most `max` characters (`notEmptyString` + `maxLength`). */
  predicate Filled(s: string, max: nat) {
    0 < |s| <= max
  }

  /** The rule on every `asin` column: present, at most ten characters. */
  predicate AsinValid(asin: string) {
    Filled(asin, 10)
  }

  /** The send-hour rule: both ends within [7, 23]. */
  predicate HoursValid(u: CakeUser) {
    7 <= u.hourStart <= 23 && 7 <= u.hourEnd <= 23
  }

  /** `UsersTable::validationDefault`, without the e-mail syntax check. */
  predicate UserValid(u: CakeUser) {
    && u.email != ""
    && Filled(u.name, 255)
    && Filled(u.shopName, 255)
    && HoursValid(u)
    && (u.amazonToken.Some? ==> |u.amazonToken.value| <= 1024)
  }

  /** `OrdersTable::validationDefault`. */
  predicate OrderValid(o: CakeOrder) {
    && Filled(o.orderId, 255)
    && AsinValid(o.asin)
    && Filled(o.productName, 255)
    && Filled(o.buyerEmail, 255)
  }

  /** `EmailTemplatesTable::validationDefault`. */
  predicate TemplateValid(t: CakeTemplate) {
    Filled(t.name, 255) && Filled(t.subject, 255) && t.content != ""
  }

  /** `AsinTemplatesTable::validationDefault`. */
  predicate AsinTemplateValid(t: CakeAsinTemplate) {
    AsinValid(t.asin) && Filled(t.subject, 255) && t.content != ""
  }

  predicate EmailsUnique(users: seq<CakeUser>) {
    forall i, j :: 0 <= i < j < |users| ==> users[i].email != users[j].email
  }

  predicate ExcludedUnique(table: seq<CakeExcluded>) {
    forall i, j :: 0 <= i < j < |table| ==> table[i] != table[j]
  }

  predicate AllOrdersValid(orders: seq<CakeOrder>) {
    forall k :: 0 <= k < |orders| ==> OrderValid(orders[k])
  }

  predicate AllTemplatesValid(table: seq<CakeTemplate>) {
    forall k :: 0 <= k < |table| ==> TemplateValid(table[k])
  }

  predicate AllAsinTemplatesValid(table: seq<CakeAsinTemplate>) {
    forall k :: 0 <= k < |table| ==> AsinTemplateValid(table[k])
  }

  /** The general templates keyed by seller and days after shipping. */
  function DaysKey(userId: nat, days: int): CakeTemplate -> bool {
    (t: CakeTemplate) => t.userId == userId && t.daysAfterShipping == days
  }

  /** The ASIN templates keyed by seller, ASIN and days after shipping. */
  function AsinKey(userId: nat, asin: string, days: int): CakeAsinTemplate -> bool {
    (t: CakeAsinTemplate) => t.userId == userId && t.asin == asin && t.daysAfterShipping == days
  }

  /** Saving a seller: rejected when a field breaks its rule or the e-mail
      address is already taken. */
  function SaveUser(users: seq<CakeUser>, u: CakeUser): (r: Option<seq<CakeUser>>)
    ensures r.Some? <==>
      && u.email != "" && 0 < |u.name| <= 255 && 0 < |u.shopName| <= 255
      && 7 <= u.hourStart <= 23 && 7 <= u.hourEnd <= 23
      && (u.amazonToken.Some? ==> |u.amazonToken.value| <= 1024)
      && forall k :: 0 <= k < |users| ==> users[k].email != u.email
    ensures r.Some? ==> r.value == users + [u]
    ensures r.Some? ==> HoursValid(r.value[|users|])
    ensures r.Some? && EmailsUnique(users) ==> EmailsUnique(r.value)
  {
    if UserValid(u) && forall k :: 0 <= k < |users| ==> users[k].email != u.email then Some(users + [u])
    else None
  }

  /** Saving an excluded ASIN: rejected when the ASIN is malformed or the
      seller already excludes it (`validateUnique` scoped to `user_id`). */
  function SaveExcluded(table: seq<CakeExcluded>, e: CakeExcluded): (r: Option<seq<CakeExcluded>>)
    ensures r.Some? <==> 0 < |e.asin| <= 10 && e !in table
    ensures r.Some? ==> r.value == table + [e]
    ensures ExcludedUnique(table) && r.Some? ==> ExcludedUnique(r.value)
  {
    if !AsinValid(e.asin) then None
    else if exists k :: 0 <= k < |table| && table[k].userId == e.userId && table[k].asin == e.asin then None
    else Some(table + [e])
  }

  /** Saving an order row; a rejected row is silently dropped. */
  function SaveOrder(orders: seq<CakeOrder>, o: CakeOrder): (r: seq<CakeOrder>)
    ensures r == orders + [o] <==>
      && 0 < |o.orderId| <= 255 && 0 < |o.asin| <= 10
      && 0 < |o.productName| <= 255 && 0 < |o.buyerEmail| <= 255
    ensures r == orders || r == orders + [o]
    ensures AllOrdersValid(orders) ==> AllOrdersValid(r)
  {
    if OrderValid(o) then orders + [o] else orders
  }

  /** Saving a general template: a saved template becomes the last one under
      its (seller, days) key, which is the one the send command picks, and a
      table of valid templates stays valid. */
  function SaveTemplate(table: seq<CakeTemplate>, t: CakeTemplate): (r: Option<seq<CakeTemplate>>)
    ensures r.Some? <==> 0 < |t.name| <= 255 && 0 < |t.subject| <= 255 && t.content != ""
    ensures r.Some? ==> table < r.value && LastOf(r.value, DaysKey(t.userId, t.daysAfterShipping)) == Some(t)
    ensures r.Some? ==> forall k :: 0 <= k < |r.value| && k != |table| ==> r.value[k] in table
    ensures AllTemplatesValid(table) && r.Some? ==> AllTemplatesValid(r.value)
  {
    if TemplateValid(t) then Some(table + [t]) else None
  }

  /** Saving an ASIN template: a saved template becomes the last one under
      its (seller, ASIN, days) key, and a table of valid templates stays valid. */
  function SaveAsinTemplate(table: seq<CakeAsinTemplate>, t: CakeAsinTemplate): (r: Option<seq<CakeAsinTemplate>>)
    ensures r.Some? <==> 0 < |t.asin| <= 10 && 0 < |t.subject| <= 255 && t.content != ""
    ensures r.Some? ==> table < r.value && LastOf(r.value, AsinKey(t.userId, t.asin, t.daysAfterShipping)) == Some(t)
    ensures r.Some? ==> forall k :: 0 <= k < |r.value| && k != |table| ==> r.value[k] in table
    ensures AllAsinTemplatesValid(table) && r.Some? ==> AllAsinTemplatesValid(r.value)
  {
    if AsinTemplateValid(t) then Some(table + [t]) else None
  }

  /** Excluding the same ASIN twice for one seller is refused the second time. */
  lemma ExcludeTwiceRejected(table: seq<CakeExcluded>, e: CakeExcluded)
    requires SaveExcluded(table, e).Some?
    ensures SaveExcluded(SaveExcluded(table, e).value, e).None?
  {
    assert SaveExcluded(table, e).value[|table|] == e;
  }

  /** A table built by successive saves from empty never holds a duplicate. */
  function SaveAllExcluded(table: seq<CakeExcluded>, es: seq<CakeExcluded>): (r: seq<CakeExcluded>)
    ensures ExcludedUnique(table) ==> ExcludedUnique(r)
    ensures table <= r
    ensures forall e :: e in es && AsinValid(e.asin) ==> e in r
    decreases |es|
  {
    if |es| == 0 then table
    else
      var next := SaveExcluded(table, es[0]).GetOr(table);
      assert AsinValid(es[0].asin) ==> es[0] in next by {
        if AsinValid(es[0].asin) && es[0] !in table {
          assert next[|table|] == es[0];
        }
      }
      SaveAllExcluded(next, es[1..])
  }
}
