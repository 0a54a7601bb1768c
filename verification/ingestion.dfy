/** `AmazonEmailService::processNewOrders`: a fold of a seller's fetched
    order drafts into the order table. Excluded ASINs are skipped, a draft
    whose (seller, order id, ASIN) is already stored is skipped (rows are
    saved one at a time, so an earlier duplicate in the same batch counts),
    and every new row freezes whether a review request may ever be sent. */
module Ingestion {
  import opened Common
  import opened SpApiService
  import opened ServiceModel

  /** `$shouldSendEmail`: starts from the global switch, then the
      FBA / self-ship / used-item rules may each turn it off. A seller with
      no settings row gets false here; the source stops with an exception
      when it reads the rules of the missing row. */
  function ShouldSendEmail(setting: Option<EmailSetting>, isFba: bool, isUsed: bool): (r: bool)
    ensures r <==>
      && setting.Some?
      && setting.value.sendEmails
      && !(isFba && !setting.value.sendFba)
      && !(!isFba && !setting.value.sendSelfShip)
      && !(isUsed && !setting.value.sendUsedItems)
  {
    match setting
    case None => false
    case Some(s) =>
      if isFba && !s.sendFba then false
      else if !isFba && !s.sendSelfShip then false
      else if isUsed && !s.sendUsedItems then false
      else s.sendEmails
  }

  /** The seller's excluded ASINs (`excludedAsins()->pluck('asin')`). */
  function ExcludedFor(table: seq<ExcludedAsin>, userId: nat): (r: seq<string>)
    ensures forall a :: a in r <==> ExcludedAsin(userId, a) in table
    decreases |table|
  {
    if |table| == 0 then []
    else (if table[0].userId == userId then [table[0].asin] else []) + ExcludedFor(table[1..], userId)
  }

  /** The row created for a draft. */
  function NewOrder(user: User, d: OrderDraft): Order {
    Order(user.id, d.orderId, d.asin, d.productName, d.orderDate, d.shippingDate, d.buyerEmail,
          d.isFba, d.isUsed, d.isCanceled, false, ShouldSendEmail(user.setting, d.isFba, d.isUsed))
  }

  function DraftTriple(user: User, d: OrderDraft): Triple {
    Triple(user.id, d.orderId, d.asin)
  }

  datatype Ingested = Ingested(orders: seq<Order>, count: nat)

  /** The loop of `processNewOrders` over the order table. */
  function Ingest(orders: seq<Order>, excluded: seq<string>, user: User, batch: seq<OrderDraft>): (r: Ingested)
    ensures orders <= r.orders
    ensures r.count == |r.orders| - |orders|
    ensures forall k :: |orders| <= k < |r.orders| ==>
      && r.orders[k].userId == user.id
      && !r.orders[k].emailSent
      && r.orders[k].asin !in excluded
      && exists d :: d in batch && r.orders[k] == NewOrder(user, d)
    ensures TriplesUnique(orders) ==> TriplesUnique(r.orders)
    ensures forall d :: d in batch && d.asin !in excluded ==> Stored(r.orders, DraftTriple(user, d))
    decreases |batch|
  {
    if |batch| == 0 then Ingested(orders, 0)
    else
      var d := batch[0];
      if d.asin in excluded || Stored(orders, DraftTriple(user, d)) then
        Ingest(orders, excluded, user, batch[1..])
      else
        var row := NewOrder(user, d);
        assert TripleOf(row) == DraftTriple(user, d);
        var rest := Ingest(orders + [row], excluded, user, batch[1..]);
        assert Stored(orders + [row], DraftTriple(user, d)) by {
          assert TripleOf((orders + [row])[|orders|]) == DraftTriple(user, d);
        }
        Ingested(rest.orders, rest.count + 1)
  }

  /** A batch whose every draft is excluded or already stored adds nothing. */
  lemma {:induction false} IngestNothingNew(orders: seq<Order>, excluded: seq<string>, user: User, batch: seq<OrderDraft>)
    requires forall d :: d in batch ==> d.asin in excluded || Stored(orders, DraftTriple(user, d))
    ensures Ingest(orders, excluded, user, batch) == Ingested(orders, 0)
    decreases |batch|
  {
    if |batch| > 0 {
      assert batch[0] in batch;
      forall d | d in batch[1..] ensures d.asin in excluded || Stored(orders, DraftTriple(user, d)) {
        assert d in batch;
      }
      IngestNothingNew(orders, excluded, user, batch[1..]);
    }
  }

  /** Ingesting the same batch a second time is a no-op. */
  lemma IngestIdempotent(orders: seq<Order>, excluded: seq<string>, user: User, batch: seq<OrderDraft>)
    ensures var once := Ingest(orders, excluded, user, batch);
            Ingest(once.orders, excluded, user, batch) == Ingested(once.orders, 0)
  {
    var once := Ingest(orders, excluded, user, batch);
    IngestNothingNew(once.orders, excluded, user, batch);
  }

  /** A batch of excluded ASINs never adds a row, whatever the settings. */
  lemma ExcludedBatchAddsNothing(orders: seq<Order>, excluded: seq<string>, user: User, batch: seq<OrderDraft>)
    requires forall d :: d in batch ==> d.asin in excluded
    ensures Ingest(orders, excluded, user, batch).count == 0
  {
    IngestNothingNew(orders, excluded, user, batch);
  }

  /** `processNewOrders` on the database: only the order table changes, the
      returned count is the number of rows added, and the log of sent
      e-mails still has one record per row marked as sent. */
  function ProcessNewOrders(db: Db, user: User, batch: seq<OrderDraft>): (r: (Db, nat))
    ensures r.0 == db.(orders := r.0.orders)
    ensures db.orders <= r.0.orders && r.1 == |r.0.orders| - |db.orders|
    ensures forall k :: 0 <= k < |db.orders| ==> r.0.orders[k] == db.orders[k]
    ensures TriplesUnique(db.orders) ==> TriplesUnique(r.0.orders)
    ensures LogConsistent(db) ==> LogConsistent(r.0)
  {
    var res := Ingest(db.orders, ExcludedFor(db.excludedAsins, user.id), user, batch);
    var added := res.orders[|db.orders|..];
    assert res.orders == db.orders + added;
    CountSentAppend(db.orders, added);
    CountSentNoneSent(added);
    (db.(orders := res.orders), res.count)
  }
}
