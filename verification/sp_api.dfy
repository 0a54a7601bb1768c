/** Order normalisation of the Selling Partner API client
    (`AmazonSpApiService::processOrdersData`): raw order headers and their
    line items become flat order drafts, one per line item. The two calls to
    the API that it makes per order (the order items and the buyer e-mail)
    are parameters: `fetchItems` answers `None` where the service returns
    null (no token, failed response, exception). */
module SpApiService {
  import opened Common

  /** One element of the `Orders` list of a getOrders response; absent or null
      keys are `None`. */
  datatype RawOrder = RawOrder(
    amazonOrderId: string,
    purchaseDate: int,
    lastUpdateDate: Option<int>,
    fulfillmentChannel: Option<string>,
    inlineBuyerEmail: Option<string>,
    orderStatus: Option<string>)

  /** One element of an order's `OrderItems`. */
  datatype RawItem = RawItem(asin: string, title: string, isGift: Option<bool>)

  /** A getOrders response body: `Orders` may be missing. */
  datatype OrdersResponse = OrdersResponse(orders: Option<seq<RawOrder>>)

  /** The flat order record handed to ingestion. */
  datatype OrderDraft = OrderDraft(
    orderId: string,
    asin: string,
    productName: string,
    orderDate: int,
    shippingDate: Option<int>,
    buyerEmail: Option<string>,
    isFba: bool,
    isUsed: bool,
    isCanceled: bool)

  type ItemFetch = string -> Option<seq<RawItem>>
  type EmailFetch = string -> Option<string>

  /** `!$orderItems`: the fetch failed or returned no items. */
  predicate Skipped(o: RawOrder, fetchItems: ItemFetch) {
    fetchItems(o.amazonOrderId).None? || |fetchItems(o.amazonOrderId).value| == 0
  }

  /** Number of items fetched for an order that is not skipped. */
  function ItemCount(o: RawOrder, fetchItems: ItemFetch): nat {
    if Skipped(o, fetchItems) then 0 else |fetchItems(o.amazonOrderId).value|
  }

  /** Total number of line items over the orders that are not skipped. */
  function TotalItems(os: seq<RawOrder>, fetchItems: ItemFetch): nat
    decreases |os|
  {
    if |os| == 0 then 0 else ItemCount(os[0], fetchItems) + TotalItems(os[1..], fetchItems)
  }

  /** Two drafts carry the same order-level fields. */
  predicate SameHeader(a: OrderDraft, b: OrderDraft) {
    && a.orderId == b.orderId
    && a.orderDate == b.orderDate
    && a.shippingDate == b.shippingDate
    && a.buyerEmail == b.buyerEmail
    && a.isFba == b.isFba
    && a.isCanceled == b.isCanceled
  }

  /** The buyer address the order resolves to: inline buyer info, otherwise
      the secondary lookup, which may itself give nothing. */
  function BuyerEmailOf(o: RawOrder, fetchEmail: EmailFetch): Option<string> {
    if o.inlineBuyerEmail.Some? then o.inlineBuyerEmail else fetchEmail(o.amazonOrderId)
  }

  /** The drafts of one order, one per fetched item, in item order. */
  function NormalizeOrder(o: RawOrder, fetchItems: ItemFetch, fetchEmail: EmailFetch): (r: seq<OrderDraft>)
    ensures Skipped(o, fetchItems) ==> r == []
    ensures |r| == ItemCount(o, fetchItems)
    ensures forall k :: 0 <= k < |r| ==>
      var it := fetchItems(o.amazonOrderId).value[k];
      && r[k].asin == it.asin
      && r[k].productName == it.title
      && (r[k].isUsed <==> it.isGift == Some(true))
    ensures forall k :: 0 <= k < |r| ==>
      && r[k].orderId == o.amazonOrderId
      && r[k].orderDate == o.purchaseDate
      && r[k].shippingDate == o.lastUpdateDate
      && (r[k].isFba <==> o.fulfillmentChannel == Some("AFN"))
      && (r[k].isCanceled <==> o.orderStatus == Some("Canceled"))
      && (o.inlineBuyerEmail.Some? ==> r[k].buyerEmail == o.inlineBuyerEmail)
      && (o.inlineBuyerEmail.None? ==> r[k].buyerEmail == fetchEmail(o.amazonOrderId))
    ensures forall k, l :: 0 <= k < |r| && 0 <= l < |r| ==> SameHeader(r[k], r[l])
  {
    if Skipped(o, fetchItems) then []
    else
      var items := fetchItems(o.amazonOrderId).value;
      var email := BuyerEmailOf(o, fetchEmail);
      var isFba := o.fulfillmentChannel.Some? && o.fulfillmentChannel.value == "AFN";
      var isCanceled := o.orderStatus == Some("Canceled");
      seq(|items|, k requires 0 <= k < |items| =>
        OrderDraft(o.amazonOrderId, items[k].asin, items[k].title, o.purchaseDate,
                   o.lastUpdateDate, email, isFba, items[k].isGift.GetOr(false), isCanceled))
  }

  /** The loop over `Orders`: each order's drafts, in order. */
  function ProcessOrders(os: seq<RawOrder>, fetchItems: ItemFetch, fetchEmail: EmailFetch): (r: seq<OrderDraft>)
    ensures |r| == TotalItems(os, fetchItems)
    ensures forall d :: d in r ==> exists o :: o in os && d in NormalizeOrder(o, fetchItems, fetchEmail)
    decreases |os|
  {
    if |os| == 0 then []
    else NormalizeOrder(os[0], fetchItems, fetchEmail) + ProcessOrders(os[1..], fetchItems, fetchEmail)
  }

  /** `processOrdersData`: a response without `Orders`, or with an empty
      list, yields no drafts. */
  function ProcessOrdersData(resp: OrdersResponse, fetchItems: ItemFetch, fetchEmail: EmailFetch): (r: seq<OrderDraft>)
    ensures resp.orders.None? ==> r == []
    ensures resp.orders.Some? ==> |r| == TotalItems(resp.orders.value, fetchItems)
  {
    if resp.orders.None? || |resp.orders.value| == 0 then []
    else ProcessOrders(resp.orders.value, fetchItems, fetchEmail)
  }

  /** Input order is preserved: the drafts of a concatenation of order lists
      are the concatenation of their drafts. */
  lemma {:induction false} ProcessOrdersAppend(a: seq<RawOrder>, b: seq<RawOrder>, fetchItems: ItemFetch, fetchEmail: EmailFetch)
    ensures ProcessOrders(a + b, fetchItems, fetchEmail)
         == ProcessOrders(a, fetchItems, fetchEmail) + ProcessOrders(b, fetchItems, fetchEmail)
    decreases |a|
  {
    if |a| == 0 {
      assert a + b == b;
    } else {
      assert (a + b)[1..] == a[1..] + b;
      ProcessOrdersAppend(a[1..], b, fetchItems, fetchEmail);
    }
  }

  lemma SkippedAlone(o: RawOrder, fetchItems: ItemFetch, fetchEmail: EmailFetch)
    requires Skipped(o, fetchItems)
    ensures ProcessOrders([o], fetchItems, fetchEmail) == []
  {
    assert [o][1..] == [];
  }

  /** An order whose item fetch fails or is empty contributes nothing:
      removing it from the list leaves the drafts unchanged. */
  lemma {:induction false} SkippedOrderContributesNothing(os: seq<RawOrder>, i: nat, fetchItems: ItemFetch, fetchEmail: EmailFetch)
    requires i < |os|
    requires Skipped(os[i], fetchItems)
    ensures ProcessOrders(os, fetchItems, fetchEmail)
         == ProcessOrders(os[..i] + os[i + 1..], fetchItems, fetchEmail)
  {
    var pre, mid, post := os[..i], [os[i]], os[i + 1..];
    assert os == pre + (mid + post);
    ProcessOrdersAppend(pre, mid + post, fetchItems, fetchEmail);
    ProcessOrdersAppend(mid, post, fetchItems, fetchEmail);
    ProcessOrdersAppend(pre, post, fetchItems, fetchEmail);
    SkippedAlone(os[i], fetchItems, fetchEmail);
    assert ProcessOrders(mid + post, fetchItems, fetchEmail) == ProcessOrders(post, fetchItems, fetchEmail);
  }
}
