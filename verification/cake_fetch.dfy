/** `FetchAmazonOrdersCommand::execute`: every seller with an Amazon token
    has its fetched orders folded into the order table. An order whose
    (seller, order id, ASIN) is already stored is skipped, then one whose
    ASIN the seller excludes; otherwise a row is built with the seller's
    eligibility rules and saved, which the table's validator may refuse. */
module CakeFetch {
  import opened Common
  import opened CakeTables
  import ServiceModel
  import Ingestion

  /** One order as the fetch returns it. */
  datatype FetchedOrder = FetchedOrder(
    orderId: string,
    asin: string,
    productName: string,
    buyerEmail: string,
    shippingDay: int,
    isFba: bool,
    isUsed: bool)

  /** `$shouldSendEmail`: starts true (there is no global switch at this
      point) and each of three independent rules may turn it off. */
  function CakeEligibility(u: CakeUser, isFba: bool, isUsed: bool): (r: bool)
    ensures r <==>
      && !(isFba && !u.sendToFba)
      && !(!isFba && !u.sendToSelfShipping)
      && !(isUsed && !u.sendToUsedProducts)
  {
    var start := true;
    var afterFba := if isFba && !u.sendToFba then false else start;
    var afterSelf := if !isFba && !u.sendToSelfShipping then false else afterFba;
    if isUsed && !u.sendToUsedProducts then false else afterSelf
  }

  /** The row built for a fetched order. */
  function CakeNewOrder(u: CakeUser, f: FetchedOrder): CakeOrder {
    CakeOrder(u.id, f.orderId, f.asin, f.productName, f.buyerEmail, f.shippingDay,
              f.isFba, f.isUsed, CakeEligibility(u, f.isFba, f.isUsed), false, None)
  }

  function FetchedTriple(u: CakeUser, f: FetchedOrder): Triple {
    Triple(u.id, f.orderId, f.asin)
  }

  /** The `->first()` lookup on `orders` by (user, order id, ASIN). */
  predicate CakeStored(orders: seq<CakeOrder>, t: Triple) {
    exists k :: 0 <= k < |orders| && CakeTripleOf(orders[k]) == t
  }

  /** The `->first()` lookup on `excluded_asins` by (user, ASIN). */
  predicate Excluded(table: seq<CakeExcluded>, userId: nat, asin: string) {
    exists k :: 0 <= k < |table| && table[k].userId == userId && table[k].asin == asin
  }

  predicate CakeTriplesUnique(orders: seq<CakeOrder>) {
    forall i, j :: 0 <= i < j < |orders| ==> CakeTripleOf(orders[i]) != CakeTripleOf(orders[j])
  }

  /** The inner loop over one seller's fetched orders. */
  function CakeIngest(orders: seq<CakeOrder>, excluded: seq<CakeExcluded>, u: CakeUser, batch: seq<FetchedOrder>): (r: seq<CakeOrder>)
    ensures orders <= r
    ensures forall k :: |orders| <= k < |r| ==>
      && r[k].userId == u.id
      && !r[k].emailSent && r[k].emailSentDate.None?
      && !Excluded(excluded, u.id, r[k].asin)
      && OrderValid(r[k])
      && exists f :: f in batch && r[k] == CakeNewOrder(u, f)
    ensures CakeTriplesUnique(orders) ==> CakeTriplesUnique(r)
    ensures AllOrdersValid(orders) ==> AllOrdersValid(r)
    ensures forall f :: f in batch && !Excluded(excluded, u.id, f.asin) && OrderValid(CakeNewOrder(u, f)) ==>
      CakeStored(r, FetchedTriple(u, f))
    decreases |batch|, 1
  {
    if |batch| == 0 then orders
    else
      var next := IngestOne(orders, excluded, u, batch[0]);
      CakeIngestRest(orders, excluded, u, batch);
      CakeIngest(next, excluded, u, batch[1..])
  }

  /** The rows the rest of the batch adds after the first order come from
      the batch, and every order of the batch that is neither excluded nor
      refused ends up stored. */
  lemma CakeIngestRest(orders: seq<CakeOrder>, excluded: seq<CakeExcluded>, u: CakeUser, batch: seq<FetchedOrder>)
    requires |batch| > 0
    ensures var r := CakeIngest(IngestOne(orders, excluded, u, batch[0]), excluded, u, batch[1..]);
      && (forall k :: |orders| <= k < |r| ==> exists f :: f in batch && r[k] == CakeNewOrder(u, f))
      && (forall f :: f in batch && !Excluded(excluded, u.id, f.asin) && OrderValid(CakeNewOrder(u, f)) ==>
            CakeStored(r, FetchedTriple(u, f)))
    decreases |batch|, 0
  {
    var next := IngestOne(orders, excluded, u, batch[0]);
    var r := CakeIngest(next, excluded, u, batch[1..]);
    forall k | |orders| <= k < |r| ensures exists f :: f in batch && r[k] == CakeNewOrder(u, f) {
      if k < |next| {
        assert batch[0] in batch && r[k] == next[k];
      } else {
        var f :| f in batch[1..] && r[k] == CakeNewOrder(u, f);
        assert f in batch;
      }
    }
    forall f | f in batch && !Excluded(excluded, u.id, f.asin) && OrderValid(CakeNewOrder(u, f))
      ensures CakeStored(r, FetchedTriple(u, f))
    {
      if f != batch[0] {
        assert f in batch[1..];
      } else {
        var k :| 0 <= k < |next| && CakeTripleOf(next[k]) == FetchedTriple(u, f);
        assert r[k] == next[k];
      }
    }
  }

  /** One fetched order: skipped when its triple is stored or its ASIN
      excluded, otherwise its row is saved, which the validator may refuse. */
  function IngestOne(orders: seq<CakeOrder>, excluded: seq<CakeExcluded>, u: CakeUser, f: FetchedOrder): (r: seq<CakeOrder>)
    ensures r == orders || r == orders + [CakeNewOrder(u, f)]
    ensures r != orders <==>
      !CakeStored(orders, FetchedTriple(u, f)) && !Excluded(excluded, u.id, f.asin) && OrderValid(CakeNewOrder(u, f))
    ensures !Excluded(excluded, u.id, f.asin) && OrderValid(CakeNewOrder(u, f)) ==> CakeStored(r, FetchedTriple(u, f))
    ensures CakeTriplesUnique(orders) ==> CakeTriplesUnique(r)
    ensures AllOrdersValid(orders) ==> AllOrdersValid(r)
  {
    if CakeStored(orders, FetchedTriple(u, f)) then orders
    else if Excluded(excluded, u.id, f.asin) then orders
    else
      var row := CakeNewOrder(u, f);
      var saved := SaveOrder(orders, row);
      assert OrderValid(row) ==> CakeTripleOf(saved[|orders|]) == FetchedTriple(u, f);
      assert |saved| != |orders| ==> saved != orders;
      saved
  }

  /** A batch whose every order is stored or excluded adds nothing. */
  lemma {:induction false} CakeIngestNothingNew(orders: seq<CakeOrder>, excluded: seq<CakeExcluded>, u: CakeUser, batch: seq<FetchedOrder>)
    requires forall f :: f in batch ==> CakeStored(orders, FetchedTriple(u, f)) || Excluded(excluded, u.id, f.asin)
    ensures CakeIngest(orders, excluded, u, batch) == orders
    decreases |batch|
  {
    if |batch| > 0 {
      assert batch[0] in batch;
      forall f | f in batch[1..] ensures CakeStored(orders, FetchedTriple(u, f)) || Excluded(excluded, u.id, f.asin) {
        assert f in batch;
      }
      CakeIngestNothingNew(orders, excluded, u, batch[1..]);
    }
  }

  /** Rerunning the fetch on the same orders changes nothing: every order is
      stored, excluded, or refused by the validator again. */
  lemma {:induction false} CakeIngestIdempotent(orders: seq<CakeOrder>, excluded: seq<CakeExcluded>, u: CakeUser, batch: seq<FetchedOrder>)
    ensures var once := CakeIngest(orders, excluded, u, batch);
            CakeIngest(once, excluded, u, batch) == once
    decreases |batch|
  {
    var once := CakeIngest(orders, excluded, u, batch);
    CakeIngestInvalidSkipped(once, excluded, u, batch);
  }

  /** Orders the validator refuses are as good as skipped. */
  lemma {:induction false} CakeIngestInvalidSkipped(orders: seq<CakeOrder>, excluded: seq<CakeExcluded>, u: CakeUser, batch: seq<FetchedOrder>)
    requires forall f :: f in batch && !Excluded(excluded, u.id, f.asin) && OrderValid(CakeNewOrder(u, f)) ==>
      CakeStored(orders, FetchedTriple(u, f))
    ensures CakeIngest(orders, excluded, u, batch) == orders
    decreases |batch|
  {
    if |batch| > 0 {
      assert batch[0] in batch;
      forall f | f in batch[1..] && !Excluded(excluded, u.id, f.asin) && OrderValid(CakeNewOrder(u, f))
        ensures CakeStored(orders, FetchedTriple(u, f))
      {
        assert f in batch;
      }
      CakeIngestInvalidSkipped(orders, excluded, u, batch[1..]);
    }
  }

  /** An excluded ASIN never adds a row. */
  lemma ExcludedOrderAddsNothing(orders: seq<CakeOrder>, excluded: seq<CakeExcluded>, u: CakeUser, f: FetchedOrder)
    requires Excluded(excluded, u.id, f.asin)
    ensures CakeIngest(orders, excluded, u, [f]) == orders
  {
    CakeIngestNothingNew(orders, excluded, u, [f]);
  }

  /** The two stacks' eligibility rules differ only by the global switch:
      for the same three per-kind switches, Laravel's flag is Cake's flag
      together with `send_emails`. */
  lemma EligibilityAcrossStacks(s: ServiceModel.EmailSetting, u: CakeUser, isFba: bool, isUsed: bool)
    requires s.sendFba == u.sendToFba && s.sendSelfShip == u.sendToSelfShipping && s.sendUsedItems == u.sendToUsedProducts
    ensures Ingestion.ShouldSendEmail(Some(s), isFba, isUsed) <==> s.sendEmails && CakeEligibility(u, isFba, isUsed)
  {
  }

  /** What one seller's fetch returned: `None` when it threw. */
  type Fetch = CakeUser -> Option<seq<FetchedOrder>>

  /** The sellers the command visits: those with an Amazon token. */
  predicate HasToken(u: CakeUser) {
    u.amazonToken.Some?
  }

  /** `o` is the row built from one of the orders a successful fetch returned for `u`. */
  ghost predicate FetchedFor(u: CakeUser, fetch: Fetch, o: CakeOrder) {
    HasToken(u) && fetch(u).Some? && exists f :: f in fetch(u).value && o == CakeNewOrder(u, f)
  }

  /** The outer loop over the sellers, in table order. A fetch that throws
      skips its seller and the loop goes on. Every added row was built from
      an order fetched for a seller with a token, and every such order that
      is not excluded and passes validation ends up stored. */
  function FetchAll(orders: seq<CakeOrder>, excluded: seq<CakeExcluded>, users: seq<CakeUser>, fetch: Fetch): (r: seq<CakeOrder>)
    ensures orders <= r
    ensures forall k :: |orders| <= k < |r| ==>
      && !r[k].emailSent
      && exists i :: 0 <= i < |users| && FetchedFor(users[i], fetch, r[k])
    ensures forall i, f :: 0 <= i < |users| && HasToken(users[i]) && fetch(users[i]).Some? &&
                           f in fetch(users[i]).value && !Excluded(excluded, users[i].id, f.asin) &&
                           OrderValid(CakeNewOrder(users[i], f)) ==>
      CakeStored(r, FetchedTriple(users[i], f))
    ensures CakeTriplesUnique(orders) ==> CakeTriplesUnique(r)
    ensures AllOrdersValid(orders) ==> AllOrdersValid(r)
    decreases |users|, 1
  {
    if |users| == 0 then orders
    else
      var next := FetchOne(orders, excluded, users[0], fetch);
      FetchAllProvenance(orders, excluded, users, fetch);
      FetchAllComplete(orders, excluded, users, fetch);
      FetchAll(next, excluded, users[1..], fetch)
  }

  /** One seller's turn of the outer loop. */
  function FetchOne(orders: seq<CakeOrder>, excluded: seq<CakeExcluded>, u: CakeUser, fetch: Fetch): (r: seq<CakeOrder>)
    ensures orders <= r
    ensures |r| > |orders| ==> HasToken(u) && fetch(u).Some?
    ensures forall k :: |orders| <= k < |r| ==>
      !r[k].emailSent && exists f :: f in fetch(u).value && r[k] == CakeNewOrder(u, f)
    ensures forall f :: HasToken(u) && fetch(u).Some? && f in fetch(u).value && !Excluded(excluded, u.id, f.asin) &&
                        OrderValid(CakeNewOrder(u, f)) ==>
      CakeStored(r, FetchedTriple(u, f))
    ensures CakeTriplesUnique(orders) ==> CakeTriplesUnique(r)
    ensures AllOrdersValid(orders) ==> AllOrdersValid(r)
  {
    if !HasToken(u) then orders
    else match fetch(u)
      case None => orders
      case Some(batch) => CakeIngest(orders, excluded, u, batch)
  }

  /** The rows the outer loop adds come from successful fetches of sellers with a token. */
  lemma FetchAllProvenance(orders: seq<CakeOrder>, excluded: seq<CakeExcluded>, users: seq<CakeUser>, fetch: Fetch)
    requires |users| > 0
    ensures var rest := FetchAll(FetchOne(orders, excluded, users[0], fetch), excluded, users[1..], fetch);
      forall k :: |orders| <= k < |rest| ==> exists i :: 0 <= i < |users| && FetchedFor(users[i], fetch, rest[k])
    decreases |users|, 0
  {
    var next := FetchOne(orders, excluded, users[0], fetch);
    var rest := FetchAll(next, excluded, users[1..], fetch);
    forall k | |orders| <= k < |rest|
      ensures exists i :: 0 <= i < |users| && FetchedFor(users[i], fetch, rest[k])
    {
      if k < |next| {
        assert rest[k] == next[k];
        assert FetchedFor(users[0], fetch, rest[k]);
      } else {
        var i :| 0 <= i < |users[1..]| && FetchedFor(users[1..][i], fetch, rest[k]);
        assert users[1..][i] == users[i + 1];
      }
    }
  }

  /** Every fetched order of a seller with a token that is not excluded and
      passes validation is stored once the outer loop ends. */
  lemma FetchAllComplete(orders: seq<CakeOrder>, excluded: seq<CakeExcluded>, users: seq<CakeUser>, fetch: Fetch)
    requires |users| > 0
    ensures var rest := FetchAll(FetchOne(orders, excluded, users[0], fetch), excluded, users[1..], fetch);
      forall i, f :: 0 <= i < |users| && HasToken(users[i]) && fetch(users[i]).Some? &&
                     f in fetch(users[i]).value && !Excluded(excluded, users[i].id, f.asin) &&
                     OrderValid(CakeNewOrder(users[i], f)) ==>
        CakeStored(rest, FetchedTriple(users[i], f))
    decreases |users|, 0
  {
    var next := FetchOne(orders, excluded, users[0], fetch);
    var rest := FetchAll(next, excluded, users[1..], fetch);
    forall i, f | 0 <= i < |users| && HasToken(users[i]) && fetch(users[i]).Some? &&
                  f in fetch(users[i]).value && !Excluded(excluded, users[i].id, f.asin) &&
                  OrderValid(CakeNewOrder(users[i], f))
      ensures CakeStored(rest, FetchedTriple(users[i], f))
    {
      if i == 0 {
        assert CakeStored(next, FetchedTriple(users[0], f));
        var k :| 0 <= k < |next| && CakeTripleOf(next[k]) == FetchedTriple(users[0], f);
        assert rest[k] == next[k];
      } else {
        assert users[1..][i - 1] == users[i];
      }
    }
  }
}
