/** The Laravel stack's records (`App\Models\*` as `AmazonEmailService`
    uses them) and the database they live in. Every table is a sequence in
    insertion order; a row's primary key is its position, which never
    changes because rows are only appended. */
module ServiceModel {
  import opened Common

  /** `EmailSetting`: a seller's switches. Hours are hours of the day,
      `sendDaysAfter` a number of days. */
  datatype EmailSetting = EmailSetting(
    sendEmails: bool,
    sendTimeStart: int,
    sendTimeEnd: int,
    sendDaysAfter: int,
    sendFba: bool,
    sendSelfShip: bool,
    sendUsedItems: bool,
    sendCopyToSelf: bool)

  /** `User`: the seller; `setting` is the `emailSetting` relation, which may be missing. */
  datatype User = User(
    id: nat,
    name: string,
    email: string,
    storeName: string,
    isActive: bool,
    setting: Option<EmailSetting>)

  /** `Order`: one row per (seller, Amazon order id, ASIN). Instants are seconds. */
  datatype Order = Order(
    userId: nat,
    orderId: string,
    asin: string,
    productName: string,
    orderDate: int,
    shippingDate: Option<int>,
    buyerEmail: Option<string>,
    isFba: bool,
    isUsed: bool,
    isCanceled: bool,
    emailSent: bool,
    sendEmail: bool)

  /** `EmailTemplate`: a seller's template. */
  datatype EmailTemplate = EmailTemplate(id: nat, userId: nat, subject: string, content: string, isDefault: bool)

  /** `AsinTemplate`: a per-ASIN template, carrying its own text or naming another template. */
  datatype AsinTemplate = AsinTemplate(
    id: nat,
    userId: nat,
    asin: string,
    subject: string,
    content: string,
    templateId: Option<nat>)

  /** `ExcludedAsin`: an ASIN the seller never wants to ask about. */
  datatype ExcludedAsin = ExcludedAsin(userId: nat, asin: string)

  /** `SentEmail`: the append-only log of delivered review requests. */
  datatype SentEmail = SentEmail(
    userId: nat,
    orderId: string,
    asin: string,
    subject: string,
    content: string,
    sentDate: int)

  datatype Db = Db(
    users: seq<User>,
    orders: seq<Order>,
    emailTemplates: seq<EmailTemplate>,
    asinTemplates: seq<AsinTemplate>,
    excludedAsins: seq<ExcludedAsin>,
    sentEmails: seq<SentEmail>)

  function TripleOf(o: Order): Triple {
    Triple(o.userId, o.orderId, o.asin)
  }

  /** `Order::where(user_id, order_id, asin)->exists()`. */
  predicate Stored(orders: seq<Order>, t: Triple) {
    exists k :: 0 <= k < |orders| && TripleOf(orders[k]) == t
  }

  /** No two rows share a key. */
  ghost predicate TriplesUnique(orders: seq<Order>) {
    forall i, j :: 0 <= i < j < |orders| ==> TripleOf(orders[i]) != TripleOf(orders[j])
  }

  /** Number of rows whose review request has gone out. */
  function CountSent(orders: seq<Order>): nat
    decreases |orders|
  {
    if |orders| == 0 then 0
    else (if orders[0].emailSent then 1 else 0) + CountSent(orders[1..])
  }

  /** One log record per row marked as sent. */
  ghost predicate LogConsistent(db: Db) {
    |db.sentEmails| == CountSent(db.orders)
  }

  lemma {:induction false} CountSentAppend(a: seq<Order>, b: seq<Order>)
    ensures CountSent(a + b) == CountSent(a) + CountSent(b)
    decreases |a|
  {
    if |a| == 0 {
      assert a + b == b;
    } else {
      assert (a + b)[1..] == a[1..] + b;
      CountSentAppend(a[1..], b);
    }
  }

  /** Marking one unsent row as sent raises the count by exactly one. */
  lemma {:induction false} CountSentMark(orders: seq<Order>, i: nat, o: Order)
    requires i < |orders|
    requires !orders[i].emailSent && o.emailSent
    ensures CountSent(orders[i := o]) == CountSent(orders) + 1
    decreases |orders|
  {
    if i == 0 {
      assert orders[i := o][1..] == orders[1..];
    } else {
      assert orders[i := o][1..] == orders[1..][i - 1 := o];
      CountSentMark(orders[1..], i - 1, o);
    }
  }

  /** Rows with every review request still pending count for nothing. */
  lemma {:induction false} CountSentNoneSent(orders: seq<Order>)
    requires forall k :: 0 <= k < |orders| ==> !orders[k].emailSent
    ensures CountSent(orders) == 0
    decreases |orders|
  {
    if |orders| > 0 {
      CountSentNoneSent(orders[1..]);
    }
  }
}
