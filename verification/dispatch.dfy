/** `AmazonEmailService::sendPendingEmails` and `sendOrderEmail`: one sweep
    over the sellers whose e-mailing is on. A seller is skipped outside the
    sending hours; otherwise each of the seller's pending orders is sent with
    its resolved template, recorded in the sent-e-mail log and marked as sent.
    Delivery is an oracle: `deliver(m)` is false when sending `m` throws. */
module Dispatch {
  import opened Common
  import opened ServiceModel
  import opened Templates
  import opened Placeholders
  import opened Text

  type DateFormat = int -> string

  /** The hour gate: the seller is processed only inside
      [sendTimeStart, sendTimeEnd], both ends included. */
  function InWindow(hour: int, start: int, end: int): (r: bool)
    ensures r <==> start <= hour <= end
    ensures start > end ==> !r
  {
    !(hour < start || hour > end)
  }

  /** The sellers a sweep visits: active, with e-mailing switched on. */
  predicate Selected(u: User) {
    u.isActive && u.setting.Some? && u.setting.value.sendEmails
  }

  /** The pending-order query of one seller at instant `now`. */
  predicate IsCandidate(o: Order, userId: nat, now: int, daysAfter: int) {
    && o.userId == userId
    && o.sendEmail
    && !o.emailSent
    && !o.isCanceled
    && o.buyerEmail.Some?
    && o.shippingDate.Some?
    && o.shippingDate.value <= now - daysAfter * SecondsPerDay
  }

  /** The sweep may send `o` on behalf of `u` at instant `now`: `u` is
      selected, inside its sending hours, and `o` is among its pending orders. */
  predicate DueFor(o: Order, u: User, now: int) {
    && Selected(u)
    && InWindow(HourOf(now), u.setting.value.sendTimeStart, u.setting.value.sendTimeEnd)
    && IsCandidate(o, u.id, now, u.setting.value.sendDaysAfter)
  }

  /** Positions at or after `lo` of the seller's pending orders, ascending. */
  function PendingFrom(orders: seq<Order>, lo: nat, userId: nat, now: int, daysAfter: int): (r: seq<nat>)
    requires lo <= |orders|
    ensures forall k :: 0 <= k < |r| ==> lo <= r[k] < |orders| && IsCandidate(orders[r[k]], userId, now, daysAfter)
    ensures forall j :: lo <= j < |orders| && IsCandidate(orders[j], userId, now, daysAfter) ==> j in r
    ensures forall a, b :: 0 <= a < b < |r| ==> r[a] < r[b]
    decreases |orders| - lo
  {
    if lo == |orders| then []
    else
      var rest := PendingFrom(orders, lo + 1, userId, now, daysAfter);
      if IsCandidate(orders[lo], userId, now, daysAfter) then [lo] + rest else rest
  }

  /** The seller's pending orders (`$pendingOrders`), in table order. */
  function PendingOrders(orders: seq<Order>, userId: nat, now: int, daysAfter: int): (r: seq<nat>)
    ensures forall k :: 0 <= k < |r| ==> r[k] < |orders| && IsCandidate(orders[r[k]], userId, now, daysAfter)
    ensures forall j :: 0 <= j < |orders| ==> (j in r <==> IsCandidate(orders[j], userId, now, daysAfter))
    ensures forall a, b :: 0 <= a < b < |r| ==> r[a] < r[b]
  {
    PendingFrom(orders, 0, userId, now, daysAfter)
  }

  datatype SendOutcome = SendOutcome(sent: bool, db: Db, mails: seq<Mail>)

  function ValuesFor(o: Order, user: User, fmt: DateFormat): PlaceholderValues {
    PlaceholderValues(user.storeName, o.productName, o.orderId, fmt(o.orderDate), user.name)
  }

  /** The two rendered texts of an order, if a template resolves. */
  function Rendered(ats: seq<AsinTemplate>, ets: seq<EmailTemplate>, o: Order, user: User, fmt: DateFormat): Option<TemplateText> {
    match ResolveTemplate(user.id, o.asin, ats, ets)
    case None => None
    case Some(t) =>
      Some(TemplateText(ReplacePlaceholders(t.subject, ValuesFor(o, user, fmt)),
                        ReplacePlaceholders(t.content, ValuesFor(o, user, fmt))))
  }

  /** Two order rows that differ at most in `emailSent`. */
  predicate SameButSent(a: Order, b: Order) {
    a.(emailSent := b.emailSent) == b
  }

  /** The successful end of a send: one log record appended, the row marked. */
  function RecordSent(db: Db, i: nat, user: User, text: TemplateText, now: int): (r: Db)
    requires i < |db.orders|
    ensures |r.orders| == |db.orders| && r.orders[i].emailSent
    ensures forall j :: 0 <= j < |db.orders| && j != i ==> r.orders[j] == db.orders[j]
    ensures SameButSent(db.orders[i], r.orders[i])
    ensures r.sentEmails == db.sentEmails +
      [SentEmail(user.id, db.orders[i].orderId, db.orders[i].asin, text.subject, text.content, now)]
    ensures r.(orders := db.orders, sentEmails := db.sentEmails) == db
    ensures LogConsistent(db) && !db.orders[i].emailSent ==> LogConsistent(r)
  {
    var o := db.orders[i];
    var r := db.(orders := db.orders[i := o.(emailSent := true)],
                 sentEmails := db.sentEmails + [SentEmail(user.id, o.orderId, o.asin, text.subject, text.content, now)]);
    assert !o.emailSent ==> CountSent(r.orders) == CountSent(db.orders) + 1 by {
      if !o.emailSent { CountSentMark(db.orders, i, o.(emailSent := true)); }
    }
    r
  }

  function BuyerMail(o: Order, text: TemplateText): Mail
    requires o.buyerEmail.Some?
  {
    Mail(o.buyerEmail.value, text.subject, text.content, false)
  }

  function CopyMail(user: User, text: TemplateText): Mail {
    Mail(user.email, text.subject, text.content, true)
  }

  /** `sendOrderEmail` as the source writes it: the copy to the seller goes
      out after the buyer's mail and before the log record and the flag, so
      a failing copy makes the whole send count as failed although the buyer
      has already been mailed. */
  function SendOrderEmailAsWritten(db: Db, i: nat, user: User, setting: EmailSetting, now: int,
                                   fmt: DateFormat, deliver: Deliver): (r: SendOutcome)
    requires i < |db.orders| && db.orders[i].buyerEmail.Some?
    ensures !r.sent ==> r.db == db
    ensures r.sent <==>
      && Rendered(db.asinTemplates, db.emailTemplates, db.orders[i], user, fmt).Some?
      && deliver(BuyerMail(db.orders[i], Rendered(db.asinTemplates, db.emailTemplates, db.orders[i], user, fmt).value))
      && (setting.sendCopyToSelf ==> deliver(CopyMail(user, Rendered(db.asinTemplates, db.emailTemplates, db.orders[i], user, fmt).value)))
    ensures r.sent ==> r.db == RecordSent(db, i, user, Rendered(db.asinTemplates, db.emailTemplates, db.orders[i], user, fmt).value, now)
  {
    var o := db.orders[i];
    match Rendered(db.asinTemplates, db.emailTemplates, o, user, fmt)
    case None => SendOutcome(false, db, [])
    case Some(text) =>
      if !deliver(BuyerMail(o, text)) then SendOutcome(false, db, [])
      else if setting.sendCopyToSelf && !deliver(CopyMail(user, text)) then
        SendOutcome(false, db, [BuyerMail(o, text)])
      else
        SendOutcome(true, RecordSent(db, i, user, text, now),
                    [BuyerMail(o, text)] + (if setting.sendCopyToSelf then [CopyMail(user, text)] else []))
  }

  /** `sendOrderEmail` with the copy's failure kept from undoing the send:
      the order is recorded and marked exactly when the buyer's mail went out. */
  function SendOrderEmail(db: Db, i: nat, user: User, setting: EmailSetting, now: int,
                          fmt: DateFormat, deliver: Deliver): (r: SendOutcome)
    requires i < |db.orders| && db.orders[i].buyerEmail.Some?
    ensures !r.sent ==> r.db == db && r.mails == []
    ensures r.sent <==>
      Rendered(db.asinTemplates, db.emailTemplates, db.orders[i], user, fmt).Some? &&
      deliver(BuyerMail(db.orders[i], Rendered(db.asinTemplates, db.emailTemplates, db.orders[i], user, fmt).value))
    ensures r.sent ==> r.db == RecordSent(db, i, user, Rendered(db.asinTemplates, db.emailTemplates, db.orders[i], user, fmt).value, now)
    ensures r.sent <==> exists k :: 0 <= k < |r.mails| && !r.mails[k].isCopy && Some(r.mails[k].to) == db.orders[i].buyerEmail
  {
    var o := db.orders[i];
    match Rendered(db.asinTemplates, db.emailTemplates, o, user, fmt)
    case None => SendOutcome(false, db, [])
    case Some(text) =>
      if !deliver(BuyerMail(o, text)) then SendOutcome(false, db, [])
      else
        var copy := if setting.sendCopyToSelf && deliver(CopyMail(user, text)) then [CopyMail(user, text)] else [];
        var mails := [BuyerMail(o, text)] + copy;
        assert mails[0] == BuyerMail(o, text);
        SendOutcome(true, RecordSent(db, i, user, text, now), mails)
  }

  /** Where `sendOrderEmail` sends the seller's copy. `CopyBeforeRecord` is
      the source's order, in which a failing copy undoes the send;
      `CopyAfterRecord` is the corrected one of `SendOrderEmail`. */
  datatype CopyOrder = CopyBeforeRecord | CopyAfterRecord

  /** The send of `o` on behalf of `user` ends with the order recorded and
      marked: a template resolves, the buyer's mail goes out and, when the
      copy precedes the record and copy-to-self is on, so does the copy. */
  predicate Succeeds(order: CopyOrder, ats: seq<AsinTemplate>, ets: seq<EmailTemplate>, o: Order, user: User,
                     fmt: DateFormat, deliver: Deliver) {
    && user.setting.Some?
    && o.buyerEmail.Some?
    && Rendered(ats, ets, o, user, fmt).Some?
    && deliver(BuyerMail(o, Rendered(ats, ets, o, user, fmt).value))
    && (order.CopyBeforeRecord? && user.setting.value.sendCopyToSelf ==>
          deliver(CopyMail(user, Rendered(ats, ets, o, user, fmt).value)))
  }

  /** One `sendOrderEmail` call under the chosen ordering. */
  function Send(order: CopyOrder, db: Db, i: nat, user: User, now: int, fmt: DateFormat, deliver: Deliver): (r: SendOutcome)
    requires i < |db.orders| && db.orders[i].buyerEmail.Some? && user.setting.Some?
    ensures r.sent <==> Succeeds(order, db.asinTemplates, db.emailTemplates, db.orders[i], user, fmt, deliver)
    ensures !r.sent ==> r.db == db
    ensures r.sent ==> r.db == RecordSent(db, i, user, Rendered(db.asinTemplates, db.emailTemplates, db.orders[i], user, fmt).value, now)
  {
    match order
    case CopyBeforeRecord => SendOrderEmailAsWritten(db, i, user, user.setting.value, now, fmt, deliver)
    case CopyAfterRecord => SendOrderEmail(db, i, user, user.setting.value, now, fmt, deliver)
  }

  /** The log record a successful send appends. */
  function SentRecord(o: Order, user: User, text: TemplateText, now: int): SentEmail {
    SentEmail(user.id, o.orderId, o.asin, text.subject, text.content, now)
  }

  /** The log holds a record for the order's (seller, order id, ASIN). */
  ghost predicate Logged(log: seq<SentEmail>, o: Order) {
    exists e :: e in log && e.userId == o.userId && e.orderId == o.orderId && e.asin == o.asin
  }

  /** Counterexample for the source's ordering: with copy-to-self on and the
      copy failing, the buyer is mailed, yet nothing is recorded and the row
      stays pending, so the next sweep mails the buyer again. */
  lemma CopyFailureRemailsBuyer()
    ensures
      var setting := EmailSetting(true, 0, 23, 0, true, true, true, true);
      var user := User(1, "Seller", "seller@example.com", "Store", true, Some(setting));
      var order := Order(1, "ORDER1", "B08X", "Product", 0, Some(0), Some("buyer@example.com"),
                         true, false, false, false, true);
      var db := Db([user], [order], [EmailTemplate(1, 1, "Hello", "Please review", true)], [], [], []);
      var deliver := (m: Mail) => !m.isCopy;
      var fmt := (d: int) => "01/01/1970";
      var first := SendOrderEmailAsWritten(db, 0, user, setting, 0, fmt, deliver);
      var second := SendOrderEmailAsWritten(first.db, 0, user, setting, 0, fmt, deliver);
      && !first.sent && first.db == db
      && IsCandidate(first.db.orders[0], 1, 0, setting.sendDaysAfter)
      && Mail("buyer@example.com", "Hello", "Please review", false) in first.mails
      && Mail("buyer@example.com", "Hello", "Please review", false) in second.mails
      && first.db.sentEmails == []
  {
    var setting := EmailSetting(true, 0, 23, 0, true, true, true, true);
    var user := User(1, "Seller", "seller@example.com", "Store", true, Some(setting));
    var template := EmailTemplate(1, 1, "Hello", "Please review", true);
    var db := Db([user], [Order(1, "ORDER1", "B08X", "Product", 0, Some(0), Some("buyer@example.com"),
                                true, false, false, false, true)], [template], [], [], []);
    var fmt := (d: int) => "01/01/1970";
    assert IsFirst(db.emailTemplates, OwnDefault(1), 0);
    assert ResolveTemplate(1, "B08X", [], db.emailTemplates) == Some(TemplateText("Hello", "Please review"));
    var v := ValuesFor(db.orders[0], user, fmt);
    PlainTextUnchanged("Hello", v);
    PlainTextUnchanged("Please review", v);
  }

  /** A text without an opening brace holds no token. */
  lemma PlainTextUnchanged(text: string, v: PlaceholderValues)
    requires '{' !in text
    ensures ReplacePlaceholders(text, v) == text
  {
    forall k | 0 <= k < |Tokens| ensures !Occurs(Tokens[k], text) {
      TokenShape(k);
      FirstCharAbsent(text, Tokens[k]);
    }
  }

  /** The indices a sweep of one seller sends to: distinct, in range, unsent, with an address. */
  ghost predicate Sendable(orders: seq<Order>, idx: seq<nat>) {
    && (forall k :: 0 <= k < |idx| ==> idx[k] < |orders| && orders[idx[k]].buyerEmail.Some? && !orders[idx[k]].emailSent)
    && (forall a, b :: 0 <= a < b < |idx| ==> idx[a] < idx[b])
  }

  /** The loop over `$pendingOrders`; the count is the number of true
      results. Exactly the listed rows whose send succeeds are marked, each
      with its record in the log. */
  function SendEach(order: CopyOrder, db: Db, idx: seq<nat>, user: User, now: int,
                    fmt: DateFormat, deliver: Deliver): (r: (Db, nat))
    requires Sendable(db.orders, idx) && user.setting.Some?
    ensures r.0.(orders := db.orders, sentEmails := db.sentEmails) == db
    ensures |r.0.orders| == |db.orders|
    ensures db.sentEmails <= r.0.sentEmails && r.1 == |r.0.sentEmails| - |db.sentEmails|
    ensures r.1 <= |idx|
    ensures forall j :: 0 <= j < |db.orders| ==> SameButSent(db.orders[j], r.0.orders[j])
    ensures forall j :: 0 <= j < |db.orders| && r.0.orders[j] != db.orders[j] ==>
      j in idx && Succeeds(order, db.asinTemplates, db.emailTemplates, db.orders[j], user, fmt, deliver) && r.0.orders[j].emailSent
    ensures forall j :: 0 <= j < |db.orders| && j in idx && Succeeds(order, db.asinTemplates, db.emailTemplates, db.orders[j], user, fmt, deliver) ==>
      && r.0.orders[j].emailSent
      && SentRecord(db.orders[j], user, Rendered(db.asinTemplates, db.emailTemplates, db.orders[j], user, fmt).value, now) in r.0.sentEmails
    ensures forall j :: 0 <= j < |db.orders| && db.orders[j].emailSent ==> r.0.orders[j] == db.orders[j]
    ensures LogConsistent(db) ==> LogConsistent(r.0)
    decreases |idx|, 1
  {
    if |idx| == 0 then (db, 0)
    else
      var out := Send(order, db, idx[0], user, now, fmt, deliver);
      SendableTail(order, db, idx, user, now, fmt, deliver);
      var rest := SendEach(order, out.db, idx[1..], user, now, fmt, deliver);
      SendEachChanged(order, db, idx, user, now, fmt, deliver);
      SendEachDelivers(order, db, idx, user, now, fmt, deliver);
      (rest.0, rest.1 + (if out.sent then 1 else 0))
  }

  /** After the first send of the loop the remaining indices are still sendable. */
  lemma SendableTail(order: CopyOrder, db: Db, idx: seq<nat>, user: User, now: int, fmt: DateFormat, deliver: Deliver)
    requires Sendable(db.orders, idx) && user.setting.Some? && |idx| > 0
    ensures var out := Send(order, db, idx[0], user, now, fmt, deliver);
      && out.db.asinTemplates == db.asinTemplates && out.db.emailTemplates == db.emailTemplates
      && (forall j :: 0 <= j < |db.orders| && j != idx[0] ==> out.db.orders[j] == db.orders[j])
      && Sendable(out.db.orders, idx[1..])
  {
    var out := Send(order, db, idx[0], user, now, fmt, deliver);
    forall k | 0 <= k < |idx[1..]| ensures out.db.orders[idx[1..][k]] == db.orders[idx[1..][k]] {
      assert idx[0] < idx[k + 1];
    }
  }

  /** A row the loop changes is listed and its send succeeds on the tables it started from. */
  lemma SendEachChanged(order: CopyOrder, db: Db, idx: seq<nat>, user: User, now: int, fmt: DateFormat, deliver: Deliver)
    requires Sendable(db.orders, idx) && user.setting.Some? && |idx| > 0
    ensures var out := Send(order, db, idx[0], user, now, fmt, deliver);
      Sendable(out.db.orders, idx[1..]) &&
      var rest := SendEach(order, out.db, idx[1..], user, now, fmt, deliver);
      forall j :: 0 <= j < |db.orders| && rest.0.orders[j] != db.orders[j] ==>
        j in idx && Succeeds(order, db.asinTemplates, db.emailTemplates, db.orders[j], user, fmt, deliver)
    decreases |idx|, 0
  {
    var out := Send(order, db, idx[0], user, now, fmt, deliver);
    SendableTail(order, db, idx, user, now, fmt, deliver);
    TailIndices(idx);
    var rest := SendEach(order, out.db, idx[1..], user, now, fmt, deliver);
    forall j | 0 <= j < |db.orders| && rest.0.orders[j] != db.orders[j]
      ensures j in idx && Succeeds(order, db.asinTemplates, db.emailTemplates, db.orders[j], user, fmt, deliver)
    {
      if out.db.orders[j] == db.orders[j] {
        assert j in idx[1..];
      }
    }
  }

  /** Every listed row whose send succeeds ends the loop marked, with its record in the log. */
  lemma SendEachDelivers(order: CopyOrder, db: Db, idx: seq<nat>, user: User, now: int, fmt: DateFormat, deliver: Deliver)
    requires Sendable(db.orders, idx) && user.setting.Some? && |idx| > 0
    ensures var out := Send(order, db, idx[0], user, now, fmt, deliver);
      Sendable(out.db.orders, idx[1..]) &&
      var rest := SendEach(order, out.db, idx[1..], user, now, fmt, deliver);
      forall j :: 0 <= j < |db.orders| && j in idx &&
                  Succeeds(order, db.asinTemplates, db.emailTemplates, db.orders[j], user, fmt, deliver) ==>
        && rest.0.orders[j].emailSent
        && SentRecord(db.orders[j], user, Rendered(db.asinTemplates, db.emailTemplates, db.orders[j], user, fmt).value, now)
           in rest.0.sentEmails
    decreases |idx|, 0
  {
    var out := Send(order, db, idx[0], user, now, fmt, deliver);
    SendableTail(order, db, idx, user, now, fmt, deliver);
    TailIndices(idx);
    var rest := SendEach(order, out.db, idx[1..], user, now, fmt, deliver);
    forall j | 0 <= j < |db.orders| && j in idx &&
               Succeeds(order, db.asinTemplates, db.emailTemplates, db.orders[j], user, fmt, deliver)
      ensures rest.0.orders[j].emailSent
      ensures SentRecord(db.orders[j], user, Rendered(db.asinTemplates, db.emailTemplates, db.orders[j], user, fmt).value, now)
              in rest.0.sentEmails
    {
      var e := SentRecord(db.orders[j], user, Rendered(db.asinTemplates, db.emailTemplates, db.orders[j], user, fmt).value, now);
      if j == idx[0] {
        assert out.db.sentEmails == db.sentEmails + [e];
        assert e in out.db.sentEmails;
      } else {
        assert j in idx[1..];
      }
    }
  }

  /** One seller's turn in the sweep. A row changes exactly when it is due
      for this seller and its send succeeds; it is then marked and logged. */
  function SweepUser(order: CopyOrder, db: Db, user: User, now: int, fmt: DateFormat, deliver: Deliver): (r: (Db, nat))
    requires Selected(user)
    ensures r.0.(orders := db.orders, sentEmails := db.sentEmails) == db
    ensures |r.0.orders| == |db.orders|
    ensures db.sentEmails <= r.0.sentEmails && r.1 == |r.0.sentEmails| - |db.sentEmails|
    ensures !InWindow(HourOf(now), user.setting.value.sendTimeStart, user.setting.value.sendTimeEnd) ==> r == (db, 0)
    ensures forall j :: 0 <= j < |db.orders| ==> SameButSent(db.orders[j], r.0.orders[j])
    ensures forall j :: 0 <= j < |db.orders| && r.0.orders[j] != db.orders[j] ==>
      && DueFor(db.orders[j], user, now)
      && Succeeds(order, db.asinTemplates, db.emailTemplates, db.orders[j], user, fmt, deliver)
      && r.0.orders[j].emailSent
    ensures forall j :: 0 <= j < |db.orders| && DueFor(db.orders[j], user, now) &&
                        Succeeds(order, db.asinTemplates, db.emailTemplates, db.orders[j], user, fmt, deliver) ==>
      r.0.orders[j].emailSent && Logged(r.0.sentEmails, db.orders[j])
    ensures forall j :: 0 <= j < |db.orders| && db.orders[j].emailSent ==> r.0.orders[j] == db.orders[j]
    ensures LogConsistent(db) ==> LogConsistent(r.0)
  {
    var s := user.setting.value;
    if !InWindow(HourOf(now), s.sendTimeStart, s.sendTimeEnd) then (db, 0)
    else
      var idx := PendingOrders(db.orders, user.id, now, s.sendDaysAfter);
      var r := SendEach(order, db, idx, user, now, fmt, deliver);
      assert forall j :: (0 <= j < |db.orders| && DueFor(db.orders[j], user, now) &&
                          Succeeds(order, db.asinTemplates, db.emailTemplates, db.orders[j], user, fmt, deliver)) ==>
        Logged(r.0.sentEmails, db.orders[j])
      by {
        forall j | 0 <= j < |db.orders| && DueFor(db.orders[j], user, now) && Succeeds(order, db.asinTemplates, db.emailTemplates, db.orders[j], user, fmt, deliver)
          ensures Logged(r.0.sentEmails, db.orders[j])
        {
          var e := SentRecord(db.orders[j], user, Rendered(db.asinTemplates, db.emailTemplates, db.orders[j], user, fmt).value, now);
          assert e in r.0.sentEmails;
        }
      }
      r
  }

  /** The user loop of `sendPendingEmails`, over the given sellers in order.
      A row changes only when it is due for one of them and its send
      succeeds; every row for which that holds ends up marked and logged. */
  function SweepUsers(order: CopyOrder, db: Db, users: seq<User>, now: int, fmt: DateFormat, deliver: Deliver): (r: (Db, nat))
    requires forall k :: 0 <= k < |users| ==> Selected(users[k])
    ensures r.0.(orders := db.orders, sentEmails := db.sentEmails) == db
    ensures |r.0.orders| == |db.orders|
    ensures db.sentEmails <= r.0.sentEmails && r.1 == |r.0.sentEmails| - |db.sentEmails|
    ensures forall j :: 0 <= j < |db.orders| ==> SameButSent(db.orders[j], r.0.orders[j])
    ensures forall j :: 0 <= j < |db.orders| && r.0.orders[j] != db.orders[j] ==>
      && r.0.orders[j].emailSent
      && exists k :: 0 <= k < |users| && DueFor(db.orders[j], users[k], now) &&
                     Succeeds(order, db.asinTemplates, db.emailTemplates, db.orders[j], users[k], fmt, deliver)
    ensures forall j, k :: 0 <= j < |db.orders| && 0 <= k < |users| && DueFor(db.orders[j], users[k], now) &&
                           Succeeds(order, db.asinTemplates, db.emailTemplates, db.orders[j], users[k], fmt, deliver) ==>
      r.0.orders[j].emailSent && Logged(r.0.sentEmails, db.orders[j])
    ensures forall j :: 0 <= j < |db.orders| && db.orders[j].emailSent ==> r.0.orders[j] == db.orders[j]
    ensures LogConsistent(db) ==> LogConsistent(r.0)
    decreases |users|, 1
  {
    if |users| == 0 then (db, 0)
    else
      var first := SweepUser(order, db, users[0], now, fmt, deliver);
      var rest := SweepUsers(order, first.0, users[1..], now, fmt, deliver);
      SweepUsersChanged(order, db, users, now, fmt, deliver);
      SweepUsersDelivers(order, db, users, now, fmt, deliver);
      (rest.0, first.1 + rest.1)
  }

  /** A row the user loop changes was due for one of its sellers, with a successful send. */
  lemma SweepUsersChanged(order: CopyOrder, db: Db, users: seq<User>, now: int, fmt: DateFormat, deliver: Deliver)
    requires |users| > 0 && forall k :: 0 <= k < |users| ==> Selected(users[k])
    ensures var first := SweepUser(order, db, users[0], now, fmt, deliver);
      var rest := SweepUsers(order, first.0, users[1..], now, fmt, deliver);
      forall j :: 0 <= j < |db.orders| && rest.0.orders[j] != db.orders[j] ==>
        exists k :: 0 <= k < |users| && DueFor(db.orders[j], users[k], now) &&
                    Succeeds(order, db.asinTemplates, db.emailTemplates, db.orders[j], users[k], fmt, deliver)
    decreases |users|, 0
  {
    var first := SweepUser(order, db, users[0], now, fmt, deliver);
    var rest := SweepUsers(order, first.0, users[1..], now, fmt, deliver);
    assert first.0.asinTemplates == db.asinTemplates && first.0.emailTemplates == db.emailTemplates;
    forall j | 0 <= j < |db.orders| && rest.0.orders[j] != db.orders[j]
      ensures exists k :: 0 <= k < |users| && DueFor(db.orders[j], users[k], now) &&
                          Succeeds(order, db.asinTemplates, db.emailTemplates, db.orders[j], users[k], fmt, deliver)
    {
      if first.0.orders[j] != db.orders[j] {
        assert DueFor(db.orders[j], users[0], now);
      } else {
        var k' :| 0 <= k' < |users[1..]| && DueFor(first.0.orders[j], users[1..][k'], now) &&
                  Succeeds(order, first.0.asinTemplates, first.0.emailTemplates, first.0.orders[j], users[1..][k'], fmt, deliver);
        assert users[1..][k'] == users[k' + 1];
        assert Succeeds(order, db.asinTemplates, db.emailTemplates, db.orders[j], users[k' + 1], fmt, deliver);
      }
    }
  }

  /** Every row due for one of the sellers, with a successful send, ends the loop marked and logged. */
  lemma SweepUsersDelivers(order: CopyOrder, db: Db, users: seq<User>, now: int, fmt: DateFormat, deliver: Deliver)
    requires |users| > 0 && forall k :: 0 <= k < |users| ==> Selected(users[k])
    ensures var first := SweepUser(order, db, users[0], now, fmt, deliver);
      var rest := SweepUsers(order, first.0, users[1..], now, fmt, deliver);
      forall j, k :: 0 <= j < |db.orders| && 0 <= k < |users| && DueFor(db.orders[j], users[k], now) &&
                     Succeeds(order, db.asinTemplates, db.emailTemplates, db.orders[j], users[k], fmt, deliver) ==>
        rest.0.orders[j].emailSent && Logged(rest.0.sentEmails, db.orders[j])
    decreases |users|, 0
  {
    var first := SweepUser(order, db, users[0], now, fmt, deliver);
    var rest := SweepUsers(order, first.0, users[1..], now, fmt, deliver);
    assert first.0.asinTemplates == db.asinTemplates && first.0.emailTemplates == db.emailTemplates;
    forall j, k | 0 <= j < |db.orders| && 0 <= k < |users| && DueFor(db.orders[j], users[k], now) &&
                  Succeeds(order, db.asinTemplates, db.emailTemplates, db.orders[j], users[k], fmt, deliver)
      ensures rest.0.orders[j].emailSent && Logged(rest.0.sentEmails, db.orders[j])
    {
      if first.0.orders[j] != db.orders[j] || k == 0 {
        assert first.0.orders[j].emailSent;
        LoggedStaysLogged(first.0.sentEmails, rest.0.sentEmails, db.orders[j]);
      } else {
        assert users[1..][k - 1] == users[k];
        assert Succeeds(order, first.0.asinTemplates, first.0.emailTemplates, first.0.orders[j], users[1..][k - 1], fmt, deliver);
      }
    }
  }

  /** The log only grows, so a logged order stays logged. */
  lemma LoggedStaysLogged(log: seq<SentEmail>, longer: seq<SentEmail>, o: Order)
    requires Logged(log, o) && log <= longer
    ensures Logged(longer, o)
  {
    var e :| e in log && e.userId == o.userId && e.orderId == o.orderId && e.asin == o.asin;
    assert e in longer;
  }

  /** The sellers `sendPendingEmails` visits, in table order. */
  function SelectedUsers(users: seq<User>): (r: seq<User>)
    ensures forall k :: 0 <= k < |r| ==> Selected(r[k])
    ensures forall u :: u in r <==> u in users && Selected(u)
    decreases |users|
  {
    if |users| == 0 then []
    else (if Selected(users[0]) then [users[0]] else []) + SelectedUsers(users[1..])
  }

  /** `sendPendingEmails`: the number of e-mails sent equals the number of
      records added to the log; a row changes only by being marked sent, and
      exactly when it was pending for a selected seller inside the sending
      hours and its send succeeded. `CopyBeforeRecord` is the source's sweep. */
  function SendPendingEmails(order: CopyOrder, db: Db, now: int, fmt: DateFormat, deliver: Deliver): (r: (Db, nat))
    ensures r.0.(orders := db.orders, sentEmails := db.sentEmails) == db
    ensures |r.0.orders| == |db.orders|
    ensures db.sentEmails <= r.0.sentEmails && r.1 == |r.0.sentEmails| - |db.sentEmails|
    ensures forall j :: 0 <= j < |db.orders| ==> SameButSent(db.orders[j], r.0.orders[j])
    ensures forall j :: 0 <= j < |db.orders| && r.0.orders[j] != db.orders[j] ==>
      && r.0.orders[j].emailSent
      && exists u :: u in db.users && DueFor(db.orders[j], u, now) && Succeeds(order, db.asinTemplates, db.emailTemplates, db.orders[j], u, fmt, deliver)
    ensures forall j, u :: 0 <= j < |db.orders| && u in db.users && DueFor(db.orders[j], u, now) &&
                           Succeeds(order, db.asinTemplates, db.emailTemplates, db.orders[j], u, fmt, deliver) ==>
      r.0.orders[j].emailSent && Logged(r.0.sentEmails, db.orders[j])
    ensures forall j :: 0 <= j < |db.orders| && db.orders[j].emailSent ==> r.0.orders[j] == db.orders[j]
    ensures LogConsistent(db) ==> LogConsistent(r.0)
  {
    var us := SelectedUsers(db.users);
    SendPendingEmailsSound(order, db, now, fmt, deliver);
    SweepUsers(order, db, us, now, fmt, deliver)
  }

  /** The user loop over the selected sellers, read back in terms of all sellers. */
  lemma SendPendingEmailsSound(order: CopyOrder, db: Db, now: int, fmt: DateFormat, deliver: Deliver)
    ensures var r := SweepUsers(order, db, SelectedUsers(db.users), now, fmt, deliver);
      && (forall j :: 0 <= j < |db.orders| && r.0.orders[j] != db.orders[j] ==>
            exists u :: u in db.users && DueFor(db.orders[j], u, now) &&
                        Succeeds(order, db.asinTemplates, db.emailTemplates, db.orders[j], u, fmt, deliver))
      && (forall j, u :: 0 <= j < |db.orders| && u in db.users && DueFor(db.orders[j], u, now) &&
                         Succeeds(order, db.asinTemplates, db.emailTemplates, db.orders[j], u, fmt, deliver) ==>
            r.0.orders[j].emailSent && Logged(r.0.sentEmails, db.orders[j]))
  {
    var us := SelectedUsers(db.users);
    var r := SweepUsers(order, db, us, now, fmt, deliver);
    forall j | 0 <= j < |db.orders| && r.0.orders[j] != db.orders[j]
      ensures exists u :: u in db.users && DueFor(db.orders[j], u, now) &&
                          Succeeds(order, db.asinTemplates, db.emailTemplates, db.orders[j], u, fmt, deliver)
    {
      var k :| 0 <= k < |us| && DueFor(db.orders[j], us[k], now) &&
               Succeeds(order, db.asinTemplates, db.emailTemplates, db.orders[j], us[k], fmt, deliver);
      assert us[k] in us;
    }
    forall j, u | 0 <= j < |db.orders| && u in db.users && DueFor(db.orders[j], u, now) &&
                  Succeeds(order, db.asinTemplates, db.emailTemplates, db.orders[j], u, fmt, deliver)
      ensures r.0.orders[j].emailSent && Logged(r.0.sentEmails, db.orders[j])
    {
      assert u in us;
      var k :| 0 <= k < |us| && us[k] == u;
    }
  }

  /** Window gating: when every seller with id `uid` is outside its sending
      hours, none of that seller's orders changes in the sweep. */
  lemma OutOfWindowSellerUntouched(order: CopyOrder, db: Db, uid: nat, now: int, fmt: DateFormat, deliver: Deliver)
    requires forall u :: u in db.users && u.id == uid && Selected(u) ==>
      !InWindow(HourOf(now), u.setting.value.sendTimeStart, u.setting.value.sendTimeEnd)
    ensures var r := SendPendingEmails(order, db, now, fmt, deliver);
      forall j :: 0 <= j < |db.orders| && db.orders[j].userId == uid ==> r.0.orders[j] == db.orders[j]
  {
  }

  /** At most once: an order sent by one sweep is left alone by the next. */
  lemma SecondSweepNeverResends(order: CopyOrder, db: Db, now1: int, now2: int, fmt: DateFormat,
                                deliver1: Deliver, deliver2: Deliver)
    ensures
      var first := SendPendingEmails(order, db, now1, fmt, deliver1);
      var second := SendPendingEmails(order, first.0, now2, fmt, deliver2);
      forall j :: 0 <= j < |db.orders| && first.0.orders[j] != db.orders[j] ==> second.0.orders[j] == first.0.orders[j]
  {
  }
}
