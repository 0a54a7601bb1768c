/** `SendReviewEmailsCommand::execute` as its template lookup is written.
    The general templates are kept as `->all()->indexBy(...)`, which is a
    collection object rather than an array, so the `isset` on it raises an
    `Error`. No `try` surrounds that lookup, and the `catch` of the send
    only takes `\Exception`, so the whole command stops there, keeping
    what it saved so far. A run therefore goes as the corrected
    `CakeSend.CakeSendAll` does until the first visited candidate without
    an ASIN template for its day count, and ends at that candidate. */
module CakeSendAsWritten {
  import opened Common
  import opened Text
  import opened CakeTables
  import opened CakeSend

  /** A run that may stop part-way: `stopped` is set when an uncaught
      `Error` ends the command, with the rows and mails it left behind. */
  datatype CakeRun = CakeRun(orders: seq<CakeOrder>, mails: seq<Mail>, stopped: bool)

  /** The order's seller has an ASIN template for its ASIN and day count. */
  predicate HasAsinTemplate(asinTemplates: seq<CakeAsinTemplate>, o: CakeOrder, now: int) {
    LastOf(asinTemplates, AsinKey(o.userId, o.asin, DaysAfterShipping(now, o.shippingDay))).Some?
  }

  /** The lookup as written: the ASIN entry when there is one. Otherwise the
      `isset` on the collection raises, written `None`; that happens whatever
      the general templates hold. */
  function SelectTemplateAsWritten(byAsin: map<string, map<int, CakeAsinTemplate>>, asin: string, days: int): (r: Option<CakeText>)
    ensures r.None? <==> LookupAsin(byAsin, asin, days).None?
    ensures forall byDays :: r.Some? ==> r == SelectTemplate(byAsin, byDays, asin, days)
  {
    match LookupAsin(byAsin, asin, days)
    case Some(t) => Some(CakeText(t.subject, t.content))
    case None => None
  }

  /** How many of the listed rows, from the front, have an ASIN template:
      the as-written loop reaches the candidate after them and stops there. */
  function StopAt(asinTemplates: seq<CakeAsinTemplate>, orders: seq<CakeOrder>, idx: seq<nat>, now: int): (p: nat)
    requires forall k :: 0 <= k < |idx| ==> idx[k] < |orders|
    ensures p <= |idx|
    ensures forall k :: 0 <= k < p ==> HasAsinTemplate(asinTemplates, orders[idx[k]], now)
    ensures p < |idx| ==> !HasAsinTemplate(asinTemplates, orders[idx[p]], now)
    ensures p == |idx| <==> forall k :: 0 <= k < |idx| ==> HasAsinTemplate(asinTemplates, orders[idx[k]], now)
  {
    if |idx| == 0 then 0
    else if !HasAsinTemplate(asinTemplates, orders[idx[0]], now) then 0
    else 1 + StopAt(asinTemplates, orders, idx[1..], now)
  }

  /** One candidate as written: with an ASIN template it is the corrected
      step; without one the command stops and nothing changes. */
  function CakeStepAsWritten(db: CakeDb, orders: seq<CakeOrder>, i: nat, u: CakeUser, now: int, deliver: Deliver): (r: CakeRun)
    requires i < |orders|
    ensures r.stopped <==> !HasAsinTemplate(db.asinTemplates, orders[i], now)
    ensures r.stopped ==> r.orders == orders && r.mails == []
    ensures !r.stopped ==>
      var step := CakeStep(db, orders, i, u, now, deliver);
      r.orders == step.orders && r.mails == step.mails
  {
    var o := orders[i];
    var days := DaysAfterShipping(now, o.shippingDay);
    AsinTemplatesLastWins(db.asinTemplates, o.userId, o.asin, days);
    match SelectTemplateAsWritten(AsinTemplatesByAsin(db.asinTemplates, o.userId), o.asin, days)
    case None => CakeRun(orders, [], true)
    case Some(t) =>
      var sent := SendOne(orders, i, u, CakeText(ReplaceVariables(t.subject, o), ReplaceVariables(t.content, o)), now, deliver);
      CakeRun(sent.orders, sent.mails, false)
  }

  /** The loop over a seller's candidates as written: the corrected loop over
      the candidates before the first one without an ASIN template, stopping
      the command exactly when there is such a candidate. */
  function SendEachCakeAsWritten(db: CakeDb, orders: seq<CakeOrder>, idx: seq<nat>, u: CakeUser, now: int, deliver: Deliver): (r: CakeRun)
    requires CakeSendable(orders, idx)
    ensures var p := StopAt(db.asinTemplates, orders, idx, now);
      && CakeSendable(orders, idx[..p])
      && (r.stopped <==> p < |idx|)
      && r.orders == SendEachCake(db, orders, idx[..p], u, now, deliver).orders
      && r.mails == SendEachCake(db, orders, idx[..p], u, now, deliver).mails
    decreases |idx|, 1
  {
    if |idx| == 0 then CakeRun(orders, [], false)
    else
      var first := CakeStepAsWritten(db, orders, idx[0], u, now, deliver);
      if first.stopped then
        assert idx[..0] == [];
        first
      else
        SendEachCakeAsWrittenCut(db, orders, idx, u, now, deliver);
        var rest := SendEachCakeAsWritten(db, first.orders, idx[1..], u, now, deliver);
        CakeRun(rest.orders, first.mails + rest.mails, rest.stopped)
  }

  /** The first step, on a row with an ASIN template, leaves the later
      candidates sendable and moves the cut back by one. */
  lemma CutAfterStep(db: CakeDb, orders: seq<CakeOrder>, idx: seq<nat>, u: CakeUser, now: int, deliver: Deliver)
    requires CakeSendable(orders, idx) && |idx| > 0
    requires HasAsinTemplate(db.asinTemplates, orders[idx[0]], now)
    ensures var step := CakeStep(db, orders, idx[0], u, now, deliver);
      && CakeSendable(step.orders, idx[1..])
      && StopAt(db.asinTemplates, step.orders, idx[1..], now) + 1 == StopAt(db.asinTemplates, orders, idx, now)
  {
    var step := CakeStep(db, orders, idx[0], u, now, deliver);
    CakeSendableTail(db, orders, idx, u, now, deliver);
    StopAtUnchanged(db.asinTemplates, orders, step.orders, idx[1..], now);
  }

  /** The first step does not change which later candidates have an ASIN
      template, so the cut moves back by one, and the corrected loop over
      the cut unfolds into that step and the as-written loop over the rest. */
  lemma SendEachCakeAsWrittenCut(db: CakeDb, orders: seq<CakeOrder>, idx: seq<nat>, u: CakeUser, now: int, deliver: Deliver)
    requires CakeSendable(orders, idx) && |idx| > 0
    requires HasAsinTemplate(db.asinTemplates, orders[idx[0]], now)
    ensures var step := CakeStep(db, orders, idx[0], u, now, deliver);
      var p := StopAt(db.asinTemplates, orders, idx, now);
      && CakeSendable(step.orders, idx[1..])
      && CakeSendable(orders, idx[..p])
      && var whole := SendEachCake(db, orders, idx[..p], u, now, deliver);
         var rest := SendEachCakeAsWritten(db, step.orders, idx[1..], u, now, deliver);
         && (rest.stopped <==> p < |idx|)
         && whole.orders == rest.orders && whole.mails == step.mails + rest.mails
    decreases |idx|, 0
  {
    CutAfterStep(db, orders, idx, u, now, deliver);
    var p := StopAt(db.asinTemplates, orders, idx, now);
    PrefixTail(idx, p);
  }

  /** Dropping the head of a non-empty prefix is taking the shorter prefix of the tail. */
  lemma PrefixTail<T>(s: seq<T>, p: nat)
    requires 0 < p <= |s|
    ensures s[..p][0] == s[0] && s[..p][1..] == s[1..][..p - 1]
  {
  }

  /** Rows listed in `idx` that are the same in both tables give the same cut. */
  lemma {:induction false} StopAtUnchanged(asinTemplates: seq<CakeAsinTemplate>, orders: seq<CakeOrder>, after: seq<CakeOrder>,
                                           idx: seq<nat>, now: int)
    requires forall k :: 0 <= k < |idx| ==> idx[k] < |orders| && idx[k] < |after| && after[idx[k]] == orders[idx[k]]
    ensures StopAt(asinTemplates, after, idx, now) == StopAt(asinTemplates, orders, idx, now)
    decreases |idx|
  {
    if |idx| > 0 {
      StopAtUnchanged(asinTemplates, orders, after, idx[1..], now);
    }
  }

  /** A seller blocks the as-written run: it is inside its hours and one of
      its candidates has no ASIN template for its day count. */
  predicate Blocks(asinTemplates: seq<CakeAsinTemplate>, orders: seq<CakeOrder>, u: CakeUser, now: int) {
    CakeInWindow(HourOf(now), u) &&
    exists j :: 0 <= j < |orders| && CakeCandidate(orders[j], u.id) && !HasAsinTemplate(asinTemplates, orders[j], now)
  }

  /** One seller's turn as written: outside the hours nothing happens; inside
      them the command stops exactly when the seller blocks, and otherwise
      the turn is the corrected one. */
  function CakeSweepUserAsWritten(db: CakeDb, u: CakeUser, now: int, deliver: Deliver): (r: CakeRun)
    ensures |r.orders| == |db.orders|
    ensures !CakeInWindow(HourOf(now), u) ==> r == CakeRun(db.orders, [], false)
    ensures r.stopped <==> Blocks(db.asinTemplates, db.orders, u, now)
    ensures !r.stopped ==>
      var full := CakeSweepUser(db, u, now, deliver);
      r.orders == full.orders && r.mails == full.mails
    ensures forall j :: 0 <= j < |db.orders| ==> SentOrSame(db.orders[j], r.orders[j], now)
    ensures forall j :: 0 <= j < |db.orders| && r.orders[j] != db.orders[j] ==>
      && CakeCandidate(db.orders[j], u.id)
      && HasAsinTemplate(db.asinTemplates, db.orders[j], now)
      && CakeSucceeds(db.templates, db.asinTemplates, db.orders[j], now, deliver)
  {
    if !CakeInWindow(HourOf(now), u) then CakeRun(db.orders, [], false)
    else
      var idx := CakeCandidates(db.orders, u.id);
      var r := SendEachCakeAsWritten(db, db.orders, idx, u, now, deliver);
      CakeSweepUserAsWrittenEffect(db, u, now, deliver);
      r
  }

  /** What the cut loop of one seller leaves: it stops exactly when the
      seller blocks, and it only marks candidates with an ASIN template. */
  lemma CakeSweepUserAsWrittenEffect(db: CakeDb, u: CakeUser, now: int, deliver: Deliver)
    requires CakeInWindow(HourOf(now), u)
    ensures var idx := CakeCandidates(db.orders, u.id);
      var r := SendEachCakeAsWritten(db, db.orders, idx, u, now, deliver);
      && (r.stopped <==> Blocks(db.asinTemplates, db.orders, u, now))
      && (!r.stopped ==> r.orders == SendEachCake(db, db.orders, idx, u, now, deliver).orders &&
                         r.mails == SendEachCake(db, db.orders, idx, u, now, deliver).mails)
      && |r.orders| == |db.orders|
      && (forall j :: 0 <= j < |db.orders| ==> SentOrSame(db.orders[j], r.orders[j], now))
      && (forall j :: 0 <= j < |db.orders| && r.orders[j] != db.orders[j] ==>
            && CakeCandidate(db.orders[j], u.id)
            && HasAsinTemplate(db.asinTemplates, db.orders[j], now)
            && CakeSucceeds(db.templates, db.asinTemplates, db.orders[j], now, deliver))
  {
    var idx := CakeCandidates(db.orders, u.id);
    var p := StopAt(db.asinTemplates, db.orders, idx, now);
    CutStopsIffBlocks(db, u, now);
    CutChangesHaveTemplate(db, db.orders, idx, u, now, deliver);
    if p == |idx| {
      assert idx[..p] == idx;
    }
  }

  /** The cut falls short of the seller's candidates exactly when the seller blocks. */
  lemma CutStopsIffBlocks(db: CakeDb, u: CakeUser, now: int)
    requires CakeInWindow(HourOf(now), u)
    ensures var idx := CakeCandidates(db.orders, u.id);
      StopAt(db.asinTemplates, db.orders, idx, now) < |idx| <==> Blocks(db.asinTemplates, db.orders, u, now)
  {
    var idx := CakeCandidates(db.orders, u.id);
    if Blocks(db.asinTemplates, db.orders, u, now) {
      var j :| 0 <= j < |db.orders| && CakeCandidate(db.orders[j], u.id) && !HasAsinTemplate(db.asinTemplates, db.orders[j], now);
      assert j in idx;
    }
    var p := StopAt(db.asinTemplates, db.orders, idx, now);
    if p < |idx| {
      assert CakeCandidate(db.orders[idx[p]], u.id);
    }
  }

  /** The corrected loop over the cut only changes listed rows with an ASIN
      template whose send goes through. */
  lemma CutChangesHaveTemplate(db: CakeDb, orders: seq<CakeOrder>, idx: seq<nat>, u: CakeUser, now: int, deliver: Deliver)
    requires CakeSendable(orders, idx)
    ensures var p := StopAt(db.asinTemplates, orders, idx, now);
      CakeSendable(orders, idx[..p]) &&
      var r := SendEachCake(db, orders, idx[..p], u, now, deliver);
      forall j :: 0 <= j < |orders| && r.orders[j] != orders[j] ==>
        j in idx && HasAsinTemplate(db.asinTemplates, orders[j], now) &&
        CakeSucceeds(db.templates, db.asinTemplates, orders[j], now, deliver)
  {
    var p := StopAt(db.asinTemplates, orders, idx, now);
    var r := SendEachCake(db, orders, idx[..p], u, now, deliver);
    forall j | 0 <= j < |orders| && r.orders[j] != orders[j]
      ensures j in idx && HasAsinTemplate(db.asinTemplates, orders[j], now)
    {
      var k :| 0 <= k < p && idx[..p][k] == j;
      assert idx[k] == j;
    }
  }

  /** Some seller of `users` blocks. */
  ghost predicate AnyBlocks(asinTemplates: seq<CakeAsinTemplate>, orders: seq<CakeOrder>, users: seq<CakeUser>, now: int) {
    exists k :: 0 <= k < |users| && Blocks(asinTemplates, orders, users[k], now)
  }

  /** Every seller of `users` with id `userId` comes after a seller that blocks. */
  ghost predicate ComesAfterBlock(asinTemplates: seq<CakeAsinTemplate>, orders: seq<CakeOrder>, users: seq<CakeUser>,
                                  userId: nat, now: int) {
    exists k :: 0 <= k < |users| && Blocks(asinTemplates, orders, users[k], now) &&
      forall i :: 0 <= i <= k ==> users[i].id != userId
  }

  /** The seller loop as written: it stops at the first visited seller that
      blocks. A row it changes is marked sent at `now`, was a candidate with
      an ASIN template and a delivered mail; a row whose seller only comes
      after a blocking seller is never touched; a run that does not stop is
      the corrected one. */
  function CakeSweepUsersAsWritten(db: CakeDb, users: seq<CakeUser>, now: int, deliver: Deliver): (r: CakeRun)
    ensures |r.orders| == |db.orders|
    ensures r.stopped <==> AnyBlocks(db.asinTemplates, db.orders, users, now)
    ensures !r.stopped ==>
      var full := CakeSweepUsers(db, users, now, deliver);
      r.orders == full.orders && r.mails == full.mails
    ensures forall j :: 0 <= j < |db.orders| ==> SentOrSame(db.orders[j], r.orders[j], now)
    ensures forall j :: 0 <= j < |db.orders| && r.orders[j] != db.orders[j] ==>
      && db.orders[j].sendEmail && !db.orders[j].emailSent
      && HasAsinTemplate(db.asinTemplates, db.orders[j], now)
      && CakeSucceeds(db.templates, db.asinTemplates, db.orders[j], now, deliver)
    ensures forall j :: 0 <= j < |db.orders| && ComesAfterBlock(db.asinTemplates, db.orders, users, db.orders[j].userId, now) ==>
      r.orders[j] == db.orders[j]
    decreases |users|, 1
  {
    if |users| == 0 then CakeRun(db.orders, [], false)
    else
      var first := CakeSweepUserAsWritten(db, users[0], now, deliver);
      if first.stopped then
        FirstBlockStops(db, users, now, deliver);
        first
      else
        var rest := CakeSweepUsersAsWritten(db.(orders := first.orders), users[1..], now, deliver);
        UsersStop(db, users, now, deliver);
        UsersAgree(db, users, now, deliver);
        UsersChanges(db, users, now, deliver);
        UsersUntouched(db, users, now, deliver);
        CakeRun(rest.orders, first.mails + rest.mails, rest.stopped)
  }

  /** `after` differs from `orders` only by sends at `now` of rows with an ASIN template. */
  ghost predicate MarksOnlyTemplated(asinTemplates: seq<CakeAsinTemplate>, orders: seq<CakeOrder>, after: seq<CakeOrder>, now: int) {
    && |after| == |orders|
    && (forall j :: 0 <= j < |orders| ==> SentOrSame(orders[j], after[j], now))
    && (forall j :: 0 <= j < |orders| && after[j] != orders[j] ==> HasAsinTemplate(asinTemplates, orders[j], now))
  }

  /** Such sends leave every seller blocking as before: rows without an ASIN
      template, the only ones that block, are untouched. */
  lemma BlocksKept(asinTemplates: seq<CakeAsinTemplate>, orders: seq<CakeOrder>, after: seq<CakeOrder>, v: CakeUser, now: int)
    requires MarksOnlyTemplated(asinTemplates, orders, after, now)
    ensures Blocks(asinTemplates, after, v, now) <==> Blocks(asinTemplates, orders, v, now)
  {
    if Blocks(asinTemplates, after, v, now) {
      var j :| 0 <= j < |after| && CakeCandidate(after[j], v.id) && !HasAsinTemplate(asinTemplates, after[j], now);
      assert after[j] == orders[j];
    }
    if Blocks(asinTemplates, orders, v, now) {
      var j :| 0 <= j < |orders| && CakeCandidate(orders[j], v.id) && !HasAsinTemplate(asinTemplates, orders[j], now);
      assert after[j] == orders[j];
    }
  }

  /** When the first seller does not block and its turn only sends rows with
      an ASIN template, a later seller blocks afterwards exactly when some
      seller blocked before. */
  lemma AnyBlocksAfterTurn(asinTemplates: seq<CakeAsinTemplate>, orders: seq<CakeOrder>, after: seq<CakeOrder>,
                           users: seq<CakeUser>, now: int)
    requires |users| > 0 && !Blocks(asinTemplates, orders, users[0], now)
    requires MarksOnlyTemplated(asinTemplates, orders, after, now)
    ensures AnyBlocks(asinTemplates, after, users[1..], now) <==> AnyBlocks(asinTemplates, orders, users, now)
  {
    if AnyBlocks(asinTemplates, after, users[1..], now) {
      var k :| 0 <= k < |users[1..]| && Blocks(asinTemplates, after, users[1..][k], now);
      BlocksKept(asinTemplates, orders, after, users[k + 1], now);
    }
    if AnyBlocks(asinTemplates, orders, users, now) {
      var k :| 0 <= k < |users| && Blocks(asinTemplates, orders, users[k], now);
      BlocksKept(asinTemplates, orders, after, users[k], now);
      assert users[1..][k - 1] == users[k];
    }
  }

  /** Under the same turn, a seller that came after a blocking seller still
      comes after one in the rest of the list, and is not the first seller. */
  lemma ComesAfterBlockTail(asinTemplates: seq<CakeAsinTemplate>, orders: seq<CakeOrder>, after: seq<CakeOrder>,
                            users: seq<CakeUser>, userId: nat, now: int)
    requires |users| > 0 && !Blocks(asinTemplates, orders, users[0], now)
    requires MarksOnlyTemplated(asinTemplates, orders, after, now)
    requires ComesAfterBlock(asinTemplates, orders, users, userId, now)
    ensures users[0].id != userId
    ensures ComesAfterBlock(asinTemplates, after, users[1..], userId, now)
  {
    var k :| 0 <= k < |users| && Blocks(asinTemplates, orders, users[k], now) &&
      forall i :: 0 <= i <= k ==> users[i].id != userId;
    BlocksKept(asinTemplates, orders, after, users[k], now);
    assert users[1..][k - 1] == users[k];
    assert forall i :: 0 <= i <= k - 1 ==> users[1..][i].id != userId;
  }

  /** When the first seller blocks, the run is its turn alone: it stops, and
      rows of other sellers are left as they were. */
  lemma FirstBlockStops(db: CakeDb, users: seq<CakeUser>, now: int, deliver: Deliver)
    requires |users| > 0 && CakeSweepUserAsWritten(db, users[0], now, deliver).stopped
    ensures AnyBlocks(db.asinTemplates, db.orders, users, now)
    ensures var first := CakeSweepUserAsWritten(db, users[0], now, deliver);
      forall j :: 0 <= j < |db.orders| && db.orders[j].userId != users[0].id ==> first.orders[j] == db.orders[j]
  {
  }

  /** After a first turn that does not stop, the rest of the loop stops
      exactly when some seller of the whole list blocks. */
  lemma UsersStop(db: CakeDb, users: seq<CakeUser>, now: int, deliver: Deliver)
    requires |users| > 0 && !CakeSweepUserAsWritten(db, users[0], now, deliver).stopped
    ensures var first := CakeSweepUserAsWritten(db, users[0], now, deliver);
      CakeSweepUsersAsWritten(db.(orders := first.orders), users[1..], now, deliver).stopped <==>
      AnyBlocks(db.asinTemplates, db.orders, users, now)
    decreases |users|, 0
  {
    var first := CakeSweepUserAsWritten(db, users[0], now, deliver);
    assert MarksOnlyTemplated(db.asinTemplates, db.orders, first.orders, now);
    AnyBlocksAfterTurn(db.asinTemplates, db.orders, first.orders, users, now);
  }

  /** After a first turn that does not stop, a rest that does not stop makes
      the whole run the corrected one. */
  lemma UsersAgree(db: CakeDb, users: seq<CakeUser>, now: int, deliver: Deliver)
    requires |users| > 0 && !CakeSweepUserAsWritten(db, users[0], now, deliver).stopped
    ensures var first := CakeSweepUserAsWritten(db, users[0], now, deliver);
      var rest := CakeSweepUsersAsWritten(db.(orders := first.orders), users[1..], now, deliver);
      !rest.stopped ==>
        var full := CakeSweepUsers(db, users, now, deliver);
        rest.orders == full.orders && first.mails + rest.mails == full.mails
    decreases |users|, 0
  {
  }

  /** After a first turn that does not stop, every row the rest leaves
      changed is marked sent, and had an ASIN template and a delivered mail. */
  lemma UsersChanges(db: CakeDb, users: seq<CakeUser>, now: int, deliver: Deliver)
    requires |users| > 0 && !CakeSweepUserAsWritten(db, users[0], now, deliver).stopped
    ensures var first := CakeSweepUserAsWritten(db, users[0], now, deliver);
      var rest := CakeSweepUsersAsWritten(db.(orders := first.orders), users[1..], now, deliver);
      && (forall j :: 0 <= j < |db.orders| ==> SentOrSame(db.orders[j], rest.orders[j], now))
      && (forall j :: 0 <= j < |db.orders| && rest.orders[j] != db.orders[j] ==>
            && db.orders[j].sendEmail && !db.orders[j].emailSent
            && HasAsinTemplate(db.asinTemplates, db.orders[j], now)
            && CakeSucceeds(db.templates, db.asinTemplates, db.orders[j], now, deliver))
    decreases |users|, 0
  {
    var first := CakeSweepUserAsWritten(db, users[0], now, deliver);
    var rest := CakeSweepUsersAsWritten(db.(orders := first.orders), users[1..], now, deliver);
    forall j | 0 <= j < |db.orders| && first.orders[j] != db.orders[j] ensures rest.orders[j] == first.orders[j] {
    }
  }

  /** After a first turn that does not stop, a row whose seller comes only
      after a blocking seller is left as it was. */
  lemma UsersUntouched(db: CakeDb, users: seq<CakeUser>, now: int, deliver: Deliver)
    requires |users| > 0 && !CakeSweepUserAsWritten(db, users[0], now, deliver).stopped
    ensures var first := CakeSweepUserAsWritten(db, users[0], now, deliver);
      var rest := CakeSweepUsersAsWritten(db.(orders := first.orders), users[1..], now, deliver);
      forall j :: 0 <= j < |db.orders| && ComesAfterBlock(db.asinTemplates, db.orders, users, db.orders[j].userId, now) ==>
        rest.orders[j] == db.orders[j]
    decreases |users|, 0
  {
    var first := CakeSweepUserAsWritten(db, users[0], now, deliver);
    var rest := CakeSweepUsersAsWritten(db.(orders := first.orders), users[1..], now, deliver);
    assert MarksOnlyTemplated(db.asinTemplates, db.orders, first.orders, now);
    forall j | 0 <= j < |db.orders| && ComesAfterBlock(db.asinTemplates, db.orders, users, db.orders[j].userId, now)
      ensures rest.orders[j] == db.orders[j]
    {
      ComesAfterBlockTail(db.asinTemplates, db.orders, first.orders, users, db.orders[j].userId, now);
    }
  }

  /** The whole command as written, over the sellers it visits. */
  function CakeSendAllAsWritten(db: CakeDb, now: int, deliver: Deliver): (r: CakeRun)
    ensures |r.orders| == |db.orders|
    ensures r.stopped <==> exists u :: u in db.users && CakeSelected(u) && Blocks(db.asinTemplates, db.orders, u, now)
    ensures !r.stopped ==>
      var full := CakeSendAll(db, now, deliver);
      r.orders == full.orders && r.mails == full.mails
    ensures forall j :: 0 <= j < |db.orders| ==> SentOrSame(db.orders[j], r.orders[j], now)
    ensures forall j :: 0 <= j < |db.orders| && r.orders[j] != db.orders[j] ==>
      HasAsinTemplate(db.asinTemplates, db.orders[j], now) &&
      CakeSucceeds(db.templates, db.asinTemplates, db.orders[j], now, deliver)
    ensures forall j :: 0 <= j < |db.orders| &&
                        ComesAfterBlock(db.asinTemplates, db.orders, CakeSelectedUsers(db.users), db.orders[j].userId, now) ==>
      r.orders[j] == db.orders[j]
  {
    SelectedBlocks(db, now);
    CakeSweepUsersAsWritten(db, CakeSelectedUsers(db.users), now, deliver)
  }

  /** Some selected seller blocks exactly when a seller the command visits blocks. */
  lemma SelectedBlocks(db: CakeDb, now: int)
    ensures AnyBlocks(db.asinTemplates, db.orders, CakeSelectedUsers(db.users), now) <==>
      exists u :: u in db.users && CakeSelected(u) && Blocks(db.asinTemplates, db.orders, u, now)
  {
    var us := CakeSelectedUsers(db.users);
    if AnyBlocks(db.asinTemplates, db.orders, us, now) {
      var k :| 0 <= k < |us| && Blocks(db.asinTemplates, db.orders, us[k], now);
      assert us[k] in us;
    }
    if exists u :: u in db.users && CakeSelected(u) && Blocks(db.asinTemplates, db.orders, u, now) {
      var u :| u in db.users && CakeSelected(u) && Blocks(db.asinTemplates, db.orders, u, now);
      assert u in us;
      var k :| 0 <= k < |us| && us[k] == u;
    }
  }

  /** As written, a visited seller inside its hours with a candidate that has
      only a general template for its day count stops the command, and that
      candidate is not mailed. The corrected command sends it with the
      general template, and marks it sent when that mail goes out. */
  lemma GeneralTemplateStopsRun(db: CakeDb, now: int, deliver: Deliver, a: CakeUser, j: nat)
    requires a in db.users && CakeSelected(a) && CakeInWindow(HourOf(now), a)
    requires j < |db.orders| && CakeCandidate(db.orders[j], a.id)
    requires !HasAsinTemplate(db.asinTemplates, db.orders[j], now)
    requires LastOf(db.templates, DaysKey(a.id, DaysAfterShipping(now, db.orders[j].shippingDay))).Some?
    ensures var run := CakeSendAllAsWritten(db, now, deliver);
      run.stopped && run.orders[j] == db.orders[j]
    ensures var o := db.orders[j];
      var t := LastOf(db.templates, DaysKey(a.id, DaysAfterShipping(now, o.shippingDay))).value;
      var text := CakeText(ReplaceVariables(t.subject, o), ReplaceVariables(t.content, o));
      && OrderText(db.templates, db.asinTemplates, o, now) == Some(text)
      && (deliver(CakeBuyerMail(o, text)) ==> CakeSendAll(db, now, deliver).orders[j] == MarkSent(o, now))
  {
    assert Blocks(db.asinTemplates, db.orders, a, now);
  }
}
