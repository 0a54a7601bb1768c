/** `SendReviewEmailsCommand::execute`: one sweep over the sellers with
    e-mailing enabled and an Amazon token. A seller outside its sending
    hours is skipped; otherwise each of its unsent orders marked for
    sending gets the template keyed by the exact number of days since
    shipping (an ASIN template for that ASIN first, then a general one), is
    mailed, and on success is saved as sent before the seller's BCC copy
    goes out. Delivery is an oracle: `deliver(m)` is false when sending `m`
    throws. The general-template fallback is the intended one; as written
    the lookup on the general templates raises instead, which
    `CakeSendAsWritten` models. */
module CakeSend {
  import opened Common
  import opened Text
  import opened CakeTables

  /** The entry stored under `k`, if any: the general-template index read as a
      keyed array, the intended reading of the lookup on it. */
  function Lookup<K, V>(m: map<K, V>, k: K): Option<V> {
    if k in m then Some(m[k]) else None
  }

  /** The seller's templates `->indexBy('days_after_shipping')`: entries are
      written in table order, so a later template overwrites an earlier one
      with the same number of days. */
  function TemplatesByDays(table: seq<CakeTemplate>, userId: nat): (m: map<int, CakeTemplate>)
    ensures forall d :: d in m ==> m[d].userId == userId && m[d].daysAfterShipping == d
    decreases |table|
  {
    if |table| == 0 then map[]
    else
      var m := TemplatesByDays(table[..|table| - 1], userId);
      var t := table[|table| - 1];
      if t.userId == userId then m[t.daysAfterShipping := t] else m
  }

  /** `$asinTemplatesByAsin[$asin][$days]`, filled in table order. */
  function AsinTemplatesByAsin(table: seq<CakeAsinTemplate>, userId: nat): (m: map<string, map<int, CakeAsinTemplate>>)
    ensures forall a, d :: a in m && d in m[a] ==>
      m[a][d].userId == userId && m[a][d].asin == a && m[a][d].daysAfterShipping == d
    decreases |table|
  {
    if |table| == 0 then map[]
    else
      var m := AsinTemplatesByAsin(table[..|table| - 1], userId);
      var t := table[|table| - 1];
      if t.userId != userId then m
      else
        var inner := if t.asin in m then m[t.asin] else map[];
        m[t.asin := inner[t.daysAfterShipping := t]]
  }

  function LookupAsin(m: map<string, map<int, CakeAsinTemplate>>, asin: string, days: int): Option<CakeAsinTemplate> {
    if asin in m && days in m[asin] then Some(m[asin][days]) else None
  }

  /** The last template registered under a number of days is the one found. */
  lemma {:induction false} TemplatesByDaysLastWins(table: seq<CakeTemplate>, userId: nat, days: int)
    ensures Lookup(TemplatesByDays(table, userId), days) == LastOf(table, DaysKey(userId, days))
    decreases |table|
  {
    if |table| > 0 {
      var init := table[..|table| - 1];
      TemplatesByDaysLastWins(init, userId, days);
      if !DaysKey(userId, days)(table[|table| - 1]) {
        match LastIndex(init, DaysKey(userId, days))
        case None =>
        case Some(i) => assert table[i] == init[i];
      }
    }
  }

  /** The last ASIN template registered under an (ASIN, days) key is the one found. */
  lemma {:induction false} AsinTemplatesLastWins(table: seq<CakeAsinTemplate>, userId: nat, asin: string, days: int)
    ensures LookupAsin(AsinTemplatesByAsin(table, userId), asin, days) == LastOf(table, AsinKey(userId, asin, days))
    decreases |table|
  {
    if |table| > 0 {
      var init := table[..|table| - 1];
      AsinTemplatesLastWins(init, userId, asin, days);
      if !AsinKey(userId, asin, days)(table[|table| - 1]) {
        match LastIndex(init, AsinKey(userId, asin, days))
        case None =>
        case Some(i) => assert table[i] == init[i];
      }
    }
  }

  /** `$daysAfterShipping`: whole days from the shipping day to the day of `now`. */
  function DaysAfterShipping(now: int, shippingDay: int): (d: int)
    ensures SecondsPerDay * (shippingDay + d) <= now < SecondsPerDay * (shippingDay + d + 1)
  {
    DayOf(now) - shippingDay
  }

  /** The subject and content the chosen template carries. */
  datatype CakeText = CakeText(subject: string, content: string)

  /** The template lookup on the two indexes: the ASIN entry for the exact
      day count first, then the general entry; none leaves the order alone.
      The general step is the intended one: as written the `isset` on the
      general index raises (`CakeSendAsWritten.SelectTemplateAsWritten`). */
  function SelectTemplate(byAsin: map<string, map<int, CakeAsinTemplate>>, byDays: map<int, CakeTemplate>,
                          asin: string, days: int): (r: Option<CakeText>)
    ensures r.None? <==> LookupAsin(byAsin, asin, days).None? && days !in byDays
  {
    match LookupAsin(byAsin, asin, days)
    case Some(t) => Some(CakeText(t.subject, t.content))
    case None =>
      match Lookup(byDays, days)
      case Some(t) => Some(CakeText(t.subject, t.content))
      case None => None
  }

  /** The template an order is sent with, stated on the tables themselves:
      the seller's last ASIN template for this ASIN and day count, else the
      seller's last general template for the day count, else none. */
  function ChooseTemplate(templates: seq<CakeTemplate>, asinTemplates: seq<CakeAsinTemplate>,
                          userId: nat, asin: string, days: int): (r: Option<CakeText>)
    ensures LastOf(asinTemplates, AsinKey(userId, asin, days)).Some? ==>
      var t := LastOf(asinTemplates, AsinKey(userId, asin, days)).value;
      r == Some(CakeText(t.subject, t.content))
    ensures LastOf(asinTemplates, AsinKey(userId, asin, days)).None? ==>
      match LastOf(templates, DaysKey(userId, days))
      case Some(t) => r == Some(CakeText(t.subject, t.content))
      case None => r.None?
  {
    AsinTemplatesLastWins(asinTemplates, userId, asin, days);
    TemplatesByDaysLastWins(templates, userId, days);
    SelectTemplate(AsinTemplatesByAsin(asinTemplates, userId), TemplatesByDays(templates, userId), asin, days)
  }

  /** On tables filled only through validated saves, the chosen template
      never has an empty subject or content. */
  lemma ChosenTemplateFilled(templates: seq<CakeTemplate>, asinTemplates: seq<CakeAsinTemplate>,
                             userId: nat, asin: string, days: int)
    requires AllTemplatesValid(templates) && AllAsinTemplatesValid(asinTemplates)
    ensures var r := ChooseTemplate(templates, asinTemplates, userId, asin, days);
      r.Some? ==> r.value.subject != "" && r.value.content != ""
  {
    match LastIndex(asinTemplates, AsinKey(userId, asin, days))
    case Some(i) => assert AsinTemplateValid(asinTemplates[i]);
    case None =>
      match LastIndex(templates, DaysKey(userId, days))
      case Some(i) => assert TemplateValid(templates[i]);
      case None =>
  }

  /** `replaceVariables`' search strings, in the order they are applied. */
  const CakeTokens: seq<string> := ["%%注文ID%%", "%%商品名%%", "%%ASIN%%"]

  function CakeReplacements(o: CakeOrder): (r: seq<(string, string)>)
    ensures |r| == |CakeTokens|
    ensures forall k :: 0 <= k < |r| ==> r[k].0 == CakeTokens[k]
  {
    [(CakeTokens[0], o.orderId), (CakeTokens[1], o.productName), (CakeTokens[2], o.asin)]
  }

  /** `replaceVariables`: text holding none of the three tokens is kept as it is. */
  function ReplaceVariables(text: string, o: CakeOrder): (r: string)
    ensures (forall k :: 0 <= k < |CakeTokens| ==> !Occurs(CakeTokens[k], text)) ==> r == text
  {
    var pairs := CakeReplacements(o);
    assert (forall k :: 0 <= k < |CakeTokens| ==> !Occurs(CakeTokens[k], text)) ==>
           ReplaceSequential(text, pairs) == text by {
      if forall k :: 0 <= k < |CakeTokens| ==> !Occurs(CakeTokens[k], text) {
        ReplaceSequentialAbsent(text, pairs);
      }
    }
    ReplaceSequential(text, pairs)
  }

  /** No token contains an earlier one. */
  lemma CakeTokensApart(j: nat, k: nat)
    requires j < k < |CakeTokens|
    ensures !Occurs(CakeTokens[j], CakeTokens[k])
  {
    var a, b := CakeTokens[j], CakeTokens[k];
    forall i ensures !OccursAt(a, b, i) {
      if 0 <= i && i + |a| <= |b| {
        if j == 0 {
          assert b[i..i + |a|][2] != a[2];
        } else if i == 0 {
          assert b[i..i + |a|][2] != a[2];
        } else {
          assert b[i..i + |a|][1] != a[1];
        }
      }
    }
  }

  /** Order fields that cannot form a token. */
  predicate PlainFields(o: CakeOrder) {
    '%' !in o.orderId && '%' !in o.productName && '%' !in o.asin
  }

  /** Each token on its own becomes its field. */
  lemma VariableReplaced(k: nat, o: CakeOrder)
    requires k < |CakeTokens|
    requires PlainFields(o)
    ensures ReplaceVariables(CakeTokens[k], o) == CakeReplacements(o)[k].1
  {
    var pairs := CakeReplacements(o);
    forall j | 0 <= j < k ensures !Occurs(pairs[j].0, CakeTokens[k]) {
      CakeTokensApart(j, k);
    }
    forall j | k < j < |pairs| ensures !Occurs(pairs[j].0, pairs[k].1) {
      assert pairs[j].0[0] == '%';
      FirstCharAbsent(pairs[k].1, pairs[j].0);
    }
    ReplaceSequentialLone(CakeTokens[k], pairs, k);
  }

  /** Text without a percent sign comes back verbatim. */
  lemma NoPercentVerbatim(text: string, o: CakeOrder)
    requires '%' !in text
    ensures ReplaceVariables(text, o) == text
  {
    forall k | 0 <= k < |CakeTokens| ensures !Occurs(CakeTokens[k], text) {
      assert CakeTokens[k][0] == '%';
      FirstCharAbsent(text, CakeTokens[k]);
    }
  }

  /** The first character of each token's name, which tells the tokens apart. */
  const Initials: string := "注商A"

  /** Every token is `%%`, a name without `%`, and `%%`. */
  lemma CakeTokenShape(k: nat)
    requires k < |CakeTokens|
    ensures |CakeTokens[k]| >= 7
    ensures CakeTokens[k][0] == '%' && CakeTokens[k][1] == '%'
    ensures CakeTokens[k][|CakeTokens[k]| - 2] == '%' && CakeTokens[k][|CakeTokens[k]| - 1] == '%'
    ensures forall i :: 2 <= i < |CakeTokens[k]| - 2 ==> CakeTokens[k][i] != '%'
    ensures CakeTokens[k][2] == Initials[k]
  {
  }

  /** What may follow a token that is still written out, so that no other
      token can be read across its end: nothing, or text that opens neither
      with a percent sign nor with a name's first character, or `%%`. */
  predicate SafeAfterToken(u: string) {
    |u| > 0 ==> (u[0] != '%' && u[0] !in Initials) || (|u| > 1 && u[0] == '%' && u[1] == '%')
  }

  /** A token does not start inside another one followed by safe text. */
  lemma CakeNoStartInside(j: nat, k: nat, u: string)
    requires j < |CakeTokens| && k < |CakeTokens| && j != k
    requires SafeAfterToken(u)
    ensures NoStartIn(CakeTokens[j], CakeTokens[k], u)
  {
    var tj, tk := CakeTokens[j], CakeTokens[k];
    var s := tk + u;
    CakeTokenShape(j);
    CakeTokenShape(k);
    assert Initials[j] != Initials[k];
    forall i | 0 <= i < |tk| ensures !OccursAt(tj, s, i) {
      if i == 0 {
        NotOccursAtChar(tj, s, 0, 2);
      } else if i == 1 {
        NotOccursAtChar(tj, s, 1, 1);
      } else if i < |tk| - 2 {
        NotOccursAtChar(tj, s, i, 0);
      } else if i == |tk| - 2 {
        NotOccursAtChar(tj, s, i, 2);
      } else if |u| > 0 && u[0] != '%' {
        NotOccursAtChar(tj, s, i, 1);
      } else {
        NotOccursAtChar(tj, s, i, 2);
      }
    }
  }

  /** A template body as the seller writes it: non-empty prose without
      percent signs between the three tokens, where a token is followed by
      the end of the text, by prose that does not open with a name's first
      character, or by a token replaced no earlier than itself. */
  predicate VariableText(ps: seq<Piece>) {
    forall m :: 0 <= m < |ps| ==>
      && (ps[m].Prose? ==> |ps[m].text| > 0 && '%' !in ps[m].text)
      && (ps[m].Token? ==> ps[m].index < |CakeTokens| && FollowedSafely(ps, m, ps[m].index))
  }

  predicate FollowedSafely(ps: seq<Piece>, m: nat, k: nat)
    requires m < |ps|
  {
    || m + 1 == |ps|
    || (ps[m + 1].Prose? && |ps[m + 1].text| > 0 && ps[m + 1].text[0] !in Initials)
    || (ps[m + 1].Token? && ps[m + 1].index >= k)
  }

  /** At each stage the stage's token can only be met where it is written. */
  lemma VariableTextReady(ps: seq<Piece>, o: CakeOrder, j: nat, m: nat)
    requires VariableText(ps) && PlainFields(o) && j < |CakeTokens| && m < |ps|
    requires Indexed(ps, CakeReplacements(o))
    ensures |CakeReplacements(o)[j].0| > 0
    ensures PieceReady(ps, m, CakeReplacements(o), j)
  {
    var pairs := CakeReplacements(o);
    CakeTokenShape(j);
    match ps[m]
    case Prose(t) =>
    case Token(k) =>
      if k > j {
        var rest := ps[m + 1..];
        IndexedRest(ps, pairs, m);
        var u := Staged(rest, pairs, j);
        if m + 1 < |ps| {
          assert rest[0] == ps[m + 1];
          match ps[m + 1]
          case Prose(t) =>
            assert u[0] == t[0];
          case Token(k2) =>
            CakeTokenShape(k2);
            assert u[..|CakeTokens[k2]|] == CakeTokens[k2];
            assert u[0] == CakeTokens[k2][0] && u[1] == CakeTokens[k2][1];
        }
        CakeNoStartInside(j, k, u);
      }
  }

  lemma IndexedRest(ps: seq<Piece>, pairs: seq<(string, string)>, m: nat)
    requires Indexed(ps, pairs) && m < |ps|
    ensures Indexed(ps[m + 1..], pairs)
  {
    var rest := ps[m + 1..];
    forall i | 0 <= i < |rest| ensures rest[i].Token? ==> rest[i].index < |pairs| {
      assert rest[i] == ps[m + 1 + i];
    }
  }

  /** Every variable written in such a body becomes the order's field, the
      prose between them is kept as written, and no token is left in the
      message. */
  lemma VariablesFilled(ps: seq<Piece>, o: CakeOrder)
    requires VariableText(ps) && PlainFields(o)
    ensures Indexed(ps, CakeReplacements(o))
    ensures ReplaceVariables(Written(ps, CakeReplacements(o)), o) == Substituted(ps, CakeReplacements(o))
    ensures forall k :: 0 <= k < |CakeTokens| ==> !Occurs(CakeTokens[k], Substituted(ps, CakeReplacements(o)))
  {
    var pairs := CakeReplacements(o);
    forall j | 0 <= j < |pairs|
      ensures ReplaceAll(Staged(ps, pairs, j), pairs[j].0, pairs[j].1) == Staged(ps, pairs, j + 1)
    {
      forall m | 0 <= m < |ps| ensures PieceReady(ps, m, pairs, j) {
        VariableTextReady(ps, o, j, m);
      }
      CakeTokenShape(j);
      StagedStep(ps, pairs, j);
    }
    StagedSequential(ps, pairs, 0);
    assert pairs[0..] == pairs;
    SubstitutedLacks(ps, pairs, '%');
    forall k | 0 <= k < |CakeTokens| ensures !Occurs(CakeTokens[k], Substituted(ps, pairs)) {
      CakeTokenShape(k);
      FirstCharAbsent(Substituted(ps, pairs), CakeTokens[k]);
    }
  }

  /** Without the condition on what follows a token, a token can be read
      across a boundary: in `%%ASIN%%注文ID%%ASIN%%` the first pass finds
      `%%注文ID%%` made of the end of one ASIN token, the prose, and the
      start of the next, so neither ASIN token is filled. */
  lemma VariableReadAcrossBoundary(o: CakeOrder, text: string)
    requires o.orderId == "1" && o.productName == "P" && o.asin == "X"
    requires text == "%%ASIN%%注文ID%%ASIN%%"
    ensures Indexed([Token(2), Prose("注文ID"), Token(2)], CakeReplacements(o))
    ensures Written([Token(2), Prose("注文ID"), Token(2)], CakeReplacements(o)) == text
    ensures Substituted([Token(2), Prose("注文ID"), Token(2)], CakeReplacements(o)) == "X注文IDX"
    ensures ReplaceVariables(text, o) == "%%ASIN1ASIN%%"
  {
    assert text == "%%ASIN" + (CakeTokens[0] + "ASIN%%");
    BoundaryReplaced(o, text);
    assert "%%ASIN" + ("1" + "ASIN%%") == "%%ASIN1ASIN%%";
    BoundaryPieces(o);
  }

  /** `%%ASIN%%注文ID%%ASIN%%` after the three passes. */
  lemma BoundaryReplaced(o: CakeOrder, text: string)
    requires o.orderId == "1" && o.productName == "P" && o.asin == "X"
    requires text == "%%ASIN" + (CakeTokens[0] + "ASIN%%")
    ensures ReplaceVariables(text, o) == "%%ASIN" + ("1" + "ASIN%%")
  {
    var pairs := CakeReplacements(o);
    BoundaryFirstPass(text);
    var after := ReplaceAll(text, CakeTokens[0], "1");
    BoundaryLaterPasses(after);
    assert pairs[0] == (CakeTokens[0], "1") && pairs[1] == (CakeTokens[1], "P") && pairs[2] == (CakeTokens[2], "X");
    var rest := pairs[1..];
    assert rest[0] == pairs[1] && rest[1..][0] == pairs[2] && rest[1..][1..] == [];
    assert ReplaceSequential(after, rest[1..]) == after;
    assert ReplaceSequential(after, rest) == after;
  }

  /** The order id pass finds the token that starts at position 6 and
      nowhere earlier. */
  lemma BoundaryFirstPass(text: string)
    requires text == "%%ASIN" + (CakeTokens[0] + "ASIN%%")
    ensures ReplaceAll(text, CakeTokens[0], "1") == "%%ASIN" + ("1" + "ASIN%%")
  {
    var t0 := CakeTokens[0];
    assert NoStartIn(t0, "%%ASIN", t0 + "ASIN%%") by {
      forall i | 0 <= i < 6 ensures !OccursAt(t0, text, i) {
        NotOccursAtChar(t0, text, i, if i == 0 then 2 else if i == 1 then 1 else 0);
      }
    }
    assert ReplaceAll("ASIN%%", t0, "1") == "ASIN%%";
    ReplaceAllAtFront(t0, "ASIN%%", "1");
    ReplaceAllNoStartIn("%%ASIN", t0 + "ASIN%%", t0, "1");
  }

  /** Neither the product name token nor the ASIN token is left after it. */
  lemma BoundaryLaterPasses(after: string)
    requires after == "%%ASIN" + ("1" + "ASIN%%")
    ensures ReplaceAll(after, CakeTokens[1], "P") == after
    ensures ReplaceAll(after, CakeTokens[2], "X") == after
  {
    var t1, t2 := CakeTokens[1], CakeTokens[2];
    forall i ensures !OccursAt(t1, after, i) {
      NotOccursAtChar(t1, after, i, if i == 0 then 2 else if i == 1 then 1 else 0);
    }
    ReplaceAllAbsent(after, t1, "P");
    forall i | 0 <= i <= 5 ensures !OccursAt(t2, after, i) {
      if i == 0 {
        NotOccursAtChar(t2, after, 0, 6);
      } else if i == 1 {
        NotOccursAtChar(t2, after, 1, 1);
      } else {
        assert after[i] == after[2..6][i - 2];
        NotOccursAtChar(t2, after, i, 0);
      }
    }
    ReplaceAllAbsent(after, t2, "X");
  }

  /** The pieces of `%%ASIN%%注文ID%%ASIN%%` as the seller meant them. */
  lemma BoundaryPieces(o: CakeOrder)
    requires o.asin == "X"
    ensures Indexed([Token(2), Prose("注文ID"), Token(2)], CakeReplacements(o))
    ensures Written([Token(2), Prose("注文ID"), Token(2)], CakeReplacements(o)) == "%%ASIN%%注文ID%%ASIN%%"
    ensures Substituted([Token(2), Prose("注文ID"), Token(2)], CakeReplacements(o)) == "X注文IDX"
  {
    var t2 := CakeTokens[2];
    var pairs := CakeReplacements(o);
    var ps := [Token(2), Prose("注文ID"), Token(2)];
    assert Indexed(ps, pairs);
    assert ps[1..] == [Prose("注文ID"), Token(2)] && ps[1..][1..] == [Token(2)];
    assert pairs[2].1 == "X";
    var last := ps[1..][1..];
    assert last[1..] == [];
    assert Staged(last, pairs, 0) == t2 + Staged(last[1..], pairs, 0);
    assert Staged(last, pairs, 3) == pairs[2].1 + Staged(last[1..], pairs, 3);
    assert Staged(ps[1..], pairs, 0) == "注文ID" + t2;
    assert Staged(ps[1..], pairs, 3) == "注文ID" + "X";
  }

  const BccPrefix: string := "[BCC] "
  const BccSeparator: string := " - Đơn hàng: "

  /** The subject of the seller's BCC copy. */
  function BccSubject(subject: string, orderId: string): (r: string)
    ensures |r| == |BccPrefix| + |subject| + |BccSeparator| + |orderId|
    ensures StartsWith(r, BccPrefix)
    ensures r[|BccPrefix|..|BccPrefix| + |subject|] == subject
    ensures r[|r| - |orderId|..] == orderId
  {
    var r := BccPrefix + subject + BccSeparator + orderId;
    assert r[..|BccPrefix|] == BccPrefix;
    r
  }

  /** Recovers the original subject from a BCC subject, given the order id. */
  function StripBcc(m: string, orderId: string): (r: Option<string>)
    ensures r.Some? ==> |m| == |BccPrefix| + |r.value| + |BccSeparator| + |orderId|
  {
    var tail := BccSeparator + orderId;
    if |m| >= |BccPrefix| + |tail| && m[..|BccPrefix|] == BccPrefix && m[|m| - |tail|..] == tail
    then Some(m[|BccPrefix|..|m| - |tail|])
    else None
  }

  /** The BCC subject keeps the original subject recoverable. */
  lemma BccRoundTrip(subject: string, orderId: string)
    ensures StripBcc(BccSubject(subject, orderId), orderId) == Some(subject)
  {
    var m := BccSubject(subject, orderId);
    var tail := BccSeparator + orderId;
    assert m == BccPrefix + subject + tail;
    assert m[|m| - |tail|..] == tail;
    assert m[|BccPrefix|..|m| - |tail|] == subject;
  }

  /** ... and only BCC subjects of that order are recognised. */
  lemma StripBccSound(m: string, orderId: string)
    requires StripBcc(m, orderId).Some?
    ensures BccSubject(StripBcc(m, orderId).value, orderId) == m
  {
    var tail := BccSeparator + orderId;
    var s := StripBcc(m, orderId).value;
    assert m == m[..|BccPrefix|] + m[|BccPrefix|..|m| - |tail|] + m[|m| - |tail|..];
  }

  /** The result of one send: the order table and the mails that went out. */
  datatype CakeOutcome = CakeOutcome(orders: seq<CakeOrder>, mails: seq<Mail>)

  /** The row after a successful send at `now`. */
  function MarkSent(o: CakeOrder, now: int): CakeOrder {
    o.(emailSent := true, emailSentDate := Some(now))
  }

  function CakeBuyerMail(o: CakeOrder, text: CakeText): Mail {
    Mail(o.buyerEmail, text.subject, text.content, false)
  }

  function BccMail(u: CakeUser, o: CakeOrder, text: CakeText): Mail {
    Mail(u.email, BccSubject(text.subject, o.orderId), text.content, true)
  }

  /** The `try` block of the send: the buyer's mail, then the save, then the
      BCC copy, whose failure is caught after the row is already saved. The
      save of a loaded row runs no validation, so it always succeeds. */
  function SendOne(orders: seq<CakeOrder>, i: nat, u: CakeUser, text: CakeText, now: int, deliver: Deliver): (r: CakeOutcome)
    requires i < |orders|
    ensures |r.orders| == |orders|
    ensures forall j :: 0 <= j < |orders| && j != i ==> r.orders[j] == orders[j]
    ensures !deliver(CakeBuyerMail(orders[i], text)) ==> r == CakeOutcome(orders, [])
    ensures deliver(CakeBuyerMail(orders[i], text)) ==> r.orders[i] == MarkSent(orders[i], now)
    ensures AllOrdersValid(orders) ==> AllOrdersValid(r.orders)
    ensures deliver(CakeBuyerMail(orders[i], text)) ==> |r.mails| > 0 && r.mails[0] == CakeBuyerMail(orders[i], text)
    ensures forall m :: m in r.mails ==> m == CakeBuyerMail(orders[i], text) || (u.bccEnabled && m == BccMail(u, orders[i], text))
  {
    var o := orders[i];
    if !deliver(CakeBuyerMail(o, text)) then CakeOutcome(orders, [])
    else
      var bcc := if u.bccEnabled && deliver(BccMail(u, o, text)) then [BccMail(u, o, text)] else [];
      CakeOutcome(orders[i := MarkSent(o, now)], [CakeBuyerMail(o, text)] + bcc)
  }

  /** A failing BCC copy never undoes a send: the table comes out the same
      whatever happens to the copy. */
  lemma BccFailureKeepsSent(orders: seq<CakeOrder>, i: nat, u: CakeUser, text: CakeText, now: int, d1: Deliver, d2: Deliver)
    requires i < |orders|
    requires d1(CakeBuyerMail(orders[i], text)) == d2(CakeBuyerMail(orders[i], text))
    ensures SendOne(orders, i, u, text, now, d1).orders == SendOne(orders, i, u, text, now, d2).orders
  {
  }

  /** The sending-hours gate of one seller. */
  function CakeInWindow(hour: int, u: CakeUser): (r: bool)
    ensures r <==> u.hourStart <= hour <= u.hourEnd
    ensures HoursValid(u) && r ==> 7 <= hour <= 23
  {
    !(hour < u.hourStart || hour > u.hourEnd)
  }

  /** A seller whose hours passed validation is never mailed for before 07:00. */
  lemma EarlyHoursNeverSend(u: CakeUser, hour: int)
    requires HoursValid(u) && 0 <= hour < 7
    ensures !CakeInWindow(hour, u)
  {
  }

  /** The pending-order query of one seller: marked for sending, not yet sent. */
  predicate CakeCandidate(o: CakeOrder, userId: nat) {
    o.userId == userId && o.sendEmail && !o.emailSent
  }

  function CandidatesFrom(orders: seq<CakeOrder>, lo: nat, userId: nat): (r: seq<nat>)
    requires lo <= |orders|
    ensures forall k :: 0 <= k < |r| ==> lo <= r[k] < |orders| && CakeCandidate(orders[r[k]], userId)
    ensures forall j :: lo <= j < |orders| && CakeCandidate(orders[j], userId) ==> j in r
    ensures forall a, b :: 0 <= a < b < |r| ==> r[a] < r[b]
    decreases |orders| - lo
  {
    if lo == |orders| then []
    else
      var rest := CandidatesFrom(orders, lo + 1, userId);
      if CakeCandidate(orders[lo], userId) then [lo] + rest else rest
  }

  /** The seller's candidate rows, in table order. */
  function CakeCandidates(orders: seq<CakeOrder>, userId: nat): (r: seq<nat>)
    ensures forall k :: 0 <= k < |r| ==> r[k] < |orders| && CakeCandidate(orders[r[k]], userId)
    ensures forall j :: 0 <= j < |orders| ==> (j in r <==> CakeCandidate(orders[j], userId))
    ensures forall a, b :: 0 <= a < b < |r| ==> r[a] < r[b]
  {
    CandidatesFrom(orders, 0, userId)
  }

  /** The text an order is sent with, if a template is keyed by its day count. */
  function OrderText(templates: seq<CakeTemplate>, asinTemplates: seq<CakeAsinTemplate>, o: CakeOrder, now: int): Option<CakeText> {
    match ChooseTemplate(templates, asinTemplates, o.userId, o.asin, DaysAfterShipping(now, o.shippingDay))
    case None => None
    case Some(t) => Some(CakeText(ReplaceVariables(t.subject, o), ReplaceVariables(t.content, o)))
  }

  /** The send of `o` at `now` goes through: a template is keyed by its day
      count and the buyer's mail is delivered. */
  predicate CakeSucceeds(templates: seq<CakeTemplate>, asinTemplates: seq<CakeAsinTemplate>, o: CakeOrder,
                         now: int, deliver: Deliver) {
    OrderText(templates, asinTemplates, o, now).Some? &&
    deliver(CakeBuyerMail(o, OrderText(templates, asinTemplates, o, now).value))
  }

  /** `r` differs from `o` at most by a send at `now`. */
  predicate SentOrSame(o: CakeOrder, r: CakeOrder, now: int) {
    r == o || r == MarkSent(o, now)
  }

  /** Distinct, ascending, unsent positions of the order table. */
  ghost predicate CakeSendable(orders: seq<CakeOrder>, idx: seq<nat>) {
    && (forall k :: 0 <= k < |idx| ==> idx[k] < |orders| && !orders[idx[k]].emailSent)
    && (forall a, b :: 0 <= a < b < |idx| ==> idx[a] < idx[b])
  }

  /** The first step of the loop over a seller's candidates. */
  function CakeStep(db: CakeDb, orders: seq<CakeOrder>, i: nat, u: CakeUser, now: int, deliver: Deliver): (r: CakeOutcome)
    requires i < |orders|
    ensures |r.orders| == |orders|
    ensures forall j :: 0 <= j < |orders| && j != i ==> r.orders[j] == orders[j]
    ensures r.orders[i] == (if CakeSucceeds(db.templates, db.asinTemplates, orders[i], now, deliver)
                            then MarkSent(orders[i], now) else orders[i])
    ensures AllOrdersValid(orders) ==> AllOrdersValid(r.orders)
  {
    match OrderText(db.templates, db.asinTemplates, orders[i], now)
    case None => CakeOutcome(orders, [])
    case Some(text) => SendOne(orders, i, u, text, now, deliver)
  }

  /** The loop over a seller's candidates; `orders` is the order table as
      the loop has left it, the templates are read from `db`. Exactly the
      listed rows whose send goes through are marked sent at `now`. */
  function SendEachCake(db: CakeDb, orders: seq<CakeOrder>, idx: seq<nat>, u: CakeUser, now: int, deliver: Deliver): (r: CakeOutcome)
    requires CakeSendable(orders, idx)
    ensures |r.orders| == |orders|
    ensures forall j :: 0 <= j < |orders| ==> SentOrSame(orders[j], r.orders[j], now)
    ensures forall j :: 0 <= j < |orders| && r.orders[j] != orders[j] ==>
      j in idx && CakeSucceeds(db.templates, db.asinTemplates, orders[j], now, deliver)
    ensures forall j :: 0 <= j < |orders| && j in idx && CakeSucceeds(db.templates, db.asinTemplates, orders[j], now, deliver) ==>
      r.orders[j] == MarkSent(orders[j], now)
    ensures AllOrdersValid(orders) ==> AllOrdersValid(r.orders)
    decreases |idx|, 1
  {
    if |idx| == 0 then CakeOutcome(orders, [])
    else
      var step := CakeStep(db, orders, idx[0], u, now, deliver);
      CakeSendableTail(db, orders, idx, u, now, deliver);
      var rest := SendEachCake(db, step.orders, idx[1..], u, now, deliver);
      SendEachCakeEffect(db, orders, idx, u, now, deliver);
      CakeOutcome(rest.orders, step.mails + rest.mails)
  }

  /** After the first step of the loop the remaining positions are still sendable. */
  lemma CakeSendableTail(db: CakeDb, orders: seq<CakeOrder>, idx: seq<nat>, u: CakeUser, now: int, deliver: Deliver)
    requires CakeSendable(orders, idx) && |idx| > 0
    ensures CakeSendable(CakeStep(db, orders, idx[0], u, now, deliver).orders, idx[1..])
  {
    var step := CakeStep(db, orders, idx[0], u, now, deliver);
    forall k | 0 <= k < |idx[1..]| ensures step.orders[idx[1..][k]] == orders[idx[1..][k]] {
      assert idx[0] < idx[k + 1];
    }
  }

  /** The rows the rest of the loop leaves changed are those its first step
      and its later steps change. */
  lemma SendEachCakeEffect(db: CakeDb, orders: seq<CakeOrder>, idx: seq<nat>, u: CakeUser, now: int, deliver: Deliver)
    requires CakeSendable(orders, idx) && |idx| > 0
    ensures var step := CakeStep(db, orders, idx[0], u, now, deliver);
      CakeSendable(step.orders, idx[1..]) &&
      var rest := SendEachCake(db, step.orders, idx[1..], u, now, deliver);
      && (forall j :: 0 <= j < |orders| ==> SentOrSame(orders[j], rest.orders[j], now))
      && (forall j :: 0 <= j < |orders| && rest.orders[j] != orders[j] ==>
            j in idx && CakeSucceeds(db.templates, db.asinTemplates, orders[j], now, deliver))
      && (forall j :: 0 <= j < |orders| && j in idx && CakeSucceeds(db.templates, db.asinTemplates, orders[j], now, deliver) ==>
            rest.orders[j] == MarkSent(orders[j], now))
    decreases |idx|, 0
  {
    var i := idx[0];
    var step := CakeStep(db, orders, i, u, now, deliver);
    CakeSendableTail(db, orders, idx, u, now, deliver);
    TailIndices(idx);
    var rest := SendEachCake(db, step.orders, idx[1..], u, now, deliver);
    forall j | 0 <= j < |orders|
      ensures SentOrSame(orders[j], rest.orders[j], now)
      ensures rest.orders[j] != orders[j] ==> j in idx && CakeSucceeds(db.templates, db.asinTemplates, orders[j], now, deliver)
      ensures j in idx && CakeSucceeds(db.templates, db.asinTemplates, orders[j], now, deliver) ==>
        rest.orders[j] == MarkSent(orders[j], now)
    {
      if j == i {
        assert i !in idx[1..];
      }
    }
  }

  /** One seller's turn: a row changes exactly when it is one of the seller's
      candidates, the hour is inside the seller's window and its send goes
      through. */
  function CakeSweepUser(db: CakeDb, u: CakeUser, now: int, deliver: Deliver): (r: CakeOutcome)
    ensures |r.orders| == |db.orders|
    ensures !CakeInWindow(HourOf(now), u) ==> r == CakeOutcome(db.orders, [])
    ensures forall j :: 0 <= j < |db.orders| ==> SentOrSame(db.orders[j], r.orders[j], now)
    ensures forall j :: 0 <= j < |db.orders| && r.orders[j] != db.orders[j] ==>
      && CakeCandidate(db.orders[j], u.id)
      && CakeInWindow(HourOf(now), u)
      && CakeSucceeds(db.templates, db.asinTemplates, db.orders[j], now, deliver)
    ensures forall j :: 0 <= j < |db.orders| && CakeCandidate(db.orders[j], u.id) && CakeInWindow(HourOf(now), u) &&
                        CakeSucceeds(db.templates, db.asinTemplates, db.orders[j], now, deliver) ==>
      r.orders[j] == MarkSent(db.orders[j], now)
    ensures AllOrdersValid(db.orders) ==> AllOrdersValid(r.orders)
  {
    if !CakeInWindow(HourOf(now), u) then CakeOutcome(db.orders, [])
    else SendEachCake(db, db.orders, CakeCandidates(db.orders, u.id), u, now, deliver)
  }

  /** The sellers the command visits. */
  predicate CakeSelected(u: CakeUser) {
    u.emailEnabled && u.amazonToken.Some?
  }

  /** The seller loop, over the given sellers in order. A row changes only
      when it is a candidate of one of them inside that seller's hours and
      its send goes through; every row for which that holds ends up sent. */
  function CakeSweepUsers(db: CakeDb, users: seq<CakeUser>, now: int, deliver: Deliver): (r: CakeOutcome)
    ensures |r.orders| == |db.orders|
    ensures forall j :: 0 <= j < |db.orders| ==> SentOrSame(db.orders[j], r.orders[j], now)
    ensures forall j :: 0 <= j < |db.orders| && r.orders[j] != db.orders[j] ==>
      && db.orders[j].sendEmail && !db.orders[j].emailSent
      && CakeSucceeds(db.templates, db.asinTemplates, db.orders[j], now, deliver)
      && exists k :: 0 <= k < |users| && users[k].id == db.orders[j].userId && CakeInWindow(HourOf(now), users[k])
    ensures forall j, k :: 0 <= j < |db.orders| && 0 <= k < |users| && CakeCandidate(db.orders[j], users[k].id) &&
                           CakeInWindow(HourOf(now), users[k]) &&
                           CakeSucceeds(db.templates, db.asinTemplates, db.orders[j], now, deliver) ==>
      r.orders[j] == MarkSent(db.orders[j], now)
    ensures AllOrdersValid(db.orders) ==> AllOrdersValid(r.orders)
    decreases |users|, 1
  {
    if |users| == 0 then CakeOutcome(db.orders, [])
    else
      var first := CakeSweepUser(db, users[0], now, deliver);
      var rest := CakeSweepUsers(db.(orders := first.orders), users[1..], now, deliver);
      CakeSweepUsersChanged(db, users, now, deliver);
      CakeSweepUsersDelivers(db, users, now, deliver);
      CakeOutcome(rest.orders, first.mails + rest.mails)
  }

  /** A row the seller loop changes is marked sent at `now`, and only for a
      seller of the loop inside its hours. */
  lemma CakeSweepUsersChanged(db: CakeDb, users: seq<CakeUser>, now: int, deliver: Deliver)
    requires |users| > 0
    ensures var first := CakeSweepUser(db, users[0], now, deliver);
      var rest := CakeSweepUsers(db.(orders := first.orders), users[1..], now, deliver);
      && (forall j :: 0 <= j < |db.orders| ==> SentOrSame(db.orders[j], rest.orders[j], now))
      && (forall j :: 0 <= j < |db.orders| && rest.orders[j] != db.orders[j] ==>
            exists k :: 0 <= k < |users| && users[k].id == db.orders[j].userId && CakeInWindow(HourOf(now), users[k]))
    decreases |users|, 0
  {
    var first := CakeSweepUser(db, users[0], now, deliver);
    var rest := CakeSweepUsers(db.(orders := first.orders), users[1..], now, deliver);
    forall j | 0 <= j < |db.orders| ensures SentOrSame(db.orders[j], rest.orders[j], now) {
      if first.orders[j] != db.orders[j] {
        assert rest.orders[j] == first.orders[j];
      }
    }
    forall j | 0 <= j < |db.orders| && rest.orders[j] != db.orders[j]
      ensures exists k :: 0 <= k < |users| && users[k].id == db.orders[j].userId && CakeInWindow(HourOf(now), users[k])
    {
      if first.orders[j] != db.orders[j] {
        assert users[0].id == db.orders[j].userId;
      } else {
        var k' :| 0 <= k' < |users[1..]| && users[1..][k'].id == db.orders[j].userId && CakeInWindow(HourOf(now), users[1..][k']);
        assert users[1..][k'] == users[k' + 1];
      }
    }
  }

  /** Every candidate of a seller of the loop, inside that seller's hours,
      whose send goes through ends the loop marked sent at `now`. */
  lemma CakeSweepUsersDelivers(db: CakeDb, users: seq<CakeUser>, now: int, deliver: Deliver)
    requires |users| > 0
    ensures var first := CakeSweepUser(db, users[0], now, deliver);
      var rest := CakeSweepUsers(db.(orders := first.orders), users[1..], now, deliver);
      forall j, k :: 0 <= j < |db.orders| && 0 <= k < |users| && CakeCandidate(db.orders[j], users[k].id) &&
                     CakeInWindow(HourOf(now), users[k]) &&
                     CakeSucceeds(db.templates, db.asinTemplates, db.orders[j], now, deliver) ==>
        rest.orders[j] == MarkSent(db.orders[j], now)
    decreases |users|, 0
  {
    var first := CakeSweepUser(db, users[0], now, deliver);
    var rest := CakeSweepUsers(db.(orders := first.orders), users[1..], now, deliver);
    forall j, k | 0 <= j < |db.orders| && 0 <= k < |users| && CakeCandidate(db.orders[j], users[k].id) &&
                  CakeInWindow(HourOf(now), users[k]) &&
                  CakeSucceeds(db.templates, db.asinTemplates, db.orders[j], now, deliver)
      ensures rest.orders[j] == MarkSent(db.orders[j], now)
    {
      if first.orders[j] != db.orders[j] || k == 0 {
        assert first.orders[j] == MarkSent(db.orders[j], now);
        assert rest.orders[j] == first.orders[j];
      } else {
        assert users[1..][k - 1] == users[k];
      }
    }
  }

  function CakeSelectedUsers(users: seq<CakeUser>): (r: seq<CakeUser>)
    ensures forall u :: u in r <==> u in users && CakeSelected(u)
    decreases |users|
  {
    if |users| == 0 then []
    else (if CakeSelected(users[0]) then [users[0]] else []) + CakeSelectedUsers(users[1..])
  }

  /** The whole command: a row changes only by being marked sent at `now`,
      and exactly when it is a candidate of a selected seller inside that
      seller's hours and its send goes through. */
  function CakeSendAll(db: CakeDb, now: int, deliver: Deliver): (r: CakeOutcome)
    ensures |r.orders| == |db.orders|
    ensures forall j :: 0 <= j < |db.orders| ==> SentOrSame(db.orders[j], r.orders[j], now)
    ensures forall j :: 0 <= j < |db.orders| && r.orders[j] != db.orders[j] ==>
      && db.orders[j].sendEmail && !db.orders[j].emailSent
      && CakeSucceeds(db.templates, db.asinTemplates, db.orders[j], now, deliver)
      && exists u :: u in db.users && CakeSelected(u) && u.id == db.orders[j].userId && CakeInWindow(HourOf(now), u)
    ensures forall j, u :: 0 <= j < |db.orders| && u in db.users && CakeSelected(u) && CakeCandidate(db.orders[j], u.id) &&
                           CakeInWindow(HourOf(now), u) &&
                           CakeSucceeds(db.templates, db.asinTemplates, db.orders[j], now, deliver) ==>
      r.orders[j] == MarkSent(db.orders[j], now)
    ensures AllOrdersValid(db.orders) ==> AllOrdersValid(r.orders)
  {
    var us := CakeSelectedUsers(db.users);
    CakeSendAllSound(db, now, deliver);
    CakeSweepUsers(db, us, now, deliver)
  }

  /** The seller loop over the selected sellers, read back in terms of all sellers. */
  lemma CakeSendAllSound(db: CakeDb, now: int, deliver: Deliver)
    ensures var r := CakeSweepUsers(db, CakeSelectedUsers(db.users), now, deliver);
      && (forall j :: 0 <= j < |db.orders| && r.orders[j] != db.orders[j] ==>
            exists u :: u in db.users && CakeSelected(u) && u.id == db.orders[j].userId && CakeInWindow(HourOf(now), u))
      && (forall j, u :: 0 <= j < |db.orders| && u in db.users && CakeSelected(u) && CakeCandidate(db.orders[j], u.id) &&
                         CakeInWindow(HourOf(now), u) &&
                         CakeSucceeds(db.templates, db.asinTemplates, db.orders[j], now, deliver) ==>
            r.orders[j] == MarkSent(db.orders[j], now))
  {
    var us := CakeSelectedUsers(db.users);
    var r := CakeSweepUsers(db, us, now, deliver);
    forall j | 0 <= j < |db.orders| && r.orders[j] != db.orders[j]
      ensures exists u :: u in db.users && CakeSelected(u) && u.id == db.orders[j].userId && CakeInWindow(HourOf(now), u)
    {
      var k :| 0 <= k < |us| && us[k].id == db.orders[j].userId && CakeInWindow(HourOf(now), us[k]);
      assert us[k] in us;
    }
    forall j, u | 0 <= j < |db.orders| && u in db.users && CakeSelected(u) && CakeCandidate(db.orders[j], u.id) &&
                  CakeInWindow(HourOf(now), u) &&
                  CakeSucceeds(db.templates, db.asinTemplates, db.orders[j], now, deliver)
      ensures r.orders[j] == MarkSent(db.orders[j], now)
    {
      assert u in us;
      var k :| 0 <= k < |us| && us[k] == u;
    }
  }

  /** At most once: a row the command marks sent is left alone by any later run. */
  lemma CakeSecondRunNeverResends(db: CakeDb, now1: int, now2: int, d1: Deliver, d2: Deliver)
    ensures
      var first := CakeSendAll(db, now1, d1);
      var second := CakeSendAll(db.(orders := first.orders), now2, d2);
      forall j :: 0 <= j < |db.orders| && first.orders[j] != db.orders[j] ==> second.orders[j] == first.orders[j]
  {
  }
}
