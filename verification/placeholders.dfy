/** `AmazonEmailService::replacePlaceholders`: six tokens replaced one
    after the other with `str_replace`, so a value that itself contains a
    later token is substituted again, `{customer_name}` always becomes the
    empty string, and any other `{...}` text is left as written. */
module Placeholders {
  import opened Text

  /** The values the tokens stand for; `orderDate` is the order date already
      formatted as day/month/year. */
  datatype PlaceholderValues = PlaceholderValues(
    storeName: string,
    productName: string,
    orderId: string,
    orderDate: string,
    sellerName: string)

  /** The tokens, in the order they are replaced. */
  const Tokens: seq<string> :=
    ["{store_name}", "{product_name}", "{order_id}", "{order_date}", "{customer_name}", "{seller_name}"]

  function Replacements(v: PlaceholderValues): (r: seq<(string, string)>)
    ensures |r| == |Tokens|
    ensures forall k :: 0 <= k < |r| ==> r[k].0 == Tokens[k]
  {
    [(Tokens[0], v.storeName), (Tokens[1], v.productName), (Tokens[2], v.orderId),
     (Tokens[3], v.orderDate), (Tokens[4], ""), (Tokens[5], v.sellerName)]
  }

  /** Text without any of the six tokens, including text with unknown
      `{...}` tokens, comes back unchanged. */
  function ReplacePlaceholders(text: string, v: PlaceholderValues): (r: string)
    ensures (forall k :: 0 <= k < |Tokens| ==> !Occurs(Tokens[k], text)) ==> r == text
  {
    var pairs := Replacements(v);
    assert (forall k :: 0 <= k < |Tokens| ==> !Occurs(Tokens[k], text)) ==>
           ReplaceSequential(text, pairs) == text by {
      if forall k :: 0 <= k < |Tokens| ==> !Occurs(Tokens[k], text) {
        ReplaceSequentialAbsent(text, pairs);
      }
    }
    ReplaceSequential(text, pairs)
  }

  /** No value contains an opening brace, so no value can form a token. */
  predicate PlainValues(v: PlaceholderValues) {
    '{' !in v.storeName && '{' !in v.productName && '{' !in v.orderId &&
    '{' !in v.orderDate && '{' !in v.sellerName
  }

  /** Each token on its own becomes its value; `{customer_name}` becomes "". */
  lemma SingleTokenReplaced(k: nat, v: PlaceholderValues)
    requires k < |Tokens|
    requires PlainValues(v)
    ensures ReplacePlaceholders(Tokens[k], v) == Replacements(v)[k].1
    ensures k == 4 ==> ReplacePlaceholders(Tokens[k], v) == ""
  {
    var pairs := Replacements(v);
    TokenShape(k);
    forall j | 0 <= j < k
      ensures |pairs[j].0| > 0 && pairs[j].0[0] !in Tokens[k][1..] && !StartsWith(Tokens[k], pairs[j].0)
    {
      TokenShape(j);
      TokensDiffer(j, k);
    }
    forall j | k < j < |pairs| ensures |pairs[j].0| > 0 && pairs[j].0[0] !in pairs[k].1 {
      TokenShape(j);
    }
    ReplaceSequentialSingle(Tokens[k], pairs, k);
  }

  /** Every token opens with a brace and has no other. */
  lemma TokenShape(k: nat)
    requires k < |Tokens|
    ensures |Tokens[k]| > 1 && Tokens[k][0] == '{' && '{' !in Tokens[k][1..]
  {
    if k == 0 { assert Tokens[k][1..] == "store_name}"; }
    else if k == 1 { assert Tokens[k][1..] == "product_name}"; }
    else if k == 2 { assert Tokens[k][1..] == "order_id}"; }
    else if k == 3 { assert Tokens[k][1..] == "order_date}"; }
    else if k == 4 { assert Tokens[k][1..] == "customer_name}"; }
    else { assert Tokens[k][1..] == "seller_name}"; }
  }

  /** No token begins with an earlier one. */
  lemma TokensDiffer(j: nat, k: nat)
    requires j < k < |Tokens|
    ensures !StartsWith(Tokens[k], Tokens[j])
  {
    var n := |Tokens[j]|;
    if n <= |Tokens[k]| {
      var w := if j == 2 && k == 3 then 7 else if j == 0 && k == 5 then 2 else 1;
      assert Tokens[j][w] != Tokens[k][w];
      assert Tokens[k][..n][w] == Tokens[k][w];
    }
  }

  /** Replacement is sequential: a product name that is `{order_id}` has
      the order id substituted into it. */
  lemma ValuesAreSubstitutedAgain(v: PlaceholderValues)
    requires v.productName == Tokens[2] && '{' !in v.orderId
    ensures ReplacePlaceholders(Tokens[1], v) == v.orderId
  {
    var pairs := Replacements(v);
    assert pairs == pairs[..2] + pairs[2..];
    ReplaceSequentialSplit(Tokens[1], pairs[..2], pairs[2..]);
    TokenShape(0);
    TokenShape(1);
    TokensDiffer(0, 1);
    ReplaceSequentialSingle(Tokens[1], pairs[..2], 1);
    forall j | 0 < j < |pairs[2..]| ensures |pairs[2..][j].0| > 0 && pairs[2..][j].0[0] !in v.orderId {
      TokenShape(j + 2);
    }
    ReplaceSequentialSingle(Tokens[2], pairs[2..], 0);
  }

  /** A template as the seller writes it: prose without braces between
      occurrences of the six tokens. */
  predicate Template(ps: seq<Piece>) {
    forall m :: 0 <= m < |ps| ==>
      match ps[m]
      case Prose(t) => '{' !in t
      case Token(k) => k < |Tokens|
  }

  /** Every token closes with a brace and has no other closing brace. */
  lemma TokenCloses(k: nat)
    requires k < |Tokens|
    ensures |Tokens[k]| > 1 && Tokens[k][|Tokens[k]| - 1] == '}' && '}' !in Tokens[k][..|Tokens[k]| - 1]
  {
    if k == 0 { assert Tokens[k][..|Tokens[k]| - 1] == "{store_name"; }
    else if k == 1 { assert Tokens[k][..|Tokens[k]| - 1] == "{product_name"; }
    else if k == 2 { assert Tokens[k][..|Tokens[k]| - 1] == "{order_id"; }
    else if k == 3 { assert Tokens[k][..|Tokens[k]| - 1] == "{order_date"; }
    else if k == 4 { assert Tokens[k][..|Tokens[k]| - 1] == "{customer_name"; }
    else { assert Tokens[k][..|Tokens[k]| - 1] == "{seller_name"; }
  }

  /** An earlier token does not start inside a later one, whatever text
      follows it. */
  lemma NoEarlierTokenInside(j: nat, k: nat, u: string)
    requires j < k < |Tokens|
    ensures NoStartIn(Tokens[j], Tokens[k], u)
  {
    var tj, tk := Tokens[j], Tokens[k];
    TokenShape(j);
    TokenShape(k);
    forall i | 0 <= i < |tk| ensures !OccursAt(tj, tk + u, i) {
      if i == 0 {
        if |tj| <= |tk| {
          TokensDiffer(j, k);
          if |tj| <= |tk + u| {
            assert (tk + u)[..|tj|] == tk[..|tj|];
          }
        } else {
          TokenCloses(j);
          TokenCloses(k);
          var w := |tk| - 1;
          assert tj[..|tj| - 1][w] == tj[w];
          NotOccursAtChar(tj, tk + u, 0, w);
        }
      } else {
        assert (tk + u)[i] == tk[1..][i - 1];
        NotOccursAtChar(tj, tk + u, i, 0);
      }
    }
  }

  /** At each stage the stage's token can only be met where it is written. */
  lemma TemplateReady(ps: seq<Piece>, v: PlaceholderValues, j: nat, m: nat)
    requires Template(ps) && PlainValues(v) && j < |Tokens| && m < |ps|
    requires Indexed(ps, Replacements(v))
    ensures |Replacements(v)[j].0| > 0
    ensures PieceReady(ps, m, Replacements(v), j)
  {
    var pairs := Replacements(v);
    TokenShape(j);
    match ps[m]
    case Prose(t) =>
    case Token(k) =>
      if k > j {
        NoEarlierTokenInside(j, k, Staged(ps[m + 1..], pairs, j));
      }
  }

  /** Every token written in a template becomes its value, the prose between
      tokens is kept as written, and no token is left in the message. */
  lemma TemplateFilled(ps: seq<Piece>, v: PlaceholderValues)
    requires Template(ps) && PlainValues(v)
    ensures Indexed(ps, Replacements(v))
    ensures ReplacePlaceholders(Written(ps, Replacements(v)), v) == Substituted(ps, Replacements(v))
    ensures forall k :: 0 <= k < |Tokens| ==> !Occurs(Tokens[k], Substituted(ps, Replacements(v)))
  {
    var pairs := Replacements(v);
    forall j | 0 <= j < |pairs|
      ensures ReplaceAll(Staged(ps, pairs, j), pairs[j].0, pairs[j].1) == Staged(ps, pairs, j + 1)
    {
      forall m | 0 <= m < |ps| ensures PieceReady(ps, m, pairs, j) {
        TemplateReady(ps, v, j, m);
      }
      TokenShape(j);
      StagedStep(ps, pairs, j);
    }
    StagedSequential(ps, pairs, 0);
    assert pairs[0..] == pairs;
    SubstitutedLacks(ps, pairs, '{');
    forall k | 0 <= k < |Tokens| ensures !Occurs(Tokens[k], Substituted(ps, pairs)) {
      TokenShape(k);
      FirstCharAbsent(Substituted(ps, pairs), Tokens[k]);
    }
  }
}
