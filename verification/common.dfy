/** Shared vocabulary of the review-request pipeline: optional values,
    clock arithmetic on integer timestamps, PHP string truthiness, outgoing
    mail, and the "first / last row matching a condition" lookups that the
    query builders of both stacks perform. */
module Common {

  /** A nullable column or an absent array key. */
  datatype Option<+T> = None | Some(value: T) {
    /** `$x ?? $default` */
    function GetOr(default: T): T {
      match this
      case Some(v) => v
      case None => default
    }
  }

  /** Instants are whole seconds since the epoch in the application's time zone. */
  const SecondsPerDay: int := 86400
  const SecondsPerHour: int := 3600

  /** Hour of the day (0-23) of an instant, as `Carbon::now()->hour` and `date('G')` report it. */
  function HourOf(t: int): (h: int)
    ensures 0 <= h < 24
    ensures t - SecondsPerDay * DayOf(t) == SecondsPerHour * h + (t % SecondsPerHour)
  {
    (t % SecondsPerDay) / SecondsPerHour
  }

  /** Calendar day number of an instant (the day whose midnight starts at or before it). */
  function DayOf(t: int): (d: int)
    ensures SecondsPerDay * d <= t < SecondsPerDay * (d + 1)
  {
    t / SecondsPerDay
  }

  /** PHP truthiness of a string: the empty string and "0" are false. */
  predicate Truthy(s: string) {
    s != "" && s != "0"
  }

  /** The key both stacks' ingestion deduplicates orders on: seller, Amazon order id, ASIN. */
  datatype Triple = Triple(userId: nat, orderId: string, asin: string)

  /** One outgoing message; `isCopy` marks the seller's own copy (BCC / copy-to-self). */
  datatype Mail = Mail(to: string, subject: string, body: string, isCopy: bool)

  /** The mailer, as an oracle: `deliver(m)` is false when sending `m` throws. */
  type Deliver = Mail -> bool

  /** `i` is the position of the first element of `s` that satisfies `p`. */
  ghost predicate IsFirst<T>(s: seq<T>, p: T -> bool, i: int) {
    0 <= i < |s| && p(s[i]) && forall j :: 0 <= j < i ==> !p(s[j])
  }

  /** `i` is the position of the last element of `s` that satisfies `p`. */
  ghost predicate IsLast<T>(s: seq<T>, p: T -> bool, i: int) {
    0 <= i < |s| && p(s[i]) && forall j :: i < j < |s| ==> !p(s[j])
  }

  /** The row a query's `->first()` returns: the earliest match in table order. */
  function FirstIndex<T>(s: seq<T>, p: T -> bool): (r: Option<nat>)
    ensures r.Some? ==> IsFirst(s, p, r.value)
    ensures r.None? <==> forall j :: 0 <= j < |s| ==> !p(s[j])
  {
    if |s| == 0 then None
    else if p(s[0]) then Some(0)
    else match FirstIndex(s[1..], p)
      case None => None
      case Some(k) => Some(k + 1)
  }

  /** The row that survives when rows are stored under a key one after the
      other and a later row overwrites an earlier one: the latest match. */
  function LastIndex<T>(s: seq<T>, p: T -> bool): (r: Option<nat>)
    ensures r.Some? ==> IsLast(s, p, r.value)
    ensures r.None? <==> forall j :: 0 <= j < |s| ==> !p(s[j])
  {
    if |s| == 0 then None
    else if p(s[|s| - 1]) then Some(|s| - 1)
    else LastIndex(s[..|s| - 1], p)
  }

  /** The first match itself, if any. */
  function FirstOf<T>(s: seq<T>, p: T -> bool): Option<T> {
    match FirstIndex(s, p)
    case Some(i) => Some(s[i])
    case None => None
  }

  /** The last match itself, if any. */
  function LastOf<T>(s: seq<T>, p: T -> bool): Option<T> {
    match LastIndex(s, p)
    case Some(i) => Some(s[i])
    case None => None
  }

  /** The later entries of an ascending index list are exactly its entries other than the first. */
  lemma TailIndices(idx: seq<nat>)
    requires |idx| > 0 && forall a, b :: 0 <= a < b < |idx| ==> idx[a] < idx[b]
    ensures forall j :: j in idx[1..] <==> j in idx && j != idx[0]
  {
    forall j | j in idx[1..] ensures j != idx[0] {
      var k :| 0 <= k < |idx[1..]| && idx[1..][k] == j;
      assert idx[0] < idx[k + 1];
    }
  }
}
