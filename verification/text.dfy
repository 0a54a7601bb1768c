/** PHP's `str_replace`, as both stacks use it for template placeholders:
    one search string is replaced by scanning left to right, replacing every
    non-overlapping occurrence and resuming after it; with arrays of search
    and replacement strings, the pairs are applied one after the other, each
    to the result of the previous one. */
module Text {

  /** `pat` occurs in `s` starting at position `i`. */
  predicate OccursAt(pat: string, s: string, i: int) {
    0 <= i && i + |pat| <= |s| && s[i..i + |pat|] == pat
  }

  /** `pat` occurs somewhere in `s`. */
  ghost predicate Occurs(pat: string, s: string) {
    exists i :: OccursAt(pat, s, i)
  }

  /** `str_replace($pat, $rep, $s)` for one search string. An empty search
      string leaves the subject as it is, as PHP does. */
  function ReplaceAll(s: string, pat: string, rep: string): string
    decreases |s|
  {
    if |pat| == 0 || |s| < |pat| then s
    else if s[..|pat|] == pat then rep + ReplaceAll(s[|pat|..], pat, rep)
    else [s[0]] + ReplaceAll(s[1..], pat, rep)
  }

  /** `str_replace(array_keys($m), array_values($m), $s)`: the pairs in order. */
  function ReplaceSequential(s: string, pairs: seq<(string, string)>): string
    decreases |pairs|
  {
    if |pairs| == 0 then s
    else ReplaceSequential(ReplaceAll(s, pairs[0].0, pairs[0].1), pairs[1..])
  }

  /** `implode($sep, $parts)`. */
  function Join(parts: seq<string>, sep: string): string
    decreases |parts|
  {
    if |parts| == 0 then ""
    else if |parts| == 1 then parts[0]
    else parts[0] + sep + Join(parts[1..], sep)
  }

  /** Text in which the search string does not occur comes back unchanged. */
  lemma {:induction false} ReplaceAllAbsent(s: string, pat: string, rep: string)
    requires !Occurs(pat, s)
    ensures ReplaceAll(s, pat, rep) == s
    decreases |s|
  {
    if |pat| == 0 || |s| < |pat| {
      assert |pat| == 0 ==> OccursAt(pat, s, 0);
    } else {
      assert !OccursAt(pat, s, 0);
      assert s[0..0 + |pat|] == s[..|pat|];
      forall i | 0 <= i
        ensures !OccursAt(pat, s[1..], i)
      {
        assert !OccursAt(pat, s, i + 1);
        if i + |pat| <= |s[1..]| {
          assert s[1..][i..i + |pat|] == s[i + 1..i + 1 + |pat|];
        }
      }
      ReplaceAllAbsent(s[1..], pat, rep);
    }
  }

  /** A prefix free of the search string's first character is copied through. */
  lemma {:induction false} ReplaceAllPlainPrefix(p: string, t: string, pat: string, rep: string)
    requires |pat| > 0
    requires pat[0] !in p
    ensures ReplaceAll(p + t, pat, rep) == p + ReplaceAll(t, pat, rep)
    decreases |p|
  {
    if |p| == 0 {
      assert p + t == t;
    } else {
      var s := p + t;
      if |s| < |pat| {
        assert ReplaceAll(t, pat, rep) == t;
      } else {
        assert s[..|pat|][0] == p[0];
        assert s[1..] == p[1..] + t;
        ReplaceAllPlainPrefix(p[1..], t, pat, rep);
      }
    }
  }

  /** An occurrence at the front is replaced and the scan resumes after it. */
  lemma ReplaceAllAtFront(pat: string, u: string, rep: string)
    requires |pat| > 0
    ensures ReplaceAll(pat + u, pat, rep) == rep + ReplaceAll(u, pat, rep)
  {
    assert (pat + u)[..|pat|] == pat;
    assert (pat + u)[|pat|..] == u;
  }

  /** Replacing a search string in text built by joining plain pieces with
      it yields the same pieces joined with the replacement: every occurrence
      is replaced and nothing else changes. */
  lemma {:induction false} ReplaceAllJoin(parts: seq<string>, pat: string, rep: string)
    requires |pat| > 0
    requires forall k :: 0 <= k < |parts| ==> pat[0] !in parts[k]
    ensures ReplaceAll(Join(parts, pat), pat, rep) == Join(parts, rep)
    decreases |parts|
  {
    if |parts| == 0 {
    } else if |parts| == 1 {
      ReplaceAllPlainPrefix(parts[0], "", pat, rep);
      assert parts[0] + "" == parts[0];
    } else {
      var rest := Join(parts[1..], pat);
      assert Join(parts, pat) == parts[0] + (pat + rest);
      ReplaceAllPlainPrefix(parts[0], pat + rest, pat, rep);
      ReplaceAllAtFront(pat, rest, rep);
      ReplaceAllJoin(parts[1..], pat, rep);
      assert Join(parts, rep) == parts[0] + (rep + Join(parts[1..], rep));
    }
  }

  /** Text containing none of the search strings comes back unchanged. */
  lemma {:induction false} ReplaceSequentialAbsent(s: string, pairs: seq<(string, string)>)
    requires forall k :: 0 <= k < |pairs| ==> !Occurs(pairs[k].0, s)
    ensures ReplaceSequential(s, pairs) == s
    decreases |pairs|
  {
    if |pairs| > 0 {
      ReplaceAllAbsent(s, pairs[0].0, pairs[0].1);
      ReplaceSequentialAbsent(s, pairs[1..]);
    }
  }

  /** `s` begins with `pat`. */
  predicate StartsWith(s: string, pat: string) {
    |pat| <= |s| && s[..|pat|] == pat
  }

  /** A search string cannot occur where its first character does not. */
  lemma FirstCharAbsent(s: string, pat: string)
    requires |pat| > 0 && pat[0] !in s
    ensures !Occurs(pat, s)
  {
    forall i ensures !OccursAt(pat, s, i) {
      if 0 <= i && i + |pat| <= |s| {
        assert s[i..i + |pat|][0] == s[i];
        assert s[i] in s;
      }
    }
  }

  /** Text whose only candidate position is the front, where the search
      string does not start, comes back unchanged. */
  lemma ReplaceAllOnlyAtFront(s: string, pat: string, rep: string)
    requires |pat| > 0 && |s| > 0
    requires pat[0] !in s[1..] && !StartsWith(s, pat)
    ensures ReplaceAll(s, pat, rep) == s
  {
    if |s| >= |pat| {
      ReplaceAllPlainPrefix(s[1..], "", pat, rep);
      assert s[1..] + "" == s[1..];
      assert [s[0]] + s[1..] == s;
    }
  }

  /** The search string on its own becomes the replacement. */
  lemma ReplaceAllWhole(pat: string, rep: string)
    requires |pat| > 0
    ensures ReplaceAll(pat, pat, rep) == rep
  {
    ReplaceAllAtFront(pat, "", rep);
    assert pat + "" == pat;
    assert rep + "" == rep;
  }

  /** Sequential replacement of a text that is exactly the `k`-th search
      string: earlier pairs leave it alone, the `k`-th replaces it, and later
      pairs find nothing in a replacement that lacks their first character. */
  lemma {:induction false} ReplaceSequentialSingle(s: string, pairs: seq<(string, string)>, k: nat)
    requires k < |pairs| && pairs[k].0 == s && |s| > 0
    requires forall j :: 0 <= j < k ==> |pairs[j].0| > 0 && pairs[j].0[0] !in s[1..] && !StartsWith(s, pairs[j].0)
    requires forall j :: k < j < |pairs| ==> |pairs[j].0| > 0 && pairs[j].0[0] !in pairs[k].1
    ensures ReplaceSequential(s, pairs) == pairs[k].1
    decreases k
  {
    if k == 0 {
      var rep := pairs[0].1;
      ReplaceAllWhole(s, rep);
      forall j | 0 <= j < |pairs[1..]| ensures !Occurs(pairs[1..][j].0, rep) {
        FirstCharAbsent(rep, pairs[j + 1].0);
      }
      ReplaceSequentialAbsent(rep, pairs[1..]);
    } else {
      ReplaceAllOnlyAtFront(s, pairs[0].0, pairs[0].1);
      ReplaceSequentialSingle(s, pairs[1..], k - 1);
    }
  }

  /** Sequential replacement of a text that is exactly the `k`-th search
      string, when no earlier search string occurs in it and no later one
      occurs in its replacement. */
  lemma {:induction false} ReplaceSequentialLone(s: string, pairs: seq<(string, string)>, k: nat)
    requires k < |pairs| && pairs[k].0 == s && |s| > 0
    requires forall j :: 0 <= j < k ==> !Occurs(pairs[j].0, s)
    requires forall j :: k < j < |pairs| ==> !Occurs(pairs[j].0, pairs[k].1)
    ensures ReplaceSequential(s, pairs) == pairs[k].1
    decreases k
  {
    if k == 0 {
      ReplaceAllWhole(s, pairs[0].1);
      forall j | 0 <= j < |pairs[1..]| ensures !Occurs(pairs[1..][j].0, pairs[0].1) {
        assert pairs[1..][j] == pairs[j + 1];
      }
      ReplaceSequentialAbsent(pairs[0].1, pairs[1..]);
    } else {
      ReplaceAllAbsent(s, pairs[0].0, pairs[0].1);
      ReplaceSequentialLone(s, pairs[1..], k - 1);
    }
  }

  /** Applying a list of pairs is applying its first part, then its second. */
  lemma {:induction false} ReplaceSequentialSplit(s: string, a: seq<(string, string)>, b: seq<(string, string)>)
    ensures ReplaceSequential(s, a + b) == ReplaceSequential(ReplaceSequential(s, a), b)
    decreases |a|
  {
    if |a| == 0 {
      assert a + b == b;
    } else {
      assert (a + b)[1..] == a[1..] + b;
      ReplaceSequentialSplit(ReplaceAll(s, a[0].0, a[0].1), a[1..], b);
    }
  }

  /** A search string does not occur at `i` when, inside the text, it
      differs from the text at its `w`-th character. */
  lemma NotOccursAtChar(pat: string, s: string, i: int, w: int)
    requires 0 <= w < |pat|
    requires 0 <= i && i + |pat| <= |s| ==> s[i + w] != pat[w]
    ensures !OccursAt(pat, s, i)
  {
    if 0 <= i && i + |pat| <= |s| {
      assert s[i..i + |pat|][w] == s[i + w];
    }
  }

  /** No occurrence of `pat` in `s + u` starts inside `s`. */
  ghost predicate NoStartIn(pat: string, s: string, u: string) {
    forall i :: 0 <= i < |s| ==> !OccursAt(pat, s + u, i)
  }

  /** When no occurrence starts inside the prefix `s`, the prefix is copied
      through and the scan carries on in `u`. */
  lemma {:induction false} ReplaceAllNoStartIn(s: string, u: string, pat: string, rep: string)
    requires |pat| > 0 && NoStartIn(pat, s, u)
    ensures ReplaceAll(s + u, pat, rep) == s + ReplaceAll(u, pat, rep)
    decreases |s|
  {
    var x := s + u;
    if |s| == 0 {
      assert x == u;
    } else if |x| < |pat| {
      assert ReplaceAll(u, pat, rep) == u;
    } else {
      assert !OccursAt(pat, x, 0);
      assert x[0..|pat|] == x[..|pat|];
      assert x[1..] == s[1..] + u;
      forall i | 0 <= i < |s[1..]| ensures !OccursAt(pat, s[1..] + u, i) {
        assert !OccursAt(pat, x, i + 1);
        if i + |pat| <= |s[1..] + u| {
          assert (s[1..] + u)[i..i + |pat|] == x[i + 1..i + 1 + |pat|];
        }
      }
      ReplaceAllNoStartIn(s[1..], u, pat, rep);
    }
  }

  /** A template cut into literal prose and search strings: `Token(k)`
      stands for the search string of the `k`-th pair. */
  datatype Piece = Prose(text: string) | Token(index: nat)

  /** Every token names one of the pairs. */
  predicate Indexed(ps: seq<Piece>, pairs: seq<(string, string)>) {
    forall m :: 0 <= m < |ps| ==> ps[m].Token? ==> ps[m].index < |pairs|
  }

  /** The template with the tokens of the first `stage` pairs shown as their
      replacements and the others still written out. */
  function Staged(ps: seq<Piece>, pairs: seq<(string, string)>, stage: nat): string
    requires Indexed(ps, pairs)
    decreases |ps|
  {
    if |ps| == 0 then ""
    else
      var head := match ps[0]
        case Prose(t) => t
        case Token(k) => if k < stage then pairs[k].1 else pairs[k].0;
      assert Indexed(ps[1..], pairs) by {
        forall m | 0 <= m < |ps[1..]| ensures ps[1..][m].Token? ==> ps[1..][m].index < |pairs| {
          assert ps[1..][m] == ps[m + 1];
        }
      }
      head + Staged(ps[1..], pairs, stage)
  }

  /** The template as written, every token spelled out. */
  function Written(ps: seq<Piece>, pairs: seq<(string, string)>): string
    requires Indexed(ps, pairs)
  {
    Staged(ps, pairs, 0)
  }

  /** The template with every token in place of its replacement and the
      prose between them as it stands. */
  function Substituted(ps: seq<Piece>, pairs: seq<(string, string)>): string
    requires Indexed(ps, pairs)
  {
    Staged(ps, pairs, |pairs|)
  }

  /** The `j`-th search string cannot be met while scanning piece `m` at
      stage `j`: prose and earlier replacements lack its first character,
      and no occurrence starts inside a later token, even one that runs on
      into the text after it. */
  ghost predicate PieceReady(ps: seq<Piece>, m: nat, pairs: seq<(string, string)>, j: nat)
    requires Indexed(ps, pairs) && m < |ps| && j < |pairs| && |pairs[j].0| > 0
  {
    match ps[m]
    case Prose(t) => pairs[j].0[0] !in t
    case Token(k) =>
      && (k < j ==> pairs[j].0[0] !in pairs[k].1)
      && (k > j ==> NoStartIn(pairs[j].0, pairs[k].0, Staged(ps[m + 1..], pairs, j)))
  }

  lemma IndexedTail(ps: seq<Piece>, pairs: seq<(string, string)>)
    requires Indexed(ps, pairs) && |ps| > 0
    ensures Indexed(ps[1..], pairs)
  {
    forall m | 0 <= m < |ps[1..]| ensures ps[1..][m].Token? ==> ps[1..][m].index < |pairs| {
      assert ps[1..][m] == ps[m + 1];
    }
  }

  /** One pass of the `j`-th pair over a template whose pieces are all ready
      replaces exactly its tokens. */
  lemma {:induction false} StagedStep(ps: seq<Piece>, pairs: seq<(string, string)>, j: nat)
    requires Indexed(ps, pairs) && j < |pairs| && |pairs[j].0| > 0
    requires forall m :: 0 <= m < |ps| ==> PieceReady(ps, m, pairs, j)
    ensures ReplaceAll(Staged(ps, pairs, j), pairs[j].0, pairs[j].1) == Staged(ps, pairs, j + 1)
    decreases |ps|
  {
    var pat, rep := pairs[j].0, pairs[j].1;
    if |ps| > 0 {
      IndexedTail(ps, pairs);
      var tail := ps[1..];
      forall m | 0 <= m < |tail| ensures PieceReady(tail, m, pairs, j) {
        assert tail[m] == ps[m + 1];
        assert tail[m + 1..] == ps[m + 2..];
        assert PieceReady(ps, m + 1, pairs, j);
      }
      StagedStep(tail, pairs, j);
      var r := Staged(tail, pairs, j);
      assert PieceReady(ps, 0, pairs, j);
      assert ps[1..] == ps[0 + 1..];
      match ps[0]
      case Prose(t) =>
        ReplaceAllPlainPrefix(t, r, pat, rep);
      case Token(k) =>
        if k < j {
          ReplaceAllPlainPrefix(pairs[k].1, r, pat, rep);
        } else if k == j {
          ReplaceAllAtFront(pat, r, rep);
        } else {
          ReplaceAllNoStartIn(pairs[k].0, r, pat, rep);
        }
    }
  }

  /** Applying the pairs from the `j`-th on to the template at stage `j`,
      when each pass replaces exactly its tokens, fills the template. */
  lemma {:induction false} StagedSequential(ps: seq<Piece>, pairs: seq<(string, string)>, j: nat)
    requires Indexed(ps, pairs) && j <= |pairs|
    requires forall i :: j <= i < |pairs| ==>
      ReplaceAll(Staged(ps, pairs, i), pairs[i].0, pairs[i].1) == Staged(ps, pairs, i + 1)
    ensures ReplaceSequential(Staged(ps, pairs, j), pairs[j..]) == Substituted(ps, pairs)
    decreases |pairs| - j
  {
    if j < |pairs| {
      assert pairs[j..][0] == pairs[j];
      assert pairs[j..][1..] == pairs[j + 1..];
      StagedSequential(ps, pairs, j + 1);
    }
  }

  /** A character that is in no prose piece and no replacement is not in
      the filled template. */
  lemma {:induction false} SubstitutedLacks(ps: seq<Piece>, pairs: seq<(string, string)>, c: char)
    requires Indexed(ps, pairs)
    requires forall m :: 0 <= m < |ps| ==> ps[m].Prose? ==> c !in ps[m].text
    requires forall k :: 0 <= k < |pairs| ==> c !in pairs[k].1
    ensures c !in Substituted(ps, pairs)
    decreases |ps|
  {
    if |ps| > 0 {
      IndexedTail(ps, pairs);
      forall m | 0 <= m < |ps[1..]| ensures ps[1..][m].Prose? ==> c !in ps[1..][m].text {
        assert ps[1..][m] == ps[m + 1];
      }
      SubstitutedLacks(ps[1..], pairs, c);
    }
  }
}
