/** Tokens of the partitioner ring and ranges of tokens, shared by the
    token metadata, the replication strategies and the storage service.
    A `dht::token` of the ring is an integer; the special minimum and
    maximum tokens appear only where a range has no bound. */
module Ring {
  import opened Util

  type Token = int

  /** Strictly ascending: `std::sort` of distinct tokens. */
  predicate Increasing(s: seq<Token>)
  {
    forall i, j :: 0 <= i < j < |s| ==> s[i] < s[j]
  }

  function InsertToken(s: seq<Token>, x: Token): (r: seq<Token>)
    requires Increasing(s) && x !in s
    ensures Increasing(r)
    ensures |r| == |s| + 1
    ensures forall y :: y in r <==> y in s || y == x
  {
    if s == [] then [x]
    else if x < s[0] then [x] + s
    else
      var t := InsertToken(s[1..], x);
      assert forall j :: 0 <= j < |t| ==> s[0] < t[j] by {
        forall j | 0 <= j < |t| ensures s[0] < t[j] {
          assert t[j] in s[1..] || t[j] == x;
        }
      }
      [s[0]] + t
  }

  /** Collect a set of tokens into a vector and sort it. */
  method SortTokens(items: set<Token>) returns (r: seq<Token>)
    ensures Increasing(r)
    ensures |r| == |items|
    ensures forall y :: y in r <==> y in items
  {
    r := [];
    var rest := items;
    while rest != {}
      invariant Increasing(r)
      invariant rest <= items
      invariant forall y :: y in r <==> y in items && y !in rest
      invariant |r| + |rest| == |items|
      decreases |rest|
    {
      EmptyOrInhabited(rest);
      var x :| x in rest;
      r := InsertToken(r, x);
      rest := rest - {x};
    }
  }

  lemma EmptyOrInhabited(s: set<Token>)
    ensures s == {} || exists x :: x in s
  {
    if forall x :: x !in s {
      assert s == {};
    }
  }

  /** `std::lower_bound`: the first position whose token is not less than `x`. */
  function LowerBound(s: seq<Token>, x: Token): (i: nat)
    ensures i <= |s|
    ensures forall j :: 0 <= j < i ==> s[j] < x
    ensures i < |s| ==> s[i] >= x
  {
    if s == [] || s[0] >= x then 0 else 1 + LowerBound(s[1..], x)
  }

  /** On an ascending vector everything from the lower bound on is at least `x`. */
  lemma LowerBoundPartitions(s: seq<Token>, x: Token)
    requires Increasing(s)
    ensures forall j :: LowerBound(s, x) <= j < |s| ==> s[j] >= x
  {
  }

  // ----- ranges ------------------------------------------------------------

  datatype Bound = Bound(value: Token, inclusive: bool)

  /** A non-wrapping `dht::token_range`: a missing bound is unbounded. */
  datatype TokenRange = TokenRange(start: Option<Bound>, end: Option<Bound>)

  /** `(a, b]` */
  function OpenClosed(a: Token, b: Token): TokenRange
  {
    TokenRange(Some(Bound(a, false)), Some(Bound(b, true)))
  }

  predicate AfterStart(r: TokenRange, t: Token)
  {
    r.start.None? || (if r.start.value.inclusive then r.start.value.value <= t else r.start.value.value < t)
  }

  predicate BeforeEnd(r: TokenRange, t: Token)
  {
    r.end.None? || (if r.end.value.inclusive then t <= r.end.value.value else t < r.end.value.value)
  }

  predicate Contains(r: TokenRange, t: Token)
  {
    AfterStart(r, t) && BeforeEnd(r, t)
  }
}
