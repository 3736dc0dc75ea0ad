/** The quota fold: field-wise minimum with unset meaning unlimited. */
module Quotas {
  import opened Wrappers
  import opened Api

  datatype Window = TokensPerMinute | RequestsPerMinute | TokensPerDay | TokensPerMonth

  /** The limit a quota puts on a window; None is no limit. */
  function Limit(q: Option<TokenQuota>, w: Window): Option<int> {
    match q
    case None => None
    case Some(t) =>
      match w
      case TokensPerMinute => t.tokensPerMinute
      case RequestsPerMinute => t.requestsPerMinute
      case TokensPerDay => t.tokensPerDay
      case TokensPerMonth => t.tokensPerMonth
  }

  function MinPtr(a: Option<int>, b: Option<int>): Option<int> {
    match (a, b)
    case (None, _) => b
    case (_, None) => a
    case (Some(x), Some(y)) => if x <= y then a else b
  }

  function MinQuota(a: Option<TokenQuota>, b: Option<TokenQuota>): Option<TokenQuota> {
    match (a, b)
    case (None, _) => b
    case (_, None) => a
    case (Some(x), Some(y)) =>
      Some(TokenQuota(
        MinPtr(x.tokensPerMinute, y.tokensPerMinute), MinPtr(x.requestsPerMinute, y.requestsPerMinute),
        MinPtr(x.tokensPerDay, y.tokensPerDay), MinPtr(x.tokensPerMonth, y.tokensPerMonth)))
  }

  predicate LimitAtMost(a: Option<int>, b: Option<int>) {
    b.None? || (a.Some? && a.value <= b.value)
  }

  /** q is at least as restrictive as r in every window. */
  ghost predicate AtMost(q: Option<TokenQuota>, r: Option<TokenQuota>) {
    forall w: Window :: LimitAtMost(Limit(q, w), Limit(r, w))
  }

  lemma MinQuotaIsMeet(a: Option<TokenQuota>, b: Option<TokenQuota>)
    ensures AtMost(MinQuota(a, b), a) && AtMost(MinQuota(a, b), b)
    ensures forall w: Window :: Limit(MinQuota(a, b), w) in {Limit(a, w), Limit(b, w)}
    ensures MinQuota(a, b) == None <==> a == None && b == None
  {
    forall w: Window
      ensures LimitAtMost(Limit(MinQuota(a, b), w), Limit(a, w))
      ensures LimitAtMost(Limit(MinQuota(a, b), w), Limit(b, w))
      ensures Limit(MinQuota(a, b), w) in {Limit(a, w), Limit(b, w)}
    {
      match w { case TokensPerMinute => case RequestsPerMinute => case TokensPerDay => case TokensPerMonth => }
    }
  }

  lemma AtMostTransitive(a: Option<TokenQuota>, b: Option<TokenQuota>, c: Option<TokenQuota>)
    requires AtMost(a, b) && AtMost(b, c)
    ensures AtMost(a, c)
  {
    forall w: Window ensures LimitAtMost(Limit(a, w), Limit(c, w)) {
      assert LimitAtMost(Limit(a, w), Limit(b, w)) && LimitAtMost(Limit(b, w), Limit(c, w));
    }
  }
}
