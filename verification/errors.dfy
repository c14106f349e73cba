/**
 * Errors as the ruler API sees them: the sentinel errors of the alerting
 * models, wrapped with context the way `fmt.Errorf("...: %w", err)` does,
 * the `errors.Is` test that looks through any number of wrappings, and the
 * HTTP status class a failed rule-group update is answered with.
 */
module Errors {

  datatype Option<+T> = None | Some(value: T)

  /** The sentinel errors the reconciliation tells apart. */
  datatype Sentinel =
    | AlertRuleNotFound               // ngmodels.ErrAlertRuleNotFound
    | AlertRuleFailedValidation       // ngmodels.ErrAlertRuleFailedValidation
    | QuotaReached                    // errQuotaReached
    | StoreFailure(message: string)   // any other error a collaborator returns

  /** A sentinel, possibly wrapped in several layers of context. */
  datatype Error = Base(sentinel: Sentinel) | Wrapped(context: string, cause: Error)

  datatype Result<+T> = Ok(value: T) | Err(error: Error)

  /** The sentinel at the bottom of a chain of wrappings. */
  function Root(e: Error): Sentinel
  {
    match e
    case Base(s) => s
    case Wrapped(_, cause) => Root(cause)
  }

  /** `errors.Is(e, s)`: walks the chain of wrapped causes looking for `s`. */
  predicate Is(e: Error, s: Sentinel)
  {
    match e
    case Base(k) => k == s
    case Wrapped(_, cause) => Is(cause, s)
  }

  /** `errors.Is` answers yes for exactly one sentinel: the root of the chain. */
  lemma {:induction false} IsFindsRoot(e: Error, s: Sentinel)
    ensures Is(e, s) <==> Root(e) == s
  {
    match e
    case Base(_) =>
    case Wrapped(_, cause) => IsFindsRoot(cause, s);
  }

  /**
   * The status class of a failed transaction, tested in the order the ruler
   * tests it: rule not found, failed validation, quota reached, anything else.
   */
  function StatusOf(e: Error): (code: int)
    ensures code == 404 <==> Root(e) == AlertRuleNotFound
    ensures code == 400 <==> Root(e) == AlertRuleFailedValidation
    ensures code == 403 <==> Root(e) == QuotaReached
    ensures code == 500 <==> Root(e).StoreFailure?
  {
    IsFindsRoot(e, AlertRuleNotFound);
    IsFindsRoot(e, AlertRuleFailedValidation);
    IsFindsRoot(e, QuotaReached);
    if Is(e, AlertRuleNotFound) then 404
    else if Is(e, AlertRuleFailedValidation) then 400
    else if Is(e, QuotaReached) then 403
    else 500
  }

  /** Adding context with `%w` never changes how an error is classified. */
  lemma {:induction false} WrappingKeepsStatus(context: string, e: Error)
    ensures StatusOf(Wrapped(context, e)) == StatusOf(e)
    ensures forall s :: Is(Wrapped(context, e), s) <==> Is(e, s)
  {
  }
}
