/** The crate's `OptionHelper::or_err`: turns a missing value into a chosen
    error. */
module OptionHelper {
  import opened Prelude

  /** `Some(v)` becomes `Ok(v)`; `None` becomes `Err(err)`. */
  function OrErr<T, E>(o: Option<T>, err: E): (r: Result<T, E>)
    ensures r.Ok? <==> o.Some?
    ensures o.Some? ==> r.value == o.value
    ensures o.None? ==> r.error == err
  {
    match o
    case Some(v) => Ok(v)
    case None => Err(err)
  }

  /** The error argument is irrelevant when a value is present. */
  lemma OrErrIgnoresErrorOnSome<T, E>(v: T, e1: E, e2: E)
    ensures OrErr(Some(v), e1) == OrErr(Some(v), e2) == Ok(v)
  {
  }

  /** `or_err` is the crate's own copy of the standard `ok_or`, which the
      scanner's one-byte read uses instead. */
  lemma OrErrIsOkOr<T, E>(o: Option<T>, err: E)
    ensures OrErr(o, err) == o.OkOr(err)
  {
  }

  /** Forgetting the error again gives back the original option. */
  lemma OrErrThenOk<T, E>(o: Option<T>, err: E)
    ensures OrErr(o, err).ToOption() == o
  {
  }
}
