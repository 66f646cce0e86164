/** The crate's `ResultHelper`: substitute the success value or the error of
    a `Result` while keeping which of the two it is. */
module ResultHelper {
  import opened Prelude
  import OptionHelper

  /** `replace`: keep the outcome, swap a success value for `val`. */
  function Replace<T, U, E>(r: Result<T, E>, val: U): (r': Result<U, E>)
    ensures r'.Ok? <==> r.Ok?
    ensures r.Ok? ==> r'.value == val
    ensures r.Err? ==> r'.error == r.error
  {
    match r
    case Ok(_) => Ok(val)
    case Err(e) => Err(e)
  }

  /** `replace_err`: keep the outcome, swap any error for `err`, discarding
      the original one. */
  function ReplaceErr<T, E, F>(r: Result<T, E>, err: F): (r': Result<T, F>)
    ensures r'.Ok? <==> r.Ok?
    ensures r.Ok? ==> r'.value == r.value
    ensures r.Err? ==> r'.error == err
  {
    match r
    case Ok(t) => Ok(t)
    case Err(_) => Err(err)
  }

  /** Only the last substituted error is ever seen. */
  lemma ReplaceErrTwice<T, E, F, G>(r: Result<T, E>, e1: F, e2: G)
    ensures ReplaceErr(ReplaceErr(r, e1), e2) == ReplaceErr(r, e2)
  {
  }

  /** The two substitutions act on disjoint halves, so their order is
      irrelevant. */
  lemma ReplaceCommutesWithReplaceErr<T, U, E, F>(r: Result<T, E>, val: U, err: F)
    ensures ReplaceErr(Replace(r, val), err) == Replace(ReplaceErr(r, err), val)
  {
  }

  /** The two routes from a fallible read to a parse error agree: going
      through `Option` (`.ok()` then `or_err`, as the `BytesLE` reads are
      used) is the same as `replace_err` directly (as the scanner does). */
  lemma ReplaceErrIsOkThenOrErr<T, E, F>(r: Result<T, E>, err: F)
    ensures ReplaceErr(r, err) == OptionHelper.OrErr(r.ToOption(), err)
  {
  }
}
