/** Errors raised by the similarity engine and its helpers, and the
    Result type that carries them in place of Python exceptions. */
module Wrappers {

  /** The exceptions of the core, one constructor per distinct condition. */
  datatype Error =
    | LengthMismatch          // signatures of different lengths
    | SimilarityOutOfRange    // similarity argument outside [0, 1]
    | ZeroDivision            // 0.0 raised to a negative power
    | NoValidParams           // no divisor pair (t <= 0)
    | ParamsMismatch          // r * b differs from the signature length
    | NonPositiveK            // k-gram size k <= 0
    | UnsupportedMode         // k-gram mode other than "char" or "word"
    | NoRows                  // recommend_t on an empty row list
    | IndexError              // a table row with more cells than headers

  datatype Result<T> = Ok(value: T) | Err(error: Error)

  datatype Option<T> = None | Some(value: T)

  /** A loop over the entries of a mapping that applies `f` to every value
      and stores the result under the same key; the first failure is raised
      and ends the loop. */
  method MapResults<K, U, V>(m: map<K, U>, f: U -> Result<V>) returns (res: Result<map<K, V>>)
    ensures res.Ok? <==> forall key :: key in m ==> f(m[key]).Ok?
    ensures res.Ok? ==> res.value.Keys == m.Keys
    ensures res.Ok? ==> forall key :: key in m ==> f(m[key]) == Ok(res.value[key])
    ensures res.Err? ==> exists key :: key in m && f(m[key]) == Err(res.error)
  {
    var out: map<K, V> := map[];
    var remaining := m.Keys;
    while remaining != {}
      invariant remaining <= m.Keys
      invariant out.Keys == m.Keys - remaining
      invariant forall key :: key in out ==> f(m[key]) == Ok(out[key])
      decreases |remaining|
    {
      var key :| key in remaining;
      var r := f(m[key]);
      if r.Err? {
        return Err(r.error);
      }
      out := out[key := r.value];
      remaining := remaining - {key};
    }
    return Ok(out);
  }
}
