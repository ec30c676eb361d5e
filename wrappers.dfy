/** Option and Result values shared by the other modules. */
module Wrappers {

  datatype Option<+T> = None | Some(value: T)

  /** The outcome of an operation that the source either completes or aborts with an error. */
  datatype Result<+T, +E> = Ok(value: T) | Err(error: E)

  /** Whether an optional JavaScript number is falsy: absent or zero (NaN is not modelled). */
  predicate Falsy(x: Option<real>)
  {
    x.None? || x.value == 0.0
  }

  /** `x || d` for an optional JavaScript number: a falsy value takes the default. */
  function OrDefault(x: Option<real>, d: real): (r: real)
    ensures x.None? ==> r == d
    ensures x.Some? ==> r == (if x.value == 0.0 then d else x.value)
  {
    if Falsy(x) then d else x.value
  }
}
