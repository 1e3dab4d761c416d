/** How a Python sequence resolves a position or a slice against its length. */
module Positions {
  import opened Outcomes

  /**
   * A position into a sequence of length `n`: negative positions count from
   * the end, and anything outside [-n, n) raises IndexError.
   */
  function Resolve(index: int, n: nat): (r: Result<nat>)
    ensures r.Ok? <==> -(n as int) <= index < n
    ensures r.Ok? ==> r.value < n && r.value == (if index < 0 then index + n else index)
    ensures r.Err? ==> r.error == IndexError
  {
    if 0 <= index < n then Ok(index)
    else if -(n as int) <= index < 0 then Ok(index + n)
    else Err(IndexError)
  }

  /** A slice with step 1; `None` stands for an omitted bound. */
  datatype Slice = Slice(start: Option<int>, stop: Option<int>)

  /** One slice bound, clamped into [0, n] the way Python clamps it. */
  function Clamp(bound: Option<int>, default: nat, n: nat): (r: nat)
    requires default <= n
    ensures r <= n
    ensures bound.None? ==> r == default
    ensures bound.Some? && 0 <= bound.value <= n ==> r == bound.value
    ensures bound.Some? && -(n as int) <= bound.value < 0 ==> r == bound.value + n
    ensures bound.Some? && bound.value < -(n as int) ==> r == 0
    ensures bound.Some? && bound.value > n ==> r == n
  {
    match bound
    case None => default
    case Some(i) =>
      if i < 0 then (if i + n < 0 then 0 else i + n)
      else if i > n then n
      else i
  }

  /**
   * The half-open range [lo, hi) of positions that a slice selects from a
   * sequence of length `n`: each bound is clamped as `Clamp` states, and a
   * stop that resolves before the start selects nothing.
   */
  function Bounds(sl: Slice, n: nat): (r: (nat, nat))
    ensures r.0 <= r.1 <= n
    ensures sl.start.None? ==> r.0 == 0
    ensures sl.start.Some? && 0 <= sl.start.value <= n ==> r.0 == sl.start.value
    ensures sl.start.Some? && -(n as int) <= sl.start.value < 0 ==> r.0 == sl.start.value + n
    ensures sl.start.Some? && sl.start.value < -(n as int) ==> r.0 == 0
    ensures sl.start.Some? && sl.start.value > n ==> r.0 == n
    ensures Clamp(sl.stop, n, n) >= r.0 ==> r.1 == Clamp(sl.stop, n, n)
    ensures Clamp(sl.stop, n, n) < r.0 ==> r.1 == r.0
  {
    var lo := Clamp(sl.start, 0, n);
    var hi := Clamp(sl.stop, n, n);
    (lo, if hi < lo then lo else hi)
  }
}
