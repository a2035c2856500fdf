/** Values that may be missing, and JavaScript's `value || default`. */
module Wrappers {

  datatype Option<+T> = None | Some(value: T)

  /** `n || default` for a number that may be absent (`undefined`, or `NaN`
      from `parseInt`): an absent value and zero both fall back to the
      default, every other value is kept. */
  function OrDefault(v: Option<int>, default: int): (r: int)
    ensures v.Some? && v.value != 0 ==> r == v.value
    ensures v.None? || v.value == 0 ==> r == default
  {
    if v.Some? && v.value != 0 then v.value else default
  }
}
