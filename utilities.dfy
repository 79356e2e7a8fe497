/** `clamp` from x.hpp's utility section, over integers. */
module Utilities {

  /**
   * `clamp(value, min, max)`: `min` when `value < min`, otherwise `max` when
   * `value > max`, otherwise `value`. No order between `min` and `max` is
   * demanded; when `min > max` the first test wins for values below `min`
   * and every other value gives `max`.
   */
  function Clamp(value: int, min: int, max: int): (r: int)
    ensures min <= max ==> min <= r <= max
    ensures min <= value <= max ==> r == value
    ensures value < min ==> r == min
    ensures min <= value && max < value ==> r == max
  {
    if value < min then min else if value > max then max else value
  }

  /** Clamping into a well-ordered range is idempotent and does not reverse the order of two values. */
  lemma ClampProperties(a: int, b: int, min: int, max: int)
    requires min <= max
    ensures Clamp(Clamp(a, min, max), min, max) == Clamp(a, min, max)
    ensures a <= b ==> Clamp(a, min, max) <= Clamp(b, min, max)
  {
  }
}
