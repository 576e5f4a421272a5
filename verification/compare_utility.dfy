/** `CompareUtility.clamp` over any type with a `compareTo`. */
module CompareUtility {

  function Sign(x: int): int {
    if x < 0 then -1 else if x > 0 then 1 else 0
  }

  /** The contract of `Comparable.compareTo`: swapping the arguments flips the
      sign, "greater than" is transitive, and elements comparing equal compare
      alike with everything else. */
  ghost predicate IsComparator<T(!new)>(compare: (T, T) -> int) {
    && (forall a, b :: Sign(compare(a, b)) == -Sign(compare(b, a)))
    && (forall a, b, c :: compare(a, b) > 0 && compare(b, c) > 0 ==> compare(a, c) > 0)
    && (forall a, b, c :: compare(a, b) == 0 ==> Sign(compare(a, c)) == Sign(compare(b, c)))
  }

  /** `clamp`: `min` if the value is below it, else `max` if the value is above
      that, else the value. The result is always one of the three arguments. */
  function Clamp<T>(value: T, min: T, max: T, compare: (T, T) -> int): (clamped: T)
    ensures clamped == value || clamped == min || clamped == max
    ensures compare(value, min) < 0 ==> clamped == min
    ensures compare(value, min) >= 0 && compare(value, max) > 0 ==> clamped == max
    ensures compare(value, min) >= 0 && compare(value, max) <= 0 ==> clamped == value
  {
    if compare(value, min) < 0 then min
    else if compare(value, max) > 0 then max
    else value
  }

  /** With `min <= max` the result lies in `[min, max]`. */
  lemma ClampWithinBounds<T(!new)>(value: T, min: T, max: T, compare: (T, T) -> int)
    requires IsComparator(compare)
    requires compare(min, max) <= 0
    ensures compare(min, Clamp(value, min, max, compare)) <= 0
    ensures compare(Clamp(value, min, max, compare), max) <= 0
  {
    assert Sign(compare(min, min)) == -Sign(compare(min, min));
    assert Sign(compare(max, max)) == -Sign(compare(max, max));
    assert Sign(compare(value, min)) == -Sign(compare(min, value));
    assert Sign(compare(max, min)) == -Sign(compare(min, max));
  }

  /** With `min <= max`, clamping twice is clamping once. */
  lemma ClampIdempotent<T(!new)>(value: T, min: T, max: T, compare: (T, T) -> int)
    requires IsComparator(compare)
    requires compare(min, max) <= 0
    ensures Clamp(Clamp(value, min, max, compare), min, max, compare) == Clamp(value, min, max, compare)
  {
    ClampWithinBounds(value, min, max, compare);
    var r := Clamp(value, min, max, compare);
    assert Sign(compare(min, r)) == -Sign(compare(r, min));
  }

  /** With `min > max` the bounds are not checked: values below `min` give
      `min`, all others give `max`. */
  lemma ClampInvertedBounds<T(!new)>(value: T, min: T, max: T, compare: (T, T) -> int)
    requires IsComparator(compare)
    requires compare(min, max) > 0
    ensures Clamp(value, min, max, compare) == if compare(value, min) < 0 then min else max
  {
    if compare(value, min) >= 0 {
      if compare(value, min) == 0 {
        assert Sign(compare(value, max)) == Sign(compare(min, max));
      }
    }
  }

  /** `Integer.compareTo`. */
  function IntCompare(a: int, b: int): int {
    if a < b then -1 else if a > b then 1 else 0
  }

  /** On integers with `lo <= hi`, `clamp` is `max(lo, min(value, hi))`. */
  lemma ClampIntegers(value: int, lo: int, hi: int)
    requires lo <= hi
    ensures Clamp(value, lo, hi, IntCompare) == if value < lo then lo else if value > hi then hi else value
  {
  }
}
