/**
 * The two JavaScript array operations the form's handlers rely on, modelled
 * on sequences: element assignment `a[i] = v` (which appends when `i` is the
 * current length) and `a.filter((_, i) => i !== index)`.
 */
module JsArray {

  /** `a[i] = v` on a copy of `a`; writing at `|a|` appends one element. */
  function Assign<T>(a: seq<T>, i: nat, v: T): (r: seq<T>)
    requires i <= |a|
    ensures |r| == if i < |a| then |a| else |a| + 1
    ensures r[i] == v
    ensures forall k :: 0 <= k < |a| && k != i ==> r[k] == a[k]
  {
    if i < |a| then a[i := v] else a + [v]
  }

  /**
   * `a.filter((_, i) => i !== index)`: keeps, in order, every element whose
   * position differs from `index`. Any `index` is accepted; one outside the
   * array keeps everything.
   */
  function FilterOutIndex<T>(a: seq<T>, index: int): (r: seq<T>)
    ensures 0 <= index < |a| ==> r == a[..index] + a[index + 1..]
    ensures !(0 <= index < |a|) ==> r == a
    decreases |a|
  {
    if |a| == 0 then []
    else
      var init := FilterOutIndex(a[..|a| - 1], index);
      if |a| - 1 != index then init + [a[|a| - 1]] else init
  }
}
