/** The string helpers the object manager relies on: JavaScript's
    `String.prototype.indexOf` with a start position, and `endsWith`
    (uavtalk.js:155-157) built on it. */
module Text {

  /** `search` occurs in `str` at position `k`. */
  predicate OccursAt(str: string, search: string, k: int)
  {
    0 <= k && k + |search| <= |str| && str[k..k + |search|] == search
  }

  /** The search from position `k` on, one candidate after another. */
  function IndexFrom(str: string, search: string, k: nat): (r: int)
    requires k <= |str|
    ensures r == -1 || (k <= r && OccursAt(str, search, r))
    ensures forall j :: k <= j < (if r == -1 then |str| + 1 else r) ==> !OccursAt(str, search, j)
    decreases |str| - k
  {
    if k + |search| > |str| then -1
    else if str[k..k + |search|] == search then k
    else if k == |str| then -1
    else IndexFrom(str, search, k + 1)
  }

  /** `str.indexOf(search, fromIndex)`: the start is clamped to 0..length; the
      result is the first occurrence at or after it, or -1. */
  function IndexOf(str: string, search: string, fromIndex: int): (r: int)
    ensures var start := if fromIndex < 0 then 0 else if fromIndex > |str| then |str| else fromIndex;
            && (r == -1 || (start <= r && OccursAt(str, search, r)))
            && forall j :: start <= j < (if r == -1 then |str| + 1 else r) ==> !OccursAt(str, search, j)
  {
    var start := if fromIndex < 0 then 0 else if fromIndex > |str| then |str| else fromIndex;
    IndexFrom(str, search, start)
  }

  /** `endsWith(str, suffix)`: an occurrence of the suffix at or after the last
      position where it can still fit. */
  function EndsWith(str: string, suffix: string): bool
  {
    IndexOf(str, suffix, |str| - |suffix|) != -1
  }

  /** `endsWith` holds exactly when `suffix` is a suffix of `str`, including the
      case of a suffix longer than the string, where the clamped search starts at 0. */
  lemma EndsWithIff(str: string, suffix: string)
    ensures EndsWith(str, suffix) <==> |suffix| <= |str| && str[|str| - |suffix|..] == suffix
  {
    var k := |str| - |suffix|;
    if |suffix| <= |str| {
      assert str[k..k + |suffix|] == str[k..];
      if !EndsWith(str, suffix) {
        assert !OccursAt(str, suffix, k);
      }
    }
  }
}
