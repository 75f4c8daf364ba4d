/** The few Python built-ins whose meaning the upgrade scripts depend on,
    and a sequence helper for writing request traces. */
module Python {

  /** A value that may be Python's `None`. */
  datatype Option<+T> = None | Some(value: T)

  /** `n` copies of `x`: a run of identical requests in a trace. */
  function Repeat<T>(x: T, n: nat): (s: seq<T>)
    ensures |s| == n
    ensures forall i :: 0 <= i < n ==> s[i] == x
  {
    if n == 0 then [] else [x] + Repeat(x, n - 1)
  }

  /** `needle` occurs in `haystack` as a contiguous run starting at position `i`. */
  predicate OccursAt(needle: string, haystack: string, i: int)
  {
    0 <= i && i + |needle| <= |haystack| && haystack[i..i + |needle|] == needle
  }

  /** Python's `needle in haystack` on two `str` values: a left-to-right scan
      for a contiguous occurrence. The empty string is contained in every string. */
  function Contains(needle: string, haystack: string): bool
    decreases |haystack|
  {
    if |needle| > |haystack| then false
    else if haystack[..|needle|] == needle then true
    else Contains(needle, haystack[1..])
  }

  /** The scan finds an occurrence exactly when one exists. */
  lemma {:induction false} ContainsIsOccurrence(needle: string, haystack: string)
    ensures Contains(needle, haystack) <==> exists i :: OccursAt(needle, haystack, i)
    decreases |haystack|
  {
    if |needle| > |haystack| {
    } else if haystack[..|needle|] == needle {
      assert OccursAt(needle, haystack, 0);
    } else {
      var tail := haystack[1..];
      ContainsIsOccurrence(needle, tail);
      if Contains(needle, tail) {
        var i :| OccursAt(needle, tail, i);
        assert tail[i..i + |needle|] == haystack[i + 1..i + 1 + |needle|];
        assert OccursAt(needle, haystack, i + 1);
      }
      if i :| OccursAt(needle, haystack, i) {
        assert i != 0;
        assert tail[i - 1..i - 1 + |needle|] == haystack[i..i + |needle|];
        assert OccursAt(needle, tail, i - 1);
      }
    }
  }

  /** Between strings of the same length, `in` is plain equality. */
  lemma EqualLengthContainsIsEquality(needle: string, haystack: string)
    requires |needle| == |haystack|
    ensures Contains(needle, haystack) <==> needle == haystack
  {
    ContainsIsOccurrence(needle, haystack);
    if Contains(needle, haystack) {
      var i :| OccursAt(needle, haystack, i);
      assert i == 0;
      assert haystack[0..|haystack|] == haystack;
    } else {
      assert !OccursAt(needle, haystack, 0);
      assert haystack[0..|needle|] == haystack;
    }
  }

  /** A string is contained in every string that extends it, so `in`
      accepts strings that are not equal. */
  lemma PrefixIsContained(needle: string, rest: string)
    ensures Contains(needle, needle + rest)
  {
    assert (needle + rest)[..|needle|] == needle;
  }
}
