/** The few pieces of Python's value model the classifier depends on: the
    values `ast.literal_eval` can produce (as far as the drug-field parser
    distinguishes them) and the clamping semantics of a slice `s[start:stop]`. */
module Py {

  datatype Option<T> = None | Some(value: T)

  /** A Python literal value, as far as the drug-field parser looks at it:
      strings, lists and tuples are told apart, everything else (numbers,
      dicts, sets, booleans, None, bytes) is some other value. */
  datatype Value =
    | Str(s: string)
    | List(items: seq<Value>)
    | Tuple(items: seq<Value>)
    | Other(repr: string)
  {
    predicate IsSequence() {
      List? || Tuple?
    }
  }

  // ---------------------------------------------------------------------------
  // Slicing `s[start:stop]` with step 1
  // ---------------------------------------------------------------------------

  /** How CPython adjusts a slice bound for a sequence of length `n`: a negative
      bound counts from the end, and the result is clamped into `0..n`. */
  function SliceBound(i: int, n: nat): (b: nat)
    ensures b <= n
    ensures 0 <= i <= n ==> b == i
    ensures i < 0 && 0 <= i + n ==> b == i + n
    ensures i + n < 0 ==> b == 0
    ensures n < i ==> b == n
  {
    if i < 0 then (if i + n < 0 then 0 else i + n)
    else if i > n then n
    else i
  }

  /** `s[start:stop]`: the elements between the adjusted bounds, or nothing
      when the adjusted start is not before the adjusted stop. */
  function Slice<T>(s: seq<T>, start: int, stop: int): (r: seq<T>)
    ensures |r| <= |s|
    ensures |r| == if SliceBound(start, |s|) < SliceBound(stop, |s|)
                   then SliceBound(stop, |s|) - SliceBound(start, |s|) else 0
    ensures forall k :: 0 <= k < |r| ==> r[k] == s[SliceBound(start, |s|) + k]
  {
    var lo, hi := SliceBound(start, |s|), SliceBound(stop, |s|);
    if lo < hi then s[lo..hi] else []
  }

  /** The default bounds `start=0, stop=-1` drop the last element: the slice is
      everything but the last element, and nothing at all for an empty sequence. */
  lemma DefaultSliceDropsLast<T>(s: seq<T>)
    ensures |s| == 0 ==> Slice(s, 0, -1) == []
    ensures |s| > 0 ==> Slice(s, 0, -1) == s[..|s| - 1]
  {
  }

  /** The full slice `s[0:len(s)]` is the whole sequence. */
  lemma FullSlice<T>(s: seq<T>)
    ensures Slice(s, 0, |s|) == s
  {
  }
}
