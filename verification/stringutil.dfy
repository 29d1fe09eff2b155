/**
 String reversal by code point. A Go string is first decoded into a slice
 of runes; here the input is that decoded slice, a sequence of `Rune`
 values, and the result is the slice the loop leaves behind before it is
 encoded back into a string.
 */
module StringUtil {
  import opened Reversal

  /** A Go `rune`: a 32-bit signed integer holding one code point. */
  newtype Rune = x: int | -0x8000_0000 <= x < 0x8000_0000

  /** The state of the two-pointer loop over `t`, a working copy of `s`:
      `i + j == |s| - 1`, the outer parts `[0, i)` and `(j, |s|)` already
      hold their mirrored values, the middle `[i, j]` is untouched, and no
      element has been added or dropped. */
  ghost predicate HalfReversed<T>(s: seq<T>, t: seq<T>, i: int, j: int) {
    && |t| == |s|
    && 0 <= i <= j + 1 <= |s|
    && i + j == |s| - 1
    && (forall k :: 0 <= k < i ==> t[k] == s[|s| - 1 - k])
    && (forall k :: j < k < |s| ==> t[k] == s[|s| - 1 - k])
    && (forall k :: i <= k <= j ==> t[k] == s[k])
    && multiset(t) == multiset(s)
  }

  /** One swap of the loop keeps the loop state, one step further in. */
  lemma SwapStep<T>(s: seq<T>, t: seq<T>, i: int, j: int)
    requires HalfReversed(s, t, i, j) && i < j
    ensures HalfReversed(s, Swap(t, i, j), i + 1, j - 1)
  {
  }

  /** When the indices meet or cross, the loop state is the full reversal. */
  lemma LoopExit<T>(s: seq<T>, t: seq<T>, i: int, j: int)
    requires HalfReversed(s, t, i, j) && i >= j
    ensures t == Rev(s)
  {
    assert Mirrors(s, t);
    RevCharacterization(s, t);
  }

  /** Reverses `s` by copying it into a fresh array and swapping the two
      ends inward until the indices meet or cross. */
  method Reverse(s: seq<Rune>) returns (r: seq<Rune>)
    ensures Mirrors(s, r)
    ensures r == Rev(s)
    ensures multiset(r) == multiset(s)
    ensures |s| <= 1 ==> r == s
  {
    var runes := new Rune[|s|](k requires 0 <= k < |s| => s[k]);
    assert runes[..] == s;
    var i, j := 0, |s| - 1;
    while i < j
      invariant HalfReversed(s, runes[..], i, j)
      decreases j - i
    {
      ghost var before := runes[..];
      runes[i], runes[j] := runes[j], runes[i];
      assert runes[..] == Swap(before, i, j);
      SwapStep(s, before, i, j);
      i, j := i + 1, j - 1;
    }
    r := runes[..];
    LoopExit(s, r, i, j);
    RevIndex(s);
    RevMultiset(s);
    if |s| <= 1 {
      RevShort(s);
    }
  }
}
