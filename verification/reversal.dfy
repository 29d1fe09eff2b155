/**
 Reversal of a sequence, stated functionally. `Rev` is the reference
 definition that the imperative two-pointer loop of `StringUtil.Reverse`
 is checked against; the lemmas here give its index-wise meaning and the
 algebraic facts the string reversal promises (involution, same length,
 same multiset of elements).
 */
module Reversal {

  /** The reverse of `s`: its last element first, its first element last. */
  function Rev<T>(s: seq<T>): (r: seq<T>)
    ensures |r| == |s|
  {
    if |s| == 0 then [] else Rev(s[1..]) + [s[0]]
  }

  /** `r` holds the elements of `s` mirrored about the middle. */
  ghost predicate Mirrors<T>(s: seq<T>, r: seq<T>) {
    && |r| == |s|
    && forall k :: 0 <= k < |s| ==> r[k] == s[|s| - 1 - k]
  }

  /** Element `k` of the reverse is element `|s| - 1 - k` of the input. */
  lemma {:induction false} RevIndex<T>(s: seq<T>)
    ensures Mirrors(s, Rev(s))
  {
    if |s| > 0 {
      RevIndex(s[1..]);
      var r := Rev(s);
      assert r == Rev(s[1..]) + [s[0]];
      forall k | 0 <= k < |s|
        ensures r[k] == s[|s| - 1 - k]
      {
        if k < |s| - 1 {
          assert r[k] == Rev(s[1..])[k] == s[1..][|s| - 2 - k];
        }
      }
    }
  }

  /** Mirroring characterizes the reverse completely: `r` is the reverse
      of `s` exactly when it has the same length and mirrors `s`. */
  lemma RevCharacterization<T>(s: seq<T>, r: seq<T>)
    ensures r == Rev(s) <==> Mirrors(s, r)
  {
    RevIndex(s);
    if Mirrors(s, r) {
      var rev := Rev(s);
      assert forall k :: 0 <= k < |r| ==> r[k] == rev[k];
    }
  }

  /** Reversing twice gives back the original sequence. */
  lemma RevInvolution<T>(s: seq<T>)
    ensures Rev(Rev(s)) == s
  {
    var r := Rev(s);
    RevIndex(s);
    RevIndex(r);
    assert forall k :: 0 <= k < |s| ==> Rev(r)[k] == r[|s| - 1 - k] == s[k];
  }

  /** Reversal rearranges elements without adding or dropping any. */
  lemma {:induction false} RevMultiset<T>(s: seq<T>)
    ensures multiset(Rev(s)) == multiset(s)
  {
    if |s| > 0 {
      RevMultiset(s[1..]);
      assert s == [s[0]] + s[1..];
      calc {
        multiset(Rev(s));
        multiset(Rev(s[1..]) + [s[0]]);
        multiset(Rev(s[1..])) + multiset{s[0]};
        multiset(s[1..]) + multiset{s[0]};
        multiset([s[0]] + s[1..]);
      }
    }
  }

  /** Sequences of at most one element are their own reverse. */
  lemma RevShort<T>(s: seq<T>)
    requires |s| <= 1
    ensures Rev(s) == s
  {
  }
  /** `s` with the elements at positions `i` and `j` exchanged. */
  function Swap<T>(s: seq<T>, i: nat, j: nat): (r: seq<T>)
    requires i < |s| && j < |s|
    ensures |r| == |s| && r[i] == s[j] && r[j] == s[i]
    ensures forall k :: 0 <= k < |s| && k != i && k != j ==> r[k] == s[k]
  {
    s[i := s[j]][j := s[i]]
  }

  /** Exchanging two elements keeps the multiset of elements. */
  lemma SwapMultiset<T>(s: seq<T>, i: nat, j: nat)
    requires i < j < |s|
    ensures multiset(Swap(s, i, j)) == multiset(s)
  {
  }
}
