# String reversal by code point

This project models `Reverse` from the Go package `stringutil`. `Reverse`
decodes a string into a slice of runes (Unicode code points). It then
reverses that slice in place with a two-pointer loop: `i` starts at the
front, `j` at the back, the two runes are swapped, and both indices move
inward while `i < j`. Finally the slice is encoded back into a string.

The model works on the rune slice itself, so the input and output are a
`seq<Rune>`. `Rune` is a newtype over Go's 32-bit signed `rune` range.

- `reversal.dfy` (module `Reversal`): `Rev` is the functional reference
  definition of reversal. `Mirrors` says that element `k` of one sequence
  is element `n-1-k` of the other. The lemmas prove that `Rev` mirrors its
  input and is determined by that, that it is an involution, and that it
  keeps the multiset of elements. `Swap` and `SwapMultiset` describe the
  loop body's single exchange.
- `stringutil.dfy` (module `StringUtil`): `Reverse` copies the input into
  a fresh array and runs the source's loop over it. `HalfReversed` is the
  loop invariant: `i + j == n - 1`, the outer parts are already swapped,
  the middle is untouched, and the multiset is unchanged. `SwapStep`
  proves that one iteration preserves the invariant. `LoopExit` proves
  that the invariant gives the full reversal once `i >= j`. Termination
  uses `j - i` as the measure.

## Model

| member | source | states |
|---|---|---|
| Reversal.Rev | packages/stringutil/stringutil.go:14-18 | the reverse has exactly as many elements as its input |
| Reversal.RevIndex | packages/stringutil/stringutil.go:15-16 | element `k` of the reverse is element `n-1-k` of the input, for every `0 <= k < n` |
| Reversal.RevCharacterization | packages/stringutil/stringutil.go:15-16 | a sequence is the reverse of `s` if and only if it has `s`'s length and mirrors `s` index by index |
| Reversal.RevInvolution | packages/stringutil/stringutil.go:13-20 | reversing a rune sequence twice gives back the original sequence |
| Reversal.RevMultiset | packages/stringutil/stringutil.go:16 | reversal neither adds nor drops runes: the multiset of elements is unchanged |
| Reversal.RevShort | packages/stringutil/stringutil.go:15 | an empty or one-rune input is its own reverse, since the loop condition `i < j` is false at once |
| Reversal.Swap | packages/stringutil/stringutil.go:16 | the loop body exchanges the runes at `i` and `j` and leaves every other position and the length alone |
| Reversal.SwapMultiset | packages/stringutil/stringutil.go:16 | a single exchange keeps the multiset of runes |
| StringUtil.SwapStep | packages/stringutil/stringutil.go:15-16 | one iteration from a state with `i < j` re-establishes the loop invariant for `i+1`, `j-1` |
| StringUtil.LoopExit | packages/stringutil/stringutil.go:15-17 | when the loop stops (`i >= j`) with the invariant holding, the slice is exactly the reverse of the input |
| StringUtil.Reverse | packages/stringutil/stringutil.go:13-20 | the loop over a fresh copy yields the mirrored sequence, equal to `Rev(s)`. It has the same multiset as the input and is the input itself when it has at most one rune |

## Left out

- `GetCurrentTime` (packages/stringutil/stringutil.go:9-11): it only forwards to `timeutil.GetCurrentTime`, which reads the wall clock. `timeutil` is not part of this model, and the function has no logic of its own.
- UTF-8 decoding in `[]rune(s)` and encoding in `string(runes)` (packages/stringutil/stringutil.go:14, 18): these are Go runtime conversions. Invalid byte sequences decode to U+FFFD, so a byte-level round trip is not promised. The model starts from the decoded rune sequence and ends with the reversed one.
- Go's `int` index width: the indices are unbounded integers. A slice has fewer than 2^63 elements, so `len(runes)-1` and `i+1` cannot overflow in the source.
