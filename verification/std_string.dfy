/**
 * The members of `std::string` the scrubber calls, by their library
 * contracts: searches answer `npos` when nothing is found, and `replace`
 * throws `out_of_range` for a start past the end and clamps the count.
 */
module StdString {
  import opened Base

  /** `pat` occurs in `s` at index `i`. */
  predicate Occurs(s: seq<byte>, pat: seq<byte>, i: nat)
  {
    i + |pat| <= |s| && forall k :: 0 <= k < |pat| ==> s[i + k] == pat[k]
  }

  /** `s.find(pat, pos)`: the first occurrence of `pat` at or after `pos`. */
  function Find(s: seq<byte>, pat: seq<byte>, pos: nat): (r: nat)
    requires |s| < NPOS
    ensures r == NPOS || (pos <= r && Occurs(s, pat, r))
    ensures forall i :: pos <= i && Occurs(s, pat, i) ==> r <= i
    decreases |s| - pos
  {
    if pos + |pat| > |s| then NPOS
    else if Occurs(s, pat, pos) then pos
    else Find(s, pat, pos + 1)
  }

  /** `s.find_first_not_of(chars, pos)`: the first byte at or after `pos`
      outside the set. */
  function FindFirstNotOf(s: seq<byte>, chars: CharSet, pos: nat): (r: nat)
    requires |s| < NPOS
    ensures r == NPOS || (pos <= r < |s| && !InSet(chars, s[r]))
    decreases |s| - pos
  {
    if pos >= |s| then NPOS
    else if !InSet(chars, s[pos]) then pos
    else FindFirstNotOf(s, chars, pos + 1)
  }

  /** No byte outside the set lies between `pos` and the answer of
      `find_first_not_of`, which is `npos` only when there is none. */
  lemma {:induction false} FindFirstNotOfIsFirst(s: seq<byte>, chars: CharSet, pos: nat)
    requires |s| < NPOS
    ensures forall i :: pos <= i < |s| && !InSet(chars, s[i]) ==> FindFirstNotOf(s, chars, pos) <= i
    decreases |s| - pos
  {
    if pos < |s| && InSet(chars, s[pos]) {
      FindFirstNotOfIsFirst(s, chars, pos + 1);
    }
  }

  /** `s.find_last_not_of(chars, pos)`: the last byte outside the set among
      the indexes `0 .. pos`, the whole string when `pos` is past its end. */
  function FindLastNotOf(s: seq<byte>, chars: CharSet, pos: nat): (r: nat)
    requires |s| < NPOS
    ensures r == NPOS || (r <= pos && r < |s| && !InSet(chars, s[r]))
    decreases pos
  {
    if |s| == 0 then NPOS
    else if pos >= |s| then FindLastNotOf(s, chars, |s| - 1)
    else if !InSet(chars, s[pos]) then pos
    else if pos == 0 then NPOS
    else FindLastNotOf(s, chars, pos - 1)
  }

  /** No byte outside the set lies between the answer of `find_last_not_of`
      and `pos`, and `npos` means there is none at all up to `pos`. */
  lemma {:induction false} FindLastNotOfIsLast(s: seq<byte>, chars: CharSet, pos: nat)
    requires |s| < NPOS
    ensures forall i :: 0 <= i <= pos && i < |s| && !InSet(chars, s[i]) ==>
      FindLastNotOf(s, chars, pos) != NPOS && i <= FindLastNotOf(s, chars, pos)
    decreases pos
  {
    if |s| > 0 {
      if pos >= |s| {
        FindLastNotOfIsLast(s, chars, |s| - 1);
      } else if InSet(chars, s[pos]) && pos > 0 {
        FindLastNotOfIsLast(s, chars, pos - 1);
      }
    }
  }

  /** `s.replace(pos, count, rep)`: the bytes `pos .. pos + n` become `rep`,
      where `n` is `count` clamped to the end of `s`. The bytes after them
      are stated twice, for a replacement of the same length and for one
      that shifts them. */
  function Replace(s: seq<byte>, pos: nat, count: nat, rep: seq<byte>): (r: Result<seq<byte>>)
    ensures r.Failure? <==> pos > |s|
    ensures r.Failure? ==> r.error == OutOfRange
    ensures r.Success? ==>
      var n := if count < |s| - pos then count else |s| - pos;
      && |r.value| + n == |s| + |rep|
      && (forall i {:trigger r.value[i]} :: 0 <= i < pos ==> r.value[i] == s[i])
      && (forall i {:trigger r.value[i]} :: pos <= i < pos + |rep| ==> r.value[i] == rep[i - pos])
      && (|rep| == n ==> forall i {:trigger r.value[i]} :: pos + |rep| <= i < |r.value| ==> r.value[i] == s[i])
      && (|rep| != n ==>
            forall i {:trigger r.value[i]} :: pos + |rep| <= i < |r.value| ==> r.value[i] == s[i - |rep| + n])
  {
    if pos > |s| then Failure(OutOfRange)
    else
      var n := if count < |s| - pos then count else |s| - pos;
      Success(s[..pos] + rep + s[pos + n..])
  }
}
