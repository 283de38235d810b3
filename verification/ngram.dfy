/**
 * The n-gram window of `tongram`: each code point appends its four bytes
 * in host order to a rolling string, which loses its first byte once it
 * is longer than 12, and every state of the string is one token.
 *
 * The host is taken to be little-endian: `Le32` is what the
 * `reinterpret_cast` of a `uint32_t` to four bytes reads there.
 */
module Ngram {
  import opened Base

  /** The four bytes of a code point, least significant first. */
  function Le32(c: Code): (bs: seq<byte>)
    ensures |bs| == 4
  {
    [c % 0x100, c / 0x100 % 0x100, c / 0x100 / 0x100 % 0x100, c / 0x100 / 0x100 / 0x100]
  }

  /** The code point four little-endian bytes hold. */
  function FromLe32(bs: seq<byte>): int
    requires |bs| == 4
  {
    bs[0] as int + bs[1] as int * 0x100 + bs[2] as int * 0x1_0000 + bs[3] as int * 0x100_0000
  }

  /** The byte image of every code point, in order. */
  function Units(cs: seq<Code>): (r: seq<byte>)
    ensures |r| == 4 * |cs|
  {
    if cs == [] then [] else Units(cs[..|cs| - 1]) + Le32(cs[|cs| - 1])
  }

  /** `if(ngram.length() > 12) ngram.erase(ngram.begin())`. */
  function Trim(s: seq<byte>): seq<byte>
  {
    if |s| > 12 then s[1..] else s
  }

  /** The rolling string after the code points `cs`. */
  function Window(cs: seq<Code>): (w: seq<byte>)
    ensures |w| <= 4 * |cs|
    ensures cs != [] ==> |w| >= 4
  {
    if cs == [] then [] else Trim(Window(cs[..|cs| - 1]) + Le32(cs[|cs| - 1]))
  }

  /** The tokens pushed for the code points `cs`: the window after each. */
  function Ngrams(cs: seq<Code>): (r: seq<seq<byte>>)
    ensures |r| == |cs|
    ensures forall i :: 0 <= i < |r| ==> |r[i]| >= 4
  {
    if cs == [] then [] else Ngrams(cs[..|cs| - 1]) + [Window(cs)]
  }

  /** Length of token `i`: 4, 8, 12, then three more per code point, since
      one byte is erased for the four appended. */
  function TokenLength(i: nat): nat
  {
    if i < 2 then 4 * (i + 1) else 3 * i + 6
  }

  // ---------------------------------------------------------------------
  // Properties

  /** The four bytes give the code point back, so distinct code points
      have distinct images. */
  lemma Le32Inverse(c: Code)
    ensures FromLe32(Le32(c)) == c
  {
    var q1 := c / 0x100;
    var q2 := q1 / 0x100;
    assert c == q1 * 0x100 + c % 0x100;
    assert q1 == q2 * 0x100 + q1 % 0x100;
    assert q2 == q2 / 0x100 * 0x100 + q2 % 0x100;
  }

  lemma Le32Injective(a: Code, b: Code)
    ensures Le32(a) == Le32(b) ==> a == b
  {
    Le32Inverse(a);
    Le32Inverse(b);
  }

  /** The byte image of a concatenation is the concatenation of images. */
  lemma {:induction false} UnitsAppend(a: seq<Code>, b: seq<Code>)
    ensures Units(a + b) == Units(a) + Units(b)
    decreases |b|
  {
    if b == [] {
      assert a + b == a;
    } else {
      var b' := b[..|b| - 1];
      assert (a + b)[..|a + b| - 1] == a + b';
      UnitsAppend(a, b');
    }
  }

  /** After `n` code points the window holds `4n` bytes up to 12, then
      `3n + 3`. */
  lemma {:induction false} WindowLength(cs: seq<Code>)
    requires cs != []
    ensures |Window(cs)| == TokenLength(|cs| - 1)
  {
    if |cs| > 1 {
      WindowLength(cs[..|cs| - 1]);
    }
  }

  /** The window is the tail of the byte image of all code points so far. */
  lemma {:induction false} WindowSuffix(cs: seq<Code>)
    ensures |Window(cs)| <= |Units(cs)|
    ensures Window(cs) == Units(cs)[|Units(cs)| - |Window(cs)|..]
  {
    if cs != [] {
      var init := cs[..|cs| - 1];
      WindowSuffix(init);
      var u := Units(init);
      var k := |u| - |Window(init)|;
      assert Units(cs) == u + Le32(cs[|cs| - 1]);
      assert Window(init) + Le32(cs[|cs| - 1]) == Units(cs)[k..];
    }
  }

  /** From the third code point on, a token ends with the images of the
      last three code points. */
  lemma WindowEndsWithLastThree(cs: seq<Code>)
    requires |cs| >= 3
    ensures var w := Window(cs); var n := |cs|;
      |w| >= 12 && w[|w| - 12..] == Le32(cs[n - 3]) + Le32(cs[n - 2]) + Le32(cs[n - 1])
  {
    var n := |cs|;
    WindowLength(cs);
    WindowSuffix(cs);
    var last3 := [cs[n - 3], cs[n - 2], cs[n - 1]];
    assert cs == cs[..n - 3] + last3;
    UnitsAppend(cs[..n - 3], last3);
    UnitsThree(cs[n - 3], cs[n - 2], cs[n - 1]);
  }

  lemma UnitsThree(a: Code, b: Code, c: Code)
    ensures Units([a, b, c]) == Le32(a) + Le32(b) + Le32(c)
  {
    assert [a, b, c][..2] == [a, b];
    assert [a, b][..1] == [a];
    assert [a][..0] == [];
    assert Units([a]) == Le32(a);
    assert Units([a, b]) == Le32(a) + Le32(b);
  }

  /** One token per code point; token `i` is the window after `cs[..i+1]`. */
  lemma {:induction false} NgramsIndex(cs: seq<Code>)
    ensures |Ngrams(cs)| == |cs|
    ensures forall i :: 0 <= i < |cs| ==> Ngrams(cs)[i] == Window(cs[..i + 1])
  {
    if cs != [] {
      var init := cs[..|cs| - 1];
      NgramsIndex(init);
      forall i | 0 <= i < |init|
        ensures Ngrams(cs)[i] == Window(cs[..i + 1])
      {
        assert init[..i + 1] == cs[..i + 1];
      }
      assert cs[..|cs|] == cs;
    }
  }

  /** No token is empty: each holds at least the last code point's image. */
  lemma {:induction false} WindowNonEmpty(cs: seq<Code>)
    requires cs != []
    ensures |Window(cs)| >= 4
  {
    WindowLength(cs);
  }
}
