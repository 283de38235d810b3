/**
 * The UTF-8 decoder of `CodeSequence`: `readchar_` reads one code point at
 * a cursor, and the construction loop calls it until the cursor turns into
 * `npos`. A truncated multi-byte tail ends decoding silently; an empty
 * buffer and an unknown lead byte are errors.
 */
module Decoder {
  import opened Base

  /** Number of bytes the lead byte announces, or 0 for a byte the decoder
      refuses. The source tests the masks `b & 0x80 == 0`, `b & 0xE0 == 0xC0`,
      `b & 0xF0 == 0xE0` and `b & 0xFC == 0xF0`; on a byte each holds for
      exactly the range written here, so only F0-F3 lead 4-byte runs. */
  function LeadLength(b: byte): (n: nat)
    ensures n <= 4
  {
    if b < 0x80 then 1
    else if 0xC0 <= b < 0xE0 then 2
    else if 0xE0 <= b < 0xF0 then 3
    else if 0xF0 <= b < 0xF4 then 4
    else 0
  }

  /** The payload bits the lead byte contributes: the byte masked with
      `0x1F`, `0x0F` or `0x07` after its length. */
  function LeadPayload(b: byte): Code
  {
    match LeadLength(b)
    case 1 => b
    case 2 => b % 0x20
    case 3 => b % 0x10
    case _ => b % 0x08
  }

  /** One continuation byte: `(code << 6) | (b & 0x3F)` on `uint32_t`. The
      shift drops bits past 32; the six low bits it opens are where the
      byte's low six bits go, so the `|` is an addition. */
  function Shift6(code: Code, b: byte): Code
  {
    (code * 0x40) % UINT32 + b % 0x40
  }

  /** The payload `lead` followed by the low six bits of each byte of
      `data[lo..hi]`. */
  function Accumulate(lead: Code, data: seq<byte>, lo: nat, hi: nat): (r: Code)
    requires lo <= hi <= |data|
    ensures hi > lo ==> r % 0x40 == data[hi - 1] % 0x40
    decreases hi - lo
  {
    if hi == lo then lead else Shift6(Accumulate(lead, data, lo, hi - 1), data[hi - 1])
  }

  /** What one call of `readchar_` returns: the code point and the new cursor. */
  datatype Read = Read(code: Code, cursor: nat)

  /** One call of `readchar_(data, cursor)`. */
  function ReadStep(data: seq<byte>, cursor: nat): (r: Result<Read>)
    requires |data| < NPOS
    ensures r.Success? ==> cursor < r.value.cursor <= NPOS
    ensures r.Success? ==> r.value.cursor == NPOS || r.value.cursor < |data|
  {
    if |data| == 0 then Failure(EmptyData)
    else if cursor >= |data| then Failure(ScanError)
    else
      var clen := LeadLength(data[cursor]);
      if clen == 0 then Failure(InvalidEncoding)
      else if cursor + clen > |data| then Success(Read(0, NPOS))
      else
        var code := Accumulate(LeadPayload(data[cursor]), data, cursor + 1, cursor + clen);
        var next := cursor + clen;
        Success(Read(code, if next == |data| then NPOS else next))
  }

  /** `readchar_`: classify the lead byte, then fold in the continuation
      bytes one at a time. The by-reference cursor comes back in the result. */
  method ReadChar(data: seq<byte>, cursor: nat) returns (r: Result<Read>)
    requires |data| < NPOS
    ensures r == ReadStep(data, cursor)
  {
    if |data| == 0 {
      return Failure(EmptyData);
    }
    if cursor >= |data| {
      return Failure(ScanError);
    }
    var clen: nat := 0;
    var code: Code := data[cursor];
    if data[cursor] < 0x80 {
      clen := 1;
    } else if 0xC0 <= data[cursor] < 0xE0 {
      clen := 2;
      code := code % 0x20;
    } else if 0xE0 <= data[cursor] < 0xF0 {
      clen := 3;
      code := code % 0x10;
    } else if 0xF0 <= data[cursor] < 0xF4 {
      clen := 4;
      code := code % 0x08;
    } else {
      return Failure(InvalidEncoding);
    }
    assert clen == LeadLength(data[cursor]) && code == LeadPayload(data[cursor]);
    if cursor + clen > |data| {
      // a partial run at the end: no exception, the sentinel says so
      return Success(Read(0, NPOS));
    }
    for i := 1 to clen
      invariant code == Accumulate(LeadPayload(data[cursor]), data, cursor + 1, cursor + i)
    {
      code := Shift6(code, data[cursor + i]);
    }
    var next := cursor + clen;
    if next == |data| {
      next := NPOS;
    }
    return Success(Read(code, next));
  }

  /** The decoding loop of the construction, from a cursor: read until the
      cursor is `npos`, and drop the value of the read that both set the
      sentinel and returned 0. */
  function DecodeFrom(buf: seq<byte>, cursor: nat): (r: Result<seq<Code>>)
    requires |buf| < NPOS && cursor <= NPOS
    ensures r.Success? && cursor < NPOS ==> cursor + |r.value| <= |buf|
    decreases NPOS - cursor
  {
    if cursor >= NPOS then Success([])
    else
      match ReadStep(buf, cursor)
      case Failure(e) => Failure(e)
      case Success(Read(code, next)) =>
        if next == NPOS && code == 0 then Success([])
        else Prepend(code, DecodeFrom(buf, next))
  }

  function Prepend(code: Code, r: Result<seq<Code>>): Result<seq<Code>>
  {
    match r
    case Success(codes) => Success([code] + codes)
    case Failure(e) => Failure(e)
  }

  /** The code points the construction decodes from the scrubbed buffer. */
  function Decode(buf: seq<byte>): (r: Result<seq<Code>>)
    requires |buf| < NPOS
    ensures r.Success? ==> |r.value| <= |buf|
  {
    DecodeFrom(buf, 0)
  }

  // ---------------------------------------------------------------------
  // Properties of one read

  /** Lead bytes 80-BF and F4-FF are refused; the others announce 1, 2, 3
      or 4 bytes, so the overlong leads C0 and C1 are accepted. */
  lemma LeadClasses(b: byte)
    ensures LeadLength(b) == 0 <==> (0x80 <= b <= 0xBF || 0xF4 <= b)
    ensures LeadLength(b) == 1 <==> b <= 0x7F
    ensures LeadLength(b) == 2 <==> 0xC0 <= b <= 0xDF
    ensures LeadLength(b) == 3 <==> 0xE0 <= b <= 0xEF
    ensures LeadLength(b) == 4 <==> 0xF0 <= b <= 0xF3
  {
  }

  /** Unfolding of `Accumulate` for the run lengths a lead byte can announce. */
  lemma AccumulateUnfold(lead: Code, data: seq<byte>, lo: nat, hi: nat)
    requires lo <= hi <= |data| && hi - lo <= 3
    ensures hi - lo == 1 ==> Accumulate(lead, data, lo, hi) == Shift6(lead, data[lo])
    ensures hi - lo == 2 ==>
      Accumulate(lead, data, lo, hi) == Shift6(Shift6(lead, data[lo]), data[lo + 1])
    ensures hi - lo == 3 ==>
      Accumulate(lead, data, lo, hi)
        == Shift6(Shift6(Shift6(lead, data[lo]), data[lo + 1]), data[lo + 2])
    decreases hi - lo
  {
    if hi > lo {
      AccumulateUnfold(lead, data, lo, hi - 1);
    }
  }

  /** `buf` holds the bytes of `e` from index `pos` on. */
  predicate HoldsAt(buf: seq<byte>, pos: nat, e: seq<byte>)
  {
    pos + |e| <= |buf| && forall k :: 0 <= k < |e| ==> buf[pos + k] == e[k]
  }

  /** `Accumulate` reads nothing outside `data[lo..hi]`: over a copy of
      `e` at `pos` it computes what it computes over `e`. */
  lemma {:induction false} AccumulateShift(lead: Code, buf: seq<byte>, pos: nat, e: seq<byte>, lo: nat, hi: nat)
    requires HoldsAt(buf, pos, e) && lo <= hi <= |e|
    ensures Accumulate(lead, buf, pos + lo, pos + hi) == Accumulate(lead, e, lo, hi)
    decreases hi - lo
  {
    if hi > lo {
      AccumulateShift(lead, buf, pos, e, lo, hi - 1);
      assert buf[pos + (hi - 1)] == e[hi - 1];
    }
  }

  /** One continuation byte multiplies a bound by 64. */
  lemma Shift6Bound(code: Code, b: byte, k: nat)
    requires code < k <= 0x400_0000
    ensures Shift6(code, b) < k * 0x40
  {
    assert code * 0x40 <= (k - 1) * 0x40 < UINT32;
  }

  /** The payload of an accepted lead and its continuation bytes make a
      value of at most 20 bits. */
  lemma AccumulateBound(b: byte, data: seq<byte>, lo: nat, hi: nat)
    requires LeadLength(b) > 0 && lo <= hi <= |data| && hi - lo == LeadLength(b) - 1
    ensures Accumulate(LeadPayload(b), data, lo, hi) < 0x10_0000
  {
    var p := LeadPayload(b);
    AccumulateUnfold(p, data, lo, hi);
    if hi - lo == 1 {
      Shift6Bound(p, data[lo], 0x20);
    } else if hi - lo == 2 {
      Shift6Bound(p, data[lo], 0x10);
      Shift6Bound(Shift6(p, data[lo]), data[lo + 1], 0x400);
    } else if hi - lo == 3 {
      Shift6Bound(p, data[lo], 0x4);
      Shift6Bound(Shift6(p, data[lo]), data[lo + 1], 0x100);
      Shift6Bound(Shift6(Shift6(p, data[lo]), data[lo + 1]), data[lo + 2], 0x4000);
    }
  }

  /** Errors of one read: the empty buffer, a cursor at or past the end,
      and a refused lead byte, in that order of precedence. */
  lemma ReadErrors(data: seq<byte>, cursor: nat)
    requires |data| < NPOS
    ensures ReadStep(data, cursor) == Failure(EmptyData) <==> |data| == 0
    ensures ReadStep(data, cursor) == Failure(ScanError) <==> 0 < |data| <= cursor
    ensures ReadStep(data, cursor) == Failure(InvalidEncoding) <==>
      cursor < |data| && LeadLength(data[cursor]) == 0
  {
  }

  /** A run that would pass the end of the buffer gives 0 and the sentinel
      instead of an error. */
  lemma ReadTruncated(data: seq<byte>, cursor: nat)
    requires |data| < NPOS && cursor < |data|
    requires LeadLength(data[cursor]) > 0 && cursor + LeadLength(data[cursor]) > |data|
    ensures ReadStep(data, cursor) == Success(Read(0, NPOS))
  {
  }

  /** A complete run: the cursor moves by the announced length (turning
      into the sentinel at the end of the buffer), and the value is the lead
      payload followed by the low six bits of each following byte, whatever
      their high bits; it is always below 0x100000. */
  lemma {:induction false} ReadComplete(data: seq<byte>, cursor: nat)
    requires |data| < NPOS && cursor < |data|
    requires LeadLength(data[cursor]) > 0 && cursor + LeadLength(data[cursor]) <= |data|
    ensures var n := LeadLength(data[cursor]);
      && ReadStep(data, cursor).Success?
      && ReadStep(data, cursor).value.cursor == (if cursor + n == |data| then NPOS else cursor + n)
      && ReadStep(data, cursor).value.code
         == Accumulate(LeadPayload(data[cursor]), data, cursor + 1, cursor + n)
      && ReadStep(data, cursor).value.code < 0x10_0000
  {
    var n := LeadLength(data[cursor]);
    AccumulateBound(data[cursor], data, cursor + 1, cursor + n);
  }

  /** Every successful read yields a value below 0x100000. */
  lemma ReadBound(data: seq<byte>, cursor: nat)
    requires |data| < NPOS
    ensures ReadStep(data, cursor).Success? ==> ReadStep(data, cursor).value.code < 0x10_0000
  {
    if 0 < |data| && cursor < |data| && LeadLength(data[cursor]) > 0
      && cursor + LeadLength(data[cursor]) <= |data| {
      ReadComplete(data, cursor);
    }
  }

  // ---------------------------------------------------------------------
  // Properties of the decoding loop

  /** Reads from a cursor the loop can hold end in the refused-lead error or
      in code points below 0x100000; never in "scan error". */
  lemma {:induction false} DecodeFromOutcomes(buf: seq<byte>, cursor: nat)
    requires 0 < |buf| < NPOS && (cursor < |buf| || cursor == NPOS)
    ensures DecodeFrom(buf, cursor).Failure? ==> DecodeFrom(buf, cursor).error == InvalidEncoding
    ensures DecodeFrom(buf, cursor).Success? ==>
      forall i :: 0 <= i < |DecodeFrom(buf, cursor).value| ==> DecodeFrom(buf, cursor).value[i] < 0x10_0000
    decreases NPOS - cursor
  {
    if cursor < NPOS {
      ReadBound(buf, cursor);
      match ReadStep(buf, cursor)
      case Failure(e) =>
      case Success(Read(code, next)) =>
        if !(next == NPOS && code == 0) {
          DecodeFromOutcomes(buf, next);
        }
    }
  }

  /** The construction's decoding fails exactly on the empty buffer with
      "empty data", otherwise only on a refused lead byte; the internal
      "scan error" is unreachable, and every code point is below 0x100000. */
  lemma DecodeOutcomes(buf: seq<byte>)
    requires |buf| < NPOS
    ensures Decode(buf) == Failure(EmptyData) <==> buf == []
    ensures Decode(buf).Failure? ==> Decode(buf).error in {EmptyData, InvalidEncoding}
    ensures Decode(buf).Success? ==>
      forall i :: 0 <= i < |Decode(buf).value| ==> Decode(buf).value[i] < 0x10_0000
  {
    if buf != [] {
      DecodeFromOutcomes(buf, 0);
    }
  }

  /** A buffer whose first byte is a refused lead fails at once. */
  lemma DecodeRefusedLead(buf: seq<byte>)
    requires 0 < |buf| < NPOS && (0x80 <= buf[0] <= 0xBF || 0xF4 <= buf[0])
    ensures Decode(buf) == Failure(InvalidEncoding)
  {
  }

  // ---------------------------------------------------------------------
  // Round trip with the UTF-8 encoding of section 3 of RFC 3629

  /** Code points the decoder can deliver: those below 0x100000. */
  type Scalar = c: Code | c < 0x10_0000

  /** The shortest UTF-8 form of one code point below 0x100000. */
  function EncodeOne(c: Scalar): (bs: seq<byte>)
    ensures 1 <= |bs| <= 4 && LeadLength(bs[0]) == |bs|
  {
    if c < 0x80 then [c]
    else if c < 0x800 then [0xC0 + c / 0x40, 0x80 + c % 0x40]
    else if c < 0x1_0000 then [0xE0 + c / 0x1000, 0x80 + c / 0x40 % 0x40, 0x80 + c % 0x40]
    else [0xF0 + c / 0x4_0000, 0x80 + c / 0x1000 % 0x40, 0x80 + c / 0x40 % 0x40, 0x80 + c % 0x40]
  }

  /** The UTF-8 form of a sequence of code points. */
  function Encode(cs: seq<Scalar>): seq<byte>
  {
    if cs == [] then [] else EncodeOne(cs[0]) + Encode(cs[1..])
  }

  /** `cs` without a final U+0000, which the loop takes for "no more data". */
  function DropFinalNul(cs: seq<Code>): seq<Code>
  {
    if cs != [] && cs[|cs| - 1] == 0 then cs[..|cs| - 1] else cs
  }

  /** A nonempty partial run: a lead byte with fewer bytes than it announces. */
  predicate Truncated(t: seq<byte>)
  {
    t != [] && LeadLength(t[0]) > |t|
  }

  /** A continuation byte built from the low six bits of `y` puts back the
      bits that `y / 64` lost. */
  lemma ShiftIn(y: Code)
    requires y < 0x10_0000
    ensures Shift6(y / 0x40, 0x80 + y % 0x40) == y
  {
  }

  lemma InvertTwo(c: Code)
    requires 0x80 <= c < 0x800
    ensures Shift6(LeadPayload(0xC0 + c / 0x40), 0x80 + c % 0x40) == c
  {
    assert LeadPayload(0xC0 + c / 0x40) == c / 0x40;
    ShiftIn(c);
  }

  lemma InvertThree(c: Code)
    requires 0x800 <= c < 0x1_0000
    ensures Shift6(Shift6(LeadPayload(0xE0 + c / 0x1000), 0x80 + c / 0x40 % 0x40), 0x80 + c % 0x40) == c
  {
    assert c / 0x1000 == c / 0x40 / 0x40;
    assert LeadPayload(0xE0 + c / 0x1000) == c / 0x40 / 0x40;
    ShiftIn(c / 0x40);
    ShiftIn(c);
  }

  lemma InvertFour(c: Code)
    requires 0x1_0000 <= c < 0x10_0000
    ensures Shift6(Shift6(Shift6(LeadPayload(0xF0 + c / 0x4_0000), 0x80 + c / 0x1000 % 0x40),
      0x80 + c / 0x40 % 0x40), 0x80 + c % 0x40) == c
  {
    assert c / 0x1000 == c / 0x40 / 0x40;
    assert c / 0x4_0000 == c / 0x1000 / 0x40;
    assert LeadPayload(0xF0 + c / 0x4_0000) == c / 0x1000 / 0x40;
    ShiftIn(c / 0x1000);
    ShiftIn(c / 0x40);
    ShiftIn(c);
  }

  /** The arithmetic of one read inverts that of `EncodeOne`. */
  lemma ReadBitsInvert(c: Scalar)
    ensures var e := EncodeOne(c);
      Accumulate(LeadPayload(e[0]), e, 1, |e|) == c
  {
    var e := EncodeOne(c);
    AccumulateUnfold(LeadPayload(e[0]), e, 1, |e|);
    if c < 0x80 {
    } else if c < 0x800 {
      InvertTwo(c);
    } else if c < 0x1_0000 {
      InvertThree(c);
    } else {
      InvertFour(c);
    }
  }

  /** Reading the encoding of `c` gives `c` back and moves past it. */
  lemma ReadEncoded(buf: seq<byte>, pos: nat, c: Scalar)
    requires |buf| < NPOS
    requires HoldsAt(buf, pos, EncodeOne(c))
    ensures var next := pos + |EncodeOne(c)|;
      ReadStep(buf, pos) == Success(Read(c, if next == |buf| then NPOS else next))
  {
    var e := EncodeOne(c);
    assert buf[pos + 0] == e[0];
    ReadComplete(buf, pos);
    AccumulateShift(LeadPayload(e[0]), buf, pos, e, 1, |e|);
    ReadBitsInvert(c);
  }

  lemma EncodeCons(cs: seq<Scalar>)
    requires cs != []
    ensures Encode(cs) == EncodeOne(cs[0]) + Encode(cs[1..])
  {
  }

  /** One turn of the decoding loop after a successful read. */
  lemma DecodeFromStep(buf: seq<byte>, cursor: nat, code: Code, next: nat)
    requires |buf| < NPOS && cursor < NPOS
    requires ReadStep(buf, cursor) == Success(Read(code, next))
    ensures DecodeFrom(buf, cursor)
      == if next == NPOS && code == 0 then Success([]) else Prepend(code, DecodeFrom(buf, next))
  {
  }

  /** A buffer that holds `e + rest` from `pos` holds `e` there and `rest`
      after it. */
  lemma SplitAt(buf: seq<byte>, pos: nat, e: seq<byte>, rest: seq<byte>)
    requires pos <= |buf| && buf[pos..] == e + rest
    ensures HoldsAt(buf, pos, e) && buf[pos + |e|..] == rest
  {
    forall k | 0 <= k < |e|
      ensures buf[pos + k] == e[k]
    {
      assert buf[pos..][k] == (e + rest)[k];
    }
    assert buf[pos..][|e|..] == rest;
  }

  /** `buf` holds, from `pos`, the encodings of the elements of `cs` one
      after the other and then `rest`. */
  predicate EncodedThen(buf: seq<byte>, pos: nat, cs: seq<Scalar>, rest: seq<byte>)
    decreases |cs|
  {
    pos <= |buf| &&
    if cs == [] then buf[pos..] == rest
    else
      var e := EncodeOne(cs[0]);
      HoldsAt(buf, pos, e) && EncodedThen(buf, pos + |e|, cs[1..], rest)
  }

  /** `Encode(cs) + rest` read element by element. */
  lemma {:induction false} EncodedThenAt(buf: seq<byte>, pos: nat, cs: seq<Scalar>, rest: seq<byte>)
    requires pos <= |buf| && buf[pos..] == Encode(cs) + rest
    ensures EncodedThen(buf, pos, cs, rest)
    decreases |cs|
  {
    if cs == [] {
      assert Encode(cs) + rest == rest;
    } else {
      var e, tail := EncodeOne(cs[0]), Encode(cs[1..]);
      EncodeCons(cs);
      assert e + tail + rest == e + (tail + rest);
      SplitAt(buf, pos, e, tail + rest);
      EncodedThenAt(buf, pos + |e|, cs[1..], rest);
    }
  }

  /** A code point that is not the last one is always kept. */
  lemma DecodeEncodedFirst(buf: seq<byte>, pos: nat, c: Scalar)
    requires |buf| < NPOS
    requires pos + |EncodeOne(c)| < |buf| && HoldsAt(buf, pos, EncodeOne(c))
    ensures DecodeFrom(buf, pos) == Prepend(c, DecodeFrom(buf, pos + |EncodeOne(c)|))
  {
    ReadEncoded(buf, pos, c);
    DecodeFromStep(buf, pos, c, pos + |EncodeOne(c)|);
  }

  /** The last code point of the buffer: kept unless it is U+0000. */
  lemma DecodeEncodedLast(buf: seq<byte>, pos: nat, c: Scalar)
    requires |buf| < NPOS
    requires pos + |EncodeOne(c)| == |buf| && HoldsAt(buf, pos, EncodeOne(c))
    ensures DecodeFrom(buf, pos) == Success(if c == 0 then [] else [c])
  {
    ReadEncoded(buf, pos, c);
    DecodeFromStep(buf, pos, c, NPOS);
    assert DecodeFrom(buf, NPOS) == Success([]);
    assert [c] + [] == [c];
  }

  /** A partial run at the end yields nothing and no error. */
  lemma DecodeTruncatedTail(buf: seq<byte>, pos: nat, t: seq<byte>)
    requires Truncated(t) && |buf| < NPOS && pos <= |buf| && buf[pos..] == t
    ensures DecodeFrom(buf, pos) == Success([])
  {
    assert buf[pos] == t[0];
    ReadTruncated(buf, pos);
    DecodeFromStep(buf, pos, 0, NPOS);
  }

  lemma DropFinalNulCons(cs: seq<Code>)
    requires |cs| >= 2
    ensures DropFinalNul(cs) == [cs[0]] + DropFinalNul(cs[1..])
  {
    assert cs[1..][|cs| - 2] == cs[|cs| - 1];
    assert cs[1..][..|cs| - 2] == cs[1..|cs| - 1];
  }

  /** What the loop yields on the encoding of `cs`, code point by code
      point in the order it reads them: each one, but a last U+0000. */
  function Decoded(cs: seq<Scalar>): seq<Code>
  {
    if cs == [] then []
    else if |cs| == 1 then (if cs[0] == 0 then [] else [cs[0]])
    else [cs[0]] + Decoded(cs[1..])
  }

  /** Read front to back, the loop drops exactly a final U+0000. */
  lemma {:induction false} DecodedDropsFinalNul(cs: seq<Scalar>)
    ensures Decoded(cs) == DropFinalNul(cs)
  {
    if |cs| == 1 {
      assert cs[..0] == [];
    } else if |cs| >= 2 {
      DecodedDropsFinalNul(cs[1..]);
      DropFinalNulCons(cs);
    }
  }

  /** A buffer holding just the encoding of one code point. */
  lemma DecodeEncodedOnly(buf: seq<byte>, pos: nat, cs: seq<Scalar>)
    requires |cs| == 1 && |buf| < NPOS && EncodedThen(buf, pos, cs, [])
    ensures DecodeFrom(buf, pos) == Success(Decoded(cs))
  {
    var c, next := cs[0], pos + |EncodeOne(cs[0])|;
    assert buf[next..] == [];
    DecodeEncodedLast(buf, pos, c);
    assert cs == [c];
  }

  /** The first of several encoded code points is read and kept. */
  lemma DecodeEncodedCons(buf: seq<byte>, pos: nat, cs: seq<Scalar>, rest: seq<byte>)
    requires cs != [] && (|cs| >= 2 || rest != []) && |buf| < NPOS && EncodedThen(buf, pos, cs, rest)
    ensures var next := pos + |EncodeOne(cs[0])|;
      && EncodedThen(buf, next, cs[1..], rest)
      && DecodeFrom(buf, pos) == Prepend(cs[0], DecodeFrom(buf, next))
  {
    var c, next := cs[0], pos + |EncodeOne(cs[0])|;
    assert next < |buf| by {
      if cs[1..] == [] {
        assert buf[next..] == rest;
      }
    }
    DecodeEncodedFirst(buf, pos, c);
  }

  /** Decoding, from a cursor, a buffer whose rest is the encoding of `cs`
      gives `cs` back, less a final U+0000. */
  lemma {:induction false} DecodeEncodedAt(buf: seq<byte>, pos: nat, cs: seq<Scalar>)
    requires cs != [] && |buf| < NPOS && EncodedThen(buf, pos, cs, [])
    ensures DecodeFrom(buf, pos) == Success(Decoded(cs))
    decreases |cs|
  {
    if |cs| == 1 {
      DecodeEncodedOnly(buf, pos, cs);
    } else {
      var next := pos + |EncodeOne(cs[0])|;
      DecodeEncodedCons(buf, pos, cs, []);
      DecodeEncodedAt(buf, next, cs[1..]);
      assert DecodeFrom(buf, pos) == Prepend(cs[0], Success(Decoded(cs[1..])));
    }
  }

  /** Decoding, from a cursor, a buffer whose rest is the encoding of `cs`
      followed by a partial run gives exactly `cs`. */
  lemma {:induction false} DecodeTruncatedAt(buf: seq<byte>, pos: nat, cs: seq<Scalar>, t: seq<byte>)
    requires Truncated(t) && |buf| < NPOS && EncodedThen(buf, pos, cs, t)
    ensures DecodeFrom(buf, pos) == Success(cs)
    decreases |cs|
  {
    if cs == [] {
      DecodeTruncatedTail(buf, pos, t);
    } else {
      var next := pos + |EncodeOne(cs[0])|;
      DecodeEncodedCons(buf, pos, cs, t);
      DecodeTruncatedAt(buf, next, cs[1..], t);
      assert DecodeFrom(buf, pos) == Prepend(cs[0], Success(cs[1..]));
      assert [cs[0]] + cs[1..] == cs;
    }
  }

  /** Round trip: the decoder inverts UTF-8 encoding on code points below
      0x100000, except that a final U+0000 is lost. */
  lemma DecodeEncode(cs: seq<Scalar>)
    requires cs != [] && |Encode(cs)| < NPOS
    ensures Decode(Encode(cs)) == Success(DropFinalNul(cs))
  {
    var buf := Encode(cs);
    assert buf[0..] == buf + [];
    EncodedThenAt(buf, 0, cs, []);
    DecodeEncodedAt(buf, 0, cs);
    DecodedDropsFinalNul(cs);
  }

  /** A partial run after complete ones is dropped silently. */
  lemma DecodeEncodeTruncated(cs: seq<Scalar>, t: seq<byte>)
    requires Truncated(t) && |Encode(cs) + t| < NPOS
    ensures Decode(Encode(cs) + t) == Success(cs)
  {
    var buf := Encode(cs) + t;
    assert buf[0..] == buf;
    EncodedThenAt(buf, 0, cs, t);
    DecodeTruncatedAt(buf, 0, cs, t);
  }

  /** "A" followed by the first byte of a 3-byte run decodes to "A" alone. */
  lemma DecodeATruncated()
    ensures Decode([0x41, 0xE3]) == Success([0x41])
  {
    DecodeEncodeTruncated([0x41], [0xE3]);
    assert Encode([0x41]) == [0x41];
  }
}
