/**
 * `CodeSequence`: its constructor scrubs the byte buffer, decodes it into
 * `codes_` and applies the script-bias filter; `tongram` turns `codes_`
 * into n-gram tokens.
 *
 * The last step of the constructor, the normalisation of `codes_` by the
 * `Normalizer` singleton, is not part of this model: the code points here
 * are those handed to it.
 */
module CodeSequences {
  import opened Base
  import opened Decoder
  import opened StdString
  import opened Scrubber
  import opened ScriptFilter
  import opened Ngram

  /** The code points a construction hands to the normaliser, or how it
      fails. A scrubbing loop that never ends is the error
      `Nontermination`. */
  function Construct(data: seq<byte>, lea: Code -> bool): (r: Result<seq<Code>>)
    requires |data| <= MAX_SIZE
    ensures r.Success? ==> |r.value| <= |data|
  {
    match Scrubbed(data)
    case Threw(e) => Failure(e)
    case Hangs(_, _) => Failure(Nontermination)
    case Clean(buf) =>
      match Decode(buf)
      case Failure(e) => Failure(e)
      case Success(cs) => Success(ScriptFiltered(cs, lea))
  }

  /** `pre` in front of the code points of `r`, or the error of `r`. */
  function Prefixed(pre: seq<Code>, r: Result<seq<Code>>): Result<seq<Code>>
  {
    match r
    case Success(cs) => Success(pre + cs)
    case Failure(e) => Failure(e)
  }

  lemma PrefixedPush(pre: seq<Code>, code: Code, r: Result<seq<Code>>)
    ensures Prefixed(pre, Prepend(code, r)) == Prefixed(pre + [code], r)
  {
    if r.Success? {
      assert pre + ([code] + r.value) == pre + [code] + r.value;
    }
  }

  class CodeSequence {
    /** `codes_` */
    var codes: seq<Code>

    constructor Empty()
      ensures codes == []
    {
      codes := [];
    }

    /** The decoding loop of the constructor: `readchar_` until the cursor
        is `npos`, pushing every value except the final 0 that comes with
        the sentinel. An exception of `readchar_` ends the loop. */
    method DecodeInto(buf: seq<byte>) returns (err: Option<Error>)
      requires |buf| < NPOS
      modifies this
      ensures err.None? <==> Decode(buf).Success?
      ensures err.None? ==> codes == old(codes) + Decode(buf).value
      ensures err.Some? ==> Decode(buf) == Failure(err.value)
    {
      var cursor: nat := 0;
      ghost var pushed: seq<Code> := [];
      if Decode(buf).Success? {
        assert [] + Decode(buf).value == Decode(buf).value;
      }
      while cursor < NPOS
        invariant cursor <= NPOS
        invariant codes == old(codes) + pushed
        invariant Prefixed(pushed, DecodeFrom(buf, cursor)) == Decode(buf)
        decreases NPOS - cursor
      {
        var r := ReadChar(buf, cursor);
        if r.Failure? {
          return Some(r.error);
        }
        var code := r.value.code;
        var prev := cursor;
        cursor := r.value.cursor;
        if cursor == NPOS && code == 0 {
          assert pushed + [] == pushed;
          return None;
        }
        PrefixedPush(pushed, code, DecodeFrom(buf, cursor));
        codes := codes + [code];
        pushed := pushed + [code];
      }
      assert pushed + [] == pushed;
      return None;
    }

    /** `rough_judge_`: count both classes, then rebuild `codes_` without
        the latin code points when the non-latin ones are more than twice
        as many. */
    method RoughJudge(lea: Code -> bool)
      modifies this
      ensures codes == ScriptFiltered(old(codes), lea)
    {
      var latin: nat := 0;
      var nonlatin: nat := 0;
      for i := 0 to |codes|
        invariant latin == LatinCount(codes[..i])
        invariant nonlatin == NonLatinCount(codes[..i], lea)
      {
        var code := codes[i];
        assert codes[..i + 1][..i] == codes[..i];
        if 0x41 <= code <= 0x7A {
          latin := latin + 1;
        } else if code >= 0x300 && !lea(code) {
          nonlatin := nonlatin + 1;
        }
      }
      assert codes[..|codes|] == codes;
      if latin * 2 < nonlatin {
        var kept: seq<Code> := [];
        for i := 0 to |codes|
          invariant kept == RemoveLatin(codes[..i])
        {
          var code := codes[i];
          assert codes[..i + 1][..i] == codes[..i];
          if code > 0x7A || code < 0x41 {
            kept := kept + [code];
          } else {
            assert kept == kept + [];
          }
        }
        codes := kept;
      }
    }

    /** `tongram`: one token per code point, the rolling window after it. */
    method Tongram() returns (ngrams: seq<seq<byte>>)
      ensures ngrams == Ngrams(codes)
    {
      ngrams := [];
      var ngram: seq<byte> := [];
      for i := 0 to |codes|
        invariant ngram == Window(codes[..i])
        invariant ngrams == Ngrams(codes[..i])
      {
        assert codes[..i + 1][..i] == codes[..i];
        ngram := ngram + Le32(codes[i]);
        if |ngram| > 12 {
          ngram := ngram[1..];
        }
        if ngram != [] {
          ngrams := ngrams + [ngram];
        }
      }
      assert codes[..|codes|] == codes;
    }
  }

  /** The constructor `CodeSequence(data, length)`: a new object whose
      `codes_` is what `Construct` gives, or the exception it ends with. */
  method NewCodeSequence(data: seq<byte>, lea: Code -> bool) returns (r: Result<CodeSequence>)
    requires |data| <= MAX_SIZE
    ensures r.Success? <==> Construct(data, lea).Success?
    ensures r.Success? ==> fresh(r.value) && r.value.codes == Construct(data, lea).value
    ensures r.Failure? ==> Construct(data, lea) == Failure(r.error)
  {
    var scrubbed := CleanChar(data);
    if scrubbed.Threw? {
      return Failure(scrubbed.error);
    } else if scrubbed.Hangs? {
      return Failure(Nontermination);
    }
    var buf := scrubbed.data;
    var s := new CodeSequence.Empty();
    var err := s.DecodeInto(buf);
    if err.Some? {
      return Failure(err.value);
    }
    assert s.codes == Decode(buf).value;
    s.RoughJudge(lea);
    assert Construct(data, lea) == Success(ScriptFiltered(Decode(buf).value, lea));
    return Success(s);
  }

  // ---------------------------------------------------------------------
  // Properties of a construction

  /** A construction never ends in "scan error", and every code point it
      delivers is below 0x100000. */
  lemma ConstructOutcomes(data: seq<byte>, lea: Code -> bool)
    requires |data| <= MAX_SIZE
    ensures Construct(data, lea).Failure? ==> Construct(data, lea).error != ScanError
    ensures Construct(data, lea).Success? ==>
      forall i :: 0 <= i < |Construct(data, lea).value| ==> Construct(data, lea).value[i] < 0x10_0000
  {
    match Scrubbed(data)
    case Threw(e) =>
    case Hangs(_, _) =>
    case Clean(buf) =>
      DecodeOutcomes(buf);
      if Decode(buf).Success? {
        FilterBound(Decode(buf).value, lea, 0x10_0000);
      }
  }

  /** A construction fails with "empty data" exactly when the buffer is
      empty: the scrubber never empties a buffer, since each replacement
      leaves a space. */
  lemma ConstructEmpty(data: seq<byte>, lea: Code -> bool)
    requires |data| <= MAX_SIZE
    ensures Construct(data, lea) == Failure(EmptyData) <==> data == []
  {
    if Scrubbed(data).Clean? {
      DecodeOutcomes(Scrubbed(data).data);
    }
  }

  /** A buffer whose first byte is a refused lead byte and that holds no
      '@' fails with the encoding error: the URL pass keeps a first byte
      that is not a URL byte, and the e-mail pass finds nothing. */
  lemma ConstructRefusedLead(data: seq<byte>, lea: Code -> bool)
    requires 0 < |data| <= MAX_SIZE && (0x80 <= data[0] <= 0xBF || 0xF4 <= data[0])
    requires forall i :: 0 <= i < |data| ==> data[i] != AT
    ensures Construct(data, lea) == Failure(InvalidEncoding)
  {
    NonUrlFirstKept(data);
    AtSign(data, Find(data, AT_SIGN, 0));
    DecodeRefusedLead(data);
  }

  /** With an '@' after it, the same refused lead never reaches the
      decoder: 0xFF then '@' makes the e-mail pass spin, after replacing
      the 0xFF by a space. */
  lemma ConstructRefusedLeadThenAt(lea: Code -> bool)
    ensures Construct([0xFF, AT], lea) == Failure(Nontermination)
  {
    var data: seq<byte> := [0xFF, AT];
    NonUrlFirstKept(data);
    AddressHangs(data, 0, 0, 1);
  }

  /** The bytes of the UTF-8 form of code points other than '@' and ':'
      are neither '@' nor ':': a multi-byte form has only bytes from 0x80. */
  lemma {:induction false} EncodeAvoids(cs: seq<Scalar>)
    requires forall i :: 0 <= i < |cs| ==> cs[i] != AT && cs[i] != 0x3A
    ensures forall i :: 0 <= i < |Encode(cs)| ==> Encode(cs)[i] != AT && Encode(cs)[i] != 0x3A
  {
    if cs != [] {
      EncodeAvoids(cs[1..]);
      var one := EncodeOne(cs[0]);
      assert forall i :: 0 <= i < |one| ==> one[i] != AT && one[i] != 0x3A;
    }
  }

  /** Text without '@' and ':' passes the scrubber untouched, so its
      construction gives its code points back, filtered, except that a
      final U+0000 is lost. */
  lemma ConstructPlainText(cs: seq<Scalar>, lea: Code -> bool)
    requires cs != [] && |Encode(cs)| <= MAX_SIZE
    requires forall i :: 0 <= i < |cs| ==> cs[i] != AT && cs[i] != 0x3A
    ensures Construct(Encode(cs), lea) == Success(ScriptFiltered(DropFinalNul(cs), lea))
  {
    var data := Encode(cs);
    EncodeAvoids(cs);
    NoSchemeSeparator(data);
    ScrubbedUntouched(data);
    DecodeEncode(cs);
  }
}
