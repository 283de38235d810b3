/**
 * Shared vocabulary of the model of `CodeSequence`: bytes, code points, the
 * `size_t` sentinel `npos`, the error kinds the construction can end with,
 * and the byte classes the scrubber tests.
 */
module Base {

  /** One byte of the input buffer. The source reads bytes through `char`;
      its masks strip the sign extension, so only the eight bits matter. */
  type byte = b: int | 0 <= b < 0x100

  /** A decoded code point, held in a `uint32_t` by the source. */
  type Code = c: int | 0 <= c < 0x1_0000_0000

  /** 2^32: `uint32_t` arithmetic is modulo this. */
  const UINT32: nat := 0x1_0000_0000

  /** `std::string::npos`: the largest `size_t` of a 64-bit host. */
  const NPOS: nat := 0xFFFF_FFFF_FFFF_FFFF

  /** `max_size()` of `std::string` in a 64-bit libstdc++: no buffer is
      longer. */
  const MAX_SIZE: nat := 0x3FFF_FFFF_FFFF_FFFF

  /** `a - b` on `size_t`, which wraps around modulo 2^64. */
  function SizeSub(a: nat, b: nat): nat
    requires a <= NPOS && b <= NPOS
  {
    if b <= a then a - b else a + (NPOS + 1) - b
  }

  /** How a construction can fail. */
  datatype Error =
    | EmptyData        // `DetectError("empty data")`
    | ScanError        // `DetectError("scan error")`
    | InvalidEncoding  // `DetectError("can't encode string: may not utf-8 encoding")`
    | OutOfRange       // `std::out_of_range` thrown by `std::string::replace`
    | Nontermination   // the e-mail pass reached a state it never leaves

  datatype Option<T> = None | Some(value: T)

  datatype Result<T> = Success(value: T) | Failure(error: Error)

  const SPACE: byte := 0x20
  const AT: byte := 0x40

  /** The `alnum` string of the scrubber: `0-9`, `a-z`, `A-Z`. */
  predicate IsAlnum(b: byte)
  {
    (0x30 <= b <= 0x39) || (0x61 <= b <= 0x7A) || (0x41 <= b <= 0x5A)
  }

  /** `"-_.?&~;+=/#" + alnum`: the bytes the URL pass accepts inside a URL. */
  predicate IsUrlByte(b: byte)
  {
    IsMailByte(b) || b == 0x3F || b == 0x26 || b == 0x7E || b == 0x3B || b == 0x2B
    || b == 0x3D || b == 0x2F || b == 0x23
  }

  /** `"-_." + alnum`: the bytes the e-mail pass accepts around an `@`. */
  predicate IsMailByte(b: byte)
  {
    IsAlnum(b) || b == 0x2D || b == 0x5F || b == 0x2E
  }

  /** The two character sets the scrubber passes to `find_last_not_of`
      and `find_first_not_of`. */
  datatype CharSet = UrlChars | MailChars

  predicate InSet(chars: CharSet, b: byte)
  {
    match chars
    case UrlChars => IsUrlByte(b)
    case MailChars => IsMailByte(b)
  }
}
