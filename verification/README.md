# CodeSequence of langdetect, modelled in Dafny

This project models `CodeSequence` from `code_sequence.cpp` of the C++ port
of langdetect. This is the stage that turns a raw byte buffer into the code
points a language profile is matched against. Its constructor does three things:

1. It scrubs the bytes (`cleanchar_`). A URL pass looks for "://" and an
   e-mail pass looks for "@". Both edit the buffer in place.
2. It decodes the bytes as UTF-8 (`readchar_`, called until the cursor
   becomes `npos`).
3. It applies a script-bias filter (`rough_judge_`).

`tongram` then turns the code points into n-gram tokens.

Files:

- `base.dfy`: module `Base`.
  - bytes, code points, `npos`, `max_size()`;
  - `size_t` subtraction, which wraps modulo 2^64;
  - the error kinds;
  - the URL and e-mail byte sets.
- `std_string.dfy`: module `StdString`.
  - The `std::string` members the scrubber calls (`find`,
    `find_first_not_of`, `find_last_not_of`, `replace`), by their library
    contracts.
- `decoder.dfy`: module `Decoder`.
  - `readchar_` as a method `ReadChar` with its loop over continuation
    bytes, proved equal to the function `ReadStep`.
  - The decoding loop as `DecodeFrom`/`Decode`.
  - A round trip with the UTF-8 encoding of section 3 of RFC 3629.
- `scrubber.dfy`: module `Scrubber`.
  - The two loops of `cleanchar_` as methods (`CleanUrls`, `CleanMails`,
    with `MailTurnAt` for one pass of the e-mail loop body).
  - Each method is proved equal to a function: `UrlScrubbed` for the URL
    pass, `MailRun` for the e-mail pass.
  - Lemmas say what those functions remove, when they throw, and when the
    e-mail loop never ends.
- `script_filter.dfy`: module `ScriptFilter`.
  - The counts and the removal of `rough_judge_`, with lemmas about them.
- `ngram.dfy`: module `Ngram`.
  - The rolling window of `tongram` and the lengths and contents of its
    tokens.
- `code_sequence.dfy`: module `CodeSequences`.
  - The class `CodeSequence`. Its field `codes` is `codes_`. Its methods
    are the decoding loop (`DecodeInto`), `RoughJudge` and `Tongram`.
  - The constructor as `NewCodeSequence`.
  - The value-level `Construct` and lemmas about whole constructions.

## Behaviour of the code that differs from its description

The model follows the code. The comments in the code and the usual
description of this component say otherwise on these points:

- **4-byte runs.** Lead bytes F0-F7 are meant to start them. The mask
  `0xFC` at line 52 accepts only F0-F3, so code points from U+100000 on
  cannot be decoded (`LeadClasses`, `DecodeRefusedLead`). C0 and C1 are
  accepted as 2-byte leads.
- **U+0000 at the end.** The scrubbed input is meant to come back from
  encoding the decoded code points. It does not when the last code point
  is U+0000: that value, read together with the end of the buffer, is taken
  for "no more data" (`DecodeEncode`).
- **The end of a URL.** Its search starts at index 0 of the buffer
  (line 99), not at the scheme. So a URL is replaced only when every byte
  before its scheme is a URL byte, and only at the first "://" of the buffer.
- **What replacing a URL removes.** The end is then the ':' itself, so only
  the four bytes of "http" or "file" become one space. The rest of the URL
  stays (`UrlDecision`, `UrlScrubbedSpec`).
- **"ftp" and "https".** These URLs are never touched (`FtpKept`,
  `HttpsKept`):
  - the "ftp" branch never reaches the replacement;
  - the "https" test can never succeed after "http" has matched
    (`HttpsDead`).
- **The end of an address.** Its search looks at only one byte after the
  '@' (line 116).
- **Ordinary addresses.** Take a separator, a local part, '@' and an
  address byte, as in "me at foo@example.com". The first turn replaces the
  separator and the local part by one space. After that the loop rewrites that space by a
  space forever, so the e-mail pass never ends (`AddressHangs`,
  `MailFixpoint`).
- **The length of a local part.** The comment at line 108 allows local
  parts of up to 64 bytes. The test `p - start <= 64` at line 117 measures
  from the separator, so a local part of 64 address bytes is already
  skipped, and only up to 63 are replaced (`MailSkips`, `MailReplaces`).
- **An '@' near the start.** Take an '@' at most 63 bytes into the buffer,
  with only address bytes before it. There `find_last_not_of` returns
  `npos`, and `replace` throws `std::out_of_range` (`MailCrash`). So
  scrubbing can fail, and it can fail to terminate.
- **A refused first byte.** A buffer starting with 0xFF fails with the
  encoding error only when the scrubber leaves that byte to the decoder. It
  does so when the buffer holds no '@' (`ConstructRefusedLead`). But 0xFF
  followed by '@' makes the e-mail pass spin, after replacing the 0xFF by a
  space, so the construction never reaches the decoder
  (`ConstructRefusedLeadThenAt`).
- **Token lengths in `tongram`.** Only one byte is erased once the window is
  longer than 12 bytes. The lengths are therefore 4, 8, 12, 15, 18, …, not
  capped at 12 (`WindowLength`).
- **The "latin" range.** 0x41-0x7A also holds the six punctuation code points
  `[`, `\`, `]`, `^`, `_` and backquote (`IsLatin`).

## Model

| member | source | states |
|---|---|---|
| `StdString.Find` | code_sequence.cpp:76 | the answer is `npos` or an index at or after the start where the pattern occurs; no occurrence at or after the start lies before it |
| `StdString.FindFirstNotOf` | code_sequence.cpp:99 | the answer is `npos` or an index at or after the start whose byte is outside the set |
| `StdString.FindFirstNotOfIsFirst` | code_sequence.cpp:99 | no byte outside the set lies between the start and the answer, so `npos` means every byte from the start is in the set |
| `StdString.FindLastNotOf` | code_sequence.cpp:115-116 | the answer is `npos` or an index at or before `pos` (clamped to the end) whose byte is outside the set |
| `StdString.FindLastNotOfIsLast` | code_sequence.cpp:115-116 | no byte outside the set lies between the answer and `pos`; `npos` means there is none up to `pos` |
| `StdString.Replace` | code_sequence.cpp:101 | throws `out_of_range` exactly when the start is past the end; otherwise the prefix is kept, the clamped span becomes `rep`, and the bytes after it follow, shifted |
| `Decoder.LeadLength` | code_sequence.cpp:45-57 | a lead byte announces at most four bytes; `LeadClasses` gives the byte ranges of each length and of the refused bytes |
| `Decoder.Accumulate` | code_sequence.cpp:62-64 | after each continuation byte the low six bits of the value are the low six bits of that byte |
| `Decoder.ReadStep` | code_sequence.cpp:40-68 | a read that succeeds moves the cursor strictly forward, to the sentinel or to a position inside the buffer |
| `Decoder.ReadChar` | code_sequence.cpp:40-68 | the imperative `readchar_`, with its loop over the continuation bytes, computes exactly `ReadStep` |
| `Decoder.LeadClasses` | code_sequence.cpp:45-57 | lead bytes 80-BF and F4-FF are refused; 00-7F, C0-DF, E0-EF and F0-F3 announce 1, 2, 3 and 4 bytes |
| `Decoder.ReadErrors` | code_sequence.cpp:41-57 | "empty data" exactly for the empty buffer, "scan error" exactly for a cursor at or past the end, the encoding error exactly for a refused lead |
| `Decoder.ReadTruncated` | code_sequence.cpp:58-61 | a run that would pass the end gives value 0 and the sentinel, not an error |
| `Decoder.ReadComplete` | code_sequence.cpp:62-67 | a complete run moves the cursor by its length (to the sentinel at the end); the value is the lead payload followed by six bits per continuation byte, below 0x100000 |
| `Decoder.AccumulateBound` | code_sequence.cpp:62-64 | the payload of an accepted lead and its continuation bytes is below 0x100000 |
| `Decoder.ReadBound` | code_sequence.cpp:44-67 | every successful read returns a value below 0x100000 |
| `Decoder.DecodeFrom` | code_sequence.cpp:18-23 | the loop from a cursor inside the buffer yields at most one code point per remaining byte; `DecodeEncodedAt` and `DecodeFromOutcomes` give its results |
| `Decoder.Decode` | code_sequence.cpp:15-23 | decoding a buffer yields at most one code point per byte; `DecodeOutcomes` and `DecodeEncode` give its errors and its round trip |
| `Decoder.DecodeFromOutcomes` | code_sequence.cpp:18-23 | from any cursor the loop can hold, decoding ends in the encoding error or in code points below 0x100000, never in "scan error" |
| `Decoder.DecodeOutcomes` | code_sequence.cpp:15-23 | decoding fails with "empty data" exactly on the empty buffer, otherwise only with the encoding error; "scan error" is unreachable |
| `Decoder.DecodeRefusedLead` | code_sequence.cpp:55-56 | a buffer whose first byte is a refused lead (0xFF, say) fails with the encoding error |
| `Decoder.EncodeOne` | code_sequence.cpp:45-54 | the UTF-8 form of a code point below 0x100000 has 1 to 4 bytes, and its first byte announces that length to the decoder |
| `Decoder.ReadBitsInvert` | code_sequence.cpp:62-64 | the shift-and-or of one read inverts the UTF-8 encoding of one code point |
| `Decoder.ReadEncoded` | code_sequence.cpp:40-68 | reading the encoding of a code point anywhere in a buffer gives that code point and moves past it |
| `Decoder.DecodedDropsFinalNul` | code_sequence.cpp:21 | keeping each code point as it is read, except a last U+0000, is dropping a final U+0000 |
| `Decoder.DecodeEncodedAt` | code_sequence.cpp:19-22 | from a cursor where the rest of the buffer encodes `cs`, the loop yields `cs` less a last U+0000 |
| `Decoder.DecodeTruncatedAt` | code_sequence.cpp:19-22 | from a cursor where the rest encodes `cs` and then a partial run, the loop yields exactly `cs` |
| `Decoder.DecodeEncode` | code_sequence.cpp:18-23 | round trip: decoding the UTF-8 encoding of code points below 0x100000 gives them back, less a final U+0000 |
| `Decoder.DecodeEncodeTruncated` | code_sequence.cpp:58-61 | a partial run after complete ones is dropped silently: the complete ones come back, with no error |
| `Decoder.DecodeATruncated` | code_sequence.cpp:58-61 | "A" followed by the first byte of a 3-byte run decodes to "A" alone |
| `Scrubber.Removable` | code_sequence.cpp:82-102 | a removable "://" has a four-byte scheme before it and lies inside the buffer; `UrlDecision` proves it is exactly the source's decision to replace |
| `Scrubber.WithoutScheme` | code_sequence.cpp:101 | replacing the four scheme bytes before `p` by a space keeps the bytes before them, puts a space there and shifts the rest back by three |
| `Scrubber.UrlScrubbed` | code_sequence.cpp:74-106 | the URL pass leaves the buffer as it is or three bytes shorter, never empty |
| `Scrubber.OnlyFirstRemovable` | code_sequence.cpp:76-104 | a "://" whose scheme can be replaced is always the first "://" of the buffer |
| `Scrubber.HttpsDead` | code_sequence.cpp:90-95 | once "http" or "file" precedes "://", "https" cannot precede it too: the "https" branch is dead |
| `Scrubber.SchemeNotFtp` | code_sequence.cpp:82-88 | the "http"/"file" branch and the "ftp" branch exclude each other |
| `Scrubber.UrlEnd` | code_sequence.cpp:99 | the search for the end of the URL, starting at index 0, stops at the ':' when every byte before the scheme is a URL byte, and before the scheme otherwise |
| `Scrubber.UrlDecision` | code_sequence.cpp:82-101 | the branches and the `end - start <= 2076` test on wrapping `size_t` replace a scheme exactly when the "://" is `Removable`, and then the end is the ':' |
| `Scrubber.RemovedNoneRemovable` | code_sequence.cpp:99-102 | after a replacement no "://" of the buffer is removable any more |
| `Scrubber.NoneRemovableUnchanged` | code_sequence.cpp:74-106 | with no removable "://" the URL pass changes nothing |
| `Scrubber.UrlScrubbedSpec` | code_sequence.cpp:74-106 | the URL pass changes the buffer exactly when some "://" anywhere is removable, and then replaces that scheme by one space |
| `Scrubber.UrlScrubbedIdempotent` | code_sequence.cpp:74-106 | running the URL pass twice is running it once |
| `Scrubber.FtpKept` | code_sequence.cpp:82-84 | a buffer whose first "://" follows "ftp" passes the URL pass unchanged |
| `Scrubber.HttpsKept` | code_sequence.cpp:86-95 | a buffer whose first "://" follows "https" passes the URL pass unchanged |
| `Scrubber.NonUrlFirstKept` | code_sequence.cpp:74-106 | a buffer whose first byte is not a URL byte passes the URL pass unchanged |
| `Scrubber.CleanUrls` | code_sequence.cpp:74-106 | the imperative URL loop, with its cursor and in-place replacement, ends with exactly `UrlScrubbed` of its input |
| `Scrubber.MailEnd` | code_sequence.cpp:116 | the search for the end of an address finds the '@' itself or the next byte, the latter exactly when that byte is not an address byte |
| `Scrubber.MailStep` | code_sequence.cpp:110-121 | one turn of the e-mail loop stops, throws `out_of_range`, or goes on with a nonempty buffer no longer than before and a cursor inside it |
| `Scrubber.MailStepProgress` | code_sequence.cpp:110-121 | a turn that goes on either keeps cursor and length at a space (stuck) or shrinks the buffer, advances the cursor, or writes a space before a cursor that stays |
| `Scrubber.ReplaceProgress` | code_sequence.cpp:118-119 | replacing an address span by one space and moving the cursor after it is stuck or makes progress |
| `Scrubber.StuckIsFixpoint` | code_sequence.cpp:110-121 | a stuck turn gives back exactly the buffer and cursor it started from |
| `Scrubber.FixpointIsStuck` | code_sequence.cpp:110-121 | a turn that gives back its own state is stuck, so a stuck turn is exactly a fixed point of the loop body |
| `Scrubber.SpaceForSpace` | code_sequence.cpp:118 | replacing one space by a space leaves the buffer equal |
| `Scrubber.MailRun` | code_sequence.cpp:109-121 | the whole e-mail loop ends with a buffer no longer than its input (empty only if the input was), with `out_of_range`, or never (`Hangs`) |
| `Scrubber.MailRunHangs` | code_sequence.cpp:110-121 | `Hangs` is returned only in a state that the loop body maps to itself, where the source loops forever |
| `Scrubber.MailCrash` | code_sequence.cpp:115-118 | at an '@' that is not the first byte, the turn throws exactly when the '@' is at most 63 bytes in and every byte before it is an address byte |
| `Scrubber.LocalStart` | code_sequence.cpp:115 | the backward search stops at the last non-address byte before the '@' |
| `Scrubber.MailReplaces` | code_sequence.cpp:115-119 | when the last non-address byte `s` before the '@' is at most 64 bytes back (a local part of at most 63 bytes), the span from `s` up to the '@' (and the '@' too when a non-address byte follows it) becomes one space, and the cursor goes just after it |
| `Scrubber.MailSkips` | code_sequence.cpp:113-117 | the turn leaves the buffer as it is and moves the cursor past the '@' exactly when the '@' is the first byte or the 64 bytes before it are all address bytes, whether a separator or only the buffer's start (where `p - npos` wraps) lies before them |
| `Scrubber.MailFixpoint` | code_sequence.cpp:110-121 | a space, '@', then an address byte or the end: with the cursor on the '@' the loop body changes nothing and the loop never ends |
| `Scrubber.AddressFirstTurn` | code_sequence.cpp:111-119 | on an ordinary address the first turn replaces the separator and local part by one space |
| `Scrubber.AddressHangs` | code_sequence.cpp:109-121 | an ordinary address such as "me at foo@example.com" makes the e-mail pass run forever, after replacing its local part |
| `Scrubber.CleanMails` | code_sequence.cpp:109-121 | the imperative e-mail loop ends with exactly `MailRun` of its input, stopping with `Hangs` where the source would spin |
| `Scrubber.Scrubbed` | code_sequence.cpp:70-122 | `cleanchar_` never empties a nonempty buffer or lengthens one, and throws only `out_of_range` |
| `Scrubber.NoSchemeSeparator` | code_sequence.cpp:76 | a buffer without ':' holds no "://" |
| `Scrubber.ScrubbedUntouched` | code_sequence.cpp:74-121 | a buffer with no "://" and no '@' passes both passes unchanged |
| `Scrubber.CleanChar` | code_sequence.cpp:70-122 | the two loops in sequence compute exactly `Scrubbed` |
| `ScriptFilter.LatinCount` | code_sequence.cpp:126-128 | the latin count of `islatin` is at most the number of code points |
| `ScriptFilter.NonLatinCount` | code_sequence.cpp:126-131 | the non-latin count of `isnonlatin` is at most the number of code points |
| `ScriptFilter.RemoveLatin` | code_sequence.cpp:134-138 | the rebuilt sequence is no longer than before and holds no code point in 0x41-0x7A |
| `ScriptFilter.ScriptFiltered` | code_sequence.cpp:124-141 | the filter never lengthens the sequence, and when it changes it no latin code point is left; `FilterCases` gives both branches exactly |
| `ScriptFilter.ClassesDisjoint` | code_sequence.cpp:128-129 | no code point is counted both latin and non-latin |
| `ScriptFilter.CountsBound` | code_sequence.cpp:126-132 | the two counts together never exceed the number of code points |
| `ScriptFilter.RemoveLatinAppend` | code_sequence.cpp:135-138 | the rebuilding loop acts on each code point alone and keeps their order |
| `ScriptFilter.RemoveLatinOne` | code_sequence.cpp:137 | one code point is kept exactly when it is outside 0x41-0x7A |
| `ScriptFilter.RemovedAreCounted` | code_sequence.cpp:126-139 | the rebuilt sequence is shorter by exactly the latin count |
| `ScriptFilter.RemoveLatinCounts` | code_sequence.cpp:135-138 | after removal no latin code point is left, and every other one occurs as often as before |
| `ScriptFilter.RemoveLatinRecount` | code_sequence.cpp:126-138 | after removal the latin count is 0 and the non-latin count is unchanged |
| `ScriptFilter.RemoveLatinNone` | code_sequence.cpp:135-138 | without latin code points removal changes nothing |
| `ScriptFilter.FilterCases` | code_sequence.cpp:124-141 | when twice the latin count is below the non-latin count, every latin code point is dropped and every other kept with its multiplicity; otherwise the sequence is unchanged |
| `ScriptFilter.FilterIdempotent` | code_sequence.cpp:124-141 | filtering twice is filtering once |
| `ScriptFilter.FilterBound` | code_sequence.cpp:133-139 | the filter introduces no new values: a bound on all code points still holds after it |
| `Ngram.Le32` | code_sequence.cpp:33 | every code point gives four bytes |
| `Ngram.Units` | code_sequence.cpp:33 | the images of `n` code points hold `4n` bytes |
| `Ngram.Window` | code_sequence.cpp:31-34 | the rolling string holds at most four bytes per code point so far and, once one is appended, at least four |
| `Ngram.Ngrams` | code_sequence.cpp:29-38 | `tongram` returns one token per code point, each of at least four bytes |
| `Ngram.Le32Inverse` | code_sequence.cpp:33 | the four little-endian bytes give the code point back |
| `Ngram.Le32Injective` | code_sequence.cpp:33 | distinct code points have distinct four-byte images |
| `Ngram.UnitsAppend` | code_sequence.cpp:32-33 | the image of a concatenation is the concatenation of the images |
| `Ngram.WindowLength` | code_sequence.cpp:32-36 | after `n` code points the window holds 4, 8, 12 bytes, then three more per code point (`3n + 3`) |
| `Ngram.WindowSuffix` | code_sequence.cpp:32-36 | the window is always a tail of the images of all code points so far |
| `Ngram.WindowEndsWithLastThree` | code_sequence.cpp:32-36 | from the third code point on, a token ends with the images of the last three code points |
| `Ngram.NgramsIndex` | code_sequence.cpp:32-37 | there is one token per code point, and token `i` is the window after the first `i + 1` code points |
| `Ngram.WindowNonEmpty` | code_sequence.cpp:35 | no token is empty, so the emptiness test always passes |
| `CodeSequences.CodeSequence.DecodeInto` | code_sequence.cpp:18-23 | the decoding loop appends exactly `Decode` of the buffer to `codes`, or stops with the error of the read that threw |
| `CodeSequences.CodeSequence.RoughJudge` | code_sequence.cpp:124-141 | the two counting loops and the rebuilding loop leave `codes` equal to `ScriptFiltered` of what it was |
| `CodeSequences.CodeSequence.Tongram` | code_sequence.cpp:29-38 | the loop returns exactly `Ngrams` of `codes` |
| `CodeSequences.NewCodeSequence` | code_sequence.cpp:15-24 | the constructor yields a new object holding `Construct` of the data, or fails with exactly the error `Construct` gives |
| `CodeSequences.Construct` | code_sequence.cpp:15-24 | a construction yields at most one code point per input byte; the lemmas below give its errors and its results |
| `CodeSequences.ConstructOutcomes` | code_sequence.cpp:15-24 | a construction never fails with "scan error", and every code point it keeps is below 0x100000 |
| `CodeSequences.ConstructEmpty` | code_sequence.cpp:15-24 | a construction fails with "empty data" exactly when the buffer is empty |
| `CodeSequences.ConstructRefusedLead` | code_sequence.cpp:15-24 | a buffer starting with a refused lead byte (0xFF, say) and holding no '@' fails with the encoding error |
| `CodeSequences.ConstructRefusedLeadThenAt` | code_sequence.cpp:15-24 | the bytes 0xFF, '@' make the construction fail to terminate, so the encoding error is never raised |
| `CodeSequences.ConstructPlainText` | code_sequence.cpp:15-24 | text without '@' and ':' comes out of a construction as its own code points, filtered, less a final U+0000 |

## Left out

- The normalisation at lines 25-26 (`Normalizer::instance().normalize`) is
  not part of this model. The code points modelled are the ones handed to it.
- `UnicodeData::unicodeblock` is a table outside this model. The filter
  takes a parameter `lea` that says whether a code point lies in Latin
  Extended Additional.
- The byte order of the `reinterpret_cast` in `tongram` is fixed to
  little-endian (`Le32`). A big-endian host would give the bytes in the
  other order.
- `char` signedness: bytes are 0-255. The masks of `readchar_` discard the
  sign extension of a signed `char`, so the result is the same.
- `std::string` is modelled by the contracts of the members the scrubber
  calls, on values. Allocation failure (`bad_alloc`) is not modelled.
- Buffers are at most `max_size()` of a 64-bit `std::string`. `size_t`
  arithmetic that can wrap is written out (`SizeSub`). Cursor additions such
  as `p + 3` stay far below 2^64 under this bound.
- The two `int` counters of `rough_judge_` are unbounded here. The
  product `islatin * 2` at line 133 overflows `int` once there are 2^30
  latin code points, which needs a buffer of at least a gigabyte.
- `Scrubber.MailRun`: when the e-mail loop would run forever, the model
  stops at the first state the loop body leaves unchanged and reports
  `Hangs`. `Construct` then reports the error `Nontermination`. The
  source never returns there.
