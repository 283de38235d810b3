/**
 * `cleanchar_`: the byte-level scrubbing that runs before decoding. A first
 * pass looks for URLs at every "://", a second for e-mail addresses at
 * every "@". Both work in place on the buffer and move a cursor.
 *
 * The URL pass removes at most the scheme of the first "://" of the
 * buffer, and only when every byte before that scheme may appear in a URL;
 * the e-mail pass replaces the local part before an "@" by a space, throws
 * when no byte outside the address set precedes a near "@", and spins
 * forever once an "@" is preceded by a space and followed by an address
 * byte.
 */
module Scrubber {
  import opened Base
  import opened StdString

  /** "://" */
  const SCHEME_SEP: seq<byte> := [0x3A, 0x2F, 0x2F]
  /** "ftp", "http", "file" and "https" */
  const FTP: seq<byte> := [0x66, 0x74, 0x70]
  const HTTP: seq<byte> := [0x68, 0x74, 0x74, 0x70]
  const FILE: seq<byte> := [0x66, 0x69, 0x6C, 0x65]
  const HTTPS: seq<byte> := [0x68, 0x74, 0x74, 0x70, 0x73]

  /** Largest `end - start` for which a URL is replaced. */
  const URL_MAX: nat := 2076
  /** Largest `p - start` for which an e-mail local part is replaced. */
  const LOCAL_MAX: nat := 64
  /** Largest `end - p` for which an e-mail address is replaced. */
  const DOMAIN_MAX: nat := 510

  // ---------------------------------------------------------------------
  // The URL pass

  /** An "http" or "file" scheme ends at `p`. */
  predicate SchemeAt(d: seq<byte>, p: nat)
  {
    p >= 4 && (Occurs(d, HTTP, p - 4) || Occurs(d, FILE, p - 4))
  }

  /** The "://" at `p` is one whose scheme the URL pass replaces: it is
      preceded by "http" or "file", and every byte before that scheme is a
      URL byte (so the search for the end of the URL, which starts at index
      0, stops exactly at the ':'). */
  predicate Removable(d: seq<byte>, p: nat): (b: bool)
    ensures b ==> 4 <= p && p + 3 <= |d|
  {
    && Occurs(d, SCHEME_SEP, p)
    && SchemeAt(d, p)
    && forall i :: 0 <= i < p - 4 ==> IsUrlByte(d[i])
  }

  /** `d` with the four bytes of the scheme before `p` replaced by one
      space: `data.replace(p - 4, 4, " ")`. */
  function WithoutScheme(d: seq<byte>, p: nat): (r: seq<byte>)
    requires 4 <= p <= |d|
    ensures |r| + 3 == |d| && r[p - 4] == SPACE
    ensures forall i {:trigger r[i]} :: 0 <= i < p - 4 ==> r[i] == d[i]
    ensures forall i {:trigger r[i]} :: p - 3 <= i < |r| ==> r[i] == d[i + 3]
  {
    Replace(d, p - 4, 4, [SPACE]).value
  }

  /** What the URL pass leaves of `d`: the scheme of its first "://"
      replaced by one space when that "://" is removable, otherwise `d`. */
  function UrlScrubbed(d: seq<byte>): (r: seq<byte>)
    requires |d| <= MAX_SIZE
    ensures r == d || (|r| + 3 == |d| && |r| > 0)
  {
    var p := Find(d, SCHEME_SEP, 0);
    if p != NPOS && Removable(d, p) then WithoutScheme(d, p) else d
  }

  /** The bytes of a "://" found at `p`: none is a URL byte or a space. */
  lemma SepBytes(d: seq<byte>, p: nat)
    requires Occurs(d, SCHEME_SEP, p)
    ensures p + 3 <= |d| && d[p] == 0x3A && d[p + 1] == 0x2F && d[p + 2] == 0x2F
  {
    assert d[p + 0] == SCHEME_SEP[0];
    assert d[p + 1] == SCHEME_SEP[1];
    assert d[p + 2] == SCHEME_SEP[2];
  }

  /** The bytes of an "http" or "file" scheme ending at `p`: URL bytes,
      none of them ':' or a space; the third from the end is 't' or 'i',
      the last 'p' or 'e'. */
  lemma SchemeBytes(d: seq<byte>, p: nat)
    requires SchemeAt(d, p)
    ensures p <= |d|
    ensures forall i :: p - 4 <= i < p ==> IsUrlByte(d[i]) && d[i] != 0x3A && d[i] != SPACE
    ensures d[p - 3] == 0x74 || d[p - 3] == 0x69
    ensures d[p - 1] == 0x70 || d[p - 1] == 0x65
  {
    var s := if Occurs(d, HTTP, p - 4) then HTTP else FILE;
    assert Occurs(d, s, p - 4);
    assert d[p - 4 + 0] == s[0] && d[p - 4 + 1] == s[1] && d[p - 4 + 2] == s[2] && d[p - 4 + 3] == s[3];
  }

  /** No byte before the end of a removable "://" is a space. */
  lemma RemovableNoSpace(d: seq<byte>, q: nat)
    ensures Removable(d, q) ==> q + 3 <= |d| && forall i :: 0 <= i < q + 3 ==> d[i] != SPACE
  {
    if Removable(d, q) {
      SepBytes(d, q);
      SchemeBytes(d, q);
    }
  }

  /** Whether a "://" is removable depends only on the bytes up to its end. */
  lemma RemovableAgree(d: seq<byte>, e: seq<byte>, q: nat)
    requires q + 3 <= |d| && q + 3 <= |e|
    requires forall i :: 0 <= i < q + 3 ==> e[i] == d[i]
    ensures Removable(d, q) ==> Removable(e, q)
  {
    if !Removable(d, q) {
      return;
    }
    SepBytes(d, q);
    var s := if Occurs(d, HTTP, q - 4) then HTTP else FILE;
    assert Occurs(d, s, q - 4);
    assert Occurs(e, s, q - 4);
    assert Occurs(e, SCHEME_SEP, q) by {
      forall k | 0 <= k < 3
        ensures e[q + k] == SCHEME_SEP[k]
      {
        assert d[q + k] == SCHEME_SEP[k];
      }
    }
  }

  /** Only the first "://" of a buffer can be removable: the ':' of an
      earlier one would be a non-URL byte before the scheme, or a byte of
      the scheme itself. */
  lemma OnlyFirstRemovable(d: seq<byte>, q: nat)
    requires |d| <= MAX_SIZE && Removable(d, q)
    ensures Find(d, SCHEME_SEP, 0) == q
  {
    var r := Find(d, SCHEME_SEP, 0);
    SepBytes(d, r);
    SchemeBytes(d, q);
  }

  /** The "https" test of the source can never hold after "http" has: the
      byte before "://" is then 'p', not 's'. */
  lemma HttpsDead(d: seq<byte>, p: nat)
    ensures SchemeAt(d, p) && p >= 5 ==> !Occurs(d, HTTPS, p - 5)
  {
    if SchemeAt(d, p) && p >= 5 {
      SchemeBytes(d, p);
      assert d[p - 1] != HTTPS[4];
    }
  }

  /** "http" and "file" do not end in "ftp". */
  lemma SchemeNotFtp(d: seq<byte>, p: nat)
    ensures SchemeAt(d, p) ==> !Occurs(d, FTP, p - 3)
  {
    if SchemeAt(d, p) {
      SchemeBytes(d, p);
      assert d[p - 3] != FTP[0];
    }
  }

  /** Where the search for the end of a URL, started at index 0, stops when
      an "http" or "file" scheme precedes the "://" at `p`: at the ':' when
      every byte before the scheme is a URL byte, before the scheme
      otherwise. */
  lemma UrlEnd(d: seq<byte>, p: nat)
    requires |d| <= MAX_SIZE && Occurs(d, SCHEME_SEP, p) && SchemeAt(d, p)
    ensures var end := FindFirstNotOf(d, UrlChars, 0);
      if forall i :: 0 <= i < p - 4 ==> IsUrlByte(d[i]) then end == p else end < p - 4
  {
    FindFirstNotOfIsFirst(d, UrlChars, 0);
    SepBytes(d, p);
    SchemeBytes(d, p);
  }

  /** The decision the loop body takes at a "://" found at `p`, written as
      the source writes it: "ftp" first, then "http" or "file", then the
      distance from the start of the scheme to the first non-URL byte of
      the whole buffer. It is exactly `Removable`, and then the URL ends at
      the ':'. */
  lemma UrlDecision(d: seq<byte>, p: nat)
    requires |d| <= MAX_SIZE && Occurs(d, SCHEME_SEP, p)
    ensures Removable(d, p) <==>
      && p >= 4
      && !Occurs(d, FTP, p - 3)
      && SchemeAt(d, p)
      && SizeSub(FindFirstNotOf(d, UrlChars, 0), p - 4) <= URL_MAX
    ensures Removable(d, p) ==> FindFirstNotOf(d, UrlChars, 0) == p
  {
    if SchemeAt(d, p) {
      SchemeNotFtp(d, p);
      UrlEnd(d, p);
      var end := FindFirstNotOf(d, UrlChars, 0);
      if forall i :: 0 <= i < p - 4 ==> IsUrlByte(d[i]) {
        assert end == p;
        assert Removable(d, p);
      } else {
        assert end < p - 4;
        assert SizeSub(end, p - 4) == end + (NPOS + 1) - (p - 4);
        assert SizeSub(end, p - 4) > URL_MAX;
        assert !Removable(d, p);
      }
    }
  }

  /** After a removal no "://" of the result is removable: the space that
      replaced the scheme is neither a URL byte nor part of a scheme or of
      a "://", and a "://" wholly before it would have been found first. */
  lemma RemovedNoneRemovable(d: seq<byte>, p: nat)
    requires |d| <= MAX_SIZE && p == Find(d, SCHEME_SEP, 0) && p != NPOS && Removable(d, p)
    ensures forall q :: !Removable(WithoutScheme(d, p), q)
  {
    forall q
      ensures !Removable(WithoutScheme(d, p), q)
    {
      RemovedNotRemovable(d, p, q);
    }
  }

  lemma RemovedNotRemovable(d: seq<byte>, p: nat, q: nat)
    requires |d| <= MAX_SIZE && p == Find(d, SCHEME_SEP, 0) && p != NPOS && Removable(d, p)
    ensures !Removable(WithoutScheme(d, p), q)
  {
    var e := WithoutScheme(d, p);
    RemovableNoSpace(e, q);
    if q + 3 <= p - 4 {
      RemovableAgree(e, d, q);
    }
  }

  /** With no removable "://" the URL pass changes nothing. */
  lemma NoneRemovableUnchanged(d: seq<byte>)
    requires |d| <= MAX_SIZE && forall q :: !Removable(d, q)
    ensures UrlScrubbed(d) == d
  {
  }

  /** The URL pass removes something exactly when some "://" anywhere in
      the buffer is removable, and it then removes the four bytes of that
      scheme and inserts one space. */
  lemma UrlScrubbedSpec(d: seq<byte>)
    requires |d| <= MAX_SIZE
    ensures UrlScrubbed(d) != d <==> exists q :: Removable(d, q)
    ensures forall q :: Removable(d, q) ==> UrlScrubbed(d) == WithoutScheme(d, q)
  {
    forall q | Removable(d, q)
      ensures UrlScrubbed(d) == WithoutScheme(d, q) != d
    {
      OnlyFirstRemovable(d, q);
    }
  }

  /** Scrubbing URLs twice is scrubbing them once. */
  lemma UrlScrubbedIdempotent(d: seq<byte>)
    requires |d| <= MAX_SIZE
    ensures UrlScrubbed(UrlScrubbed(d)) == UrlScrubbed(d)
  {
    var p := Find(d, SCHEME_SEP, 0);
    if p != NPOS && Removable(d, p) {
      RemovedNoneRemovable(d, p);
      NoneRemovableUnchanged(UrlScrubbed(d));
    }
  }

  /** A buffer whose first byte is not a URL byte passes the URL pass
      unchanged: that byte is neither before a removable scheme nor its
      first byte. */
  lemma NonUrlFirstKept(d: seq<byte>)
    requires 0 < |d| <= MAX_SIZE && !IsUrlByte(d[0])
    ensures UrlScrubbed(d) == d
  {
    var p := Find(d, SCHEME_SEP, 0);
    if p != NPOS && Removable(d, p) {
      SchemeBytes(d, p);
      assert false;
    }
  }

  /** When the first "://" of the buffer follows "ftp", the URL pass
      leaves the buffer as it is: the source marks it as a URL, but only
      the branch for four-byte schemes replaces anything. */
  lemma FtpKept(d: seq<byte>, p: nat)
    requires |d| <= MAX_SIZE && p == Find(d, SCHEME_SEP, 0) && p >= 3 && Occurs(d, FTP, p - 3)
    ensures UrlScrubbed(d) == d
  {
    SchemeNotFtp(d, p);
  }

  /** When the first "://" of the buffer follows "https", the URL pass
      leaves the buffer as it is: "http" is not found before the "s". */
  lemma HttpsKept(d: seq<byte>, p: nat)
    requires |d| <= MAX_SIZE && p == Find(d, SCHEME_SEP, 0) && p >= 5 && Occurs(d, HTTPS, p - 5)
    ensures UrlScrubbed(d) == d
  {
    HttpsDead(d, p);
  }

  /** The URL loop of `cleanchar_`, from `data.find("://", cursor)` to the
      replacement of the scheme. `data.compare(i, n, s) == 0` is
      `Occurs(d, s, i)` for the in-range `i` the loop passes. */
  method CleanUrls(data: seq<byte>) returns (d: seq<byte>)
    requires |data| <= MAX_SIZE
    ensures d == UrlScrubbed(data)
  {
    d := data;
    var cursor: nat := 0;
    while true
      invariant |d| <= MAX_SIZE && cursor <= |d| + 3
      invariant cursor == 0 ==> d == data
      invariant cursor > 0 ==> d == UrlScrubbed(data) && forall q :: !Removable(d, q)
      decreases |d|, |d| + 3 - cursor
    {
      var p := Find(d, SCHEME_SEP, cursor);
      if p == NPOS {
        if cursor == 0 {
          assert Find(d, SCHEME_SEP, 0) == NPOS;
        }
        return;
      }
      if cursor == 0 {
        forall q | Removable(d, q)
          ensures q == p
        {
          OnlyFirstRemovable(d, q);
        }
      }
      cursor := p + 3;
      if p < 3 {
        continue;
      }
      UrlDecision(d, p);
      var isUrl := false;
      var start: int := 0;
      if Occurs(d, FTP, p - 3) {
        isUrl := true;
        start := p - 3;
      } else if p >= 4 {
        if Occurs(d, HTTP, p - 4) || Occurs(d, FILE, p - 4) {
          isUrl := true;
          start := p - 4;
          if p >= 5 {
            HttpsDead(d, p);
            if Occurs(d, HTTPS, p - 5) {
              isUrl := true;
              start := p as int - 5;
            }
          }
        }
        if isUrl {
          var end := FindFirstNotOf(d, UrlChars, 0);
          if SizeSub(end, start) <= URL_MAX {
            RemovedNoneRemovable(d, p);
            var replaced := Replace(d, start, SizeSub(end, start), [SPACE]);
            d := replaced.value;
            cursor := start + 1;
          }
        }
      }
    }
  }

  // ---------------------------------------------------------------------
  // The e-mail pass

  /** "@" */
  const AT_SIGN: seq<byte> := [AT]

  /** One turn of the e-mail loop: stop, throw, or go on with a new buffer
      and cursor. */
  datatype Step = Break | Throw(error: Error) | Continue(data: seq<byte>, cursor: nat)

  /** How the e-mail loop ends: with a buffer, with an exception, or never,
      in a state that the loop body leaves unchanged. */
  datatype Scrub = Clean(data: seq<byte>) | Threw(error: Error) | Hangs(data: seq<byte>, cursor: nat)

  /** "@" occurs exactly where the byte is '@'. */
  lemma AtSign(d: seq<byte>, i: nat)
    ensures Occurs(d, AT_SIGN, i) <==> i < |d| && d[i] == AT
  {
    assert AT_SIGN[0] == AT;
  }

  /** The search for the end of an address from `p + 1` can only find the
      '@' itself or the byte after it. */
  lemma MailEnd(d: seq<byte>, p: nat)
    requires |d| <= MAX_SIZE && p < |d| && d[p] == AT
    ensures var end := FindLastNotOf(d, MailChars, p + 1);
      && (end == p || end == p + 1)
      && (end == p + 1 <==> p + 1 < |d| && !IsMailByte(d[p + 1]))
  {
    FindLastNotOfIsLast(d, MailChars, p + 1);
  }

  /** 0 when the byte before the cursor is already a space. */
  function Dirty(d: seq<byte>, c: nat): nat
  {
    if 0 < c <= |d| && d[c - 1] == SPACE then 0 else 1
  }

  /** A turn from buffer `d` and cursor `c` to `e` and `c'` that keeps the
      cursor and the length where the byte before the cursor is already a
      space: the state the source never leaves (`StuckIsFixpoint`). */
  predicate Stuck(d: seq<byte>, c: nat, e: seq<byte>, c': nat)
  {
    c' == c && |e| == |d| && Dirty(d, c) == 0
  }

  /** Going from buffer `d` and cursor `c` to `e` and `c'` shrinks the
      buffer, or advances the cursor, or writes a space just before a
      cursor that stays. */
  predicate Progress(d: seq<byte>, c: nat, e: seq<byte>, c': nat)
  {
    || |e| < |d|
    || (|e| == |d| && c' > c)
    || (|e| == |d| && c' == c && Dirty(e, c') < Dirty(d, c))
  }

  /** The body of the e-mail loop at `cursor == c`. */
  function MailStep(d: seq<byte>, c: nat): (r: Step)
    requires |d| <= MAX_SIZE && c <= |d|
    ensures r.Continue? ==> 0 < |r.data| <= |d| && r.cursor <= |r.data|
    ensures r.Throw? ==> r.error == OutOfRange
  {
    var p := Find(d, AT_SIGN, c);
    if p == NPOS then Break
    else if p == 0 then Continue(d, 1)
    else
      var start := FindLastNotOf(d, MailChars, p - 1);
      var end := FindLastNotOf(d, MailChars, p + 1);
      if SizeSub(p, start) <= LOCAL_MAX && SizeSub(end, p) <= DOMAIN_MAX then
        match Replace(d, start, SizeSub(end, start), [SPACE])
        case Failure(e) => Throw(e)
        case Success(e) => Continue(e, start + 1)
      else Continue(d, p + 1)
  }

  /** A turn that goes on is stuck or makes progress. */
  lemma MailStepProgress(d: seq<byte>, c: nat)
    requires |d| <= MAX_SIZE && c <= |d|
    ensures var r := MailStep(d, c);
      r.Continue? ==> Stuck(d, c, r.data, r.cursor) || Progress(d, c, r.data, r.cursor)
  {
    var p := Find(d, AT_SIGN, c);
    if p == 0 {
      assert MailStep(d, c) == Continue(d, 1);
    } else if p != NPOS {
      AtSign(d, p);
      MailEnd(d, p);
      var start := FindLastNotOf(d, MailChars, p - 1);
      var end := FindLastNotOf(d, MailChars, p + 1);
      if SizeSub(p, start) <= LOCAL_MAX && SizeSub(end, p) <= DOMAIN_MAX {
        if start < p {
          MailTurn(d, c, p, start, end);
          ReplaceProgress(d, c, start, end);
        }
      } else {
        assert MailStep(d, c) == Continue(d, p + 1);
      }
    }
  }

  /** Replacing the bytes `start .. end` by one space, with the cursor
      moving from `c` to `start + 1`, is stuck or makes progress. */
  lemma ReplaceProgress(d: seq<byte>, c: nat, start: nat, end: nat)
    requires start < end < |d| && c <= end
    ensures var e := Replace(d, start, end - start, [SPACE]).value;
      Stuck(d, c, e, start + 1) || Progress(d, c, e, start + 1)
  {
    var e := Replace(d, start, end - start, [SPACE]).value;
    if end == start + 1 {
      assert |e| == |d| && e[start] == SPACE;
    }
  }

  /** A stuck turn is one the loop body leaves unchanged. */
  lemma StuckIsFixpoint(d: seq<byte>, c: nat)
    requires |d| <= MAX_SIZE && c <= |d| && MailStep(d, c).Continue?
    ensures Stuck(d, c, MailStep(d, c).data, MailStep(d, c).cursor) ==> MailStep(d, c) == Continue(d, c)
  {
    var p := Find(d, AT_SIGN, c);
    if p != NPOS && p != 0 {
      AtSign(d, p);
      var start := FindLastNotOf(d, MailChars, p - 1);
      var end := FindLastNotOf(d, MailChars, p + 1);
      MailEnd(d, p);
      if start + 1 == c && end == start + 1 && d[start] == SPACE {
        assert SizeSub(end, start) == 1;
        SpaceForSpace(d, start);
      }
    }
  }

  /** Replacing a space by a space changes nothing. */
  lemma SpaceForSpace(d: seq<byte>, i: nat)
    requires i < |d| && d[i] == SPACE
    ensures Replace(d, i, 1, [SPACE]) == Success(d)
  {
    var e := Replace(d, i, 1, [SPACE]).value;
    assert |e| == |d|;
    forall k | 0 <= k < |d|
      ensures e[k] == d[k]
    {
      if k > i {
        assert e[k] == d[k - 1 + 1];
      }
    }
    assert e == d;
  }

  /** A turn the loop body leaves unchanged is stuck: it makes no
      progress. */
  lemma FixpointIsStuck(d: seq<byte>, c: nat)
    requires |d| <= MAX_SIZE && c <= |d|
    ensures MailStep(d, c) == Continue(d, c) ==> Stuck(d, c, d, c)
  {
    MailStepProgress(d, c);
  }

  /** The e-mail loop of `cleanchar_` from cursor `c`, run to its end. */
  function MailRun(d: seq<byte>, c: nat): (r: Scrub)
    requires |d| <= MAX_SIZE && c <= |d|
    ensures r.Clean? ==> |r.data| <= |d| && (|r.data| == 0 ==> |d| == 0)
    ensures r.Threw? ==> r.error == OutOfRange
    ensures r.Hangs? ==> r.cursor <= |r.data| <= MAX_SIZE
    decreases |d|, |d| - c, Dirty(d, c)
  {
    match MailStep(d, c)
    case Break => Clean(d)
    case Throw(e) => Threw(e)
    case Continue(e, c') =>
      MailStepProgress(d, c);
      if Stuck(d, c, e, c') then Hangs(d, c)
      else
        MailRun(e, c')
  }

  /** The run ends in `Hangs` only in a state the loop body leaves as it
      is, where the source loops forever. */
  lemma {:induction false} MailRunHangs(d: seq<byte>, c: nat)
    requires |d| <= MAX_SIZE && c <= |d|
    ensures var r := MailRun(d, c);
      r.Hangs? ==> MailStep(r.data, r.cursor) == Continue(r.data, r.cursor)
    decreases |d|, |d| - c, Dirty(d, c)
  {
    match MailStep(d, c)
    case Break =>
    case Throw(_) =>
    case Continue(e, c') =>
      MailStepProgress(d, c);
      if Stuck(d, c, e, c') {
        StuckIsFixpoint(d, c);
      } else {
        MailRunHangs(e, c');
      }
  }

  /** The e-mail pass throws at an '@' (not the first byte) exactly when it
      is at most 63 bytes into the buffer and every byte before it is an
      address byte: the backward search then finds nothing, `p - npos`
      wraps round to `p + 1`, and `replace` is called at `npos`. */
  lemma MailCrash(d: seq<byte>, c: nat)
    requires |d| <= MAX_SIZE && c <= |d|
    requires Find(d, AT_SIGN, c) != NPOS && Find(d, AT_SIGN, c) != 0
    ensures var p := Find(d, AT_SIGN, c);
      MailStep(d, c) == Throw(OutOfRange) <==> p <= 63 && forall i :: 0 <= i < p ==> IsMailByte(d[i])
  {
    var p := Find(d, AT_SIGN, c);
    AtSign(d, p);
    MailEnd(d, p);
    FindLastNotOfIsLast(d, MailChars, p - 1);
  }

  /** The backward search from just before an '@' at `p` stops at the
      last non-address byte `s` before it. */
  lemma LocalStart(d: seq<byte>, p: nat, s: nat)
    requires |d| <= MAX_SIZE && s < p < |d|
    requires !IsMailByte(d[s]) && forall i :: s < i < p ==> IsMailByte(d[i])
    ensures FindLastNotOf(d, MailChars, p - 1) == s
  {
    FindLastNotOfIsLast(d, MailChars, p - 1);
  }

  /** What one turn does at the first '@' at or after the cursor, given
      the last non-address byte `s` before it: the bytes from `s` up to the
      '@' (and the '@' too when a non-address byte follows it) become one
      space, and the cursor goes to just after that space. */
  lemma MailReplaces(d: seq<byte>, c: nat, s: nat)
    requires |d| <= MAX_SIZE && c <= |d|
    requires Find(d, AT_SIGN, c) != NPOS
    requires var p := Find(d, AT_SIGN, c);
      s < p && !IsMailByte(d[s]) && (forall i :: s < i < p ==> IsMailByte(d[i])) && p - s <= LOCAL_MAX
    ensures var p := Find(d, AT_SIGN, c);
      var end := if p + 1 < |d| && !IsMailByte(d[p + 1]) then p + 1 else p;
      MailStep(d, c) == Continue(Replace(d, s, end - s, [SPACE]).value, s + 1)
  {
    var p := Find(d, AT_SIGN, c);
    AtSign(d, p);
    MailEnd(d, p);
    LocalStart(d, p, s);
    var end := if p + 1 < |d| && !IsMailByte(d[p + 1]) then p + 1 else p;
    MailTurn(d, c, p, s, end);
  }

  /** The turn at an '@' at `p` whose address runs from `start` to `end`,
      both found by the searches of the loop body. */
  lemma MailTurn(d: seq<byte>, c: nat, p: nat, start: nat, end: nat)
    requires |d| <= MAX_SIZE && c <= |d| && p == Find(d, AT_SIGN, c) && 0 < p < |d|
    requires start == FindLastNotOf(d, MailChars, p - 1) && end == FindLastNotOf(d, MailChars, p + 1)
    requires start < p <= end <= p + 1 && p - start <= LOCAL_MAX
    ensures MailStep(d, c) == Continue(Replace(d, start, end - start, [SPACE]).value, start + 1)
  {
    assert SizeSub(p, start) <= LOCAL_MAX && SizeSub(end, p) <= DOMAIN_MAX;
    var r := Replace(d, start, SizeSub(end, start), [SPACE]);
    assert r.Success?;
    assert MailStep(d, c) == Continue(r.value, start + 1);
    assert SizeSub(end, start) == end - start;
  }

  /** The turn at the next '@' leaves the buffer as it is and moves the
      cursor past the '@' exactly when the '@' is the first byte or the 64
      bytes before it are all address bytes: `p - start` is then above 64,
      whether `start` is a separator or `npos`, for which `p - npos` wraps
      round to `p + 1`. So a local part of 64 bytes is already skipped. */
  lemma MailSkips(d: seq<byte>, c: nat)
    requires |d| <= MAX_SIZE && c <= |d| && Find(d, AT_SIGN, c) != NPOS
    ensures var p := Find(d, AT_SIGN, c);
      MailStep(d, c) == Continue(d, p + 1) <==>
        p == 0 || (p >= 64 && forall i :: p - 64 <= i < p ==> IsMailByte(d[i]))
  {
    var p := Find(d, AT_SIGN, c);
    if p != 0 {
      AtSign(d, p);
      MailEnd(d, p);
      FindLastNotOfIsLast(d, MailChars, p - 1);
      var start := FindLastNotOf(d, MailChars, p - 1);
      var end := FindLastNotOf(d, MailChars, p + 1);
      if start != NPOS && SizeSub(p, start) <= LOCAL_MAX {
        assert start < p && SizeSub(p, start) == p - start;
        MailTurn(d, c, p, start, end);
      }
    }
  }

  /** A space, an '@' and then an address byte (or the end of the buffer):
      with the cursor on the '@' the loop body rewrites the space by a space
      and puts the cursor back on the '@', so the loop never ends. */
  lemma MailFixpoint(d: seq<byte>, p: nat)
    requires |d| <= MAX_SIZE && 1 <= p < |d| && d[p] == AT && d[p - 1] == SPACE
    requires p + 1 == |d| || IsMailByte(d[p + 1])
    ensures MailStep(d, p) == Continue(d, p)
    ensures MailRun(d, p) == Hangs(d, p)
  {
    AtSign(d, p);
    MailReplaces(d, p, p - 1);
    SpaceForSpace(d, p - 1);
  }

  /** An ordinary address after a separator: the first turn replaces the
      local part by a space, and the loop then spins on the '@'. */
  lemma AddressHangs(d: seq<byte>, c: nat, s: nat, p: nat)
    requires |d| <= MAX_SIZE && c <= s < p < |d| && d[p] == AT
    requires forall i :: c <= i < p ==> d[i] != AT
    requires !IsMailByte(d[s]) && (forall i :: s < i < p ==> IsMailByte(d[i])) && p - s <= LOCAL_MAX
    requires p + 1 == |d| || IsMailByte(d[p + 1])
    ensures MailRun(d, c) == Hangs(Replace(d, s, p - s, [SPACE]).value, s + 1)
  {
    AddressFirstTurn(d, c, s, p);
    var e := Replace(d, s, p - s, [SPACE]).value;
    assert e[s] == SPACE && e[s + 1] == AT;
    assert s + 2 < |e| ==> e[s + 2] == d[p + 1];
    MailFixpoint(e, s + 1);
    MailRunContinues(d, c, e, s + 1);
  }

  /** The first turn on an ordinary address replaces its local part. */
  lemma AddressFirstTurn(d: seq<byte>, c: nat, s: nat, p: nat)
    requires |d| <= MAX_SIZE && c <= s < p < |d| && d[p] == AT
    requires forall i :: c <= i < p ==> d[i] != AT
    requires !IsMailByte(d[s]) && (forall i :: s < i < p ==> IsMailByte(d[i])) && p - s <= LOCAL_MAX
    requires p + 1 == |d| || IsMailByte(d[p + 1])
    ensures MailStep(d, c) == Continue(Replace(d, s, p - s, [SPACE]).value, s + 1)
  {
    AtSign(d, p);
    var q := Find(d, AT_SIGN, c);
    AtSign(d, q);
    assert q == p;
    MailEnd(d, p);
    LocalStart(d, p, s);
    MailTurn(d, c, p, s, p);
  }

  /** A turn that changes the state hands the rest of the run to the new
      state. */
  lemma MailRunContinues(d: seq<byte>, c: nat, e: seq<byte>, c': nat)
    requires |d| <= MAX_SIZE && c <= |d| && MailStep(d, c) == Continue(e, c') && !Stuck(d, c, e, c')
    ensures |e| <= MAX_SIZE && c' <= |e| && MailRun(d, c) == MailRun(e, c')
  {
  }

  /** One pass of the body of the e-mail loop of `cleanchar_`: find the
      next '@', search back and forward for the ends of the address, and
      replace it by a space when both parts are short enough. */
  method MailTurnAt(d: seq<byte>, c: nat) returns (r: Step)
    requires |d| <= MAX_SIZE && c <= |d|
    ensures r == MailStep(d, c)
  {
    var p := Find(d, AT_SIGN, c);
    if p == NPOS {
      return Break;
    }
    if p == 0 {
      return Continue(d, 1);
    }
    var start := FindLastNotOf(d, MailChars, p - 1);
    var end := FindLastNotOf(d, MailChars, p + 1);
    if SizeSub(p, start) <= LOCAL_MAX && SizeSub(end, p) <= DOMAIN_MAX {
      var replaced := Replace(d, start, SizeSub(end, start), [SPACE]);
      if replaced.Failure? {
        return Throw(replaced.error);
      }
      return Continue(replaced.value, start + 1);
    }
    return Continue(d, p + 1);
  }

  /** The e-mail loop of `cleanchar_`. It stops with `Hangs` in a state the
      body leaves unchanged (`MailRunHangs`), where the source loops
      forever. */
  method CleanMails(data: seq<byte>) returns (r: Scrub)
    requires |data| <= MAX_SIZE
    ensures r == MailRun(data, 0)
  {
    var d := data;
    var cursor: nat := 0;
    while true
      invariant |d| <= MAX_SIZE && cursor <= |d|
      invariant MailRun(d, cursor) == MailRun(data, 0)
      decreases |d|, |d| - cursor, Dirty(d, cursor)
    {
      var step := MailTurnAt(d, cursor);
      if step.Break? {
        return Clean(d);
      } else if step.Throw? {
        return Threw(step.error);
      }
      MailStepProgress(d, cursor);
      if Stuck(d, cursor, step.data, step.cursor) {
        return Hangs(d, cursor);
      }
      MailRunContinues(d, cursor, step.data, step.cursor);
      d, cursor := step.data, step.cursor;
    }
  }

  // ---------------------------------------------------------------------
  // Both passes

  /** `cleanchar_`: the URL pass, then the e-mail pass on its result. */
  function Scrubbed(data: seq<byte>): (r: Scrub)
    requires |data| <= MAX_SIZE
    ensures r.Clean? ==> |r.data| <= |data| && (|r.data| == 0 <==> |data| == 0)
    ensures r.Threw? ==> r.error == OutOfRange
  {
    MailRun(UrlScrubbed(data), 0)
  }

  /** A buffer without ':' holds no "://". */
  lemma NoSchemeSeparator(d: seq<byte>)
    requires forall i :: 0 <= i < |d| ==> d[i] != 0x3A
    ensures forall i :: !Occurs(d, SCHEME_SEP, i)
  {
    forall i: nat
      ensures !Occurs(d, SCHEME_SEP, i)
    {
      if i < |d| {
        assert d[i + 0] != SCHEME_SEP[0];
      }
    }
  }

  /** A buffer with no "://" and no '@' comes through both passes as it
      is. */
  lemma ScrubbedUntouched(data: seq<byte>)
    requires |data| <= MAX_SIZE
    requires forall i :: !Occurs(data, SCHEME_SEP, i)
    requires forall i :: 0 <= i < |data| ==> data[i] != AT
    ensures Scrubbed(data) == Clean(data)
  {
    NoneRemovableUnchanged(data);
    AtSign(data, Find(data, AT_SIGN, 0));
  }

  method CleanChar(data: seq<byte>) returns (r: Scrub)
    requires |data| <= MAX_SIZE
    ensures r == Scrubbed(data)
  {
    var d := CleanUrls(data);
    r := CleanMails(d);
  }
}
