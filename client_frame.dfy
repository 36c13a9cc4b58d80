/**
 * The client's view of one server answer (client.c): the framing
 * `"<format>\n<decimal size>\n<payload>"` that `SaveFrame` takes apart, the
 * `strtol` conversion it relies on, and the format whitelist of `main`.
 *
 * The answer is the byte sequence the receive loop collected. The receive
 * buffer is not NUL-terminated, so the C string functions may read past the
 * received bytes; the model treats everything past the end of the answer as
 * absent (a scan that reaches the end stops there).
 */
module ClientFrame {
  import opened Common

  const LONG_MAX: int := 0x7FFF_FFFF_FFFF_FFFF
  const LONG_MIN: int := -0x8000_0000_0000_0000

  const PLUS: byte := 43   // '+'
  const MINUS: byte := 45  // '-'
  const ZERO: byte := 48   // '0'

  // ---------------------------------------------------------------------
  // C library pieces used by SaveFrame

  /** `strncasecmp(fmt, answer, strlen(fmt)) == 0`: the answer begins with `fmt`, ignoring case. */
  predicate FormatPrefix(fmt: CString, answer: seq<byte>)
  {
    |fmt| <= |answer| && forall i :: 0 <= i < |fmt| ==> ToLower(fmt[i]) == ToLower(answer[i])
  }

  /** `strchr(answer + i, '\n')`: the first line feed at or after `i`, stopping at a terminator. */
  function FindNewline(s: seq<byte>, i: nat): (r: Option<nat>)
    requires i <= |s|
    ensures r.Some? ==> i <= r.value < |s| && s[r.value] == LF
    ensures r.Some? ==> forall j :: i <= j < r.value ==> s[j] != LF && s[j] != NUL
    decreases |s| - i
  {
    if i == |s| || s[i] == NUL then None
    else if s[i] == LF then Some(i)
    else FindNewline(s, i + 1)
  }

  /** C `isspace` in the "C" locale: space, `\t`, `\n`, `\v`, `\f`, `\r`. */
  predicate IsSpace(c: byte)
  {
    c == 32 || 9 <= c <= 13
  }

  predicate IsDigit(c: byte)
  {
    48 <= c <= 57
  }

  /** `s[i..e]` is a run of decimal digits. */
  predicate DigitsBetween(s: seq<byte>, i: nat, e: nat)
  {
    i <= e <= |s| && forall k :: i <= k < e ==> IsDigit(s[k])
  }

  /** The first position at or after `i` that does not hold a decimal digit. */
  function DigitEnd(s: seq<byte>, i: nat): (j: nat)
    requires i <= |s|
    ensures DigitsBetween(s, i, j)
    ensures j < |s| ==> !IsDigit(s[j])
    decreases |s| - i
  {
    if i < |s| && IsDigit(s[i]) then DigitEnd(s, i + 1) else i
  }

  /** The number that the digits `s[i..e]` denote, most significant first. */
  function DigitsValue(s: seq<byte>, i: nat, e: nat): nat
    requires DigitsBetween(s, i, e)
    decreases e - i
  {
    if e == i then 0 else DigitsValue(s, i, e - 1) * 10 + (s[e - 1] - ZERO)
  }

  /** The first position at or after `j` that does not hold white space. */
  function SpaceEnd(s: seq<byte>, j: nat): (p: nat)
    requires j <= |s|
    ensures j <= p <= |s| && (p < |s| ==> !IsSpace(s[p]))
    ensures forall m :: j <= m < p ==> IsSpace(s[m])
    decreases |s| - j
  {
    if j < |s| && IsSpace(s[j]) then SpaceEnd(s, j + 1) else j
  }

  predicate IsSign(c: byte)
  {
    c == PLUS || c == MINUS
  }

  /** Past the optional sign at `p`. */
  function SignEnd(s: seq<byte>, p: nat): (q: nat)
    requires p <= |s|
    ensures q == p || (q == p + 1 && p < |s| && IsSign(s[p]))
    ensures q == p ==> p == |s| || !IsSign(s[p])
  {
    if p < |s| && IsSign(s[p]) then p + 1 else p
  }

  /** The magnitude `m` with the sign found at `p`, if any. */
  function Signed(s: seq<byte>, p: nat, m: nat): int
  {
    if p < |s| && s[p] == MINUS then -(m as int) else m
  }

  /** `strtol` saturates at the bounds of `long` (64 bits). */
  function ClampLong(v: int): (r: int)
    ensures LONG_MIN <= r <= LONG_MAX
    ensures LONG_MIN <= v <= LONG_MAX ==> r == v
    ensures v > LONG_MAX ==> r == LONG_MAX
    ensures v < LONG_MIN ==> r == LONG_MIN
  {
    if v > LONG_MAX then LONG_MAX else if v < LONG_MIN then LONG_MIN else v
  }

  /** What `strtol(s + i, &end, 10)` returns and where it leaves `end`. */
  datatype Conversion = Conversion(value: int, end: nat)

  /**
   * `strtol` in base 10: leading white space, an optional sign, then digits.
   * Without any digit the value is 0 and `end` is the starting position.
   */
  function StrToL(s: seq<byte>, i: nat): (c: Conversion)
    requires i <= |s|
    ensures i <= c.end <= |s|
    ensures LONG_MIN <= c.value <= LONG_MAX
    ensures c.end == i ==> c.value == 0
    ensures c.end > i ==> IsDigit(s[c.end - 1]) && (c.end < |s| ==> !IsDigit(s[c.end]))
  {
    Convert(s, i, i)
  }

  /**
   * `strtol` started at `i` once the white space in `s[i..j]` has been
   * skipped: more white space is skipped, then the sign and the digits are
   * read from the first other byte.
   */
  function Convert(s: seq<byte>, i: nat, j: nat): (c: Conversion)
    requires i <= j <= |s|
    ensures i <= c.end <= |s|
    ensures LONG_MIN <= c.value <= LONG_MAX
    ensures c.end == i ==> c.value == 0
    ensures c.end > i ==> IsDigit(s[c.end - 1]) && (c.end < |s| ==> !IsDigit(s[c.end]))
    decreases |s| - j
  {
    if j < |s| && IsSpace(s[j]) then Convert(s, i, j + 1)
    else
      var signed := j < |s| && (s[j] == PLUS || s[j] == MINUS);
      var k := if signed then j + 1 else j;
      var e := DigitEnd(s, k);
      if e == k then Conversion(0, i)
      else
        var m: int := DigitsValue(s, k, e);
        Conversion(ClampLong(if signed && s[j] == MINUS then -m else m), e)
  }

  /**
   * What the conversion from `j` finds: after the white space up to `p` and
   * the optional sign, the digits `s[q..e]`. Without any, the value is 0 and
   * `end` is the start `i`; otherwise their value carries the sign and is
   * clamped to `long`, and `end` stops after them.
   */
  lemma {:induction false} ConvertValue(s: seq<byte>, i: nat, j: nat)
    requires i <= j <= |s|
    ensures var p := SpaceEnd(s, j); var q := SignEnd(s, p); var e := DigitEnd(s, q);
      && (e == q ==> Convert(s, i, j) == Conversion(0, i))
      && (e > q ==> Convert(s, i, j) == Conversion(ClampLong(Signed(s, p, DigitsValue(s, q, e))), e))
    decreases |s| - j
  {
    if j < |s| && IsSpace(s[j]) {
      ConvertValue(s, i, j + 1);
    }
  }

  /**
   * `strtol(s + i, &end, 10)`: without a digit after the white space and the
   * sign, the value is 0 and `end` stays at `i`; otherwise the value is that
   * of the digits, with the sign, clamped to `long`, and `end` is just past
   * the digits.
   */
  lemma StrToLValue(s: seq<byte>, i: nat)
    requires i <= |s|
    ensures var p := SpaceEnd(s, i); var q := SignEnd(s, p); var e := DigitEnd(s, q);
      && (e == q ==> StrToL(s, i) == Conversion(0, i))
      && (e > q ==> StrToL(s, i) == Conversion(ClampLong(Signed(s, p, DigitsValue(s, q, e))), e))
  {
    ConvertValue(s, i, i);
  }

  // ---------------------------------------------------------------------
  // SaveFrame

  /** Why `SaveFrame` returned 0. */
  datatype Failure =
    | OpenFailed   // the output file could not be created
    | WrongFormat  // the answer does not begin with the requested format name
    | NoNewline    // no '\n' before the end of the answer (or a NUL)
    | BadLength    // the size field is not a number terminated by '\n', or is negative
    | Truncated    // the size field announces more bytes than were received

  /** The parsed header: the declared payload length and the index where the payload starts. */
  datatype Header = Header(length: int, start: nat)

  datatype HeaderResult = Parsed(header: Header) | Rejected(why: Failure)

  /**
   * The checks of `SaveFrame` on the answer, in the order of the source:
   * the format prefix, the first newline, the decimal size ended by '\n'.
   */
  function ParseHeader(fmt: CString, answer: seq<byte>): (r: HeaderResult)
    ensures r.Rejected? ==> r.why == WrongFormat || r.why == NoNewline || r.why == BadLength
    ensures r.Rejected? && r.why == WrongFormat <==> !FormatPrefix(fmt, answer)
    ensures r.Parsed? ==>
      && FormatPrefix(fmt, answer)
      && FindNewline(answer, 0).Some?
      && FindNewline(answer, 0).value + 2 <= r.header.start <= |answer|
      && answer[r.header.start - 1] == LF
      && LONG_MIN <= r.header.length <= LONG_MAX
  {
    if !FormatPrefix(fmt, answer) then Rejected(WrongFormat)
    else match FindNewline(answer, 0)
      case None => Rejected(NoNewline)
      case Some(nl) =>
        var c := StrToL(answer, nl + 1);
        if c.end < |answer| && answer[c.end] == LF then Parsed(Header(c.value, c.end + 1))
        else Rejected(BadLength)
  }

  /**
   * `SaveFrame` as written: the file is created first, then the header is
   * checked; on success the source writes `(size_t)length` bytes starting at
   * `start`, whatever the number of bytes received.
   */
  function SaveFrameAsWritten(fmt: CString, answer: seq<byte>, created: bool): (r: HeaderResult)
    ensures !created ==> r == Rejected(OpenFailed)
    ensures created ==> r == ParseHeader(fmt, answer)
  {
    if !created then Rejected(OpenFailed) else ParseHeader(fmt, answer)
  }

  datatype SaveResult = Saved(payload: seq<byte>) | Failed(why: Failure)

  /**
   * `SaveFrame` with the payload bounded by the received answer: a negative
   * or over-long size field is rejected instead of being written.
   */
  function SaveFrame(fmt: CString, answer: seq<byte>, created: bool): (r: SaveResult)
    ensures r.Saved? <==>
      && SaveFrameAsWritten(fmt, answer, created).Parsed?
      && 0 <= SaveFrameAsWritten(fmt, answer, created).header.length
      && SaveFrameAsWritten(fmt, answer, created).header.start
         + SaveFrameAsWritten(fmt, answer, created).header.length <= |answer|
    ensures r.Saved? ==>
      var h := SaveFrameAsWritten(fmt, answer, created).header;
      r.payload == answer[h.start..h.start + h.length]
    ensures SaveFrameAsWritten(fmt, answer, created).Rejected? ==>
      r == Failed(SaveFrameAsWritten(fmt, answer, created).why)
  {
    if !created then Failed(OpenFailed)
    else match ParseHeader(fmt, answer)
      case Rejected(why) => Failed(why)
      case Parsed(h) =>
        if h.length < 0 then Failed(BadLength)
        else if h.start + h.length > |answer| then Failed(Truncated)
        else Saved(answer[h.start..h.start + h.length])
  }

  // ---------------------------------------------------------------------
  // The framing the server is expected to send, and the round trip

  /** The decimal digits of `n`, most significant first, without leading zeros. */
  function Decimal(n: nat): (d: seq<byte>)
    ensures |d| > 0 && DigitsBetween(d, 0, |d|)
    decreases n
  {
    if n < 10 then [ZERO + n] else Decimal(n / 10) + [ZERO + n % 10]
  }

  /** `"<format>\n<decimal size>\n<payload>"`. */
  function Frame(fmt: seq<byte>, payload: seq<byte>): seq<byte>
  {
    fmt + [LF] + Decimal(|payload|) + [LF] + payload
  }

  /** The value of a run of digits depends only on the digits. */
  lemma {:induction false} DigitsValueShift(s: seq<byte>, i: nat, t: seq<byte>, j: nat, len: nat)
    requires DigitsBetween(s, i, i + len) && DigitsBetween(t, j, j + len)
    requires s[i..i + len] == t[j..j + len]
    ensures DigitsValue(s, i, i + len) == DigitsValue(t, j, j + len)
    decreases len
  {
    if len > 0 {
      assert s[i + len - 1] == s[i..i + len][len - 1] == t[j..j + len][len - 1] == t[j + len - 1];
      assert s[i..i + len - 1] == s[i..i + len][..len - 1];
      assert t[j..j + len - 1] == t[j..j + len][..len - 1];
      DigitsValueShift(s, i, t, j, len - 1);
    }
  }

  /** `d` is a non-empty run of digits whose value is `n`. */
  predicate Denotes(d: seq<byte>, n: nat)
  {
    |d| > 0 && DigitsBetween(d, 0, |d|) && DigitsValue(d, 0, |d|) == n
  }

  lemma {:induction false} DecimalValue(n: nat)
    ensures Denotes(Decimal(n), n)
    decreases n
  {
    if n >= 10 {
      var d, p := Decimal(n), Decimal(n / 10);
      assert d == p + [ZERO + n % 10];
      assert d[0..|p|] == p[0..|p|];
      DigitsValueShift(d, 0, p, 0, |p|);
      DecimalValue(n / 10);
    }
  }

  /** A newline preceded only by bytes that are neither '\n' nor NUL is the one `strchr` finds. */
  lemma {:induction false} FindNewlineAt(s: seq<byte>, i: nat, k: nat)
    requires i <= k < |s| && s[k] == LF
    requires forall j :: i <= j < k ==> s[j] != LF && s[j] != NUL
    ensures FindNewline(s, i) == Some(k)
    decreases k - i
  {
    if i < k {
      FindNewlineAt(s, i + 1, k);
    }
  }

  /** `strchr` finds nothing when every '\n' after `i` has a terminator in front of it. */
  lemma {:induction false} FindNewlineNone(s: seq<byte>, i: nat)
    requires i <= |s|
    ensures FindNewline(s, i).None? <==>
      forall j :: i <= j < |s| && s[j] == LF ==> exists k :: i <= k < j && s[k] == NUL
    decreases |s| - i
  {
    if i < |s| && s[i] != NUL && s[i] != LF {
      FindNewlineNone(s, i + 1);
      if FindNewline(s, i).None? {
        forall j | i <= j < |s| && s[j] == LF ensures exists k :: i <= k < j && s[k] == NUL {
          var k :| i + 1 <= k < j && s[k] == NUL;
        }
      }
    } else if i < |s| && s[i] == NUL {
      forall j | i <= j < |s| && s[j] == LF ensures exists k :: i <= k < j && s[k] == NUL {
        assert s[i] == NUL;
      }
    }
  }

  /** An answer without any '\n' is rejected. */
  lemma NoNewlineRejected(fmt: CString, answer: seq<byte>)
    requires forall j :: 0 <= j < |answer| ==> answer[j] != LF
    ensures ParseHeader(fmt, answer).Rejected?
    ensures SaveFrame(fmt, answer, true).Failed?
  {
    FindNewlineNone(answer, 0);
  }

  /** A run of digits ending just before a non-digit is what `DigitEnd` skips. */
  lemma {:induction false} DigitEndAt(s: seq<byte>, i: nat, e: nat)
    requires i <= e < |s| && !IsDigit(s[e])
    requires forall j :: i <= j < e ==> IsDigit(s[j])
    ensures DigitEnd(s, i) == e
    decreases e - i
  {
    if i < e {
      DigitEndAt(s, i + 1, e);
    }
  }

  /** White space from `j` up to a byte that is not white space is skipped before the conversion. */
  lemma {:induction false} ConvertSkipsSpace(s: seq<byte>, i: nat, j: nat, k: nat)
    requires i <= j <= k < |s| && !IsSpace(s[k])
    requires forall m :: j <= m < k ==> IsSpace(s[m])
    ensures Convert(s, i, j) == Convert(s, i, k)
    decreases k - j
  {
    if j < k {
      ConvertSkipsSpace(s, i, j + 1, k);
    }
  }

  /**
   * `strtol` from `i0` skips the white space up to `i`, reads back the
   * digits `d` there, and stops at the byte after them.
   */
  lemma DigitsConversion(s: seq<byte>, i0: nat, i: nat, d: seq<byte>, n: nat)
    requires Denotes(d, n) && n <= LONG_MAX
    requires i + |d| < |s| && s[i..i + |d|] == d
    requires i0 <= i && forall j :: i0 <= j < i ==> IsSpace(s[j])
    requires !IsDigit(s[i + |d|])
    ensures StrToL(s, i0) == Conversion(n, i + |d|)
  {
    var e := i + |d|;
    assert s[i] == d[0];
    ConvertSkipsSpace(s, i0, i0, i);
    forall j | i <= j < e ensures IsDigit(s[j]) {
      assert s[j] == d[j - i];
    }
    DigitEndAt(s, i, e);
    assert s[i..e] == d[0..|d|];
    DigitsValueShift(s, i, d, 0, |d|);
  }

  /** The header checks pass once their three conditions are known to hold. */
  lemma HeaderAccepted(fmt: CString, a: seq<byte>, nl: nat, c: Conversion)
    requires FormatPrefix(fmt, a)
    requires FindNewline(a, 0) == Some(nl)
    requires nl + 1 <= |a| && StrToL(a, nl + 1) == c
    requires c.end < |a| && a[c.end] == LF
    ensures ParseHeader(fmt, a) == Parsed(Header(c.value, c.end + 1))
  {
  }

  /**
   * An accepted header is what the size field says: after the first newline
   * come white space, an optional sign and digits whose signed, clamped value
   * is the length, ended by the '\n' before the payload; or the field holds
   * no number, its first byte is that '\n' and the length is 0.
   */
  lemma ParsedHeaderFields(fmt: CString, a: seq<byte>, h: Header)
    requires ParseHeader(fmt, a) == Parsed(h)
    ensures FindNewline(a, 0).Some?
    ensures var nl := FindNewline(a, 0).value; var p := SpaceEnd(a, nl + 1); var q := SignEnd(a, p);
      && (forall j :: nl + 1 <= j < p ==> IsSpace(a[j]))
      && (q == p || IsSign(a[p]))
      && a[h.start - 1] == LF
      && (|| (DigitEnd(a, q) == q && h == Header(0, nl + 2) && a[nl + 1] == LF)
          || (q < h.start - 1 && DigitsBetween(a, q, h.start - 1)
              && h.length == ClampLong(Signed(a, p, DigitsValue(a, q, h.start - 1)))))
  {
    var nl := FindNewline(a, 0).value;
    StrToLValue(a, nl + 1);
  }

  /** A parsed header whose payload runs to the end of the answer is saved with the rest of the answer. */
  lemma PayloadSaved(fmt: CString, a: seq<byte>, h: Header)
    requires ParseHeader(fmt, a) == Parsed(h)
    requires 0 <= h.length && h.start + h.length == |a|
    ensures SaveFrame(fmt, a, true) == Saved(a[h.start..])
  {
    assert a[h.start..h.start + h.length] == a[h.start..];
  }

  /**
   * An answer with the right format name, whose first line is followed by
   * optional white space, then a decimal size `L` ended by '\n', has a
   * header of length `L` whose payload starts after that '\n'.
   */
  lemma ParsedAt(fmt: CString, a: seq<byte>, nl: nat, i: nat, d: seq<byte>, L: nat)
    requires FormatPrefix(fmt, a) && FindNewline(a, 0) == Some(nl)
    requires nl + 1 <= i < |a| && forall j :: nl + 1 <= j < i ==> IsSpace(a[j])
    requires Denotes(d, L) && L <= LONG_MAX
    requires i + |d| < |a| && a[i..i + |d|] == d && a[i + |d|] == LF
    ensures ParseHeader(fmt, a) == Parsed(Header(L, i + |d| + 1))
  {
    DigitsConversion(a, nl + 1, i, d, L);
    HeaderAccepted(fmt, a, nl, Conversion(L, i + |d|));
  }

  /** The answer starts with `fmt` when `fmt` is its literal prefix. */
  lemma PrefixMatches(fmt: CString, a: seq<byte>)
    requires |fmt| <= |a| && a[..|fmt|] == fmt
    ensures FormatPrefix(fmt, a)
  {
    forall i | 0 <= i < |fmt| ensures ToLower(fmt[i]) == ToLower(a[i]) {
      assert a[i] == a[..|fmt|][i];
    }
  }

  /** Where the pieces of a framed answer sit. */
  lemma FrameLayout(fmt: seq<byte>, payload: seq<byte>)
    ensures var a, n, d := Frame(fmt, payload), |fmt|, Decimal(|payload|);
      && |a| == n + 1 + |d| + 1 + |payload|
      && a[..n] == fmt && a[n] == LF
      && a[n + 1..n + 1 + |d|] == d
      && a[n + 1 + |d|] == LF
      && a[n + 2 + |d|..] == payload
  {
  }

  /**
   * An answer made of a format name without '\n', '\n', `ws` bytes of white
   * space and a decimal size `L` ended by '\n' has a header of length `L`
   * whose payload starts after that '\n'.
   */
  lemma FramedHeader(fmt: CString, a: seq<byte>, ws: nat, d: seq<byte>, L: nat)
    requires forall i :: 0 <= i < |fmt| ==> fmt[i] != LF
    requires Denotes(d, L) && L <= LONG_MAX
    requires var n := |fmt|;
      && n + 1 + ws + |d| < |a|
      && a[..n] == fmt && a[n] == LF
      && (forall j :: n + 1 <= j < n + 1 + ws ==> IsSpace(a[j]))
      && a[n + 1 + ws..n + 1 + ws + |d|] == d
      && a[n + 1 + ws + |d|] == LF
    ensures ParseHeader(fmt, a) == Parsed(Header(L, |fmt| + 1 + ws + |d| + 1))
  {
    var n := |fmt|;
    PrefixMatches(fmt, a);
    forall j | 0 <= j < n ensures a[j] != LF && a[j] != NUL {
      assert a[j] == a[..n][j];
    }
    FindNewlineAt(a, 0, n);
    ParsedAt(fmt, a, n, n + 1 + ws, d, L);
  }

  /**
   * An answer made of the format name, '\n', `ws` bytes of white space, the
   * decimal size of the payload, '\n' and the payload is saved with exactly
   * that payload.
   */
  lemma SavedFramed(fmt: CString, a: seq<byte>, ws: nat, payload: seq<byte>)
    requires forall i :: 0 <= i < |fmt| ==> fmt[i] != LF
    requires |payload| <= LONG_MAX
    requires var n, d := |fmt|, Decimal(|payload|);
      && |a| == n + 1 + ws + |d| + 1 + |payload|
      && a[..n] == fmt && a[n] == LF
      && (forall j :: n + 1 <= j < n + 1 + ws ==> IsSpace(a[j]))
      && a[n + 1 + ws..n + 1 + ws + |d|] == d
      && a[n + 1 + ws + |d|] == LF
      && a[n + 2 + ws + |d|..] == payload
    ensures SaveFrame(fmt, a, true) == Saved(payload)
  {
    var d := Decimal(|payload|);
    DecimalValue(|payload|);
    FramedHeader(fmt, a, ws, d, |payload|);
    PayloadSaved(fmt, a, Header(|payload|, |fmt| + 1 + ws + |d| + 1));
  }

  /**
   * Round trip: an answer framed as `"<format>\n<size>\n<payload>"` is saved
   * with exactly its payload, for any format name without a newline.
   */
  lemma SaveFrameRoundTrip(fmt: CString, payload: seq<byte>)
    requires forall i :: 0 <= i < |fmt| ==> fmt[i] != LF
    requires |payload| <= LONG_MAX
    ensures SaveFrame(fmt, Frame(fmt, payload), true) == Saved(payload)
  {
    FrameLayout(fmt, payload);
    SavedFramed(fmt, Frame(fmt, payload), 0, payload);
  }

  // ---------------------------------------------------------------------
  // Behaviour of the size field

  /**
   * The size field must be followed directly by '\n': a field such as
   * `640x480` stops the conversion at 'x' and the answer is rejected.
   */
  lemma SizeFieldNeedsNewline(fmt: CString, answer: seq<byte>, nl: nat, e: nat)
    requires FormatPrefix(fmt, answer)
    requires FindNewline(answer, 0) == Some(nl)
    requires nl + 1 < e < |answer|
    requires forall j :: nl + 1 <= j < e ==> IsDigit(answer[j])
    requires !IsDigit(answer[e]) && answer[e] != LF
    ensures ParseHeader(fmt, answer) == Rejected(BadLength)
    ensures SaveFrame(fmt, answer, true) == Failed(BadLength)
  {
    assert !IsSpace(answer[nl + 1]);
    DigitEndAt(answer, nl + 1, e);
  }

  /** The `"<width>x<height>"` line of a raw-image answer is not accepted as a size. */
  lemma RawDimensionsRejected(pixels: seq<byte>)
    ensures SaveFrame(Ascii("raw"), Ascii("raw\n640x480\n") + pixels, true) == Failed(BadLength)
  {
    var a := Ascii("raw\n640x480\n") + pixels;
    var fmt := Ascii("raw");
    assert FormatPrefix(fmt, a);
    FindNewlineAt(a, 0, 3);
    SizeFieldNeedsNewline(fmt, a, 3, 7);
  }

  /**
   * An empty size field (two newlines in a row) followed by no number gives
   * length 0 and an empty payload: `strtol` finds no digits and leaves its
   * end pointer on the second newline.
   */
  lemma EmptySizeField(fmt: CString, rest: seq<byte>)
    requires forall i :: 0 <= i < |fmt| ==> fmt[i] != LF
    requires rest != [] ==> !IsSpace(rest[0]) && !IsDigit(rest[0]) && rest[0] != PLUS && rest[0] != MINUS
    ensures ParseHeader(fmt, fmt + [LF, LF] + rest) == Parsed(Header(0, |fmt| + 2))
    ensures SaveFrame(fmt, fmt + [LF, LF] + rest, true) == Saved([])
  {
    var a := fmt + [LF, LF] + rest;
    var n := |fmt|;
    assert FormatPrefix(fmt, a) by {
      forall i | 0 <= i < n ensures ToLower(fmt[i]) == ToLower(a[i]) {
        assert a[i] == fmt[i];
      }
    }
    FindNewlineAt(a, 0, n);
    assert DigitEnd(a, n + 2) == n + 2;
    assert Convert(a, n + 1, n + 2) == Conversion(0, n + 1);
  }

  /**
   * `strtol` skips leading white space, newlines included: after an empty
   * line the number on the following line is taken as the size.
   */
  lemma BlankLineBeforeSizeSkipped(fmt: CString, payload: seq<byte>)
    requires forall i :: 0 <= i < |fmt| ==> fmt[i] != LF
    requires |payload| <= LONG_MAX
    ensures SaveFrame(fmt, fmt + [LF] + Frame([], payload), true) == Saved(payload)
  {
    BlankLineLayout(fmt, payload);
    SavedFramed(fmt, fmt + [LF] + Frame([], payload), 1, payload);
  }

  /** Where the pieces sit when an empty line precedes the size line. */
  lemma BlankLineLayout(fmt: seq<byte>, payload: seq<byte>)
    ensures var a, n, d := fmt + [LF] + Frame([], payload), |fmt|, Decimal(|payload|);
      && |a| == n + 2 + |d| + 1 + |payload|
      && a[..n] == fmt && a[n] == LF && IsSpace(a[n + 1])
      && a[n + 2..n + 2 + |d|] == d
      && a[n + 2 + |d|] == LF
      && a[n + 3 + |d|..] == payload
  {
    var b := Frame([], payload);
    FrameLayout([], payload);
    var a := fmt + [LF] + b;
    assert a[|fmt| + 1..] == b;
  }

  // ---------------------------------------------------------------------
  // The over-read of the as-written SaveFrame

  /**
   * The header checks accept a size field larger than what follows it: the
   * source then writes 9 bytes from a position where only 2 were received.
   */
  lemma AsWrittenWritesPastAnswer()
    ensures var a := Ascii("jpg\n9\nab");
      && SaveFrameAsWritten(Ascii("jpg"), a, true) == Parsed(Header(9, 6))
      && 6 + 9 > |a|
      && SaveFrame(Ascii("jpg"), a, true) == Failed(Truncated)
  {
    NineByteHeader();
  }

  /** The header of `"jpg\n9\nab"` declares 9 bytes from index 6. */
  lemma NineByteHeader()
    ensures ParseHeader(Ascii("jpg"), Ascii("jpg\n9\nab")) == Parsed(Header(9, 6))
  {
    var a := Ascii("jpg\n9\nab");
    var fmt := Ascii("jpg");
    assert a[..3] == fmt && a[4..5] == [57];
    assert Denotes([57], 9);
    FramedHeader(fmt, a, 0, [57], 9);
  }

  // ---------------------------------------------------------------------
  // The format whitelist of main

  /** `strcasecmp(a, b) == 0` on two C strings. */
  predicate EqualIgnoreCase(a: CString, b: CString)
  {
    |a| == |b| && forall i :: 0 <= i < |a| ==> ToLower(a[i]) == ToLower(b[i])
  }

  /** `main` goes on only for `png`, `raw` or `jpg` in any case; otherwise it returns -1. */
  predicate KnownFormat(fmt: CString)
  {
    EqualIgnoreCase(fmt, Ascii("png")) || EqualIgnoreCase(fmt, Ascii("raw")) || EqualIgnoreCase(fmt, Ascii("jpg"))
  }

  /** What `main` returns after checking the format: -1 for an unknown one. */
  function FormatStatus(fmt: CString): (code: int)
    ensures code == -1 <==> !KnownFormat(fmt)
    ensures code == 0 || code == -1
  {
    if KnownFormat(fmt) then 0 else -1
  }

  function LowerAll(s: seq<byte>): (r: seq<byte>)
    ensures |r| == |s| && forall i :: 0 <= i < |s| ==> r[i] == ToLower(s[i])
  {
    seq(|s|, i requires 0 <= i < |s| => ToLower(s[i]))
  }

  /** Against a lower-case name, a case-insensitive match is equality after folding. */
  lemma EqualIgnoreCaseLower(fmt: CString, b: CString)
    requires LowerAll(b) == b
    ensures EqualIgnoreCase(fmt, b) <==> LowerAll(fmt) == b
  {
    if EqualIgnoreCase(fmt, b) {
      assert forall i :: 0 <= i < |b| ==> LowerAll(fmt)[i] == b[i];
    }
  }

  /** The whitelist is exactly the three lower-case names, after case folding. */
  lemma KnownFormatIff(fmt: CString)
    ensures KnownFormat(fmt) <==> LowerAll(fmt) in {Ascii("png"), Ascii("raw"), Ascii("jpg")}
  {
    var png, raw, jpg := Ascii("png"), Ascii("raw"), Ascii("jpg");
    assert LowerAll(png) == png && LowerAll(raw) == raw && LowerAll(jpg) == jpg;
    EqualIgnoreCaseLower(fmt, png);
    EqualIgnoreCaseLower(fmt, raw);
    EqualIgnoreCaseLower(fmt, jpg);
  }

  /** `jpeg` is not on the whitelist, although the server side names that format too. */
  lemma JpegNotKnown()
    ensures !KnownFormat(Ascii("jpeg"))
    ensures KnownFormat(Ascii("JPG")) && KnownFormat(Ascii("Raw"))
  {
    assert Ascii("JPG") == [74, 80, 71] && Ascii("jpg") == [106, 112, 103];
    assert EqualIgnoreCase(Ascii("JPG"), Ascii("jpg"));
    assert Ascii("Raw") == [82, 97, 119] && Ascii("raw") == [114, 97, 119];
    assert EqualIgnoreCase(Ascii("Raw"), Ascii("raw"));
  }
}
