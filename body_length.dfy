/**
 * The body-length arithmetic of webpp11's Server::process: the bytes
 * already buffered past the header block are total - bytes_transferred, and
 * the extra read is std::stoull(header["Content-Length"]) minus those, all
 * in size_t arithmetic.
 */
module BodyLength {
  import opened Http

  /** size_t arithmetic is modulo 2^64. */
  const SizeMod: nat := 0x1_0000_0000_0000_0000

  /** a - b on size_t: below zero it wraps around to 2^64 - (b - a). */
  function SizeSub(a: nat, b: nat): (r: nat)
    requires a < SizeMod && b < SizeMod
    ensures r < SizeMod
    ensures (r + b) % SizeMod == a
  {
    if a >= b then a - b else SizeMod - (b - a)
  }

  /** The read length that follows the header block when a body is declared. */
  datatype BodyRead = NoBody | ReadExactly(count: nat) | LengthRejected

  const ContentLength := "Content-Length"

  predicate IsDigit(c: char) {
    '0' <= c <= '9'
  }

  /** isspace in the C locale. */
  predicate IsSpace(c: char) {
    c == ' ' || c == '\t' || c == '\n' || c == '\r' || c as int == 11 || c as int == 12
  }

  function SkipSpace(s: string): (r: string)
    ensures |r| <= |s| && s[|s| - |r|..] == r
    ensures r != [] ==> !IsSpace(r[0])
    decreases |s|
  {
    if s != [] && IsSpace(s[0]) then SkipSpace(s[1..]) else s
  }

  /** The longest run of decimal digits s starts with. */
  function DigitPrefix(s: string): (r: string)
    ensures |r| <= |s| && r == s[..|r|]
    ensures forall k :: 0 <= k < |r| ==> IsDigit(r[k])
    ensures |r| < |s| ==> !IsDigit(s[|r|])
    decreases |s|
  {
    if s != [] && IsDigit(s[0]) then [s[0]] + DigitPrefix(s[1..]) else []
  }

  function DecimalValue(digits: string): nat
    requires forall k :: 0 <= k < |digits| ==> IsDigit(digits[k])
    decreases |digits|
  {
    if digits == [] then 0
    else
      assert IsDigit(digits[|digits| - 1]);
      10 * DecimalValue(digits[..|digits| - 1]) + (digits[|digits| - 1] as int - '0' as int)
  }

  /**
   * std::stoull in base 10: leading white space, an optional sign, then the
   * longest run of digits; trailing characters are ignored. None when it
   * throws: no digit (invalid_argument) or a magnitude of 2^64 or more
   * (out_of_range). A '-' negates modulo 2^64.
   */
  function Stoull(s: string): (r: Option<nat>)
    ensures r.Some? ==> r.value < SizeMod
  {
    var t := SkipSpace(s);
    var digits := DigitPrefix(Unsigned(t));
    if digits == [] then None
    else Magnitude(t != [] && t[0] == '-', DecimalValue(digits))
  }

  /** What follows an optional leading sign. */
  function Unsigned(t: string): string {
    if t != [] && (t[0] == '+' || t[0] == '-') then t[1..] else t
  }

  /** The value of a digit run read as unsigned long long: out of range from 2^64 on. */
  function Magnitude(negative: bool, n: nat): (r: Option<nat>)
    ensures r.Some? ==> r.value < SizeMod
  {
    if n >= SizeMod then None
    else if negative && n > 0 then Some(SizeMod - n)
    else Some(n)
  }

  /** The shortest decimal spelling of n. */
  function Decimal(n: nat): (r: string)
    ensures r != [] && forall k :: 0 <= k < |r| ==> IsDigit(r[k])
    decreases n
  {
    var last := ['0' + ((n % 10) as char)];
    if n < 10 then last else Decimal(n / 10) + last
  }

  lemma {:induction false} DecimalValueOf(n: nat)
    ensures DecimalValue(Decimal(n)) == n
    decreases n
  {
    if n >= 10 {
      DecimalValueOf(n / 10);
      assert Decimal(n)[..|Decimal(n)| - 1] == Decimal(n / 10);
    }
  }

  lemma {:induction false} DigitPrefixOfDigits(s: string)
    requires forall k :: 0 <= k < |s| ==> IsDigit(s[k])
    ensures DigitPrefix(s) == s
    decreases |s|
  {
    if s != [] {
      DigitPrefixOfDigits(s[1..]);
    }
  }

  /** A plain run of digits reads back as its value. */
  lemma StoullDigits(d: string)
    requires d != [] && forall k :: 0 <= k < |d| ==> IsDigit(d[k])
    requires DecimalValue(d) < SizeMod
    ensures Stoull(d) == Some(DecimalValue(d))
  {
    assert IsDigit(d[0]);
    LeadingDigit(d);
    DigitPrefixOfDigits(d);
    assert Stoull(d) == Magnitude(false, DecimalValue(d));
  }

  /** A string that starts with a digit has no leading space and no sign to skip. */
  lemma LeadingDigit(d: string)
    requires d != [] && IsDigit(d[0])
    ensures SkipSpace(d) == d && Unsigned(d) == d && d[0] != '-'
  {
    assert !IsSpace(d[0]) && d[0] != '+' && d[0] != '-' by {
      assert '0' as int <= d[0] as int <= '9' as int;
    }
  }

  /** A Content-Length value written in decimal reads back as its number. */
  lemma StoullDecimal(n: nat)
    requires n < SizeMod
    ensures Stoull(Decimal(n)) == Some(n)
  {
    DecimalValueOf(n);
    StoullDigits(Decimal(n));
  }

  /**
   * The extra read of process: nothing without a "Content-Length" header
   * (the key is case-sensitive); otherwise Content-Length minus the bytes
   * already buffered past the header block, in size_t arithmetic.
   * LengthRejected stands for std::stoull throwing.
   */
  function BodyReadFor(header: map<string, string>, total: nat, bytesTransferred: nat): (b: BodyRead)
    requires bytesTransferred <= total < SizeMod
    ensures b == NoBody <==> ContentLength !in header
    ensures b == LengthRejected <==> ContentLength in header && Stoull(header[ContentLength]).None?
    ensures b.ReadExactly? ==>
      var n := Stoull(header[ContentLength]).value;
      var buffered := total - bytesTransferred;
      && b.count < SizeMod
      && (n >= buffered ==> buffered + b.count == n)
      && (n < buffered ==> b.count == SizeMod - (buffered - n))
  {
    if ContentLength !in header then NoBody
    else
      match Stoull(header[ContentLength])
      case None => LengthRejected
      case Some(n) => ReadExactly(SizeSub(n, total - bytesTransferred))
  }

  /**
   * Body framing: with "Content-Length: n" and no more than n bytes already
   * buffered, the extra read brings the body to exactly n bytes.
   */
  lemma BodyFraming(header: map<string, string>, total: nat, bytesTransferred: nat, n: nat)
    requires bytesTransferred <= total < SizeMod && n < SizeMod
    requires ContentLength in header && header[ContentLength] == Decimal(n)
    requires total - bytesTransferred <= n
    ensures BodyReadFor(header, total, bytesTransferred) == ReadExactly(n - (total - bytesTransferred))
  {
    StoullDecimal(n);
  }

  /**
   * A Content-Length below the bytes already buffered wraps around: the
   * extra read asks for more bytes than the whole declared body.
   */
  lemma BodyLengthUnderflow(header: map<string, string>, total: nat, bytesTransferred: nat, n: nat)
    requires bytesTransferred <= total < SizeMod && n < SizeMod
    requires ContentLength in header && header[ContentLength] == Decimal(n)
    requires n < total - bytesTransferred
    ensures BodyReadFor(header, total, bytesTransferred).ReadExactly?
    ensures BodyReadFor(header, total, bytesTransferred).count > n
  {
    StoullDecimal(n);
  }

}
