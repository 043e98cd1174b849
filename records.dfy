/** Values shared by the browser widget and the server: the note record, an
    optional value, the whitespace class JavaScript uses for `\s` and
    `String.prototype.trim`, trimming, and the decimal text of an id as it
    appears in URLs and markup. */
module Records {

  datatype Option<+T> = None | Some(value: T) {
    function GetOr(default: T): (r: T) {
      match this
      case Some(v) => v
      case None => default
    }
  }

  /** A note as the server stores it and the widget receives it. */
  datatype Note = Note(id: int, title: string, content: string)

  const Nbsp: char := '\U{00A0}'

  /** ECMAScript WhiteSpace and LineTerminator code points: the set matched by
      `\s` in a regular expression and stripped by `trim`. */
  predicate IsWhitespace(c: char) {
    || c == '\t' || c == '\n' || c == '\U{000B}' || c == '\U{000C}' || c == '\r'
    || c == ' ' || c == Nbsp || c == '\U{1680}'
    || ('\U{2000}' <= c <= '\U{200A}')
    || c == '\U{2028}' || c == '\U{2029}' || c == '\U{202F}' || c == '\U{205F}'
    || c == '\U{3000}' || c == '\U{FEFF}'
  }

  predicate AllWhitespace(s: string) {
    forall i :: 0 <= i < |s| ==> IsWhitespace(s[i])
  }

  /** The number of whitespace characters `s` starts with. */
  function LeadingBlank(s: string): (k: nat)
    ensures k <= |s|
    ensures forall i :: 0 <= i < k ==> IsWhitespace(s[i])
    ensures k < |s| ==> !IsWhitespace(s[k])
  {
    if s != [] && IsWhitespace(s[0]) then 1 + LeadingBlank(s[1..]) else 0
  }

  /** The number of whitespace characters `s` ends with. */
  function TrailingBlank(s: string): (m: nat)
    ensures m <= |s|
    ensures forall i :: |s| - m <= i < |s| ==> IsWhitespace(s[i])
    ensures m < |s| ==> !IsWhitespace(s[|s| - m - 1])
  {
    if s != [] && IsWhitespace(s[|s| - 1]) then 1 + TrailingBlank(s[..|s| - 1]) else 0
  }

  /** `String.prototype.trim`: the infix of `s` that remains once the
      whitespace at both ends is removed. It is empty exactly when `s` is
      all whitespace, and otherwise starts and ends with a non-whitespace
      character. */
  function Trim(s: string): (r: string)
    ensures r == "" <==> AllWhitespace(s)
    ensures r != "" ==> !IsWhitespace(r[0]) && !IsWhitespace(r[|r| - 1])
    ensures LeadingBlank(s) + |r| <= |s|
    ensures r == s[LeadingBlank(s)..LeadingBlank(s) + |r|]
    ensures forall i :: 0 <= i < |s| && !(LeadingBlank(s) <= i < LeadingBlank(s) + |r|) ==> IsWhitespace(s[i])
  {
    var k := LeadingBlank(s);
    if k == |s| then ""
    else
      var m := TrailingBlank(s);
      s[k..|s| - m]
  }

  predicate IsDigit(c: char) {
    '0' <= c <= '9'
  }

  predicate AllDigits(s: string) {
    forall i :: 0 <= i < |s| ==> IsDigit(s[i])
  }

  function DigitChar(d: nat): (c: char)
    requires d < 10
    ensures IsDigit(c) && (c as int) - ('0' as int) == d
  {
    (('0' as int) + d) as char
  }

  /** The shortest decimal numeral of a natural number. */
  function NatDecimal(n: nat): (r: string)
    ensures r != [] && AllDigits(r)
    ensures |r| > 1 ==> r[0] != '0'
  {
    if n < 10 then [DigitChar(n)] else NatDecimal(n / 10) + [DigitChar(n % 10)]
  }

  /** How a JavaScript template literal prints an integer id (`${note.id}`);
      integers of 10^21 and above, which JavaScript prints in exponent form,
      are not distinguished. */
  function Decimal(n: int): (r: string)
    ensures r != []
    ensures n >= 0 ==> AllDigits(r)
    ensures n < 0 ==> |r| > 1 && r[0] == '-' && AllDigits(r[1..])
  {
    if n < 0 then "-" + NatDecimal(-n) else NatDecimal(n)
  }

  /** Reads a string of digits back as a number. */
  function DecimalValue(s: string): (n: nat)
    requires AllDigits(s)
  {
    if s == [] then 0
    else 10 * DecimalValue(s[..|s| - 1]) + ((s[|s| - 1] as int) - ('0' as int))
  }

  lemma {:induction false} NatDecimalRoundTrip(n: nat)
    ensures DecimalValue(NatDecimal(n)) == n
  {
    if n >= 10 {
      NatDecimalRoundTrip(n / 10);
      var r := NatDecimal(n);
      assert r[..|r| - 1] == NatDecimal(n / 10);
    }
  }

  /** Distinct ids print as distinct text, so a URL built from an id names
      that id and no other. */
  lemma DecimalInjective(a: int, b: int)
    requires Decimal(a) == Decimal(b)
    ensures a == b
  {
    if a >= 0 && b >= 0 {
      NatDecimalRoundTrip(a);
      NatDecimalRoundTrip(b);
    } else if a < 0 && b < 0 {
      assert NatDecimal(-a) == Decimal(a)[1..];
      assert NatDecimal(-b) == Decimal(b)[1..];
      NatDecimalRoundTrip(-a);
      NatDecimalRoundTrip(-b);
    }
  }
}
