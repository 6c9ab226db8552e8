/**
 * The JavaScript string and number built-ins the core relies on, on `string`
 * (a sequence of characters): `Number.prototype.toString` for integers,
 * `parseInt` on decimal text, `String.prototype.trim`, `split("~")[0]`,
 * `split("/").at(-1)` and `replace("/", "")`.
 */
module Text {
  import opened Wrappers

  predicate IsDigit(c: char) { '0' <= c <= '9' }

  function DigitValue(c: char): nat
    requires IsDigit(c)
  {
    (c as int) - ('0' as int)
  }

  function DigitChar(d: nat): (c: char)
    requires d < 10
    ensures IsDigit(c) && DigitValue(c) == d
  {
    (('0' as int) + d) as char
  }

  predicate AllDigits(s: string) {
    forall i :: 0 <= i < |s| ==> IsDigit(s[i])
  }

  /** The value of a string of decimal digits, most significant first. */
  function DigitsValue(s: string): nat
    requires AllDigits(s)
  {
    if s == [] then 0 else DigitsValue(s[..|s| - 1]) * 10 + DigitValue(s[|s| - 1])
  }

  function Pow10(k: nat): (p: nat)
    ensures p >= 1
  {
    if k == 0 then 1 else 10 * Pow10(k - 1)
  }

  /** Decimal rendering of a non-negative integer, without leading zeros. */
  function NatToString(n: nat): (s: string)
    ensures |s| > 0 && AllDigits(s)
    ensures |s| > 1 ==> s[0] != '0'
  {
    if n < 10 then [DigitChar(n)] else NatToString(n / 10) + [DigitChar(n % 10)]
  }

  /** `n.toString()` for an integer-valued JavaScript number. */
  function IntToString(n: int): string {
    if n < 0 then "-" + NatToString(-n) else NatToString(n)
  }

  /**
   * `parseInt(s)` for text made of an optional sign and decimal digits; any
   * other text stands for NaN (None).
   */
  function ParseInt(s: string): (r: Option<int>)
    ensures r.Some? ==> 0 < |s|
  {
    if |s| > 0 && (s[0] == '-' || s[0] == '+') then
      var body := s[1..];
      if |body| > 0 && AllDigits(body) then
        Some(if s[0] == '-' then 0 - DigitsValue(body) as int else DigitsValue(body))
      else None
    else if |s| > 0 && AllDigits(s) then Some(DigitsValue(s))
    else None
  }

  lemma {:induction false} NatToStringValue(n: nat)
    ensures DigitsValue(NatToString(n)) == n
  {
    var s := NatToString(n);
    if n >= 10 {
      NatToStringValue(n / 10);
      assert s[..|s| - 1] == NatToString(n / 10);
    }
  }

  /** `parseInt` reads back what `toString` writes, for every integer. */
  lemma IntToStringRoundTrip(n: int)
    ensures ParseInt(IntToString(n)) == Some(n)
  {
    if n < 0 {
      NatToStringValue(-n);
      assert IntToString(n)[1..] == NatToString(-n);
    } else {
      NatToStringValue(n);
    }
  }

  lemma IntToStringInjective(a: int, b: int)
    ensures IntToString(a) == IntToString(b) <==> a == b
  {
    IntToStringRoundTrip(a);
    IntToStringRoundTrip(b);
  }

  lemma {:induction false} NatToStringLength(n: nat, k: nat)
    requires 1 <= k && n < Pow10(k)
    ensures |NatToString(n)| <= k
  {
    if n >= 10 {
      assert k > 1;
      assert n / 10 < Pow10(k - 1);
      NatToStringLength(n / 10, k - 1);
    }
  }

  /** `k` zero characters (none when `k` is not positive). */
  function Zeros(k: int): (z: string)
    ensures |z| == if k <= 0 then 0 else k
    ensures forall i :: 0 <= i < |z| ==> z[i] == '0'
  {
    if k <= 0 then [] else ['0'] + Zeros(k - 1)
  }

  /** `String(n).padStart(width, "0")`, as dayjs pads date fields. */
  function Pad(n: nat, width: nat): string {
    Zeros(width - |NatToString(n)|) + NatToString(n)
  }

  lemma {:induction false} LeadingZerosValue(k: int, x: string)
    requires AllDigits(x)
    ensures AllDigits(Zeros(k) + x)
    ensures DigitsValue(Zeros(k) + x) == DigitsValue(x)
    decreases |x|
  {
    var s := Zeros(k) + x;
    if x == [] {
      assert s == Zeros(k);
      ZerosValue(k);
    } else {
      LeadingZerosValue(k, x[..|x| - 1]);
      assert s[..|s| - 1] == Zeros(k) + x[..|x| - 1];
    }
  }

  lemma {:induction false} ZerosValue(k: int)
    ensures AllDigits(Zeros(k)) && DigitsValue(Zeros(k)) == 0
    decreases if k < 0 then 0 else k
  {
    var z := Zeros(k);
    if k > 0 {
      ZerosValue(k - 1);
      assert z[..|z| - 1] == Zeros(k - 1);
    }
  }

  /** A value below `10^width` pads to exactly `width` digits that read back as the value. */
  lemma PadValue(n: nat, width: nat)
    requires 1 <= width && n < Pow10(width)
    ensures |Pad(n, width)| == width && AllDigits(Pad(n, width))
    ensures DigitsValue(Pad(n, width)) == n
  {
    NatToStringLength(n, width);
    NatToStringValue(n);
    LeadingZerosValue(width - |NatToString(n)|, NatToString(n));
  }

  /** The whitespace and line terminators `String.prototype.trim` removes. */
  predicate IsWhitespace(c: char) {
    c == ' ' || c == '\t' || c == '\n' || c == '\r' || c == '\U{0B}' || c == '\U{0C}'
    || c == '\U{A0}' || c == '\U{FEFF}' || c == '\U{1680}' || ('\U{2000}' <= c <= '\U{200A}')
    || c == '\U{2028}' || c == '\U{2029}' || c == '\U{202F}' || c == '\U{205F}' || c == '\U{3000}'
  }

  function TrimStart(s: string): (r: string)
    ensures |r| <= |s| && r == s[|s| - |r|..]
    ensures |r| > 0 ==> !IsWhitespace(r[0])
    ensures forall i :: 0 <= i < |s| - |r| ==> IsWhitespace(s[i])
  {
    if |s| > 0 && IsWhitespace(s[0]) then TrimStart(s[1..]) else s
  }

  function TrimEnd(s: string): (r: string)
    ensures |r| <= |s| && r == s[..|r|]
    ensures |r| > 0 ==> !IsWhitespace(r[|r| - 1])
    ensures forall i :: |r| <= i < |s| ==> IsWhitespace(s[i])
  {
    if |s| > 0 && IsWhitespace(s[|s| - 1]) then TrimEnd(s[..|s| - 1]) else s
  }

  function Trim(s: string): string {
    TrimEnd(TrimStart(s))
  }

  lemma {:induction false} TrimAround(w1: string, x: string, w2: string)
    requires forall i :: 0 <= i < |w1| ==> IsWhitespace(w1[i])
    requires forall i :: 0 <= i < |w2| ==> IsWhitespace(w2[i])
    requires |x| > 0 && !IsWhitespace(x[0]) && !IsWhitespace(x[|x| - 1])
    ensures Trim(w1 + x + w2) == x
  {
    TrimStartPrefix(w1, x + w2);
    assert w1 + x + w2 == w1 + (x + w2);
    TrimEndSuffix(x, w2);
  }

  lemma {:induction false} TrimStartPrefix(w: string, x: string)
    requires forall i :: 0 <= i < |w| ==> IsWhitespace(w[i])
    requires |x| > 0 && !IsWhitespace(x[0])
    ensures TrimStart(w + x) == x
  {
    if w != [] {
      assert (w + x)[1..] == w[1..] + x;
      TrimStartPrefix(w[1..], x);
    }
  }

  lemma {:induction false} TrimEndSuffix(x: string, w: string)
    requires forall i :: 0 <= i < |w| ==> IsWhitespace(w[i])
    requires |x| > 0 && !IsWhitespace(x[|x| - 1])
    ensures TrimEnd(x + w) == x
  {
    if w != [] {
      assert (x + w)[..|x + w| - 1] == x + w[..|w| - 1];
      TrimEndSuffix(x, w[..|w| - 1]);
    }
  }

  /** `s.split(sep)[0]`: the text before the first `sep`, or all of `s`. */
  function BeforeFirst(s: string, sep: char): (r: string)
    ensures |r| <= |s| && r == s[..|r|]
    ensures sep !in r
    ensures |r| < |s| ==> s[|r|] == sep
    ensures sep !in s ==> r == s
    ensures sep in s ==> |r| < |s|
  {
    if s == [] then [] else if s[0] == sep then [] else [s[0]] + BeforeFirst(s[1..], sep)
  }

  /** `s.split(sep).at(-1)`: the text after the last `sep`, or all of `s`. */
  function AfterLast(s: string, sep: char): (r: string)
    ensures |r| <= |s| && r == s[|s| - |r|..]
    ensures sep !in r
    ensures |r| < |s| ==> s[|s| - |r| - 1] == sep
  {
    if s == [] then []
    else if s[|s| - 1] == sep then []
    else AfterLast(s[..|s| - 1], sep) + [s[|s| - 1]]
  }

  /** `s.replace(c, "")` with a one-character pattern: the first `c` is removed. */
  function RemoveFirst(s: string, c: char): (r: string)
    ensures c !in s ==> r == s
    ensures c in s ==> |r| == |s| - 1
    ensures c in s ==> r == BeforeFirst(s, c) + s[|BeforeFirst(s, c)| + 1..]
  {
    if s == [] then [] else if s[0] == c then s[1..] else [s[0]] + RemoveFirst(s[1..], c)
  }

  /** The text after a prefix that ends with `sep` is the last segment, when it holds no `sep`. */
  lemma {:induction false} AfterLastOfSuffix(w: string, x: string, sep: char)
    requires |w| > 0 && w[|w| - 1] == sep && sep !in x
    ensures AfterLast(w + x, sep) == x
  {
    if x != [] {
      assert (w + x)[..|w + x| - 1] == w + x[..|x| - 1];
      AfterLastOfSuffix(w, x[..|x| - 1], sep);
    } else {
      assert w + x == w;
    }
  }
}
