/** The JavaScript string built-ins the engine relies on: `toLowerCase`,
    `trim`, `String(n)` for an integer and `padStart`. Strings are sequences
    of Unicode code points (Dafny's `char`); JavaScript's are sequences of
    UTF-16 code units, a difference the bank's text, all within the Basic
    Multilingual Plane, never meets. */
module JsText {

  /** The code units `String.prototype.trim` removes: JavaScript's WhiteSpace
      (tab, vertical tab, form feed, the byte-order mark and every space
      separator) and LineTerminator (LF, CR, U+2028, U+2029). */
  predicate IsSpace(c: char) {
    || c == '\U{9}' || c == '\U{A}' || c == '\U{B}' || c == '\U{C}' || c == '\U{D}'
    || c == ' ' || c == '\U{A0}' || c == '\U{1680}'
    || ('\U{2000}' <= c <= '\U{200A}')
    || c == '\U{2028}' || c == '\U{2029}' || c == '\U{202F}' || c == '\U{205F}' || c == '\U{3000}'
    || c == '\U{FEFF}'
  }

  ghost predicate AllSpace(s: string) {
    forall k :: 0 <= k < |s| ==> IsSpace(s[k])
  }

  /** Upper-case letters of Basic Latin and Latin-1 (A-Z, U+00C0-U+00DE
      except the multiplication sign U+00D7); both ranges lower by 0x20. */
  predicate IsUpper(c: char) {
    ('A' <= c <= 'Z') || ('\U{C0}' <= c <= '\U{DE}' && c != '\U{D7}')
  }

  function LowerChar(c: char): (d: char)
    ensures IsUpper(c) ==> d as int == c as int + 32
    ensures !IsUpper(c) ==> d == c
    ensures !IsUpper(d)
    ensures IsSpace(d) == IsSpace(c)
  {
    if IsUpper(c) then (c as int + 32) as char else c
  }

  /** `s.toLowerCase()` */
  function Lower(s: string): (r: string)
    ensures |r| == |s| && forall i {:trigger r[i]} :: 0 <= i < |s| ==> r[i] == LowerChar(s[i])
  {
    seq(|s|, i requires 0 <= i < |s| => LowerChar(s[i]))
  }

  /** `s.trimStart()`: drops the longest all-space prefix. */
  function TrimStart(s: string): (r: string)
    ensures |r| <= |s|
    ensures forall k :: 0 <= k < |s| - |r| ==> IsSpace(s[k])
    ensures r == [] || !IsSpace(r[0])
  {
    if s != [] && IsSpace(s[0]) then TrimStart(s[1..]) else s
  }

  /** `s.trimEnd()`: drops the longest all-space suffix. */
  function TrimEnd(s: string): (r: string)
    ensures |r| <= |s|
    ensures forall k :: |r| <= k < |s| ==> IsSpace(s[k])
    ensures r == [] || !IsSpace(r[|r| - 1])
  {
    if s != [] && IsSpace(s[|s| - 1]) then TrimEnd(s[..|s| - 1]) else s
  }

  /** What `trimStart` keeps is a suffix of its input. */
  lemma {:induction false} TrimStartSuffix(s: string)
    ensures TrimStart(s) == s[|s| - |TrimStart(s)|..]
    decreases |s|
  {
    if s != [] && IsSpace(s[0]) {
      TrimStartSuffix(s[1..]);
      assert s[1..][|s| - 1 - |TrimStart(s)|..] == s[|s| - |TrimStart(s)|..];
    }
  }

  /** What `trimEnd` keeps is a prefix of its input. */
  lemma {:induction false} TrimEndPrefix(s: string)
    ensures TrimEnd(s) == s[..|TrimEnd(s)|]
    decreases |s|
  {
    if s != [] && IsSpace(s[|s| - 1]) {
      TrimEndPrefix(s[..|s| - 1]);
      assert s[..|s| - 1][..|TrimEnd(s)|] == s[..|TrimEnd(s)|];
    }
  }

  /** `s.trim()` */
  function Trim(s: string): string {
    TrimEnd(TrimStart(s))
  }

  /** `s.toLowerCase().trim()`, the normal form both sides of a short-answer
      comparison are brought to. */
  function Normalize(s: string): string {
    Trim(Lower(s))
  }

  // ---------------------------------------------------------------------------
  // Trimming ignores surrounding white space

  lemma {:induction false} TrimStartSkipsSpaces(w: string, v: string)
    requires AllSpace(w)
    ensures TrimStart(w + v) == TrimStart(v)
    decreases |w|
  {
    if w != [] {
      var s := w + v;
      assert s[0] == w[0] && IsSpace(s[0]);
      assert s[1..] == w[1..] + v;
      assert TrimStart(s) == TrimStart(s[1..]);
      TrimStartSkipsSpaces(w[1..], v);
    } else {
      assert w + v == v;
    }
  }

  lemma {:induction false} TrimStartAppend(v: string, w: string)
    requires TrimStart(v) != []
    ensures TrimStart(v + w) == TrimStart(v) + w
    decreases |v|
  {
    assert v != [];
    if IsSpace(v[0]) {
      assert (v + w)[1..] == v[1..] + w;
      TrimStartAppend(v[1..], w);
    }
  }

  lemma {:induction false} TrimEndSkipsSpaces(v: string, w: string)
    requires AllSpace(w)
    ensures TrimEnd(v + w) == TrimEnd(v)
    decreases |w|
  {
    if w != [] {
      var s := v + w;
      assert s[|s| - 1] == w[|w| - 1] && IsSpace(s[|s| - 1]);
      assert s[..|s| - 1] == v + w[..|w| - 1];
      assert TrimEnd(s) == TrimEnd(s[..|s| - 1]);
      TrimEndSkipsSpaces(v, w[..|w| - 1]);
    } else {
      assert v + w == v;
    }
  }

  /** Leading and trailing white space around a string never changes its
      trimmed form. */
  lemma TrimIgnoresPadding(before: string, v: string, after: string)
    requires AllSpace(before) && AllSpace(after)
    ensures Trim(before + v + after) == Trim(v)
  {
    assert before + v + after == before + (v + after);
    TrimStartSkipsSpaces(before, v + after);
    if TrimStart(v) != [] {
      TrimStartAppend(v, after);
      TrimEndSkipsSpaces(TrimStart(v), after);
    } else {
      assert AllSpace(v + after);
      TrimStartSkipsSpaces(v + after, []);
      assert v + after + [] == v + after;
    }
  }

  /** Trimming twice is trimming once. */
  lemma TrimIdempotent(s: string)
    ensures Trim(Trim(s)) == Trim(s)
  {
    var t := TrimStart(s);
    var u := TrimEnd(t);
    TrimEndPrefix(t);
    assert u == [] || u[0] == t[0];
  }

  // ---------------------------------------------------------------------------
  // Lower-casing commutes with trimming

  lemma LowerConcat(s: string, t: string)
    ensures Lower(s + t) == Lower(s) + Lower(t)
  {
    assert forall i :: 0 <= i < |s + t| ==> Lower(s + t)[i] == (Lower(s) + Lower(t))[i];
  }

  lemma {:induction false} LowerTrimStart(s: string)
    ensures Lower(TrimStart(s)) == TrimStart(Lower(s))
    decreases |s|
  {
    if s != [] && IsSpace(s[0]) {
      assert Lower(s)[1..] == Lower(s[1..]);
      LowerTrimStart(s[1..]);
    }
  }

  lemma {:induction false} LowerTrimEnd(s: string)
    ensures Lower(TrimEnd(s)) == TrimEnd(Lower(s))
    decreases |s|
  {
    if s != [] && IsSpace(s[|s| - 1]) {
      assert Lower(s)[..|s| - 1] == Lower(s[..|s| - 1]);
      LowerTrimEnd(s[..|s| - 1]);
    }
  }

  /** Lower-casing then trimming is trimming then lower-casing. */
  lemma NormalizeIsLowerOfTrim(s: string)
    ensures Normalize(s) == Lower(Trim(s))
  {
    LowerTrimStart(s);
    LowerTrimEnd(TrimStart(s));
  }

  lemma LowerIdempotent(s: string)
    ensures Lower(Lower(s)) == Lower(s)
  {
  }

  /** The normal form is a fixed point: normalising twice is normalising once. */
  lemma NormalizeIdempotent(s: string)
    ensures Normalize(Normalize(s)) == Normalize(s)
  {
    NormalizeIsLowerOfTrim(s);
    NormalizeIsLowerOfTrim(Normalize(s));
    LowerIdempotent(Trim(s));
    NormalizeIsLowerOfTrim(Trim(s));
    TrimIdempotent(s);
  }

  /** A string that starts and ends with a non-space and has no upper-case
      letter is its own normal form. */
  lemma NormalizeFixed(s: string)
    requires s != [] && !IsSpace(s[0]) && !IsSpace(s[|s| - 1])
    requires forall k :: 0 <= k < |s| ==> !IsUpper(s[k])
    ensures Normalize(s) == s
  {
    assert Lower(s) == s;
    assert TrimStart(s) == s;
  }

  // ---------------------------------------------------------------------------
  // String(n) for an integer n, and its inverse on digit strings

  predicate IsDigit(c: char) { '0' <= c <= '9' }

  ghost predicate AllDigits(s: string) {
    forall k :: 0 <= k < |s| ==> IsDigit(s[k])
  }

  function DigitChar(d: nat): (c: char)
    requires d < 10
    ensures IsDigit(c)
  {
    ('0' as int + d) as char
  }

  /** The decimal digits of `n`, most significant first, without leading zeros. */
  function Digits(n: nat): (r: string)
    ensures |r| >= 1 && AllDigits(r)
    ensures |r| > 1 ==> r[0] != '0'
  {
    if n < 10 then [DigitChar(n)] else Digits(n / 10) + [DigitChar(n % 10)]
  }

  /** `String(n)` for an integer-valued number. */
  function Decimal(n: int): string {
    if n < 0 then "-" + Digits(-n) else Digits(n)
  }

  /** The value of a string of decimal digits (leading zeros allowed). */
  function DigitsValue(s: string): nat
    requires AllDigits(s)
  {
    if s == [] then 0 else DigitsValue(s[..|s| - 1]) * 10 + (s[|s| - 1] as int - '0' as int)
  }

  lemma {:induction false} DigitsRoundTrip(n: nat)
    ensures DigitsValue(Digits(n)) == n
  {
    if n >= 10 {
      var r := Digits(n);
      assert r[..|r| - 1] == Digits(n / 10);
      DigitsRoundTrip(n / 10);
    }
  }

  /** Zeros in front of a digit string do not change its value. */
  lemma {:induction false} LeadingZeros(z: string, s: string)
    requires forall k :: 0 <= k < |z| ==> z[k] == '0'
    requires AllDigits(s)
    ensures AllDigits(z + s)
    ensures DigitsValue(z + s) == DigitsValue(s)
    decreases |z| + |s|
  {
    if s == [] {
      assert z + s == z;
      if z != [] {
        LeadingZeros(z[..|z| - 1], []);
        assert z[..|z| - 1] + [] == z[..|z| - 1];
      }
    } else {
      assert (z + s)[..|z + s| - 1] == z + s[..|s| - 1];
      LeadingZeros(z, s[..|s| - 1]);
    }
  }

  /** The text of an integer is its own normal form: comparing it after
      `toLowerCase().trim()` compares the number itself. */
  lemma DecimalIsNormal(n: int)
    ensures Normalize(Decimal(n)) == Decimal(n)
  {
    var d := Decimal(n);
    assert forall k :: 0 <= k < |d| ==> d[k] == '-' || IsDigit(d[k]);
    NormalizeFixed(d);
  }

  /** `s.padStart(len, fill)` for a one-character fill string. */
  function PadStart(s: string, len: nat, fill: char): (r: string)
    ensures |r| == if |s| >= len then |s| else len
    ensures r[|r| - |s|..] == s
    ensures forall k :: 0 <= k < |r| - |s| ==> r[k] == fill
  {
    if |s| >= len then s else seq(len - |s|, _ => fill) + s
  }
}
