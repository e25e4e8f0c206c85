/**
 * The pieces of JavaScript semantics the route handlers rely on: truthiness of
 * request fields, `String.prototype.trim`, `String.prototype.split` with a
 * one-character separator, and the global `parseInt` without a radix.
 */
module Js {
  import opened Wrappers

  // ---------------------------------------------------------------------------
  // Truthiness and `||` defaults
  // ---------------------------------------------------------------------------

  /** `if (s)` on a string field of a JSON body: undefined, null and "" are falsy. */
  predicate Truthy(s: Option<string>) {
    s.Some? && s.value != ""
  }

  /** `if (n)` on a numeric field of a JSON body: undefined, null and 0 are falsy. */
  predicate TruthyNum(n: Option<real>) {
    n.Some? && n.value != 0.0
  }

  /**
   * `s || null`: a falsy string becomes NULL. The column never receives an
   * empty string, the value stays as truthy as it was, and whatever is stored
   * is the request's own value.
   */
  function OrNull(s: Option<string>): (r: Option<string>)
    ensures r != Some("")
    ensures Truthy(r) <==> Truthy(s)
    ensures r.Some? ==> r == s
  {
    if Truthy(s) then s else None
  }

  /**
   * `s || d` on a string field: the result is the field or the default, a
   * truthy field is kept, and the result is empty only when both are.
   */
  function OrDefault(s: Option<string>, d: string): (r: string)
    ensures r == d || s == Some(r)
    ensures Truthy(s) ==> r == s.value
    ensures r == "" <==> !Truthy(s) && d == ""
  {
    if Truthy(s) then s.value else d
  }

  /** `n || 0` on a numeric field: the number when present, 0 otherwise. */
  function OrZero(n: Option<real>): (r: real)
    ensures n.Some? ==> r == n.value
    ensures n.None? ==> r == 0.0
  {
    if TruthyNum(n) then n.value else 0.0
  }

  // ---------------------------------------------------------------------------
  // White space, trim
  // ---------------------------------------------------------------------------

  /**
   * The ECMAScript WhiteSpace and LineTerminator code points (section 12.2 and
   * 12.3 of ECMA-262): the characters `trim` removes and `parseInt` skips.
   */
  predicate IsWhiteSpace(c: char) {
    || c == '\t' || c == '\U{B}' || c == '\U{C}' || c == ' ' || c == '\U{A0}' || c == '\U{FEFF}'
    || c == '\U{1680}' || ('\U{2000}' <= c <= '\U{200A}') || c == '\U{202F}' || c == '\U{205F}'
    || c == '\U{3000}'
    || c == '\n' || c == '\r' || c == '\U{2028}' || c == '\U{2029}'
  }

  predicate AllWhiteSpace(s: string) {
    forall i :: 0 <= i < |s| ==> IsWhiteSpace(s[i])
  }

  /** `trimStart`: drops the leading white space and nothing else. */
  function TrimStart(s: string): (r: string)
    ensures |r| <= |s| && r == s[|s| - |r|..]
    ensures AllWhiteSpace(s[..|s| - |r|])
    ensures r != [] ==> !IsWhiteSpace(r[0])
  {
    if s != [] && IsWhiteSpace(s[0]) then
      var r := TrimStart(s[1..]);
      assert s[..|s| - |r|] == [s[0]] + s[1..][..|s| - 1 - |r|];
      r
    else
      s
  }

  /** `trimEnd`: drops the trailing white space and nothing else. */
  function TrimEnd(s: string): (r: string)
    ensures |r| <= |s| && r == s[..|r|]
    ensures AllWhiteSpace(s[|r|..])
    ensures r != [] ==> !IsWhiteSpace(r[|r| - 1])
  {
    if s != [] && IsWhiteSpace(s[|s| - 1]) then
      var r := TrimEnd(s[..|s| - 1]);
      assert s[|r|..] == s[..|s| - 1][|r|..] + [s[|s| - 1]];
      r
    else
      s
  }

  /** `s.trim()`: a contiguous slice of `s` that neither starts nor ends with white space. */
  function Trim(s: string): (r: string)
    ensures exists i, j :: 0 <= i <= j <= |s| && r == s[i..j]
                           && AllWhiteSpace(s[..i]) && AllWhiteSpace(s[j..])
    ensures r != [] ==> !IsWhiteSpace(r[0]) && !IsWhiteSpace(r[|r| - 1])
  {
    var t := TrimStart(s);
    var r := TrimEnd(t);
    var i := |s| - |t|;
    var j := i + |r|;
    assert r == s[i..j];
    assert s[j..] == t[|r|..];
    r
  }

  lemma TrimStartEmptyIff(s: string)
    ensures TrimStart(s) == "" <==> AllWhiteSpace(s)
  {
    var r := TrimStart(s);
    if r == "" {
      assert s[..|s|] == s;
    } else {
      assert r[0] == s[|s| - |r|];
    }
  }

  lemma TrimEndEmptyIff(s: string)
    ensures TrimEnd(s) == "" <==> AllWhiteSpace(s)
  {
    var r := TrimEnd(s);
    if r == "" {
      assert s[0..] == s;
    } else {
      assert r[0] == s[0];
    }
  }

  /** A string trims to "" exactly when it is all white space. */
  lemma TrimEmptyIff(s: string)
    ensures Trim(s) == "" <==> AllWhiteSpace(s)
  {
    var t := TrimStart(s);
    TrimStartEmptyIff(s);
    TrimEndEmptyIff(t);
    if t != [] {
      assert !IsWhiteSpace(t[0]);
    }
  }

  /** Trimming twice is trimming once. */
  lemma TrimIdempotent(s: string)
    ensures Trim(Trim(s)) == Trim(s)
  {
    var r := Trim(s);
    if r != [] {
      assert TrimStart(r) == r;
      assert TrimEnd(r) == r;
    }
  }

  // ---------------------------------------------------------------------------
  // split with a one-character separator
  // ---------------------------------------------------------------------------

  /**
   * `s.split(sep)`: the maximal separator-free pieces between occurrences of
   * `sep`, always at least one (`"".split(" ")` is `[""]`).
   */
  function Split(s: string, sep: char): (parts: seq<string>)
    ensures |parts| >= 1
    ensures forall i :: 0 <= i < |parts| ==> sep !in parts[i]
    decreases |s|
  {
    if s == [] then [""]
    else if s[0] == sep then [""] + Split(s[1..], sep)
    else
      var rest := Split(s[1..], sep);
      [[s[0]] + rest[0]] + rest[1..]
  }

  /** `parts.join(sep)`. */
  function Join(parts: seq<string>, sep: char): string
    requires |parts| >= 1
  {
    if |parts| == 1 then parts[0] else parts[0] + [sep] + Join(parts[1..], sep)
  }

  /** Splitting loses nothing: joining the pieces back gives the string. */
  lemma {:induction false} JoinSplit(s: string, sep: char)
    ensures Join(Split(s, sep), sep) == s
    decreases |s|
  {
    if s == [] {
    } else if s[0] == sep {
      JoinSplit(s[1..], sep);
      assert Split(s, sep)[1..] == Split(s[1..], sep);
    } else {
      JoinSplit(s[1..], sep);
      var rest := Split(s[1..], sep);
      var parts := Split(s, sep);
      if |rest| > 1 {
        assert parts[1..] == rest[1..];
      }
    }
  }

  /** A string without the separator is a single piece. */
  lemma {:induction false} SplitNoSeparator(s: string, sep: char)
    requires sep !in s
    ensures Split(s, sep) == [s]
    decreases |s|
  {
    if s != [] {
      assert s[0] != sep && sep !in s[1..];
      SplitNoSeparator(s[1..], sep);
      assert [s[0]] + s[1..] == s;
    }
  }

  /** A split has a second piece exactly when the separator occurs. */
  lemma SplitSingle(s: string, sep: char)
    ensures |Split(s, sep)| == 1 <==> sep !in s
  {
    if sep !in s {
      SplitNoSeparator(s, sep);
    } else {
      JoinSplit(s, sep);
    }
  }

  /** A separator-free word followed by the separator opens the split. */
  lemma {:induction false} SplitAfterWord(word: string, sep: char, rest: string)
    requires sep !in word
    ensures Split(word + [sep] + rest, sep) == [word] + Split(rest, sep)
    decreases |word|
  {
    if word == [] {
      assert word + [sep] + rest == [sep] + rest;
      assert ([sep] + rest)[1..] == rest;
    } else {
      var s := word + [sep] + rest;
      assert s[0] == word[0] && s[1..] == word[1..] + [sep] + rest;
      assert sep !in word[1..];
      SplitAfterWord(word[1..], sep, rest);
      assert [word[0]] + word[1..] == word;
    }
  }

  /** The first piece of a split is the text before the first separator. */
  lemma {:induction false} SplitFirstWord(word: string, sep: char, tail: string)
    requires sep !in word
    requires tail == [] || tail[0] == sep
    ensures Split(word + tail, sep)[0] == word
    decreases |word|
  {
    if word == [] {
      assert word + tail == tail;
    } else {
      var s := word + tail;
      assert s[1..] == word[1..] + tail;
      assert sep !in word[1..];
      SplitFirstWord(word[1..], sep, tail);
      assert [word[0]] + word[1..] == word;
    }
  }

  /** `arr[i]` on the result of a split: `undefined` past the end. */
  function Piece(parts: seq<string>, i: nat): (r: Option<string>)
    ensures r.Some? <==> i < |parts|
    ensures r.Some? ==> r.value == parts[i]
  {
    if i < |parts| then Some(parts[i]) else None
  }

  // ---------------------------------------------------------------------------
  // parseInt without a radix
  // ---------------------------------------------------------------------------

  /** The value of an alphanumeric digit (0-9, then a/A = 10 up to z/Z = 35); 36 for anything else. */
  function DigitValue(c: char): (v: nat)
    ensures v <= 36
    ensures v < 10 <==> '0' <= c <= '9'
  {
    if '0' <= c <= '9' then c as nat - '0' as nat
    else if 'a' <= c <= 'z' then c as nat - 'a' as nat + 10
    else if 'A' <= c <= 'Z' then c as nat - 'A' as nat + 10
    else 36
  }

  /** The longest prefix of `s` made of digits of the given radix. */
  function DigitPrefix(s: string, radix: nat): (r: string)
    ensures |r| <= |s| && r == s[..|r|]
    ensures forall i :: 0 <= i < |r| ==> DigitValue(r[i]) < radix
    ensures |r| < |s| ==> DigitValue(s[|r|]) >= radix
  {
    if s != [] && DigitValue(s[0]) < radix then [s[0]] + DigitPrefix(s[1..], radix) else []
  }

  /** The number a digit string denotes in the given radix, most significant digit first. */
  function DigitsValue(ds: string, radix: nat): nat
  {
    if ds == [] then 0
    else DigitsValue(ds[..|ds| - 1], radix) * radix + DigitValue(ds[|ds| - 1])
  }

  /**
   * The digits after the sign: radix 16 after a `0x`/`0X` prefix, radix 10
   * otherwise; None when no digit follows.
   */
  function ParseMagnitude(u: string): Option<nat>
  {
    var hex := |u| >= 2 && u[0] == '0' && (u[1] == 'x' || u[1] == 'X');
    var radix := if hex then 16 else 10;
    var digits := DigitPrefix(if hex then u[2..] else u, radix);
    if digits == [] then None else Some(DigitsValue(digits, radix))
  }

  /**
   * `parseInt(s)` (section 19.2.5 of ECMA-262): skip leading white space, take
   * one optional sign, then read the magnitude. None stands for NaN.
   */
  function ParseInt(s: string): Option<int>
  {
    var t := TrimStart(s);
    var signed := t != [] && (t[0] == '-' || t[0] == '+');
    match ParseMagnitude(if signed then t[1..] else t)
    case None => None
    case Some(n) =>
      var v: int := if signed && t[0] == '-' then -(n as int) else n;
      Some(v)
  }

  /** The decimal rendering of a natural number, as a client writes an id into a URL. */
  function DecimalString(n: nat): (s: string)
    ensures |s| >= 1
    ensures forall i :: 0 <= i < |s| ==> '0' <= s[i] <= '9'
  {
    var last := ['0' + (n % 10) as char];
    if n < 10 then last else DecimalString(n / 10) + last
  }

  lemma {:induction false} DecimalStringValue(n: nat)
    ensures DigitsValue(DecimalString(n), 10) == n
  {
    var s := DecimalString(n);
    if n >= 10 {
      DecimalStringValue(n / 10);
      assert s[..|s| - 1] == DecimalString(n / 10);
    }
  }

  lemma {:induction false} DigitPrefixAllDigits(s: string, radix: nat)
    requires forall i :: 0 <= i < |s| ==> DigitValue(s[i]) < radix
    ensures DigitPrefix(s, radix) == s
    decreases |s|
  {
    if s != [] {
      DigitPrefixAllDigits(s[1..], radix);
    }
  }

  /** A run of decimal digits not opening with `0x` is read as a decimal number. */
  lemma ParseMagnitudeDecimal(n: nat)
    ensures ParseMagnitude(DecimalString(n)) == Some(n)
  {
    var s := DecimalString(n);
    assert !(|s| >= 2 && s[0] == '0' && (s[1] == 'x' || s[1] == 'X')) by {
      if |s| >= 2 { assert '0' <= s[1] <= '9'; }
    }
    forall i | 0 <= i < |s| ensures DigitValue(s[i]) < 10 {
      assert '0' <= s[i] <= '9';
    }
    DigitPrefixAllDigits(s, 10);
    DecimalStringValue(n);
  }

  /** parseInt reads back the decimal rendering of every id. */
  lemma ParseIntDecimal(n: nat)
    ensures ParseInt(DecimalString(n)) == Some(n)
  {
    var s := DecimalString(n);
    assert !IsWhiteSpace(s[0]);
    assert TrimStart(s) == s;
    ParseMagnitudeDecimal(n);
  }

  /** A leading minus sign negates: "-7" parses to -7. */
  lemma ParseIntNegative(n: nat)
    ensures ParseInt("-" + DecimalString(n)) == Some(0 - n)
  {
    var s := "-" + DecimalString(n);
    assert s[0] == '-' && !IsWhiteSpace(s[0]);
    assert TrimStart(s) == s;
    assert s[1..] == DecimalString(n);
    ParseMagnitudeDecimal(n);
    assert ParseMagnitude(s[1..]) == Some(n);
  }

  /** A string whose first character is neither white space, a sign nor a decimal digit is NaN. */
  lemma ParseIntNaN(s: string)
    requires s != [] && !IsWhiteSpace(s[0]) && s[0] != '-' && s[0] != '+'
    requires DigitValue(s[0]) >= 10
    ensures ParseInt(s) == None
  {
    assert TrimStart(s) == s;
  }
}
