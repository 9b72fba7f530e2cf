/** What the C library does to text: strstr, the conversions of sscanf and snprintf that the HTTP
    code uses, and decimal numbers. A char stands for one octet. */
module Text {
  import opened Collections

  const SIZE_MAX: nat := 0xffff_ffff_ffff_ffff

  // ---------- Strings ----------

  /** The C string that a buffer holds: everything before the first NUL. */
  function CString(s: string): (t: string)
    ensures t <= s && '\0' !in t
    ensures t == s || (|t| < |s| && s[|t|] == '\0')
  {
    if s == "" || s[0] == '\0' then "" else [s[0]] + CString(s[1..])
  }

  predicate Occurs(s: string, needle: string, i: nat) {
    i + |needle| <= |s| && s[i..i + |needle|] == needle
  }

  /** The first occurrence from index i on. */
  function FindFrom(s: string, needle: string, i: nat): (r: Option<nat>)
    ensures r.None? ==> forall j: nat | i <= j :: !Occurs(s, needle, j)
    ensures r.Some? ==> i <= r.value && Occurs(s, needle, r.value)
                        && forall j: nat | i <= j < r.value :: !Occurs(s, needle, j)
    decreases if |s| < i then 0 else |s| + 1 - i
  {
    if |s| < i + |needle| then None
    else if s[i..i + |needle|] == needle then Some(i)
    else FindFrom(s, needle, i + 1)
  }

  /** strstr, as an index. */
  function StrStr(s: string, needle: string): (r: Option<nat>)
    ensures r.None? ==> forall j: nat :: !Occurs(s, needle, j)
    ensures r.Some? ==> Occurs(s, needle, r.value) && forall j: nat | j < r.value :: !Occurs(s, needle, j)
  {
    FindFrom(s, needle, 0)
  }

  lemma StrStrIs(s: string, needle: string, i: nat)
    requires Occurs(s, needle, i) && forall j: nat | j < i :: !Occurs(s, needle, j)
    ensures StrStr(s, needle) == Some(i)
  {
  }

  /** An occurrence in a prefix is the first occurrence in the whole, if it is the first there. */
  lemma StrStrPrefix(p: string, s: string, needle: string)
    requires p <= s && StrStr(p, needle).Some?
    ensures StrStr(s, needle) == StrStr(p, needle)
  {
    var i := StrStr(p, needle).value;
    assert Occurs(s, needle, i) by {
      assert s[i..i + |needle|] == p[i..i + |needle|];
    }
    forall j: nat | j < i
      ensures !Occurs(s, needle, j)
    {
      assert !Occurs(p, needle, j);
      assert s[j..j + |needle|] == p[j..j + |needle|];
    }
  }

  // ---------- sscanf: %Ns ----------

  predicate IsSpace(c: char) {
    c == ' ' || '\t' <= c <= '\r'
  }

  predicate NoSpace(s: string) {
    forall c | c in s :: !IsSpace(c)
  }

  function SkipSpaces(s: string): (t: string)
    ensures |t| <= |s| && s[|s| - |t|..] == t
    ensures t == "" || !IsSpace(t[0])
  {
    if s == "" || !IsSpace(s[0]) then s else SkipSpaces(s[1..])
  }

  function TakeToken(s: string, max: nat): (t: string)
    ensures t <= s && |t| <= max && NoSpace(t)
  {
    if s == "" || max == 0 || IsSpace(s[0]) then "" else [s[0]] + TakeToken(s[1..], max - 1)
  }

  /** %Ns: the token, which is empty exactly when the conversion fails, and the rest of the input. */
  function ScanToken(s: string, max: nat): (r: (string, string))
    ensures |r.0| <= max && NoSpace(r.0)
  {
    var t := SkipSpaces(s);
    var token := TakeToken(t, max);
    (token, t[|token|..])
  }

  lemma {:induction false} TakeTokenIs(token: string, rest: string, max: nat)
    requires NoSpace(token)
    requires |token| >= max || rest == "" || IsSpace(rest[0])
    ensures TakeToken(token + rest, max) == if |token| <= max then token else token[..max]
  {
    hide IsSpace;
    if token == "" {
      assert token + rest == rest;
    } else if max == 0 {
    } else {
      var s, tail := token + rest, token[1..];
      assert s[0] == token[0] && token[0] in token && s[1..] == tail + rest;
      assert NoSpace(tail);
      TakeTokenIs(tail, rest, max - 1);
      hide NoSpace;
      assert TakeToken(s, max) == [token[0]] + TakeToken(tail + rest, max - 1);
      assert token == [token[0]] + tail;
    }
  }

  /** A token behind one space is scanned whole when it fits and cut at max when it does not. */
  lemma ScanTokenIs(token: string, rest: string, max: nat)
    requires NoSpace(token) && token != "" && max > 0
    requires rest != "" && IsSpace(rest[0])
    ensures ScanToken(" " + token + rest, max).0 == ScanToken(token + rest, max).0
            == if |token| <= max then token else token[..max]
    ensures |token| <= max ==> ScanToken(token + rest, max).1 == rest
  {
    var s := token + rest;
    assert s[0] in token;
    assert SkipSpaces(s) == s;
    assert (" " + token + rest)[1..] == s;
    assert SkipSpaces(" " + token + rest) == s;
    TakeTokenIs(token, rest, max);
  }

  /** The rest of a token that does not fit is left for the next conversion. */
  lemma ScanTokenCut(token: string, rest: string, max: nat)
    requires NoSpace(token) && 0 < max < |token|
    ensures ScanToken(token + rest, max) == (token[..max], token[max..] + rest)
  {
    var s := token + rest;
    assert s[0] in token;
    assert SkipSpaces(s) == s;
    TakeTokenIs(token, rest, max);
    assert s[max..] == token[max..] + rest;
  }

  // ---------- Decimal numbers ----------

  predicate IsDigit(c: char) {
    '0' <= c <= '9'
  }

  predicate AllDigits(s: string) {
    forall c | c in s :: IsDigit(c)
  }

  function Digit(d: nat): (c: char)
    requires d < 10
    ensures IsDigit(c)
  {
    '0' + d as char
  }

  /** What %zu and %d print for a number that is not negative. */
  function Dec(n: nat): (s: string)
    ensures s != "" && AllDigits(s)
  {
    if n < 10 then [Digit(n)] else Dec(n / 10) + [Digit(n % 10)]
  }

  function DigitsValue(s: string): nat
    requires AllDigits(s)
  {
    if s == "" then 0
    else
      assert s[|s| - 1] in s;
      10 * DigitsValue(s[..|s| - 1]) + (s[|s| - 1] as nat - '0' as nat)
  }

  /** Printing and reading decimal numbers are inverse. */
  lemma {:induction false} DecRoundTrip(n: nat)
    ensures DigitsValue(Dec(n)) == n
  {
    if n < 10 {
      assert DigitsValue("") == 0;
      assert [Digit(n)][..0] == "";
    } else {
      DecRoundTrip(n / 10);
      assert Dec(n)[..|Dec(n)| - 1] == Dec(n / 10);
    }
  }

  function Pow10(k: nat): nat {
    if k == 0 then 1 else 10 * Pow10(k - 1)
  }

  lemma {:induction false} DecLength(n: nat, k: nat)
    requires 0 < k && n < Pow10(k)
    ensures |Dec(n)| <= k
  {
    if k == 1 {
      assert Pow10(1) == 10 * Pow10(0);
    } else if n >= 10 {
      DecLength(n / 10, k - 1);
    }
  }

  function TakeDigits(s: string): (t: string)
    ensures t <= s && AllDigits(t)
    ensures t == s || !IsDigit(s[|t|])
  {
    if s == "" || !IsDigit(s[0]) then "" else [s[0]] + TakeDigits(s[1..])
  }

  lemma {:induction false} TakeDigitsIs(d: string, rest: string)
    requires AllDigits(d) && (rest == "" || !IsDigit(rest[0]))
    ensures TakeDigits(d + rest) == d
  {
    if d == "" {
      assert d + rest == rest;
    } else {
      assert d[0] in d;
      assert (d + rest)[1..] == d[1..] + rest;
      TakeDigitsIs(d[1..], rest);
    }
  }

  /** An optional sign and at least one digit: whether it is negative, the digits, and the rest. */
  datatype Number = NoNumber | Number(negative: bool, digits: string, rest: string)

  function ScanNumber(s: string): (r: Number)
    ensures r.Number? ==> r.digits != "" && AllDigits(r.digits)
  {
    var t := SkipSpaces(s);
    var signed := t != "" && (t[0] == '-' || t[0] == '+');
    var u := if signed then t[1..] else t;
    var digits := TakeDigits(u);
    if digits == "" then NoNumber else Number(signed && t[0] == '-', digits, u[|digits|..])
  }

  lemma {:induction false} SkipNone(s: string)
    requires s == "" || !IsSpace(s[0])
    ensures SkipSpaces(s) == s
  {
  }

  lemma ScanDigits(d: string, rest: string)
    requires d != "" && AllDigits(d) && (rest == "" || !IsDigit(rest[0]))
    ensures ScanNumber(d + rest) == Number(false, d, rest)
  {
    hide SkipSpaces, TakeDigits;
    var s := d + rest;
    assert s[0] in d;
    SkipNone(s);
    TakeDigitsIs(d, rest);
    assert s[|d|..] == rest;
  }

  lemma {:induction false} SkipSpace(s: string)
    ensures SkipSpaces(" " + s) == SkipSpaces(s)
  {
    assert (" " + s)[1..] == s;
  }

  lemma ScanSpace(s: string)
    ensures ScanNumber(" " + s) == ScanNumber(s)
  {
    hide SkipSpaces, TakeDigits;
    SkipSpace(s);
  }

  lemma {:induction false} ScanNumberIs(n: nat, rest: string)
    requires rest == "" || !IsDigit(rest[0])
    ensures ScanNumber(" " + Dec(n) + rest) == ScanNumber(Dec(n) + rest) == Number(false, Dec(n), rest)
  {
    hide ScanNumber, Dec;
    ScanDigits(Dec(n), rest);
    ScanSpace(Dec(n) + rest);
    assert " " + Dec(n) + rest == " " + (Dec(n) + rest);
  }

  /** %zu into a 64-bit size: a value that does not fit becomes the largest one, and a minus sign
      negates modulo 2^64. None when there is no number. */
  function ScanSize(s: string): (r: Option<nat>)
    ensures r.Some? ==> r.value <= SIZE_MAX
  {
    match ScanNumber(s)
    case NoNumber => None
    case Number(negative, digits, _) =>
      var v := DigitsValue(digits);
      Some(if v > SIZE_MAX then SIZE_MAX
           else if negative && v > 0 then SIZE_MAX + 1 - v
           else v)
  }

  /** %d. */
  function ScanInt(s: string): Option<(int, string)> {
    match ScanNumber(s)
    case NoNumber => None
    case Number(negative, digits, rest) =>
      var v: int := DigitsValue(digits);
      Some((if negative then -v else v, rest))
  }

  lemma {:induction false} ScanSizeIs(n: nat, rest: string)
    requires n <= SIZE_MAX && (rest == "" || !IsDigit(rest[0]))
    ensures ScanSize(" " + Dec(n) + rest) == Some(n)
  {
    hide ScanNumber, Dec, DigitsValue;
    ScanNumberIs(n, rest);
    DecRoundTrip(n);
  }

  predicate AllSpace(s: string) {
    forall i | 0 <= i < |s| :: IsSpace(s[i])
  }

  lemma {:induction false} SkipAllSpace(ws: string, s: string)
    requires AllSpace(ws)
    ensures SkipSpaces(ws + s) == SkipSpaces(s)
  {
    hide IsSpace;
    if ws == "" {
      assert ws + s == s;
    } else {
      assert (ws + s)[1..] == ws[1..] + s;
      SkipAllSpace(ws[1..], s);
    }
  }

  lemma ScanAllSpace(ws: string, s: string)
    requires AllSpace(ws)
    ensures ScanNumber(ws + s) == ScanNumber(s)
  {
    hide SkipSpaces, TakeDigits, AllSpace;
    SkipAllSpace(ws, s);
  }

  lemma ScanBehindSign(sign: char, d: string, rest: string)
    requires sign == '+' || sign == '-'
    requires d != "" && AllDigits(d) && (rest == "" || !IsDigit(rest[0]))
    ensures ScanNumber([sign] + (d + rest)) == Number(sign == '-', d, rest)
  {
    var s, u := [sign] + (d + rest), d + rest;
    SkipNone(s);
    hide SkipSpaces, TakeDigits, IsSpace, AllDigits;
    TakeDigitsIs(d, rest);
    assert s[0] == sign && s[1..] == u && u[|d|..] == rest;
  }

  lemma {:induction false} ScanSigned(sign: string, n: nat, rest: string)
    requires sign == "" || sign == "+" || sign == "-"
    requires rest == "" || !IsDigit(rest[0])
    ensures ScanNumber(sign + (Dec(n) + rest)) == Number(sign == "-", Dec(n), rest)
  {
    hide ScanNumber, Dec, AllDigits;
    if sign == "" {
      assert sign + (Dec(n) + rest) == Dec(n) + rest;
      ScanDigits(Dec(n), rest);
    } else {
      assert sign == [sign[0]];
      ScanBehindSign(sign[0], Dec(n), rest);
    }
  }

  /** What %zu makes of any printed number, behind any white space and with any sign: a number that does
      not fit becomes the largest size, and a minus sign counts down from 2^64. */
  lemma {:induction false} ScanSizeSigned(ws: string, sign: string, n: nat, rest: string)
    requires AllSpace(ws) && (sign == "" || sign == "+" || sign == "-")
    requires rest == "" || !IsDigit(rest[0])
    ensures ScanSize(ws + (sign + (Dec(n) + rest)))
            == Some(if n > SIZE_MAX then SIZE_MAX else if sign == "-" && n > 0 then SIZE_MAX + 1 - n else n)
  {
    hide ScanNumber, Dec, DigitsValue, AllSpace;
    ScanAllSpace(ws, sign + (Dec(n) + rest));
    ScanSigned(sign, n, rest);
    DecRoundTrip(n);
  }

  // ---------- snprintf ----------

  /** What snprintf leaves in a buffer of cap bytes, without the NUL; it returns |s| all the same. */
  function Snprintf(cap: nat, s: string): string
    requires cap > 0
  {
    if |s| < cap then s else s[..cap - 1]
  }
}
