/** The JavaScript string operations the account and admin code relies on:
    `trim`, `toLowerCase`, `includes`, `replace(/\s+/g, ...)`, template
    interpolation of a counter and `parseInt`. */
module Text {
  import opened Util

  /** The white-space characters recognised by `String.prototype.trim` and by
      the regular-expression class `\s` (line terminators, the ASCII spaces and
      the common Unicode ones). */
  predicate IsWhitespace(c: char) {
    c == ' ' || c == '\t' || c == '\n' || c == '\r' || c == '\U{B}' || c == '\U{C}'
    || c == '\U{A0}' || c == '\U{1680}' || c == '\U{2028}' || c == '\U{2029}'
    || c == '\U{202F}' || c == '\U{205F}' || c == '\U{3000}' || c == '\U{FEFF}'
    || ('\U{2000}' <= c <= '\U{200A}')
  }

  predicate AllWhitespace(s: string) {
    forall k :: 0 <= k < |s| ==> IsWhitespace(s[k])
  }

  /** The characters of `s` from index `lo` up to (not including) `hi` are white space. */
  predicate BlankBetween(s: string, lo: nat, hi: nat)
    requires lo <= hi <= |s|
  {
    forall k :: lo <= k < hi ==> IsWhitespace(s[k])
  }

  /** `trimStart`: drop the leading white space. */
  function TrimLeft(s: string): (r: string)
    ensures |r| <= |s| && r == s[|s| - |r|..]
    ensures forall k :: 0 <= k < |s| - |r| ==> IsWhitespace(s[k])
    ensures r == [] || !IsWhitespace(r[0])
  {
    if |s| > 0 && IsWhitespace(s[0]) then
      var r := TrimLeft(s[1..]);
      assert s[1..][|s| - 1 - |r|..] == s[|s| - |r|..];
      forall k | 0 <= k < |s| - |r| ensures IsWhitespace(s[k]) {
        if k > 0 {
          assert s[k] == s[1..][k - 1];
        }
      }
      r
    else
      s
  }

  /** `trimEnd`: drop the trailing white space. */
  function TrimRight(s: string): (r: string)
    ensures |r| <= |s| && r == s[..|r|]
    ensures forall k :: |r| <= k < |s| ==> IsWhitespace(s[k])
    ensures r == [] || !IsWhitespace(r[|r| - 1])
  {
    if |s| > 0 && IsWhitespace(s[|s| - 1]) then
      var t := s[..|s| - 1];
      var r := TrimRight(t);
      assert t[..|r|] == s[..|r|];
      forall k | |r| <= k < |s| ensures IsWhitespace(s[k]) {
        if k < |s| - 1 {
          assert s[k] == t[k];
        }
      }
      r
    else
      s
  }

  /** `trim`: the middle of `s` between its leading and trailing white space. */
  function Trim(s: string): (r: string)
    ensures r == [] <==> AllWhitespace(s)
    ensures r == [] || (!IsWhitespace(r[0]) && !IsWhitespace(r[|r| - 1]))
    ensures exists i :: OccursAt(s, r, i) && BlankBetween(s, 0, i) && BlankBetween(s, i + |r|, |s|)
  {
    var left := TrimLeft(s);
    var r := TrimRight(left);
    TrimEmptyExactlyWhenBlank(s);
    TrimEnds(s);
    TrimOccurs(s);
    var i := |s| - |left|;
    assert OccursAt(s, r, i) && BlankBetween(s, 0, i) && BlankBetween(s, i + |r|, |s|);
    r
  }

  lemma {:induction false} TrimEnds(s: string)
    ensures var r := TrimRight(TrimLeft(s));
      r == [] || (!IsWhitespace(r[0]) && !IsWhitespace(r[|r| - 1]))
  {
    var left := TrimLeft(s);
    var r := TrimRight(left);
    assert left == [] || !IsWhitespace(left[0]);
    assert r == [] || !IsWhitespace(r[|r| - 1]);
    if r != [] {
      assert |r| <= |left| && r == left[..|r|];
      assert r[0] == left[0];
    }
  }

  lemma {:induction false} TrimEmptyExactlyWhenBlank(s: string)
    ensures TrimRight(TrimLeft(s)) == [] <==> AllWhitespace(s)
  {
    var left := TrimLeft(s);
    if TrimRight(left) != [] {
      assert left != [] && left[0] == s[|s| - |left|];
    }
  }

  /** The trimmed text sits in `s` between a blank prefix and a blank suffix. */
  lemma {:induction false} TrimOccurs(s: string)
    ensures var i := |s| - |TrimLeft(s)|;
      && OccursAt(s, TrimRight(TrimLeft(s)), i)
      && BlankBetween(s, 0, i) && BlankBetween(s, i + |TrimRight(TrimLeft(s))|, |s|)
  {
    TrimOccursAt(s);
    TrimBlankSuffix(s);
  }

  lemma {:induction false} TrimOccursAt(s: string)
    ensures OccursAt(s, TrimRight(TrimLeft(s)), |s| - |TrimLeft(s)|)
  {
    var left := TrimLeft(s);
    var r := TrimRight(left);
    assert |left| <= |s| && left == s[|s| - |left|..];
    assert |r| <= |left| && r == left[..|r|];
    SliceOfPrefixOfSuffix(s, left, r);
  }

  lemma {:induction false} TrimBlankSuffix(s: string)
    ensures var i := |s| - |TrimLeft(s)|;
      BlankBetween(s, i + |TrimRight(TrimLeft(s))|, |s|)
  {
    var left := TrimLeft(s);
    var r := TrimRight(left);
    var i := |s| - |left|;
    forall k | i + |r| <= k < |s| ensures IsWhitespace(s[k]) {
      IndexOfSuffix(s, i, k);
    }
  }

  lemma TrimIdempotent(s: string)
    ensures Trim(Trim(s)) == Trim(s)
  {
    var t := Trim(s);
    assert TrimLeft(t) == t;
    assert TrimRight(t) == t;
  }

  /** `toLowerCase`, restricted to the letters A to Z. */
  function LowerChar(c: char): char {
    if 'A' <= c <= 'Z' then (c as int + 32) as char else c
  }

  function Lower(s: string): (r: string)
    ensures |r| == |s|
    ensures forall k :: 0 <= k < |s| ==> r[k] == LowerChar(s[k])
  {
    if s == [] then [] else [LowerChar(s[0])] + Lower(s[1..])
  }

  lemma LowerIdempotent(s: string)
    ensures Lower(Lower(s)) == Lower(s)
  {
  }

  lemma {:induction false} LowerConcat(a: string, b: string)
    ensures Lower(a + b) == Lower(a) + Lower(b)
  {
    var l, r := Lower(a + b), Lower(a) + Lower(b);
    forall k | 0 <= k < |a + b| ensures l[k] == r[k] {
      if k < |a| {
        assert (a + b)[k] == a[k];
        assert r[k] == Lower(a)[k];
      } else {
        assert (a + b)[k] == b[k - |a|];
        assert r[k] == Lower(b)[k - |a|];
      }
    }
  }

  /** `s.includes(q)`: `q` occurs somewhere in `s` as a contiguous piece. */
  function Includes(s: string, q: string): (r: bool)
    ensures r <==> exists i :: OccursAt(s, q, i)
    decreases |s|
  {
    if |q| > |s| then false
    else if s[..|q|] == q then assert OccursAt(s, q, 0); true
    else
      var rest := Includes(s[1..], q);
      assert rest <==> exists i :: OccursAt(s, q, i) by {
        if rest {
          var i :| OccursAt(s[1..], q, i);
          assert s[1..][i..i + |q|] == s[i + 1..i + 1 + |q|];
          assert OccursAt(s, q, i + 1);
        }
        if exists i :: OccursAt(s, q, i) {
          var i :| OccursAt(s, q, i);
          assert i != 0;
          assert s[1..][i - 1..i - 1 + |q|] == s[i..i + |q|];
          assert OccursAt(s[1..], q, i - 1);
        }
      }
      rest
  }

  /** Leading white space is all that `TrimLeft` removes. */
  lemma {:induction false} TrimLeftOfBlankPrefix(w: string, y: string)
    requires AllWhitespace(w)
    requires y == [] || !IsWhitespace(y[0])
    ensures TrimLeft(w + y) == y
  {
    if w != [] {
      assert (w + y)[0] == w[0];
      assert (w + y)[1..] == w[1..] + y;
      TrimLeftOfBlankPrefix(w[1..], y);
    } else {
      assert w + y == y;
    }
  }

  /** `s.replace(/\s+/g, joiner)`: every maximal run of white space becomes one `joiner`. */
  function ReplaceWhitespaceRuns(s: string, joiner: char): (r: string)
    ensures |r| <= |s|
    ensures !IsWhitespace(joiner) ==> forall k :: 0 <= k < |r| ==> !IsWhitespace(r[k])
    ensures (forall k :: 0 <= k < |s| ==> !IsWhitespace(s[k])) ==> r == s
    decreases |s|
  {
    if s == [] then []
    else if IsWhitespace(s[0]) then [joiner] + ReplaceWhitespaceRuns(TrimLeft(s), joiner)
    else
      var tail := ReplaceWhitespaceRuns(s[1..], joiner);
      assert (forall k :: 0 <= k < |s| ==> !IsWhitespace(s[k])) ==> forall k :: 0 <= k < |s[1..]| ==> !IsWhitespace(s[1..][k]);
      [s[0]] + tail
  }

  /** A character that is not white space is copied. */
  lemma ReplaceKeepsChar(c: char, rest: string, joiner: char)
    requires !IsWhitespace(c)
    ensures ReplaceWhitespaceRuns([c] + rest, joiner) == [c] + ReplaceWhitespaceRuns(rest, joiner)
  {
    assert ([c] + rest)[0] == c && ([c] + rest)[1..] == rest;
  }

  /** A whole run of white space at the front becomes one joiner. */
  lemma ReplaceRunAtFront(w: string, y: string, joiner: char)
    requires w != [] && AllWhitespace(w)
    requires y == [] || !IsWhitespace(y[0])
    ensures ReplaceWhitespaceRuns(w + y, joiner) == [joiner] + ReplaceWhitespaceRuns(y, joiner)
  {
    assert (w + y)[0] == w[0];
    TrimLeftOfBlankPrefix(w, y);
  }

  /** A maximal run of white space after a word becomes exactly one joiner,
      and the replacement goes on after the run. */
  lemma {:induction false} ReplaceOneRun(x: string, w: string, y: string, joiner: char)
    requires forall k :: 0 <= k < |x| ==> !IsWhitespace(x[k])
    requires w != [] && AllWhitespace(w)
    requires y == [] || !IsWhitespace(y[0])
    ensures ReplaceWhitespaceRuns(x + w + y, joiner) == x + [joiner] + ReplaceWhitespaceRuns(y, joiner)
    decreases |x|
  {
    var out := [joiner] + ReplaceWhitespaceRuns(y, joiner);
    ConcatAssoc(x, w, y);
    ConcatAssoc(x, [joiner], ReplaceWhitespaceRuns(y, joiner));
    if x == [] {
      assert x + (w + y) == w + y && x + out == out;
      ReplaceRunAtFront(w, y, joiner);
    } else {
      ReplaceOneRun(x[1..], w, y, joiner);
      ConcatAssoc(x[1..], w, y);
      ConcatAssoc(x[1..], [joiner], ReplaceWhitespaceRuns(y, joiner));
      ReplaceAfterWordChar(x, w + y, out, joiner);
    }
  }

  /** The step of `ReplaceOneRun`: a leading word character is copied in front. */
  lemma ReplaceAfterWordChar(x: string, t: string, out: string, joiner: char)
    requires x != [] && !IsWhitespace(x[0])
    requires ReplaceWhitespaceRuns(x[1..] + t, joiner) == x[1..] + out
    ensures ReplaceWhitespaceRuns(x + t, joiner) == x + out
  {
    ConsConcat(x, t);
    ConsConcat(x, out);
    ReplaceKeepsChar(x[0], x[1..] + t, joiner);
  }

  predicate IsDigit(c: char) {
    '0' <= c <= '9'
  }

  function DigitChar(d: nat): (c: char)
    requires d < 10
    ensures IsDigit(c)
  {
    ('0' as int + d) as char
  }

  function DigitValue(c: char): (d: nat)
    requires IsDigit(c)
    ensures d < 10 && DigitChar(d) == c
  {
    c as int - '0' as int
  }

  /** The decimal text of a counter, as template interpolation `${n}` prints it. */
  function NatToString(n: nat): (r: string)
    ensures |r| >= 1
    ensures forall k :: 0 <= k < |r| ==> IsDigit(r[k])
    ensures n >= 10 <==> |r| >= 2
  {
    if n < 10 then [DigitChar(n)] else NatToString(n / 10) + [DigitChar(n % 10)]
  }

  /** Distinct counters print as distinct texts. */
  lemma {:induction false} NatToStringInjective(a: nat, b: nat)
    requires NatToString(a) == NatToString(b)
    ensures a == b
  {
    var sa, sb := NatToString(a), NatToString(b);
    if a < 10 && b < 10 {
      assert DigitValue(sa[0]) == a && DigitValue(sb[0]) == b;
    } else if a >= 10 && b >= 10 {
      assert sa[|sa| - 1] == DigitChar(a % 10) && sb[|sb| - 1] == DigitChar(b % 10);
      assert DigitValue(sa[|sa| - 1]) == a % 10 && DigitValue(sb[|sb| - 1]) == b % 10;
      assert sa[..|sa| - 1] == NatToString(a / 10);
      assert sb[..|sb| - 1] == NatToString(b / 10);
      NatToStringInjective(a / 10, b / 10);
    }
  }

  /** Length of the run of decimal digits at the front of `s`. */
  function DigitRun(s: string): (k: nat)
    ensures k <= |s|
    ensures forall i :: 0 <= i < k ==> IsDigit(s[i])
    ensures k < |s| ==> !IsDigit(s[k])
  {
    if s == [] || !IsDigit(s[0]) then 0 else 1 + DigitRun(s[1..])
  }

  /** The number a string of decimal digits denotes. */
  function DigitsValue(ds: string): nat
    requires forall i :: 0 <= i < |ds| ==> IsDigit(ds[i])
  {
    if ds == [] then 0 else DigitsValue(ds[..|ds| - 1]) * 10 + DigitValue(ds[|ds| - 1])
  }

  /** `parseInt(s)` in base 10: leading white space, an optional sign, then the
      longest run of digits; None stands for NaN (no digit at all). */
  function ParseInt(s: string): (r: Option<int>)
    ensures r.None? <==> DigitRun(UnsignedPart(TrimLeft(s))) == 0
  {
    ParseTrimmed(TrimLeft(s))
  }

  /** `parseInt` of text that starts with no white space. */
  function ParseTrimmed(t: string): (r: Option<int>)
    ensures r.None? <==> DigitRun(UnsignedPart(t)) == 0
  {
    var digits := UnsignedPart(t);
    var k := DigitRun(digits);
    assert forall i :: 0 <= i < k ==> IsDigit(digits[..k][i]);
    if k == 0 then None
    else if |t| > 0 && t[0] == '-' then Some(-(DigitsValue(digits[..k]) as int))
    else Some(DigitsValue(digits[..k]))
  }

  /** What follows an optional leading `+` or `-`. */
  function UnsignedPart(t: string): string {
    if |t| > 0 && (t[0] == '-' || t[0] == '+') then t[1..] else t
  }

  lemma {:induction false} DigitsValueOfNatToString(n: nat)
    ensures DigitsValue(NatToString(n)) == n
  {
    var s := NatToString(n);
    if n >= 10 {
      DigitsValueOfNatToString(n / 10);
      assert s[..|s| - 1] == NatToString(n / 10);
      assert DigitValue(s[|s| - 1]) == n % 10;
    } else {
      assert s[..0] == [];
    }
  }

  /** parseInt reads a number written with leading white space, an optional
      sign and any non-digit text after it: the digits' value, negated after `-`. */
  lemma {:induction false} ParseIntReadsBack(ws: string, sign: string, n: nat, tail: string)
    requires AllWhitespace(ws)
    requires sign == "" || sign == "+" || sign == "-"
    requires tail == [] || !IsDigit(tail[0])
    ensures ParseInt(ws + sign + NatToString(n) + tail) == Some(if sign == "-" then -(n as int) else n)
  {
    DigitsValueOfNatToString(n);
    ParseIntOfSignedDigits(ws, sign, NatToString(n), tail, n);
  }

  /** `ParseInt` of white space, a sign, a digit string denoting `n` and a
      non-digit tail. */
  lemma {:induction false} ParseIntOfSignedDigits(ws: string, sign: string, ds: string, tail: string, n: nat)
    requires AllWhitespace(ws)
    requires sign == "" || sign == "+" || sign == "-"
    requires ds != [] && forall i :: 0 <= i < |ds| ==> IsDigit(ds[i])
    requires DigitsValue(ds) == n
    requires tail == [] || !IsDigit(tail[0])
    ensures ParseInt(ws + sign + ds + tail) == Some(if sign == "-" then -(n as int) else n)
  {
    SignedTextParts(ws, sign, ds, tail);
    SignedFront(sign, ds + tail);
    DigitRunOfDigits(ds, tail);
    PrefixOfConcat(ds, tail);
    ParseTrimmedOfParts(sign + (ds + tail), ds + tail, ds, sign == "-");
  }

  /** Leading white space before a signed number is what `trimStart` removes. */
  lemma {:induction false} SignedTextParts(ws: string, sign: string, ds: string, tail: string)
    requires AllWhitespace(ws)
    requires sign == "" || sign == "+" || sign == "-"
    requires ds != [] && IsDigit(ds[0])
    ensures TrimLeft(ws + sign + ds + tail) == sign + (ds + tail)
  {
    var rest := sign + (ds + tail);
    SignedFront(sign, ds + tail);
    ConcatAssoc(ws + sign, ds, tail);
    ConcatAssoc(ws, sign, ds + tail);
    TrimLeftOfBlankPrefix(ws, rest);
  }

  /** A sign followed by digits: what `UnsignedPart` leaves, and its first character. */
  lemma SignedFront(sign: string, digits: string)
    requires sign == "" || sign == "+" || sign == "-"
    requires digits != [] && IsDigit(digits[0])
    ensures UnsignedPart(sign + digits) == digits
    ensures (sign + digits)[0] == '-' <==> sign == "-"
    ensures !IsWhitespace((sign + digits)[0])
  {
    if sign == "" {
      assert sign + digits == digits;
    } else {
      SingletonConcat(sign, digits);
    }
  }

  /** `ParseTrimmed` evaluated from its parts: the unsigned part `digits` of
      `t` and the digit run `ds` at the front of it. */
  lemma {:induction false} ParseTrimmedOfParts(t: string, digits: string, ds: string, negative: bool)
    requires UnsignedPart(t) == digits
    requires ds != [] && DigitRun(digits) == |ds| && digits[..|ds|] == ds
    requires |t| > 0 && (t[0] == '-' <==> negative)
    ensures ParseTrimmed(t) == Some(if negative then -(DigitsValue(ds) as int) else DigitsValue(ds))
  {
  }

  /** parseInt reads back what the counter interpolation printed. */
  lemma {:induction false} ParseIntOfNatToString(n: nat)
    ensures ParseInt(NatToString(n)) == Some(n)
  {
    var t := NatToString(n);
    EmptyAround(t);
    ParseIntReadsBack("", "", n, "");
  }

  /** The digit run of digits followed by a non-digit is exactly those digits. */
  lemma {:induction false} DigitRunOfDigits(ds: string, tail: string)
    requires forall i :: 0 <= i < |ds| ==> IsDigit(ds[i])
    requires tail == [] || !IsDigit(tail[0])
    ensures DigitRun(ds + tail) == |ds|
  {
    if ds != [] {
      assert (ds + tail)[1..] == ds[1..] + tail;
      DigitRunOfDigits(ds[1..], tail);
    } else {
      assert ds + tail == tail;
    }
  }

  /** From this magnitude on, `Number.prototype.toString` prints a whole
      number in exponent form. */
  const EXPONENT_FROM: int := 1_000_000_000_000_000_000_000

  /** The first decimal digit of n. */
  function LeadingDigit(n: nat): (d: nat)
    ensures d < 10
    ensures n > 0 ==> d > 0
    ensures NatToString(n)[0] == DigitChar(d)
  {
    if n < 10 then n else LeadingDigit(n / 10)
  }

  /** The digits of `s` without its trailing zeros. */
  function DropTrailingZeros(s: string): (r: string)
    ensures |r| <= |s| && r == s[..|r|]
    ensures r == [] || r[|r| - 1] != '0'
    ensures forall k :: |r| <= k < |s| ==> s[k] == '0'
  {
    if s == [] || s[|s| - 1] != '0' then s else DropTrailingZeros(s[..|s| - 1])
  }

  /** `String(n)` for a non-negative whole number: its digits below 10^21,
      otherwise `d.ddde+N` (the mantissa without trailing zeros, and no
      `.` when nothing is left of it). */
  function MagnitudeText(n: nat): (r: string)
    ensures n < EXPONENT_FROM ==> r == NatToString(n)
    ensures n >= EXPONENT_FROM ==> |r| >= 2 && r[0] == NatToString(n)[0] && (r[1] == '.' || r[1] == 'e')
  {
    var ds := NatToString(n);
    if n < EXPONENT_FROM then ds
    else
      var mantissa := DropTrailingZeros(ds[1..]);
      [ds[0]] + (if mantissa == [] then "" else "." + mantissa) + "e+" + NatToString(|ds| - 1)
  }

  /** `String(n)` for a whole number: a `-` in front of a negative one. */
  function NumberText(n: int): (r: string)
    ensures |r| >= 2 || (0 <= n < 10 && |r| == 1)
    ensures r[0] == '-' <==> n < 0
    ensures n >= 0 ==> IsDigit(r[0])
    ensures n < 0 ==> IsDigit(r[1])
  {
    if n < 0 then "-" + MagnitudeText(-n) else MagnitudeText(n)
  }

  /** The number `parseInt(String(n))` gives back: n itself below 10^21 in
      magnitude, otherwise only its signed leading digit. */
  function Reparsed(n: int): (r: int)
    ensures r > 0 <==> n > 0
    ensures r < 0 <==> n < 0
    ensures -EXPONENT_FROM < n < EXPONENT_FROM ==> r == n
    ensures n >= EXPONENT_FROM ==> 1 <= r <= 9
    ensures n <= -EXPONENT_FROM ==> -9 <= r <= -1
  {
    if n >= EXPONENT_FROM then LeadingDigit(n) as int
    else if n <= -EXPONENT_FROM then -(LeadingDigit(-n) as int)
    else n
  }

  /** `parseInt(x)` of a number x (None for NaN): `String` prints x and the
      text is parsed again, which gives x back below 10^21 in magnitude and
      only its signed leading digit from there on. */
  method ParseNumber(x: Option<int>) returns (r: Option<int>)
    ensures x.None? ==> r.None?
    ensures x.Some? ==> r == Some(Reparsed(x.value))
  {
    if x.None? {
      return None;
    }
    r := ParseInt(NumberText(x.value));
    ParseIntOfNumberText(x.value);
  }

  /** `parseInt` of the text `String` prints for a whole number. */
  lemma {:induction false} ParseIntOfNumberText(n: int)
    ensures ParseInt(NumberText(n)) == Some(Reparsed(n))
  {
    var sign := if n < 0 then "-" else "";
    var m: nat := if n < 0 then -n else n;
    var t := MagnitudeText(m);
    assert NumberText(n) == sign + t;
    if m < EXPONENT_FROM {
      assert t == NatToString(m);
      ParseIntOfPlainText(sign, t, m);
      assert Reparsed(n) == if n < 0 then -(m as int) else m;
    } else {
      var d := LeadingDigit(m);
      assert t[0] == DigitChar(d) && !IsDigit(t[1]);
      ParseIntOfExponentText(sign, t, d);
      assert Reparsed(n) == if n < 0 then -(d as int) else d;
    }
  }

  /** `parseInt` of a sign followed by the digits of m. */
  lemma {:induction false} ParseIntOfPlainText(sign: string, t: string, m: nat)
    requires sign == "" || sign == "-"
    requires t == NatToString(m)
    ensures ParseInt(sign + t) == Some(if sign == "-" then -(m as int) else m)
  {
    DigitsValueOfNatToString(m);
    EmptyAfter(t);
    ParseIntOfDigitsThen(sign, t, [], m);
  }

  /** `parseInt` of a sign, one digit d and a rest that starts with no digit. */
  lemma {:induction false} ParseIntOfExponentText(sign: string, t: string, d: nat)
    requires sign == "" || sign == "-"
    requires d < 10 && |t| >= 2 && t[0] == DigitChar(d) && !IsDigit(t[1])
    ensures ParseInt(sign + t) == Some(if sign == "-" then -(d as int) else d)
  {
    var ds := [t[0]];
    assert ds[..0] == [];
    assert DigitsValue(ds) == d;
    assert t == ds + t[1..];
    ParseIntOfDigitsThen(sign, ds, t[1..], d);
  }

  /** `parseInt` of a sign, digits denoting k and a non-digit rest. */
  lemma {:induction false} ParseIntOfDigitsThen(sign: string, ds: string, tail: string, k: nat)
    requires sign == "" || sign == "-"
    requires ds != [] && forall i :: 0 <= i < |ds| ==> IsDigit(ds[i])
    requires DigitsValue(ds) == k
    requires tail == [] || !IsDigit(tail[0])
    ensures ParseInt(sign + (ds + tail)) == Some(if sign == "-" then -(k as int) else k)
  {
    EmptyInFront(sign, ds, tail);
    ParseIntOfSignedDigits("", sign, ds, tail, k);
  }
}
