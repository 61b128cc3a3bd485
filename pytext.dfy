/**
 * The few Python string operations the page logic relies on:
 * `str.strip()`, `str.split(sep)`, `sep.join(parts)`, `int(s)` on a string
 * and `str(n)` on a non-negative integer.
 */
module PyText {
  import opened Outcomes

  /** The ASCII characters `str.strip()` and `int()` treat as whitespace. */
  predicate IsSpace(c: char) {
    c == ' ' || c == '\t' || c == '\n' || c == '\r' || c == '\U{0B}' || c == '\U{0C}'
  }

  predicate IsDigit(c: char) {
    '0' <= c <= '9'
  }

  predicate AllSpace(s: string) {
    forall k :: 0 <= k < |s| ==> IsSpace(s[k])
  }

  function TrimStart(s: string): string
  {
    if |s| > 0 && IsSpace(s[0]) then TrimStart(s[1..]) else s
  }

  function TrimEnd(s: string): string
  {
    if |s| > 0 && IsSpace(s[|s| - 1]) then TrimEnd(s[..|s| - 1]) else s
  }

  /** Python's `s.strip()`: drop leading and trailing whitespace. */
  function Strip(s: string): (r: string)
    ensures |r| <= |s|
    ensures r == [] || (!IsSpace(r[0]) && !IsSpace(r[|r| - 1]))
  {
    TrimStartFacts(s);
    TrimEndFacts(TrimStart(s));
    TrimEnd(TrimStart(s))
  }

  /** Leading whitespace is dropped and nothing else. */
  lemma {:induction false} TrimStartFacts(s: string)
    ensures var r := TrimStart(s);
      && |r| <= |s| && r == s[|s| - |r|..]
      && (r == [] || !IsSpace(r[0]))
      && forall k :: 0 <= k < |s| - |r| ==> IsSpace(s[k])
    decreases |s|
  {
    if |s| > 0 && IsSpace(s[0]) {
      TrimStartFacts(s[1..]);
    }
  }

  /** Trailing whitespace is dropped and nothing else. */
  lemma {:induction false} TrimEndFacts(s: string)
    ensures var r := TrimEnd(s);
      && |r| <= |s| && r == s[..|r|]
      && (r == [] || !IsSpace(r[|r| - 1]))
      && forall k :: |r| <= k < |s| ==> IsSpace(s[k])
    decreases |s|
  {
    if |s| > 0 && IsSpace(s[|s| - 1]) {
      TrimEndFacts(s[..|s| - 1]);
    }
  }

  /**
   * Stripping removes whitespace at the two ends and nothing else: the
   * result is a slice of the input between an all-whitespace prefix and an
   * all-whitespace suffix.
   */
  lemma StripRemovesEnds(s: string)
    ensures exists i, j :: 0 <= i <= j <= |s| && Strip(s) == s[i..j] && AllSpace(s[..i]) && AllSpace(s[j..])
  {
    var t := TrimStart(s);
    TrimStartFacts(s);
    TrimEndFacts(t);
    var i := |s| - |t|;
    var j := i + |Strip(s)|;
    assert t == s[i..];
    assert Strip(s) == s[i..j];
    assert AllSpace(s[..i]);
    assert forall k :: j <= k < |s| ==> s[k] == t[k - i];
    assert AllSpace(s[j..]);
  }

  lemma {:induction false} TrimStartPadded(w: string, t: string)
    requires AllSpace(w) && (t == [] || !IsSpace(t[0]))
    ensures TrimStart(w + t) == t
    decreases |w|
  {
    if w == [] {
      assert w + t == t;
    } else {
      assert (w + t)[0] == w[0];
      assert (w + t)[1..] == w[1..] + t;
      TrimStartPadded(w[1..], t);
    }
  }

  lemma {:induction false} TrimEndPadded(t: string, w: string)
    requires AllSpace(w) && (t == [] || !IsSpace(t[|t| - 1]))
    ensures TrimEnd(t + w) == t
    decreases |w|
  {
    if w == [] {
      assert t + w == t;
    } else {
      var w' := w[..|w| - 1];
      assert (t + w)[|t + w| - 1] == w[|w| - 1];
      assert (t + w)[..|t + w| - 1] == t + w';
      TrimEndPadded(t, w');
    }
  }

  /**
   * Conversely, whitespace around a text that neither starts nor ends with
   * whitespace is exactly what stripping removes.
   */
  lemma StripPadded(w1: string, t: string, w2: string)
    requires AllSpace(w1) && AllSpace(w2)
    requires t == [] || (!IsSpace(t[0]) && !IsSpace(t[|t| - 1]))
    ensures Strip(w1 + t + w2) == t
  {
    if t == [] {
      assert w1 + t + w2 == w1 + w2;
      assert AllSpace(w1 + w2);
      StripEmptyIff(w1 + w2);
    } else {
      assert w1 + t + w2 == w1 + (t + w2);
      assert (t + w2)[0] == t[0];
      TrimStartPadded(w1, t + w2);
      TrimEndPadded(t, w2);
    }
  }

  /** A string that neither starts nor ends with whitespace is its own strip. */
  lemma StripUnpadded(s: string)
    requires s == [] || (!IsSpace(s[0]) && !IsSpace(s[|s| - 1]))
    ensures Strip(s) == s
  {
    if s != [] {
      assert TrimStart(s) == s;
    }
  }

  /** A string strips to nothing exactly when it is all whitespace. */
  lemma StripEmptyIff(s: string)
    ensures Strip(s) == [] <==> AllSpace(s)
  {
    var t := TrimStart(s);
    TrimStartFacts(s);
    TrimEndFacts(t);
  }

  /** Stripping is idempotent. */
  lemma StripIdempotent(s: string)
    ensures Strip(Strip(s)) == Strip(s)
  {
    StripUnpadded(Strip(s));
  }

  /** Python's `s.split(sep)` for a one-character separator. */
  function Split(s: string, sep: char): (parts: seq<string>)
    ensures |parts| >= 1
    decreases |s|
  {
    if |s| == 0 then [""]
    else
      var rest := Split(s[1..], sep);
      if s[0] == sep then [""] + rest
      else [[s[0]] + rest[0]] + rest[1..]
  }

  function Count(s: string, c: char): nat
  {
    if |s| == 0 then 0 else (if s[0] == c then 1 else 0) + Count(s[1..], c)
  }

  lemma {:induction false} CountAppend(a: string, b: string, c: char)
    ensures Count(a + b, c) == Count(a, c) + Count(b, c)
    decreases |a|
  {
    if a == [] {
      assert a + b == b;
    } else {
      assert (a + b)[1..] == a[1..] + b;
      CountAppend(a[1..], b, c);
    }
  }

  lemma {:induction false} CountAbsent(s: string, c: char)
    ensures c !in s ==> Count(s, c) == 0
    decreases |s|
  {
    if s != [] {
      CountAbsent(s[1..], c);
    }
  }

  /** The separator count of `a`, one separator, then `rest`. */
  lemma CountJoined(a: string, rest: string, sep: char)
    ensures Count(a + [sep] + rest, sep) == Count(a, sep) + 1 + Count(rest, sep)
    ensures sep !in a ==> Count(a, sep) == 0
  {
    CountAppend(a + [sep], rest, sep);
    CountAppend(a, [sep], sep);
    CountAbsent(a, sep);
    assert [sep][1..] == [];
  }

  /**
   * Python's `sep.join(parts)` for a one-character separator. When no part
   * holds the separator, the result holds exactly one between each pair of
   * neighbouring parts.
   */
  function Join(parts: seq<string>, sep: char): (r: string)
    ensures (forall k :: 0 <= k < |parts| ==> sep !in parts[k]) ==>
      Count(r, sep) == if parts == [] then 0 else |parts| - 1
  {
    if |parts| == 0 then ""
    else if |parts| == 1 then
      CountAbsent(parts[0], sep);
      parts[0]
    else
      var rest := Join(parts[1..], sep);
      CountJoined(parts[0], rest, sep);
      parts[0] + [sep] + rest
  }

  /** One more piece than there are separators, and no piece holds a separator. */
  lemma {:induction false} SplitPieces(s: string, sep: char)
    ensures |Split(s, sep)| == Count(s, sep) + 1
    ensures forall k :: 0 <= k < |Split(s, sep)| ==> sep !in Split(s, sep)[k]
    decreases |s|
  {
    if |s| > 0 {
      SplitPieces(s[1..], sep);
      var rest := Split(s[1..], sep);
      if s[0] != sep {
        var parts := Split(s, sep);
        forall k | 0 <= k < |parts| ensures sep !in parts[k] {
          if k > 0 { assert parts[k] == rest[k]; }
        }
      }
    }
  }

  /** Joining the pieces of a split gives back the text. */
  lemma {:induction false} JoinSplit(s: string, sep: char)
    ensures Join(Split(s, sep), sep) == s
    decreases |s|
  {
    if |s| > 0 {
      JoinSplit(s[1..], sep);
      var rest := Split(s[1..], sep);
      if s[0] == sep {
        assert s == [sep] + s[1..];
      } else if |rest| == 1 {
        assert s == [s[0]] + rest[0];
      } else {
        var parts := Split(s, sep);
        assert parts[1..] == rest[1..];
        assert s == [s[0]] + (rest[0] + [sep] + Join(rest[1..], sep));
      }
    }
  }

  /** Text without the separator splits into itself alone. */
  lemma {:induction false} SplitWithoutSep(s: string, sep: char)
    requires sep !in s
    ensures Split(s, sep) == [s]
    decreases |s|
  {
    if |s| > 0 {
      SplitWithoutSep(s[1..], sep);
      assert [s[0]] + s[1..] == s;
    }
  }

  /** The first separator ends the first piece. */
  lemma {:induction false} SplitAtSep(a: string, b: string, sep: char)
    requires sep !in a
    ensures Split(a + [sep] + b, sep) == [a] + Split(b, sep)
    decreases |a|
  {
    if |a| == 0 {
      assert a + [sep] + b == [sep] + b;
      assert ([sep] + b)[1..] == b;
    } else {
      SplitAtSep(a[1..], b, sep);
      assert (a + [sep] + b)[1..] == a[1..] + [sep] + b;
      assert [a[0]] + a[1..] == a;
    }
  }

  /** Splitting a join gives back the pieces, when no piece holds the separator. */
  lemma {:induction false} SplitJoin(parts: seq<string>, sep: char)
    requires |parts| >= 1
    requires forall k :: 0 <= k < |parts| ==> sep !in parts[k]
    ensures Split(Join(parts, sep), sep) == parts
    decreases |parts|
  {
    if |parts| == 1 {
      SplitWithoutSep(parts[0], sep);
    } else {
      SplitJoin(parts[1..], sep);
      SplitAtSep(parts[0], Join(parts[1..], sep), sep);
      assert [parts[0]] + parts[1..] == parts;
    }
  }

  function DigitValue(c: char): nat
    requires IsDigit(c)
  {
    c as int - '0' as int
  }

  function DigitChar(d: nat): (c: char)
    requires d < 10
    ensures IsDigit(c) && DigitValue(c) == d
  {
    ('0' as int + d) as char
  }

  /** A non-empty run of ASCII decimal digits. */
  predicate IsDigits(s: string) {
    |s| > 0 && forall k :: 0 <= k < |s| ==> IsDigit(s[k])
  }

  /** The value of a run of decimal digits, most significant first. */
  function DigitsValue(s: string): nat
    requires forall k :: 0 <= k < |s| ==> IsDigit(s[k])
  {
    if |s| == 0 then 0 else DigitsValue(s[..|s| - 1]) * 10 + DigitValue(s[|s| - 1])
  }

  /**
   * The most decimal digits Python's `int()` converts; a longer digit run
   * raises `ValueError` just as a malformed string does.
   */
  const MaxDigits := 4300

  /**
   * Python's `int(s)` on a string: surrounding whitespace, an optional sign
   * and one to `MaxDigits` decimal digits; anything else raises, which is
   * `None` here. A blank string never parses, and a parsed string, once
   * stripped, is a digit run of at most `MaxDigits` digits behind at most
   * one sign character.
   */
  function ParseInt(s: string): (r: Option<int>)
    ensures AllSpace(s) ==> r.None?
    ensures r.Some? ==> 0 < |Strip(s)| <= MaxDigits + 1 && IsDigit(Strip(s)[|Strip(s)| - 1])
    ensures r.Some? ==> var t := Strip(s);
      || (IsDigits(t) && |t| <= MaxDigits)
      || ((t[0] == '+' || t[0] == '-') && IsDigits(t[1..]) && |t| - 1 <= MaxDigits)
  {
    StripEmptyIff(s);
    var t := Strip(s);
    if |t| > 0 && (t[0] == '+' || t[0] == '-') then
      if IsDigits(t[1..]) && |t| - 1 <= MaxDigits then
        var v: int := DigitsValue(t[1..]);
        Some(if t[0] == '-' then -v else v)
      else None
    else if IsDigits(t) && |t| <= MaxDigits then Some(DigitsValue(t))
    else None
  }

  /** A run of at most `MaxDigits` digits parses to its decimal value. */
  lemma ParseDigits(s: string)
    requires IsDigits(s) && |s| <= MaxDigits
    ensures ParseInt(s) == Some(DigitsValue(s))
  {
    assert IsDigit(s[0]) && IsDigit(s[|s| - 1]);
    StripUnpadded(s);
  }

  /**
   * A digit run of at most `MaxDigits` digits behind an optional sign, with
   * whitespace around it, parses to its signed decimal value.
   */
  lemma ParseSignedPadded(w1: string, sign: string, d: string, w2: string)
    requires AllSpace(w1) && AllSpace(w2)
    requires sign == "" || sign == "+" || sign == "-"
    requires IsDigits(d) && |d| <= MaxDigits
    ensures var v: int := DigitsValue(d);
      ParseInt(w1 + sign + d + w2) == Some(if sign == "-" then -v else v)
  {
    StripSignedPadded(w1, sign, d, w2);
    ParseStripped(w1 + sign + d + w2, sign, d);
  }

  lemma StripSignedPadded(w1: string, sign: string, d: string, w2: string)
    requires AllSpace(w1) && AllSpace(w2)
    requires sign == "" || sign == "+" || sign == "-"
    requires IsDigits(d)
    ensures Strip(w1 + sign + d + w2) == sign + d
  {
    var t := sign + d;
    assert !IsSpace(t[0]) && !IsSpace(t[|t| - 1]) by {
      assert t[|t| - 1] == d[|d| - 1];
      assert IsDigit(d[0]) && IsDigit(d[|d| - 1]);
      if sign == "" {
        assert t[0] == d[0];
      } else {
        assert t[0] == sign[0];
      }
    }
    assert w1 + sign + d + w2 == w1 + t + w2;
    StripPadded(w1, t, w2);
  }

  lemma ParseStripped(s: string, sign: string, d: string)
    requires sign == "" || sign == "+" || sign == "-"
    requires IsDigits(d) && |d| <= MaxDigits && Strip(s) == sign + d
    ensures var v: int := DigitsValue(d);
      ParseInt(s) == Some(if sign == "-" then -v else v)
  {
    var t := sign + d;
    if sign == "" {
      assert t == d;
      assert IsDigit(t[0]);
    } else {
      assert t[1..] == d;
    }
  }

  /** A run of more than `MaxDigits` digits does not parse, whatever its value. */
  lemma OverlongRejected(s: string)
    requires IsDigits(s) && |s| > MaxDigits
    ensures ParseInt(s).None?
  {
    assert IsDigit(s[0]) && IsDigit(s[|s| - 1]);
    StripUnpadded(s);
  }

  /** Python's `str(n)` for a non-negative integer. */
  function Str(n: nat): (s: string)
    ensures IsDigits(s)
  {
    if n < 10 then [DigitChar(n)] else Str(n / 10) + [DigitChar(n % 10)]
  }

  /** `int(str(n)) == n`. */
  lemma {:induction false} ParseStr(n: nat)
    requires |Str(n)| <= MaxDigits
    ensures ParseInt(Str(n)) == Some(n)
  {
    ParseDigits(Str(n));
    DigitsValueStr(n);
  }

  lemma {:induction false} DigitsValueStr(n: nat)
    ensures DigitsValue(Str(n)) == n
  {
    if n >= 10 {
      DigitsValueStr(n / 10);
      var s := Str(n);
      assert s[..|s| - 1] == Str(n / 10);
    }
  }

  /** A larger number never has a shorter decimal text. */
  lemma {:induction false} StrLengthMonotone(m: nat, n: nat)
    requires m <= n
    ensures |Str(m)| <= |Str(n)|
    decreases n
  {
    if m >= 10 {
      StrLengthMonotone(m / 10, n / 10);
    }
  }

  /** A decimal rendering never holds a separator such as a comma. */
  lemma StrHasNoComma(n: nat)
    ensures ',' !in Str(n)
  {
    var s := Str(n);
    assert forall k :: 0 <= k < |s| ==> s[k] != ',';
  }
}
