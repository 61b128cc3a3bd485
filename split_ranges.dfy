/**
 * The page-range box of the split tool: comma-separated `start-end` tokens
 * for a document of `total` pages, and the pages each accepted range selects.
 */
module SplitRanges {
  import opened Outcomes
  import opened PyText

  /** A requested page range, 1-based and inclusive. */
  datatype Range = Range(start: int, end: int)

  /** A message shown for a token that is not accepted. */
  datatype Notice =
    | IgnoredFormat(part: string)       // not two `-`-separated fields
    | InvalidRange(start: int, end: int) // numbers outside the document

  /** What happens to one comma-separated token. */
  datatype Verdict =
    | Blank
    | BadShape
    | NotInteger
    | OutOfBounds(start: int, end: int)
    | Accepted(start: int, end: int)

  /** What the parser leaves behind: the accepted ranges, the messages shown,
      and whether a non-integer field ended the parse. */
  datatype Outcome = Outcome(ranges: seq<Range>, notices: seq<Notice>, stopped: bool)

  predicate InBounds(start: int, end: int, total: int) {
    1 <= start <= end <= total
  }

  function Classify(part: string, total: int): (v: Verdict)
    ensures v.Accepted? ==> InBounds(v.start, v.end, total)
    ensures v.OutOfBounds? ==> !InBounds(v.start, v.end, total)
    ensures v.Blank? <==> AllSpace(part)
  {
    StripEmptyIff(part);
    var t := Strip(part);
    if t == [] then Blank
    else
      var fields := Split(t, '-');
      if |fields| != 2 then BadShape
      else
        match (ParseInt(fields[0]), ParseInt(fields[1]))
        case (Some(s), Some(e)) =>
          if InBounds(s, e, total) then Accepted(s, e) else OutOfBounds(s, e)
        case _ => NotInteger
  }

  /** A comma-separated token together with its verdict. */
  datatype Token = Token(text: string, verdict: Verdict)

  /** The tokens of the input, each classified on its own. */
  function Tokenize(parts: seq<string>, total: int): (ts: seq<Token>)
    ensures |ts| == |parts|
    ensures forall k :: 0 <= k < |ts| ==> ts[k].text == parts[k]
    ensures forall k :: 0 <= k < |ts| && ts[k].verdict.Accepted? ==>
      InBounds(ts[k].verdict.start, ts[k].verdict.end, total)
  {
    seq(|parts|, k requires 0 <= k < |parts| => Token(parts[k], Classify(parts[k], total)))
  }

  /** The effect of one token on the parse so far. */
  function Step(o: Outcome, t: Token): Outcome
  {
    if o.stopped then o
    else
      match t.verdict
      case Blank => o
      case BadShape => o.(notices := o.notices + [IgnoredFormat(t.text)])
      case NotInteger => o.(stopped := true)
      case OutOfBounds(s, e) => o.(notices := o.notices + [InvalidRange(s, e)])
      case Accepted(s, e) => o.(ranges := o.ranges + [Range(s, e)])
  }

  /**
   * A stopped parse stays as it is; otherwise a token stops it exactly when
   * its fields are not integers, and adds at most one range or message
   * while removing none.
   */
  lemma StepGrows(o: Outcome, t: Token)
    ensures o.stopped ==> Step(o, t) == o
    ensures Step(o, t).stopped <==> o.stopped || t.verdict.NotInteger?
    ensures o.ranges <= Step(o, t).ranges && o.notices <= Step(o, t).notices
    ensures |Step(o, t).ranges| + |Step(o, t).notices| <= |o.ranges| + |o.notices| + 1
  {
  }

  /** The parse of a list of tokens, token by token from the left. */
  function Scan(ts: seq<Token>): Outcome
  {
    if |ts| == 0 then Outcome([], [], false)
    else Step(Scan(ts[..|ts| - 1]), ts[|ts| - 1])
  }

  /**
   * The parser of the split tool. A non-integer field raises inside the
   * `try` that wraps the loop, so the loop ends there and keeps what it had.
   */
  method ParseRanges(input: string, total: int) returns (o: Outcome)
    ensures o == Scan(Tokenize(Split(input, ','), total))
  {
    var parts := Split(input, ',');
    ghost var ts := Tokenize(parts, total);
    o := Outcome([], [], false);
    var i := 0;
    while i < |parts|
      invariant 0 <= i <= |parts|
      invariant o == Scan(ts[..i]) && !o.stopped
    {
      var part := parts[i];
      ScanSnoc(ts, i);
      ClassifyCases(part, total);
      var t := Strip(part);
      if t != [] {
        var fields := Split(t, '-');
        if |fields| != 2 {
          o := o.(notices := o.notices + [IgnoredFormat(part)]);
        } else {
          var start, end := ParseInt(fields[0]), ParseInt(fields[1]);
          if start.None? || end.None? {
            o := o.(stopped := true);
            StoppedIsFinal(ts[..i + 1], ts[i + 1..]);
            assert ts[..i + 1] + ts[i + 1..] == ts;
            return;
          }
          if start.value < 1 || end.value > total || start.value > end.value {
            o := o.(notices := o.notices + [InvalidRange(start.value, end.value)]);
          } else {
            o := o.(ranges := o.ranges + [Range(start.value, end.value)]);
          }
        }
      }
      assert o == Step(Scan(ts[..i]), ts[i]);
      i := i + 1;
    }
    assert ts[..i] == ts;
  }

  /** The tests of the parser loop, in its order, decide the verdict. */
  lemma ClassifyCases(part: string, total: int)
    ensures var t := Strip(part);
      && (t == [] ==> Classify(part, total) == Blank)
      && (t != [] && |Split(t, '-')| != 2 ==> Classify(part, total) == BadShape)
      && (t != [] && |Split(t, '-')| == 2 ==>
            var start, end := ParseInt(Split(t, '-')[0]), ParseInt(Split(t, '-')[1]);
            Classify(part, total) ==
              if start.None? || end.None? then NotInteger
              else if start.value < 1 || end.value > total || start.value > end.value
              then OutOfBounds(start.value, end.value)
              else Accepted(start.value, end.value))
  {
  }

  lemma ScanSnoc(ts: seq<Token>, i: nat)
    requires i < |ts|
    ensures Scan(ts[..i + 1]) == Step(Scan(ts[..i]), ts[i])
  {
    assert ts[..i + 1][..i] == ts[..i];
  }

  /** Once a parse has stopped, no later token changes it. */
  lemma {:induction false} StoppedIsFinal(p: seq<Token>, q: seq<Token>)
    requires Scan(p).stopped
    ensures Scan(p + q) == Scan(p)
    decreases |q|
  {
    if |q| > 0 {
      StoppedIsFinal(p, q[..|q| - 1]);
      assert (p + q)[..|p + q| - 1] == p + q[..|q| - 1];
    } else {
      assert p + q == p;
    }
  }

  function Selected(v: Verdict): seq<Range>
  {
    if v.Accepted? then [Range(v.start, v.end)] else []
  }

  /** The ranges accepted by the tokens, read independently of one another. */
  function AcceptedRanges(ts: seq<Token>): seq<Range>
  {
    if |ts| == 0 then [] else Selected(ts[0].verdict) + AcceptedRanges(ts[1..])
  }

  lemma {:induction false} AcceptedRangesAppend(a: seq<Token>, b: seq<Token>)
    ensures AcceptedRanges(a + b) == AcceptedRanges(a) + AcceptedRanges(b)
    decreases |a|
  {
    if |a| == 0 {
      assert a + b == b;
    } else {
      AcceptedRangesAppend(a[1..], b);
      assert (a + b)[1..] == a[1..] + b;
    }
  }

  /** The message a token shows on its own: a warning for a malformed token,
      an error for a range outside the document, nothing otherwise. */
  function Reports(t: Token): seq<Notice>
  {
    match t.verdict
    case BadShape => [IgnoredFormat(t.text)]
    case OutOfBounds(s, e) => [InvalidRange(s, e)]
    case _ => []
  }

  /** The messages of the tokens, read independently of one another. */
  function Reported(ts: seq<Token>): seq<Notice>
  {
    if |ts| == 0 then [] else Reports(ts[0]) + Reported(ts[1..])
  }

  lemma {:induction false} ReportedAppend(a: seq<Token>, b: seq<Token>)
    ensures Reported(a + b) == Reported(a) + Reported(b)
    decreases |a|
  {
    if |a| == 0 {
      assert a + b == b;
    } else {
      ReportedAppend(a[1..], b);
      assert (a + b)[0] == a[0];
      assert (a + b)[1..] == a[1..] + b;
      assert Reported(a + b) == Reports(a[0]) + Reported(a[1..] + b);
    }
  }

  lemma ReportedSnoc(a: seq<Token>, t: Token)
    ensures Reported(a + [t]) == Reported(a) + Reports(t)
  {
    ReportedAppend(a, [t]);
    assert [t][1..] == [];
  }

  lemma AcceptedRangesSnoc(a: seq<Token>, t: Token)
    ensures AcceptedRanges(a + [t]) == AcceptedRanges(a) + Selected(t.verdict)
  {
    AcceptedRangesAppend(a, [t]);
    assert [t][1..] == [];
  }

  /** A token with a non-integer field keeps the ranges and messages and stops the parse. */
  lemma StepStops(o: Outcome, t: Token)
    requires t.verdict.NotInteger?
    ensures Step(o, t) == o.(stopped := true)
  {
  }

  /** A running parse and a token with integer fields: the token's range and message are appended. */
  lemma StepLive(o: Outcome, t: Token)
    requires !o.stopped && !t.verdict.NotInteger?
    ensures Step(o, t) == Outcome(o.ranges + Selected(t.verdict), o.notices + Reports(t), false)
  {
    assert o.ranges + [] == o.ranges && o.notices + [] == o.notices;
  }

  /** Every range accepted from tokens whose accepted verdicts are in bounds is in bounds. */
  lemma {:induction false} AcceptedRangesInBounds(ts: seq<Token>, total: int)
    requires forall k :: 0 <= k < |ts| && ts[k].verdict.Accepted? ==>
      InBounds(ts[k].verdict.start, ts[k].verdict.end, total)
    ensures forall r :: r in AcceptedRanges(ts) ==> InBounds(r.start, r.end, total)
    decreases |ts|
  {
    if |ts| > 0 {
      AcceptedRangesInBounds(ts[1..], total);
    }
  }

  /** No token of the list has a non-integer field. */
  predicate NoStop(ts: seq<Token>) {
    forall j :: 0 <= j < |ts| ==> !ts[j].verdict.NotInteger?
  }

  /** The index of the first token whose fields are not integers, or the
      number of tokens when there is none. */
  function FirstStop(ts: seq<Token>): (k: nat)
    ensures k <= |ts|
    ensures forall j :: 0 <= j < k ==> !ts[j].verdict.NotInteger?
    ensures k < |ts| ==> ts[k].verdict.NotInteger?
  {
    if |ts| == 0 then 0
    else if ts[0].verdict.NotInteger? then 0
    else 1 + FirstStop(ts[1..])
  }

  /** How the first stop of a token list relates to that of its prefix. */
  lemma FirstStopSnoc(ts: seq<Token>)
    requires |ts| > 0
    ensures var init := ts[..|ts| - 1];
      FirstStop(ts) ==
        if FirstStop(init) < |init| then FirstStop(init)
        else if ts[|ts| - 1].verdict.NotInteger? then |ts| - 1
        else |ts|
  {
    var init := ts[..|ts| - 1];
    assert forall j :: 0 <= j < |init| ==> ts[j] == init[j];
  }

  /**
   * What the parse accepts: the in-bounds ranges of the tokens before the
   * first non-integer token, in input order; it stops exactly when such a
   * token exists.
   */
  lemma {:induction false} ScanCharacterised(ts: seq<Token>)
    ensures Scan(ts).stopped <==> FirstStop(ts) < |ts|
    ensures Scan(ts).ranges == AcceptedRanges(ts[..FirstStop(ts)])
    decreases |ts|
  {
    var n := |ts|;
    if n == 0 {
      assert ts[..FirstStop(ts)] == [];
      return;
    }
    var init, last := ts[..n - 1], ts[n - 1];
    ScanCharacterised(init);
    FirstStopSnoc(ts);
    var k' := FirstStop(init);
    assert Scan(ts) == Step(Scan(init), last);
    if k' < n - 1 {
      assert ts[..k'] == init[..k'];
    } else if last.verdict.NotInteger? {
      StepStops(Scan(init), last);
      assert ts[..n - 1] == init[..k'];
    } else {
      StepLive(Scan(init), last);
      assert init[..k'] == init;
      assert ts[..n] == init + [last];
      AcceptedRangesSnoc(init, last);
    }
  }


  /**
   * What the parse reports: the messages of the tokens before the first
   * non-integer token, in input order — a warning for each malformed token
   * and an error for each range outside the document.
   */
  lemma {:induction false} ScanReported(ts: seq<Token>)
    ensures Scan(ts).notices == Reported(ts[..FirstStop(ts)])
    decreases |ts|
  {
    var n := |ts|;
    if n == 0 {
      assert ts[..FirstStop(ts)] == [];
      return;
    }
    var init, last := ts[..n - 1], ts[n - 1];
    ScanReported(init);
    ScanCharacterised(init);
    FirstStopSnoc(ts);
    var k' := FirstStop(init);
    assert Scan(ts) == Step(Scan(init), last);
    if k' < n - 1 {
      assert ts[..k'] == init[..k'];
    } else if last.verdict.NotInteger? {
      StepStops(Scan(init), last);
      assert ts[..n - 1] == init[..k'];
    } else {
      StepLive(Scan(init), last);
      assert init[..k'] == init;
      assert ts[..n] == init + [last];
      ReportedSnoc(init, last);
    }
  }


  /** Every range the parser accepts lies inside the document. */
  lemma ParsedRangesInBounds(input: string, total: int)
    ensures forall r :: r in Scan(Tokenize(Split(input, ','), total)).ranges ==> InBounds(r.start, r.end, total)
  {
    var ts := Tokenize(Split(input, ','), total);
    ScanCharacterised(ts);
    AcceptedRangesInBounds(ts[..FirstStop(ts)], total);
  }

  /**
   * A non-integer token ends the parse: the ranges accepted before it are
   * kept, and whatever follows it is never looked at.
   */
  lemma NonIntegerStops(p: seq<Token>, bad: Token, q: seq<Token>)
    requires bad.verdict.NotInteger?
    ensures Scan(p + [bad] + q) == Scan(p + [bad])
    ensures Scan(p + [bad]).stopped
    ensures Scan(p + [bad]).ranges == Scan(p).ranges
  {
    assert (p + [bad])[..|p|] == p;
    StoppedIsFinal(p + [bad], q);
  }

  /** Without a non-integer token, the parse accepts exactly the accepted tokens. */
  lemma NoStopScan(ts: seq<Token>)
    requires NoStop(ts)
    ensures !Scan(ts).stopped
    ensures Scan(ts).ranges == AcceptedRanges(ts)
    ensures Scan(ts).notices == Reported(ts)
  {
    ScanCharacterised(ts);
    ScanReported(ts);
    assert ts[..|ts|] == ts;
  }

  /** Behind tokens that all have integer fields, the first stop is shifted by their number. */
  lemma {:induction false} FirstStopAfter(p: seq<Token>, q: seq<Token>)
    requires NoStop(p)
    ensures FirstStop(p + q) == |p| + FirstStop(q)
    decreases |p|
  {
    if p == [] {
      assert p + q == q;
    } else {
      assert (p + q)[0] == p[0];
      assert (p + q)[1..] == p[1..] + q;
      FirstStopAfter(p[1..], q);
    }
  }

  /**
   * Behind a prefix without non-integer tokens, token lists parse piecewise:
   * the prefix's ranges come first, then those of the rest, and the whole
   * parse stops exactly when the rest's does.
   */
  lemma ScanConcat(p: seq<Token>, q: seq<Token>)
    requires NoStop(p)
    ensures Scan(p + q).ranges == Scan(p).ranges + Scan(q).ranges
    ensures Scan(p + q).stopped == Scan(q).stopped
  {
    var k := FirstStop(q);
    FirstStopAfter(p, q);
    ScanCharacterised(p + q);
    ScanCharacterised(q);
    NoStopScan(p);
    assert (p + q)[..|p| + k] == p + q[..k];
    AcceptedRangesAppend(p, q[..k]);
  }

  /** A non-blank token is ignored as badly shaped exactly when it does not
      hold one `-`, as in `1-2-3`, `-1-3` or `7`. */
  lemma BadShapeRule(part: string, total: int)
    ensures Classify(part, total).BadShape? <==> Strip(part) != [] && Count(Strip(part), '-') != 1
  {
    SplitPieces(Strip(part), '-');
  }

  /** A token made of two digit runs around one `-`, each short enough for `int()`. */
  lemma ClassifyDigitPair(part: string, a: string, b: string, total: int)
    requires part == a + "-" + b && IsDigits(a) && IsDigits(b)
    requires |a| <= MaxDigits && |b| <= MaxDigits
    ensures Classify(part, total) ==
      var s, e := DigitsValue(a), DigitsValue(b);
      if InBounds(s, e, total) then Accepted(s, e) else OutOfBounds(s, e)
  {
    assert IsDigit(a[0]) && IsDigit(b[|b| - 1]);
    assert part[0] == a[0] && part[|part| - 1] == b[|b| - 1];
    StripUnpadded(part);
    assert '-' !in a && '-' !in b;
    SplitAtSep(a, b, '-');
    SplitWithoutSep(b, '-');
    assert Split(Strip(part), '-') == [a, b];
    ParseDigits(a);
    ParseDigits(b);
  }

  /**
   * A token `a-b` of two digit runs, one of them longer than `int()` accepts,
   * stops the parse even though both fields are digits.
   */
  lemma OverlongFieldStops(part: string, a: string, b: string, total: int)
    requires part == a + "-" + b && IsDigits(a) && IsDigits(b)
    requires |a| > MaxDigits || |b| > MaxDigits
    ensures Classify(part, total) == NotInteger
  {
    assert IsDigit(a[0]) && IsDigit(b[|b| - 1]);
    assert part[0] == a[0] && part[|part| - 1] == b[|b| - 1];
    StripUnpadded(part);
    assert '-' !in a && '-' !in b;
    SplitAtSep(a, b, '-');
    SplitWithoutSep(b, '-');
    assert Split(Strip(part), '-') == [a, b];
    if |a| > MaxDigits {
      OverlongRejected(a);
    } else {
      OverlongRejected(b);
    }
  }

  lemma ExampleToken(parts: seq<string>, total: int, k: nat, a: string, b: string)
    requires k < |parts| && parts[k] == a + "-" + b && IsDigits(a) && IsDigits(b)
    requires |a| <= MaxDigits && |b| <= MaxDigits
    ensures Tokenize(parts, total)[k] == Token(parts[k],
      var s, e := DigitsValue(a), DigitsValue(b);
      if InBounds(s, e, total) then Accepted(s, e) else OutOfBounds(s, e))
  {
    ClassifyDigitPair(parts[k], a, b, total);
  }

  lemma ExampleScan(ts: seq<Token>)
    requires |ts| == 3
    requires ts[0].verdict == Accepted(1, 3) && ts[1].verdict == Accepted(5, 7)
    requires ts[2].verdict == OutOfBounds(9, 20)
    ensures Scan(ts) == Outcome([Range(1, 3), Range(5, 7)], [InvalidRange(9, 20)], false)
  {
    ScanSnoc(ts, 0);
    ScanSnoc(ts, 1);
    ScanSnoc(ts, 2);
    assert ts[..0] == [];
    assert Scan(ts[..1]) == Outcome([Range(1, 3)], [], false);
    assert Scan(ts[..2]) == Outcome([Range(1, 3), Range(5, 7)], [], false);
    assert ts[..3] == ts;
  }

  lemma ExampleParts(input: string)
    requires input == "1-3,5-7,9-20"
    ensures Split(input, ',') == ["1-3", "5-7", "9-20"]
  {
    var parts := ["1-3", "5-7", "9-20"];
    assert Join(parts, ',') == input;
    SplitJoin(parts, ',');
  }

  /** A ten-page document and `1-3,5-7,9-20`: ranges 1-3 and 5-7 are
      accepted, 9-20 is reported as invalid, and parsing runs to the end. */
  lemma TenPageExample(input: string, total: int)
    requires input == "1-3,5-7,9-20" && total == 10
    ensures Scan(Tokenize(Split(input, ','), total))
         == Outcome([Range(1, 3), Range(5, 7)], [InvalidRange(9, 20)], false)
  {
    ExampleParts(input);
    var a, b := ["1", "5", "9"], ["3", "7", "20"];
    assert DigitsValue("20") == 20 by { assert "20"[..1] == "2"; }
    assert a[0] + "-" + b[0] == "1-3";
    assert a[1] + "-" + b[1] == "5-7";
    assert a[2] + "-" + b[2] == "9-20";
    ExampleTokens(Split(input, ','), total, a, b);
  }

  lemma ExampleTokens(parts: seq<string>, total: int, a: seq<string>, b: seq<string>)
    requires |parts| == |a| == |b| == 3
    requires parts == [a[0] + "-" + b[0], a[1] + "-" + b[1], a[2] + "-" + b[2]]
    requires IsDigits(a[0]) && IsDigits(b[0]) && DigitsValue(a[0]) == 1 && DigitsValue(b[0]) == 3
    requires IsDigits(a[1]) && IsDigits(b[1]) && DigitsValue(a[1]) == 5 && DigitsValue(b[1]) == 7
    requires IsDigits(a[2]) && IsDigits(b[2]) && DigitsValue(a[2]) == 9 && DigitsValue(b[2]) == 20
    requires forall k :: 0 <= k < 3 ==> |a[k]| <= 2 && |b[k]| <= 2
    requires total == 10
    ensures Scan(Tokenize(parts, total))
         == Outcome([Range(1, 3), Range(5, 7)], [InvalidRange(9, 20)], false)
  {
    ExampleToken(parts, total, 0, a[0], b[0]);
    ExampleToken(parts, total, 1, a[1], b[1]);
    ExampleToken(parts, total, 2, a[2], b[2]);
    ExampleScan(Tokenize(parts, total));
  }

  /**
   * The pages of one split output: the split tool copies source pages
   * `start-1` up to `end-1` (0-based) in order.
   */
  method ExtractRange<P>(pages: seq<P>, r: Range) returns (out: seq<P>)
    requires InBounds(r.start, r.end, |pages|)
    ensures |out| == r.end - r.start + 1
    ensures forall k :: 0 <= k < |out| ==> out[k] == pages[r.start - 1 + k]
    ensures r == Range(1, |pages|) ==> out == pages
  {
    out := [];
    for p := r.start - 1 to r.end
      invariant |out| == p - (r.start - 1)
      invariant forall k :: 0 <= k < |out| ==> out[k] == pages[r.start - 1 + k]
    {
      out := out + [pages[p]];
    }
  }
}
