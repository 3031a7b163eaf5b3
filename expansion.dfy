/**
 * Numeric-run expansion (`expandNums`): every maximal run of ASCII digits is
 * parsed as a Java `int` and re-rendered with the format "%06d"; every other
 * character is copied unchanged.
 */
module Expansion {
  import opened Wrappers
  import opened Strings

  /** Integer.MAX_VALUE, the largest value Integer.parseInt accepts. */
  const IntMax: nat := 2147483647

  /** The minimum field width of the format "%06d". */
  const Width: nat := 6

  function Pow10(k: nat): (r: nat)
    ensures r >= 1
  {
    if k == 0 then 1 else 10 * Pow10(k - 1)
  }

  function DigitValue(c: char): nat
    requires IsDigit(c)
  {
    c as int - '0' as int
  }

  function DigitChar(d: nat): (c: char)
    requires d < 10
    ensures IsDigit(c) && DigitValue(c) == d
  {
    ('0' as int + d) as char
  }

  /** The value of a digit string, accumulated left to right as Integer.parseInt does. */
  function Value(d: string): nat
    requires AllDigits(d)
  {
    if d == [] then 0 else 10 * Value(d[..|d| - 1]) + DigitValue(d[|d| - 1])
  }

  /** The decimal rendering of `n` without leading zeros; parsing it gives `n` back. */
  function Decimal(n: nat): (r: string)
    ensures |r| >= 1 && AllDigits(r) && Value(r) == n
  {
    if n < 10 then [DigitChar(n)]
    else
      var r := Decimal(n / 10) + [DigitChar(n % 10)];
      assert r[..|r| - 1] == Decimal(n / 10);
      r
  }

  function Zeros(k: nat): (r: string)
    ensures |r| == k && AllDigits(r) && Value(r) == 0
  {
    if k == 0 then [] else
      var r := Zeros(k - 1) + ['0'];
      assert r[..|r| - 1] == Zeros(k - 1);
      r
  }

  /**
   * The format "%06d" applied to `n`: its value is `n`, it is at least Width
   * characters long, exactly Width when `n` has at most Width digits, and a
   * wider number is rendered unpadded and untruncated.
   */
  function Pad(n: nat): (r: string)
    ensures AllDigits(r) && Value(r) == n
    ensures |r| >= Width
    ensures n < Pow10(Width) ==> |r| == Width
    ensures |Decimal(n)| >= Width ==> r == Decimal(n)
  {
    var d := Decimal(n);
    assert n < Pow10(Width) ==> |d| <= Width by {
      if n < Pow10(Width) {
        DecimalLength(n, Width);
      }
    }
    if |d| < Width then
      ValueLeadingZeros(Width - |d|, d);
      Zeros(Width - |d|) + d
    else d
  }

  lemma {:induction false} ValueLeadingZeros(k: nat, d: string)
    requires AllDigits(d)
    ensures AllDigits(Zeros(k) + d) && Value(Zeros(k) + d) == Value(d)
  {
    var e := Zeros(k) + d;
    if d == [] {
      assert e == Zeros(k);
    } else {
      assert e[..|e| - 1] == Zeros(k) + d[..|d| - 1];
      ValueLeadingZeros(k, d[..|d| - 1]);
    }
  }

  /** The other round trip: a digit string without a leading zero is the decimal of its value. */
  lemma {:induction false} DecimalOfValue(d: string)
    requires |d| >= 1 && AllDigits(d) && (|d| > 1 ==> d[0] != '0')
    ensures Decimal(Value(d)) == d
  {
    var c := d[|d| - 1];
    assert DigitChar(DigitValue(c)) == c;
    if |d| > 1 {
      var e := d[..|d| - 1];
      DecimalOfValue(e);
      ValueFront(e);
      assert Value(e) >= 1;
      LastDigit(Value(e), DigitValue(c));
      assert Decimal(Value(d)) == Decimal(Value(e)) + [DigitChar(DigitValue(c))];
      assert d == e + [c];
    }
  }

  lemma LastDigit(q: nat, r: nat)
    requires r < 10
    ensures (10 * q + r) / 10 == q && (10 * q + r) % 10 == r
  {
  }

  /** A number of at least Width digits, written without leading zero, is rendered as written. */
  lemma PadOfWide(d: string)
    requires |d| >= Width && AllDigits(d) && d[0] != '0'
    ensures Pad(Value(d)) == d
  {
    DecimalOfValue(d);
  }

  lemma {:induction false} DecimalLength(n: nat, k: nat)
    requires k >= 1 && n < Pow10(k)
    ensures |Decimal(n)| <= k
  {
    if n >= 10 {
      assert k >= 2;
      DecimalLength(n / 10, k - 1);
    }
  }

  /** Reading a digit string from the front: the leading digit weighs 10^(length-1). */
  lemma {:induction false} ValueFront(d: string)
    requires AllDigits(d) && |d| >= 1
    ensures Value(d) == DigitValue(d[0]) * Pow10(|d| - 1) + Value(d[1..])
  {
    if |d| == 1 {
      assert d[..0] == [] && d[1..] == [];
    } else {
      var e := d[..|d| - 1];
      var last := DigitValue(d[|d| - 1]);
      ValueFront(e);
      assert d[1..][..|d| - 2] == e[1..];
      assert Value(d[1..]) == 10 * Value(e[1..]) + last;
      var x := DigitValue(d[0]) * Pow10(|d| - 2);
      assert Value(e) == x + Value(e[1..]);
      assert Value(d) == 10 * x + (10 * Value(e[1..]) + last);
      ScaleByTen(DigitValue(d[0]), Pow10(|d| - 2));
    }
  }

  lemma ScaleByTen(a: nat, b: nat)
    ensures 10 * (a * b) == a * (10 * b)
  {
  }

  lemma {:induction false} ValueBound(d: string)
    requires AllDigits(d)
    ensures Value(d) < Pow10(|d|)
  {
    if d != [] {
      ValueBound(d[..|d| - 1]);
    }
  }

  lemma MulMonotone(x: nat, y: nat, p: nat)
    requires x <= y
    ensures x * p <= y * p
  {
  }

  /**
   * Between digit strings of equal length, Java's string order is the order of
   * their values.
   */
  lemma {:induction false} DigitsOrder(a: string, b: string)
    requires AllDigits(a) && AllDigits(b) && |a| == |b|
    ensures LexGreater(a, b) <==> Value(a) > Value(b)
  {
    if a != [] {
      if a[0] == b[0] {
        ValueFront(a);
        ValueFront(b);
        DigitsOrder(a[1..], b[1..]);
      } else if a[0] > b[0] {
        LeadingDigitDecides(a, b);
      } else {
        LeadingDigitDecides(b, a);
      }
    }
  }

  /** Between digit strings of equal length, a larger first digit means a larger value. */
  lemma LeadingDigitDecides(a: string, b: string)
    requires AllDigits(a) && AllDigits(b) && |a| == |b| >= 1 && a[0] > b[0]
    ensures Value(a) > Value(b)
  {
    ValueFront(a);
    ValueFront(b);
    ValueBound(b[1..]);
    MulMonotone(DigitValue(b[0]) + 1, DigitValue(a[0]), Pow10(|a| - 1));
  }

  /**
   * The point of the padding: numbers below 10^Width compare as numbers once
   * padded.
   */
  lemma PadOrder(n: nat, m: nat)
    requires n < Pow10(Width) && m < Pow10(Width)
    ensures LexGreater(Pad(n), Pad(m)) <==> n > m
  {
    DigitsOrder(Pad(n), Pad(m));
  }

  // ---------------------------------------------------------------------------
  // Digit runs: what the pattern [0-9]+ finds
  // ---------------------------------------------------------------------------

  /** The length of the maximal digit run at the start of `s`. */
  function RunLength(s: string): (n: nat)
    ensures n <= |s| && AllDigits(s[..n])
    ensures n == |s| || !IsDigit(s[n])
  {
    if s != [] && IsDigit(s[0]) then
      var n := 1 + RunLength(s[1..]);
      assert s[..n] == [s[0]] + s[1..][..n - 1];
      n
    else 0
  }

  /** A run that is all digits and cannot be extended is the one RunLength measures. */
  lemma RunLengthUnique(s: string, k: nat)
    requires k <= |s| && AllDigits(s[..k]) && (k == |s| || !IsDigit(s[k]))
    ensures RunLength(s) == k
  {
    var n := RunLength(s);
    assert forall i :: 0 <= i < k ==> IsDigit(s[i]) by {
      forall i | 0 <= i < k
        ensures IsDigit(s[i])
      {
        assert s[..k][i] == s[i];
      }
    }
    assert forall i :: 0 <= i < n ==> IsDigit(s[i]) by {
      forall i | 0 <= i < n
        ensures IsDigit(s[i])
      {
        assert s[..n][i] == s[i];
      }
    }
  }

  /** The maximal digit runs of `s`, left to right, as successive calls of Matcher.find see them. */
  function Runs(s: string): (rs: seq<string>)
    ensures forall k :: 0 <= k < |rs| ==> |rs[k]| > 0 && AllDigits(rs[k])
    decreases |s|
  {
    if s == [] then []
    else if !IsDigit(s[0]) then Runs(s[1..])
    else
      var n := RunLength(s);
      [s[..n]] + Runs(s[n..])
  }

  /** Each run replaced by its "%06d" rendering. */
  function Padded(rs: seq<string>): (ps: seq<string>)
    requires forall k :: 0 <= k < |rs| ==> AllDigits(rs[k])
    ensures |ps| == |rs|
  {
    if rs == [] then [] else [Pad(Value(rs[0]))] + Padded(rs[1..])
  }

  // ---------------------------------------------------------------------------
  // The expansion
  // ---------------------------------------------------------------------------

  function Prepend(p: string, o: Option<string>): Option<string> {
    match o
    case None => None
    case Some(t) => Some(p + t)
  }

  /**
   * expandNums: None stands for the NumberFormatException that
   * Integer.parseInt raises on a run whose value exceeds IntMax.
   */
  function Expand(s: string): (r: Option<string>)
    ensures r.Some? ==> (r.value == [] <==> s == [])
    ensures r.Some? && s != [] ==> (IsDigit(r.value[0]) <==> IsDigit(s[0]))
    decreases |s|
  {
    if s == [] then Some([])
    else if !IsDigit(s[0]) then Prepend([s[0]], Expand(s[1..]))
    else
      var n := RunLength(s);
      var v := Value(s[..n]);
      if v > IntMax then None else Prepend(Pad(v), Expand(s[n..]))
  }

  /** A digit-free prefix is copied unchanged. */
  lemma {:induction false} ExpandDigitFreePrefix(p: string, s: string)
    requires DigitFree(p)
    ensures Expand(p + s) == Prepend(p, Expand(s))
  {
    if p == [] {
      assert p + s == s;
      match Expand(s) {
        case None =>
        case Some(t) => assert p + t == t;
      }
    } else {
      assert (p + s)[1..] == p[1..] + s;
      ExpandDigitFreePrefix(p[1..], s);
      match Expand(s) {
        case None =>
        case Some(t) => assert [p[0]] + (p[1..] + t) == p + t;
      }
    }
  }

  /** A run followed by a non-digit (or the end) is expanded as a whole. */
  lemma ExpandAfterRun(d: string, t: string)
    requires |d| > 0 && AllDigits(d) && (t == [] || !IsDigit(t[0]))
    ensures RunLength(d + t) == |d| && Runs(d + t) == [d] + Runs(t)
    ensures Expand(d + t) == if Value(d) > IntMax then None else Prepend(Pad(Value(d)), Expand(t))
  {
    var s := d + t;
    assert s[..|d|] == d && s[|d|..] == t;
    RunLengthUnique(s, |d|);
  }

  /** The first character survives when it is not a digit. */
  lemma ExpandHead(s: string)
    requires Expand(s).Some?
    ensures s == [] ==> Expand(s).value == []
    ensures s != [] && !IsDigit(s[0]) ==> Expand(s).value != [] && Expand(s).value[0] == s[0]
  {
  }

  /** A string without digits is its own expansion. */
  lemma ExpandDigitFree(s: string)
    requires DigitFree(s)
    ensures Expand(s) == Some(s)
  {
    ExpandDigitFreePrefix(s, []);
    assert s + [] == s;
  }

  /** Expansion fails exactly when some digit run does not fit in an int. */
  lemma {:induction false} ExpandSucceedsIff(s: string)
    ensures Expand(s).Some? <==> forall k :: 0 <= k < |Runs(s)| ==> Value(Runs(s)[k]) <= IntMax
    decreases |s|
  {
    if s != [] {
      if !IsDigit(s[0]) {
        ExpandSucceedsIff(s[1..]);
        assert Runs(s) == Runs(s[1..]);
        assert Expand(s).Some? == Expand(s[1..]).Some?;
      } else {
        var n := RunLength(s);
        ExpandSucceedsIff(s[n..]);
        var rs := Runs(s);
        assert rs == [s[..n]] + Runs(s[n..]);
        var v := Value(s[..n]);
        assert rs[0] == s[..n];
        assert Expand(s).Some? <==> v <= IntMax && Expand(s[n..]).Some?;
        if forall k :: 0 <= k < |rs| ==> Value(rs[k]) <= IntMax {
          forall k | 0 <= k < |Runs(s[n..])|
            ensures Value(Runs(s[n..])[k]) <= IntMax
          {
            assert rs[k + 1] == Runs(s[n..])[k];
          }
          assert Value(rs[0]) <= IntMax;
        }
      }
    }
  }

  /** Every non-digit character is kept, in order, and no other is added. */
  lemma {:induction false} ExpandKeepsNonDigits(s: string)
    requires Expand(s).Some?
    ensures NonDigits(Expand(s).value) == NonDigits(s)
    decreases |s|
  {
    if s != [] {
      var t := Expand(s).value;
      if !IsDigit(s[0]) {
        ExpandKeepsNonDigits(s[1..]);
        NonDigitsAppend([s[0]], Expand(s[1..]).value);
      } else {
        var n := RunLength(s);
        var v := Value(s[..n]);
        ExpandKeepsNonDigits(s[n..]);
        NonDigitsAppend(Pad(v), Expand(s[n..]).value);
        NonDigitsOfDigits(Pad(v));
        assert s == s[..n] + s[n..];
        NonDigitsAppend(s[..n], s[n..]);
        NonDigitsOfDigits(s[..n]);
      }
    }
  }

  /** The digit runs of the expansion are the "%06d" renderings of the runs of the input. */
  lemma {:induction false} ExpandRuns(s: string)
    requires Expand(s).Some?
    ensures Runs(Expand(s).value) == Padded(Runs(s))
    decreases |s|
  {
    if s != [] {
      if !IsDigit(s[0]) {
        var t' := Expand(s[1..]).value;
        ExpandRuns(s[1..]);
        assert ([s[0]] + t')[1..] == t';
      } else {
        var n := RunLength(s);
        var v := Value(s[..n]);
        var t' := Expand(s[n..]).value;
        ExpandRuns(s[n..]);
        ExpandHead(s[n..]);
        ExpandAfterRun(Pad(v), t');
      }
    }
  }

  /** Expanding twice changes nothing more: every rendered run parses back to its value. */
  lemma {:induction false} ExpandIdempotent(s: string)
    requires Expand(s).Some?
    ensures Expand(Expand(s).value) == Expand(s)
    decreases |s|
  {
    if s != [] {
      if !IsDigit(s[0]) {
        var t' := Expand(s[1..]).value;
        ExpandIdempotent(s[1..]);
        ExpandDigitFreePrefix([s[0]], t');
      } else {
        var n := RunLength(s);
        var v := Value(s[..n]);
        var t' := Expand(s[n..]).value;
        ExpandIdempotent(s[n..]);
        ExpandHead(s[n..]);
        ExpandAfterRun(Pad(v), t');
      }
    }
  }

  /** A digit-free prefix followed by a number that fits in an int. */
  lemma ExpandNumber(p: string, n: nat)
    requires DigitFree(p) && n <= IntMax
    ensures Expand(p + Decimal(n)) == Some(p + Pad(n))
  {
    ExpandOneRun(p, Decimal(n));
  }

  /**
   * Leading zeros are dropped: a number written with any number of them
   * expands as the number itself, padded to Width.
   */
  lemma ExpandLeadingZeros(p: string, k: nat, n: nat)
    requires DigitFree(p) && n <= IntMax
    ensures Expand(p + Zeros(k) + Decimal(n)) == Some(p + Pad(n))
  {
    ValueLeadingZeros(k, Decimal(n));
    assert p + Zeros(k) + Decimal(n) == p + (Zeros(k) + Decimal(n));
    ExpandOneRun(p, Zeros(k) + Decimal(n));
  }

  /**
   * Two numbers separated by non-digit text (a dotted version such as
   * "1.10") are padded one by one.
   */
  lemma ExpandTwoNumbers(p: string, a: nat, q: string, b: nat)
    requires DigitFree(p) && DigitFree(q) && q != [] && a <= IntMax && b <= IntMax
    ensures Expand(p + Decimal(a) + q + Decimal(b)) == Some(p + Pad(a) + q + Pad(b))
  {
    ExpandTwoRuns(p, Decimal(a), q, Decimal(b));
  }

  /** Two runs that fit in an int, separated by a non-empty digit-free text. */
  lemma ExpandTwoRuns(p: string, d: string, q: string, e: string)
    requires DigitFree(p) && DigitFree(q) && q != []
    requires |d| > 0 && AllDigits(d) && Value(d) <= IntMax
    requires |e| > 0 && AllDigits(e) && Value(e) <= IntMax
    ensures Expand(p + d + q + e) == Some(p + Pad(Value(d)) + q + Pad(Value(e)))
  {
    var t := q + e;
    var u := d + t;
    var r := Pad(Value(d)) + (q + Pad(Value(e)));
    SeqAssoc(p, d, q, e);
    SeqAssoc(p, Pad(Value(d)), q, Pad(Value(e)));
    ExpandOneRun(q, e);
    ExpandRunThen(d, t, q + Pad(Value(e)));
    ExpandPrefixed(p, u, r);
  }

  /** Concatenation regrouped to the right. */
  lemma SeqAssoc(a: string, b: string, c: string, d: string)
    ensures a + b + c + d == a + (b + (c + d))
  {
  }

  /** A digit-free prefix followed by one run that fits in an int. */
  lemma ExpandOneRun(q: string, e: string)
    requires DigitFree(q) && |e| > 0 && AllDigits(e) && Value(e) <= IntMax
    ensures Expand(q + e) == Some(q + Pad(Value(e)))
  {
    ExpandRunThen(e, [], []);
    assert e + [] == e && Pad(Value(e)) + [] == Pad(Value(e));
    ExpandPrefixed(q, e, Pad(Value(e)));
  }

  /** A digit-free prefix in front of text whose expansion is known. */
  lemma ExpandPrefixed(p: string, u: string, r: string)
    requires DigitFree(p) && Expand(u) == Some(r)
    ensures Expand(p + u) == Some(p + r)
  {
    ExpandDigitFreePrefix(p, u);
  }

  /** A run that fits in an int, then the end or text that does not start with a digit. */
  lemma ExpandRunThen(d: string, t: string, r: string)
    requires |d| > 0 && AllDigits(d) && Value(d) <= IntMax
    requires (t == [] || !IsDigit(t[0])) && Expand(t) == Some(r)
    ensures Expand(d + t) == Some(Pad(Value(d)) + r)
  {
    ExpandAfterRun(d, t);
  }

  /** A wide number that fits in an int and has no leading zero is left exactly as written. */
  lemma ExpandWideNumber(p: string, d: string)
    requires DigitFree(p) && AllDigits(d) && Width <= |d| <= 9 && d[0] != '0'
    ensures Expand(p + d) == Some(p + d)
  {
    PadOfWide(d);
    ValueBound(d);
    assert Pow10(|d|) <= Pow10(9) by {
      PowMonotone(|d|, 9);
    }
    assert Pow10(9) == 1000000000;
    ExpandDigitFreePrefix(p, d);
    ExpandAfterRun(d, []);
    assert d + [] == d;
  }

  lemma {:induction false} PowMonotone(i: nat, j: nat)
    requires i <= j
    ensures Pow10(i) <= Pow10(j)
  {
    if i < j {
      PowMonotone(i, j - 1);
    }
  }

  // ---------------------------------------------------------------------------
  // The loop of expandNums: Matcher.find, appendReplacement, appendTail
  // ---------------------------------------------------------------------------

  /**
   * Matcher.find for [0-9]+ from position `from`: `start` is the first digit at
   * or after `from` (|s| when there is none) and `end` the end of its run.
   */
  method FindDigits(s: string, from: nat) returns (start: nat, end: nat)
    requires from <= |s|
    ensures from <= start <= end <= |s|
    ensures DigitFree(s[from..start])
    ensures start == |s| ==> end == |s|
    ensures start < |s| ==> start < end && AllDigits(s[start..end]) && (end == |s| || !IsDigit(s[end]))
  {
    start := from;
    while start < |s| && !IsDigit(s[start])
      invariant from <= start <= |s|
      invariant DigitFree(s[from..start])
    {
      assert s[from..start + 1] == s[from..start] + [s[start]];
      start := start + 1;
    }
    end := start;
    while end < |s| && IsDigit(s[end])
      invariant start <= end <= |s|
      invariant AllDigits(s[start..end])
    {
      assert s[start..end + 1] == s[start..end] + [s[end]];
      end := end + 1;
    }
  }

  lemma PrependTwice(a: string, b: string, o: Option<string>)
    ensures Prepend(a, Prepend(b, o)) == Prepend(a + b, o)
  {
    match o {
      case None =>
      case Some(t) => assert a + (b + t) == (a + b) + t;
    }
  }

  /** One match: the text before it is copied, the run is rendered, the rest follows. */
  lemma ExpandStep(s: string, last: nat, start: nat, end: nat)
    requires last <= start < end <= |s|
    requires DigitFree(s[last..start]) && AllDigits(s[start..end]) && (end == |s| || !IsDigit(s[end]))
    ensures Expand(s[last..]) ==
      if Value(s[start..end]) > IntMax then None
      else Prepend(s[last..start] + Pad(Value(s[start..end])), Expand(s[end..]))
  {
    assert s[last..] == s[last..start] + (s[start..end] + s[end..]);
    ExpandDigitFreePrefix(s[last..start], s[start..end] + s[end..]);
    ExpandAfterRun(s[start..end], s[end..]);
    PrependTwice(s[last..start], Pad(Value(s[start..end])), Expand(s[end..]));
  }

  /**
   * expandNums as the source runs it: the text between matches is appended
   * unchanged, each match is replaced by its "%06d" rendering, and the tail is
   * appended last. None is the NumberFormatException of Integer.parseInt.
   */
  method ExpandNums(s: string) returns (r: Option<string>)
    ensures r == Expand(s)
  {
    var sb := "";
    var last := 0;
    var start, end := FindDigits(s, 0);
    assert s[last..] == s;
    match Expand(s) {
      case None =>
      case Some(t) => assert sb + t == t;
    }
    while start < |s|
      invariant last <= start <= end <= |s|
      invariant DigitFree(s[last..start])
      invariant start == |s| ==> end == |s|
      invariant start < |s| ==> start < end && AllDigits(s[start..end]) && (end == |s| || !IsDigit(s[end]))
      invariant Expand(s) == Prepend(sb, Expand(s[last..]))
      decreases |s| - last
    {
      var v := Value(s[start..end]);
      ExpandStep(s, last, start, end);
      if v > IntMax {
        return None;
      }
      var replaced := s[last..start] + Pad(v);
      assert Expand(s[last..]) == Prepend(replaced, Expand(s[end..]));
      PrependTwice(sb, replaced, Expand(s[end..]));
      sb := sb + replaced;
      last := end;
      start, end := FindDigits(s, end);
    }
    assert start == |s| && s[last..] == s[last..start];
    ExpandDigitFree(s[last..]);
    r := Some(sb + s[last..]);
  }
}