/**
 * The version comparator (`biggest`) and the fold that picks the latest tag
 * with it.
 */
module Comparator {
  import opened Wrappers
  import opened Faults
  import opened Strings
  import opened Expansion

  predicate Expandable(t: string) {
    Expand(t).Some?
  }

  /** The string a tag is compared by. */
  function Key(t: string): string
    requires Expandable(t)
  {
    Expand(t).value
  }

  /**
   * biggest(first, second): the argument whose expansion is larger, the second
   * one on a tie. Either expansion can raise NumberFormatException, the
   * first one's before the second one's.
   */
  function Biggest(first: string, second: string): (r: Result<string, Fault>)
    ensures r.Ok? <==> Expandable(first) && Expandable(second)
    ensures r.Err? ==> r.error == NumberFormat
    ensures r.Ok? ==> r.value == first || r.value == second
    ensures r.Ok? ==> !LexGreater(Key(first), Key(r.value)) && !LexGreater(Key(second), Key(r.value))
    ensures r.Ok? && Key(first) == Key(second) ==> r.value == second
  {
    match Expand(first)
    case None => Err(NumberFormat)
    case Some(a) =>
      match Expand(second)
      case None => Err(NumberFormat)
      case Some(b) =>
        LexIrreflexive(a);
        LexIrreflexive(b);
        LexAsymmetric(a, b);
        if LexGreater(a, b) then Ok(first) else Ok(second)
  }

  /** The first argument wins exactly when its expansion is strictly larger. */
  lemma BiggestPicksFirstIff(first: string, second: string)
    requires Expandable(first) && Expandable(second) && first != second
    ensures Biggest(first, second).value == first <==> LexGreater(Key(first), Key(second))
  {
    if Key(first) != Key(second) {
      LexTotal(Key(first), Key(second));
    }
  }

  /** Comparing a tag with itself gives it back. */
  lemma BiggestOfSame(t: string)
    requires Expandable(t)
    ensures Biggest(t, t) == Ok(t)
  {
  }

  /**
   * Tags with the same non-digit text compare by the value of their number,
   * not by its characters, as long as it has at most Width digits.
   */
  lemma BiggestNumeric(p: string, n: nat, m: nat)
    requires DigitFree(p) && n < Pow10(Width) && m < Pow10(Width)
    ensures Biggest(p + Decimal(n), p + Decimal(m)) == Ok(if n > m then p + Decimal(n) else p + Decimal(m))
  {
    assert Pow10(Width) == 1000000;
    ExpandNumber(p, n);
    ExpandNumber(p, m);
    LexCommonPrefix(p, Pad(n), Pad(m));
    PadOrder(n, m);
  }

  lemma BiggestV9V10()
    ensures Biggest("v9", "v10") == Ok("v10")
  {
    assert Decimal(9) == "9" && Decimal(10) == "10";
    assert "v" + Decimal(9) == "v9" && "v" + Decimal(10) == "v10";
    BiggestNumeric("v", 9, 10);
  }

  /**
   * The limit of the fixed width: a number of seven to nine digits (say
   * 1000000) sorts below a six-digit number (say 999999) whose first digit is
   * larger, although its value is larger, because padding never reaches it.
   */
  lemma BiggestBeyondWidth(p: string, wide: string, narrow: string)
    requires DigitFree(p) && AllDigits(wide) && AllDigits(narrow)
    requires |narrow| == Width < |wide| <= 9 && wide[0] != '0' && narrow[0] != '0'
    requires wide[0] < narrow[0]
    ensures Value(wide) > Value(narrow)
    ensures Biggest(p + wide, p + narrow) == Ok(p + narrow)
  {
    WiderIsLarger(wide, narrow);
    ExpandWideNumber(p, wide);
    ExpandWideNumber(p, narrow);
    LexCommonPrefix(p, narrow, wide);
  }

  /**
   * Tags of the same shape with two numbers (dotted versions such as "1.10")
   * compare by the first number and then by the second, as long as each has
   * at most Width digits.
   */
  lemma BiggestTwoNumbers(p: string, q: string, a1: nat, b1: nat, a2: nat, b2: nat)
    requires DigitFree(p) && DigitFree(q) && q != []
    requires a1 < Pow10(Width) && b1 < Pow10(Width) && a2 < Pow10(Width) && b2 < Pow10(Width)
    ensures Biggest(p + Decimal(a1) + q + Decimal(b1), p + Decimal(a2) + q + Decimal(b2))
         == Ok(if a1 > a2 || (a1 == a2 && b1 > b2)
               then p + Decimal(a1) + q + Decimal(b1)
               else p + Decimal(a2) + q + Decimal(b2))
  {
    assert Pow10(Width) == 1000000;
    ExpandTwoNumbers(p, a1, q, b1);
    ExpandTwoNumbers(p, a2, q, b2);
    TwoPaddedOrder(p, q, a1, b1, a2, b2);
    BiggestOfKeys(p + Decimal(a1) + q + Decimal(b1), p + Decimal(a2) + q + Decimal(b2),
                  p + Pad(a1) + q + Pad(b1), p + Pad(a2) + q + Pad(b2));
  }

  /** biggest as a comparison of two known expansions. */
  lemma BiggestOfKeys(first: string, second: string, x: string, y: string)
    requires Expand(first) == Some(x) && Expand(second) == Some(y)
    ensures Biggest(first, second) == Ok(if LexGreater(x, y) then first else second)
  {
  }

  /** Two padded numbers in the same frame order first by the first, then by the second. */
  lemma TwoPaddedOrder(p: string, q: string, a1: nat, b1: nat, a2: nat, b2: nat)
    requires a1 < Pow10(Width) && b1 < Pow10(Width) && a2 < Pow10(Width) && b2 < Pow10(Width)
    ensures LexGreater(p + Pad(a1) + q + Pad(b1), p + Pad(a2) + q + Pad(b2))
        <==> a1 > a2 || (a1 == a2 && b1 > b2)
  {
    FrameOrder(p, q, Pad(a1), Pad(b1), Pad(a2), Pad(b2));
    PadOrder(a1, a2);
    PadOrder(b1, b2);
  }

  lemma WiderIsLarger(wide: string, narrow: string)
    requires AllDigits(wide) && AllDigits(narrow) && |narrow| < |wide| && wide[0] != '0'
    ensures Value(wide) > Value(narrow)
  {
    ValueBound(narrow);
    ValueFront(wide);
    PowMonotone(|narrow|, |wide| - 1);
    MulMonotone(1, DigitValue(wide[0]), Pow10(|wide| - 1));
  }

  // ---------------------------------------------------------------------------
  // The fold of getLatestRevision
  // ---------------------------------------------------------------------------

  /** `latest = biggest(latest, tag)` for each tag in order, starting from `acc`. */
  function Fold(acc: string, tags: seq<string>): (r: Result<string, Fault>)
    ensures r.Err? ==> r.error == NumberFormat
    decreases |tags|
  {
    if tags == [] then Ok(acc)
    else
      match Biggest(acc, tags[0])
      case Err(f) => Err(f)
      case Ok(b) => Fold(b, tags[1..])
  }

  predicate AllExpandable(tags: seq<string>) {
    forall k :: 0 <= k < |tags| ==> Expandable(tags[k])
  }

  /** The fold fails exactly when the start or some tag cannot be expanded. */
  lemma {:induction false} FoldSucceedsIff(acc: string, tags: seq<string>)
    requires tags != []
    ensures Fold(acc, tags).Ok? <==> Expandable(acc) && AllExpandable(tags)
    decreases |tags|
  {
    if Biggest(acc, tags[0]).Ok? && |tags| > 1 {
      FoldSucceedsIff(Biggest(acc, tags[0]).value, tags[1..]);
      assert forall k :: 1 <= k < |tags| ==> tags[k] == tags[1..][k - 1];
    }
  }

  /**
   * The fold from `acc` ends on a value whose key is at least the key of `acc`
   * and of every tag; it is either `acc` itself, strictly above every tag, or
   * a tag strictly above every tag after it (the last of the maximal ones).
   */
  lemma {:induction false} FoldIsLastMaximum(acc: string, tags: seq<string>)
    requires Expandable(acc) && AllExpandable(tags)
    ensures Fold(acc, tags).Ok?
    ensures var r := Fold(acc, tags).value;
      Expandable(r) && !LexGreater(Key(acc), Key(r)) &&
      forall j :: 0 <= j < |tags| ==> !LexGreater(Key(tags[j]), Key(r))
    ensures var r := Fold(acc, tags).value;
      (r == acc && forall j :: 0 <= j < |tags| ==> LexGreater(Key(acc), Key(tags[j]))) ||
      (exists k :: 0 <= k < |tags| && r == tags[k] &&
        forall j :: k < j < |tags| ==> LexGreater(Key(r), Key(tags[j])))
    decreases |tags|
  {
    if tags == [] {
      LexIrreflexive(Key(acc));
    } else {
      var b := Biggest(acc, tags[0]).value;
      var rest := tags[1..];
      assert forall j :: 0 <= j < |rest| ==> rest[j] == tags[j + 1];
      FoldIsLastMaximum(b, rest);
      var r := Fold(b, rest).value;
      assert Fold(acc, tags) == Fold(b, rest);
      LexAtMostTransitive(Key(acc), Key(b), Key(r));
      LexAtMostTransitive(Key(tags[0]), Key(b), Key(r));
      forall j | 0 <= j < |tags|
        ensures !LexGreater(Key(tags[j]), Key(r))
      {
        if j > 0 {
          assert tags[j] == rest[j - 1];
        }
      }
      if r == b && forall j :: 0 <= j < |rest| ==> LexGreater(Key(b), Key(rest[j])) {
        if b == tags[0] {
          assert r == tags[0] && forall j :: 0 < j < |tags| ==> LexGreater(Key(r), Key(tags[j]));
        } else {
          BiggestPicksFirstIff(acc, tags[0]);
          assert b == acc && LexGreater(Key(acc), Key(tags[0]));
          assert forall j :: 0 <= j < |tags| ==> LexGreater(Key(acc), Key(tags[j]));
        }
      } else {
        var k :| 0 <= k < |rest| && r == rest[k] &&
          forall j :: k < j < |rest| ==> LexGreater(Key(r), Key(rest[j]));
        assert r == tags[k + 1];
        assert forall j :: k + 1 < j < |tags| ==> LexGreater(Key(r), Key(tags[j]));
      }
    }
  }

  /**
   * The latest tag from the empty start: the empty string always loses to the
   * first tag, so a non-empty list always yields one of its own tags, the last
   * one whose key is maximal.
   */
  lemma LatestIsLastMaximum(tags: seq<string>)
    requires tags != [] && AllExpandable(tags)
    ensures Fold("", tags).Ok?
    ensures exists k :: (0 <= k < |tags| && Fold("", tags).value == tags[k] &&
      (forall j :: 0 <= j < |tags| ==> !LexGreater(Key(tags[j]), Key(tags[k]))) &&
      (forall j :: k < j < |tags| ==> LexGreater(Key(tags[k]), Key(tags[j]))))
  {
    assert Expand("") == Some([]);
    FoldIsLastMaximum("", tags);
    assert !LexGreater(Key(""), Key(tags[0]));
  }

  /** The loop of getLatestRevision: `latest` starts empty and meets every tag in order. */
  method LatestTag(tags: seq<string>) returns (r: Result<string, Fault>)
    ensures r == Fold("", tags)
  {
    var latest := "";
    for i := 0 to |tags|
      invariant Fold("", tags) == Fold(latest, tags[i..])
    {
      assert tags[i..][1..] == tags[i + 1..];
      var b := Biggest(latest, tags[i]);
      if b.Err? {
        return Err(b.error);
      }
      latest := b.value;
    }
    assert tags[|tags|..] == [];
    r := Ok(latest);
  }

  /**
   * getLatestRevision over "1.0", "2.0", "1.10" picks "2.0": the second
   * number is compared by value, so "1.10" sorts above "1.0" but below "2.0".
   */
  lemma LatestOfDottedVersions()
    ensures Fold("", ["1.0", "2.0", "1.10"]) == Ok("2.0")
  {
    assert Decimal(0) == "0" && Decimal(1) == "1" && Decimal(2) == "2" && Decimal(10) == "10";
    var v10, v20, v110 := "" + Decimal(1) + "." + Decimal(0), "" + Decimal(2) + "." + Decimal(0), "" + Decimal(1) + "." + Decimal(10);
    assert v10 == "1.0" && v20 == "2.0" && v110 == "1.10";
    assert Pow10(Width) == 1000000;
    ExpandTwoNumbers("", 1, ".", 0);
    BiggestOfKeys("", v10, [], "" + Pad(1) + "." + Pad(0));
    BiggestTwoNumbers("", ".", 1, 0, 2, 0);
    BiggestTwoNumbers("", ".", 2, 0, 1, 10);
    FoldOfThree("", v10, v20, v110, v10, v20, v20);
  }

  /** The fold over three tags, one biggest at a time. */
  lemma FoldOfThree(acc: string, t1: string, t2: string, t3: string, w1: string, w2: string, w3: string)
    requires Biggest(acc, t1) == Ok(w1) && Biggest(w1, t2) == Ok(w2) && Biggest(w2, t3) == Ok(w3)
    ensures Fold(acc, [t1, t2, t3]) == Ok(w3)
  {
    var tags := [t1, t2, t3];
    assert tags[1..] == [t2, t3] && tags[1..][1..] == [t3] && [t3][1..] == [];
    assert Fold(w2, [t3]) == Ok(w3);
    assert Fold(w1, [t2, t3]) == Ok(w3);
  }
}
