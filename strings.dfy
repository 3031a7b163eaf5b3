/**
 * Character and string facts shared by the model: ASCII digits, Java's
 * `String.compareTo`, `List.toString` and ASCII case folding.
 */
module Strings {

  predicate IsDigit(c: char) {
    '0' <= c <= '9'
  }

  predicate AllDigits(s: string) {
    forall i :: 0 <= i < |s| ==> IsDigit(s[i])
  }

  predicate DigitFree(s: string) {
    forall i :: 0 <= i < |s| ==> !IsDigit(s[i])
  }

  /** The characters of `s` that are not digits, in their order. */
  function NonDigits(s: string): string {
    if s == [] then []
    else (if IsDigit(s[0]) then [] else [s[0]]) + NonDigits(s[1..])
  }

  lemma {:induction false} NonDigitsAppend(a: string, b: string)
    ensures NonDigits(a + b) == NonDigits(a) + NonDigits(b)
  {
    if a != [] {
      assert (a + b)[1..] == a[1..] + b;
      NonDigitsAppend(a[1..], b);
    } else {
      assert a + b == b;
    }
  }

  lemma {:induction false} NonDigitsOfDigits(d: string)
    requires AllDigits(d)
    ensures NonDigits(d) == []
  {
    if d != [] {
      NonDigitsOfDigits(d[1..]);
    }
  }

  // ---------------------------------------------------------------------------
  // Java's String.compareTo, read as "a.compareTo(b) > 0"
  // ---------------------------------------------------------------------------

  /**
   * `a` comes after `b`: at the first position where they differ `a` has the
   * larger character, or `b` is a proper prefix of `a`.
   */
  predicate LexGreater(a: string, b: string)
    decreases |a|
  {
    if b == [] then a != []
    else if a == [] then false
    else if a[0] != b[0] then a[0] > b[0]
    else LexGreater(a[1..], b[1..])
  }

  lemma {:induction false} LexIrreflexive(a: string)
    ensures !LexGreater(a, a)
  {
    if a != [] {
      LexIrreflexive(a[1..]);
    }
  }

  lemma {:induction false} LexAsymmetric(a: string, b: string)
    ensures LexGreater(a, b) ==> !LexGreater(b, a)
  {
    if a != [] && b != [] && a[0] == b[0] {
      LexAsymmetric(a[1..], b[1..]);
    }
  }

  /** Two different strings are always ordered one way or the other. */
  lemma {:induction false} LexTotal(a: string, b: string)
    requires a != b
    ensures LexGreater(a, b) || LexGreater(b, a)
  {
    if a != [] && b != [] && a[0] == b[0] {
      assert a == [a[0]] + a[1..] && b == [b[0]] + b[1..];
      LexTotal(a[1..], b[1..]);
    }
  }

  lemma {:induction false} LexTransitive(a: string, b: string, c: string)
    requires LexGreater(a, b) && LexGreater(b, c)
    ensures LexGreater(a, c)
  {
    if a != [] && b != [] && c != [] && a[0] == b[0] && b[0] == c[0] {
      LexTransitive(a[1..], b[1..], c[1..]);
    }
  }

  /** "Not greater" (at most) is transitive as well. */
  lemma LexAtMostTransitive(a: string, b: string, c: string)
    requires !LexGreater(a, b) && !LexGreater(b, c)
    ensures !LexGreater(a, c)
  {
    if LexGreater(a, c) {
      if b == c {
      } else {
        LexTotal(b, c);
        LexTransitive(a, c, b);
      }
    }
  }

  /** A common prefix does not change the order. */
  lemma {:induction false} LexCommonPrefix(p: string, a: string, b: string)
    ensures LexGreater(p + a, p + b) == LexGreater(a, b)
  {
    if p == [] {
      assert p + a == a && p + b == b;
    } else {
      assert (p + a)[1..] == p[1..] + a && (p + b)[1..] == p[1..] + b;
      LexCommonPrefix(p[1..], a, b);
    }
  }

  /** Between strings of equal length the order is decided before any suffix. */
  lemma {:induction false} LexEqualLengthPrefix(a: string, b: string, x: string, y: string)
    requires |a| == |b| && LexGreater(a, b)
    ensures LexGreater(a + x, b + y)
  {
    if a[0] == b[0] {
      assert (a + x)[1..] == a[1..] + x && (b + y)[1..] == b[1..] + y;
      LexEqualLengthPrefix(a[1..], b[1..], x, y);
    }
  }

  /**
   * Two strings built in the same frame p + x + q + y, with the x parts of
   * equal length, compare by x first and by y only when the x parts agree.
   */
  lemma FrameOrder(p: string, q: string, x1: string, y1: string, x2: string, y2: string)
    requires |x1| == |x2|
    ensures LexGreater(p + x1 + q + y1, p + x2 + q + y2)
        <==> LexGreater(x1, x2) || (x1 == x2 && LexGreater(y1, y2))
  {
    var s1, s2 := x1 + (q + y1), x2 + (q + y2);
    assert p + x1 + q + y1 == p + s1 && p + x2 + q + y2 == p + s2;
    LexCommonPrefix(p, s1, s2);
    if x1 == x2 {
      assert s1 == (x1 + q) + y1 && s2 == (x1 + q) + y2;
      LexCommonPrefix(x1 + q, y1, y2);
      LexIrreflexive(x1);
    } else {
      LexTotal(x1, x2);
      if LexGreater(x1, x2) {
        LexEqualLengthPrefix(x1, x2, q + y1, q + y2);
      } else {
        LexEqualLengthPrefix(x2, x1, q + y2, q + y1);
        LexAsymmetric(s2, s1);
      }
    }
  }

  // ---------------------------------------------------------------------------
  // Java's AbstractCollection.toString: "[a, b, c]"
  // ---------------------------------------------------------------------------

  function Join(items: seq<string>, sep: string): string {
    if |items| == 0 then ""
    else if |items| == 1 then items[0]
    else items[0] + sep + Join(items[1..], sep)
  }

  function ListText(items: seq<string>): string {
    "[" + Join(items, ", ") + "]"
  }

  /** Every item of a list occurs, as a whole, in the joined text. */
  lemma {:induction false} JoinHasItem(items: seq<string>, sep: string, k: nat)
    requires k < |items|
    ensures exists pre, post :: Join(items, sep) == pre + items[k] + post
  {
    if |items| == 1 {
      assert Join(items, sep) == "" + items[0] + "";
    } else if k == 0 {
      assert Join(items, sep) == "" + items[0] + (sep + Join(items[1..], sep));
    } else {
      JoinHasItem(items[1..], sep, k - 1);
      var pre, post :| Join(items[1..], sep) == pre + items[1..][k - 1] + post;
      assert Join(items, sep) == (items[0] + sep + pre) + items[k] + post;
    }
  }

  /**
   * A prefix that contains neither the separator's first character nor the
   * closing bracket starts the rendered list exactly when it starts the first
   * item.
   */
  lemma ListTextStartsWith(items: seq<string>, p: string)
    requires p != [] && ',' !in p && ']' !in p
    ensures ("[" + p <= ListText(items)) <==> (|items| > 0 && p <= items[0])
  {
    var j := Join(items, ", ");
    var x := j + "]";
    assert ListText(items) == "[" + x;
    if "[" + p <= "[" + x {
      assert p == ("[" + p)[1..] == ("[" + x)[1..|p| + 1] == x[..|p|];
    }
    if p <= x {
      assert "[" + p == ("[" + x)[..|p| + 1];
    }
    if p <= x {
      if |j| < |p| {
        PrefixAt(p, x, |j|);
        assert false;
      }
      assert p <= j;
    }
    JoinStartsWith(items, ", ", p);
  }

  lemma PrefixAt(p: string, x: string, k: int)
    ensures p <= x && 0 <= k < |p| ==> p[k] == x[k]
  {
  }

  lemma JoinStartsWith(items: seq<string>, sep: string, p: string)
    requires p != [] && sep != [] && sep[0] !in p
    ensures (p <= Join(items, sep)) <==> (|items| > 0 && p <= items[0])
  {
    if |items| >= 2 {
      var j := Join(items, sep);
      var head := items[0];
      assert j == head + (sep + Join(items[1..], sep));
      assert |head| < |j| && j[|head|] == sep[0];
      if p <= head {
        assert p == head[..|p|] == j[..|p|];
      }
      if p <= j {
        if |p| <= |head| {
          assert p == j[..|p|] == head[..|p|];
        } else {
          PrefixAt(p, j, |head|);
          assert false;
        }
      }
    }
  }

  // ---------------------------------------------------------------------------
  // ASCII case folding (java.util.regex CASE_INSENSITIVE without UNICODE_CASE)
  // ---------------------------------------------------------------------------

  function LowerAscii(c: char): char {
    if 'A' <= c <= 'Z' then (c as int + 32) as char else c
  }

  predicate EqualsIgnoreCase(a: string, b: string) {
    |a| == |b| && forall i :: 0 <= i < |a| ==> LowerAscii(a[i]) == LowerAscii(b[i])
  }
}
