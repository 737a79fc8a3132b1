/** Numbers in versions, by their digits: which of two is the larger, which fit 64 bits, and how two
    versions made of numbers compare (internal/drift/drift.go). */
module VersionNumbers {
  import opened Drift
  import opened Ordering
  import opened Wrappers

  function Pow10(n: nat): nat {
    if n == 0 then 1 else 10 * Pow10(n - 1)
  }

  predicate Digits(s: string) {
    forall c | c in s :: '0' <= c <= '9'
  }

  /** A number as one writes it. */
  predicate Numeral(s: string) {
    s != "" && Digits(s) && (|s| > 1 ==> s[0] != '0')
  }

  lemma NumeralDigits(s: string)
    requires s != "" && Digits(s)
    ensures AllDigits(s)
    ensures Digits(s[..|s| - 1]) && IsDigit(s[|s| - 1]) && s == s[..|s| - 1] + [s[|s| - 1]]
  {
    assert forall i | 0 <= i < |s| :: s[i] in s;
    assert forall c | c in s[..|s| - 1] :: c in s;
  }

  lemma {:induction false} DecimalBelow(s: string)
    requires Digits(s)
    ensures 0 <= Decimal(s) < Pow10(|s|)
  {
    if s != "" {
      NumeralDigits(s);
      DecimalBelow(s[..|s| - 1]);
    }
  }

  lemma {:induction false} DecimalAtLeast(s: string)
    requires s != "" && Digits(s) && s[0] != '0'
    ensures Decimal(s) >= Pow10(|s| - 1)
  {
    NumeralDigits(s);
    if |s| > 1 {
      DecimalAtLeast(s[..|s| - 1]);
    } else {
      assert s[..0] == "" && Decimal("") == 0;
    }
  }

  lemma {:induction false} BelowAtLast(p: string, q: string, c: char, d: char)
    requires |p| == |q|
    ensures Below(p + [c], q + [d]) <==> Below(p, q) || (p == q && c < d)
  {
    if p == "" {
      assert p + [c] == [c] && q + [d] == [d];
      assert Below([c][1..], [d][1..]) == false;
    } else {
      BelowAtLast(p[1..], q[1..], c, d);
      assert (p + [c])[1..] == p[1..] + [c] && (q + [d])[1..] == q[1..] + [d];
      assert p == [p[0]] + p[1..] && q == [q[0]] + q[1..];
    }
  }

  /** Of one length, numbers are ordered as strings are. */
  lemma {:induction false} SameLengthOrder(x: string, y: string)
    requires Digits(x) && Digits(y) && |x| == |y|
    ensures Decimal(x) < Decimal(y) <==> Below(x, y)
    ensures Decimal(x) == Decimal(y) <==> x == y
  {
    if x != "" {
      NumeralDigits(x);
      NumeralDigits(y);
      var p, q := x[..|x| - 1], y[..|y| - 1];
      SameLengthOrder(p, q);
      BelowAtLast(p, q, x[|x| - 1], y[|y| - 1]);
      LastDigits(Decimal(p), Decimal(q), x[|x| - 1], y[|y| - 1]);
    }
  }

  lemma LastDigits(m: int, n: int, c: char, d: char)
    requires IsDigit(c) && IsDigit(d)
    ensures 10 * m + Digit(c) < 10 * n + Digit(d) <==> m < n || (m == n && c < d)
    ensures 10 * m + Digit(c) == 10 * n + Digit(d) <==> m == n && c == d
  {
  }

  lemma {:induction false} Pow10Grows(m: nat, n: nat)
    requires m <= n
    ensures 1 <= Pow10(m) <= Pow10(n)
    decreases n
  {
    if m < n {
      Pow10Grows(m, n - 1);
    } else if n > 0 {
      Pow10Grows(m - 1, n - 1);
    }
  }

  /** The shorter numeral is the smaller number. */
  lemma ShorterIsSmaller(x: string, y: string)
    requires Numeral(x) && Numeral(y) && |x| < |y|
    ensures Decimal(x) < Decimal(y)
  {
    DecimalBelow(x);
    DecimalAtLeast(y);
    Pow10Grows(|x|, |y| - 1);
  }

  /** Shorter, or of the same length and below as a string. */
  predicate Smaller(x: string, y: string) {
    |x| < |y| || (|x| == |y| && Below(x, y))
  }

  lemma NumeralOrder(x: string, y: string)
    requires Numeral(x) && Numeral(y)
    ensures Decimal(x) < Decimal(y) <==> |x| < |y| || (|x| == |y| && Below(x, y))
    ensures Decimal(x) == Decimal(y) <==> x == y
  {
    if |x| < |y| {
      ShorterIsSmaller(x, y);
    } else if |y| < |x| {
      ShorterIsSmaller(y, x);
    } else {
      SameLengthOrder(x, y);
    }
  }

  // ----- What fits -----

  /** The largest number of 64 bits, written out. */
  const MOST := "9223372036854775807"

  lemma DecimalMore(s: string, c: char, t: string)
    requires t == s + [c]
    ensures Decimal(t) == 10 * Decimal(s) + (c as int - 0x30)
  {
    assert t[..|s|] == s;
  }

  lemma HighDigits()
    ensures Decimal("9223372036") == 9223372036
  {
    assert Decimal("") == 0;
    DecimalMore("", '9', "9");
    DecimalMore("9", '2', "92");
    DecimalMore("92", '2', "922");
    DecimalMore("922", '3', "9223");
    DecimalMore("9223", '3', "92233");
    DecimalMore("92233", '7', "922337");
    DecimalMore("922337", '2', "9223372");
    DecimalMore("9223372", '0', "92233720");
    DecimalMore("92233720", '3', "922337203");
    DecimalMore("922337203", '6', "9223372036");
  }

  lemma LowDigits()
    ensures Decimal("922337203685477580") == 922337203685477580
  {
    HighDigits();
    DecimalMore("9223372036", '8', "92233720368");
    DecimalMore("92233720368", '5', "922337203685");
    DecimalMore("922337203685", '4', "9223372036854");
    DecimalMore("9223372036854", '7', "92233720368547");
    DecimalMore("92233720368547", '7', "922337203685477");
    DecimalMore("922337203685477", '5', "9223372036854775");
    DecimalMore("9223372036854775", '8', "92233720368547758");
    DecimalMore("92233720368547758", '0', "922337203685477580");
  }

  lemma MostIsMost()
    ensures |MOST| == 19 && Numeral(MOST) && Decimal(MOST) == TWO_63 - 1
  {
    LowDigits();
    DecimalMore("922337203685477580", '7', MOST);
  }

  /** A numeral fits exactly when it is no longer than MOST and not above it. */
  lemma FitsExact(x: string)
    requires Numeral(x)
    ensures Decimal(x) < TWO_63 <==> x == MOST || Smaller(x, MOST)
  {
    MostIsMost();
    NumeralOrder(x, MOST);
  }

  // ----- How segments compare -----

  /** Numbers that fit: by their length, then by their digits. */
  lemma NumbersCompare(x: string, y: string)
    requires Numeral(x) && Numeral(y) && (x == MOST || Smaller(x, MOST)) && (y == MOST || Smaller(y, MOST))
    ensures Cmp(SegOf(x), SegOf(y)) < 0 <==> |x| < |y| || (|x| == |y| && Below(x, y))
    ensures Cmp(SegOf(x), SegOf(y)) == 0 <==> x == y
  {
    NumeralDigits(x);
    NumeralDigits(y);
    FitsExact(x);
    FitsExact(y);
    NumeralOrder(x, y);
    DecimalBelow(x);
    DecimalBelow(y);
  }

  /** Where one of two parts is no number, they are compared as strings; a missing part as the empty one. */
  lemma TextsCompare(x: string, y: string)
    requires x == "" || y == "" || !Digits(x) || !Digits(y)
    ensures Cmp(SegOf(x), SegOf(y)) < 0 <==> Below(x, y)
    ensures Cmp(SegOf(x), SegOf(y)) == 0 <==> x == y
    ensures SegOf("") == MISSING
  {
    assert AllDigits(x) ==> Digits(x);
    assert AllDigits(y) ==> Digits(y);
    Trichotomy(x, y);
  }

  /** One more than the largest number wraps around to the smallest. */
  lemma NextWraps()
    ensures SegOf("9223372036854775808").n == -0x8000_0000_0000_0000
    ensures Cmp(SegOf("9223372036854775808"), SegOf("0")) < 0
  {
    LowDigits();
    DecimalMore("922337203685477580", '8', "9223372036854775808");
    assert AllDigits("9223372036854775808");
    assert Decimal("0") == 0 by {
      DecimalMore("", '0', "0");
    }
  }

  // ----- How versions compare -----

  /** The text of the part at position i, empty when there is none. */
  function Part(v: string, i: nat): string {
    if v == "" || i >= |Split(v)| then "" else Split(v)[i]
  }

  lemma PartIs(v: string, i: nat)
    ensures At(Segs(v), i) == SegOf(Part(v, i))
  {
  }

  /** Every part is a number that fits. */
  predicate Numbered(v: string) {
    v != "" && forall p | p in Split(v) :: Numeral(p) && (p == MOST || Smaller(p, MOST))
  }

  lemma SamePartsTie(a: string, b: string, i: nat)
    requires forall j | 0 <= j < i :: Part(a, j) == Part(b, j)
    ensures TieBefore(Segs(a), Segs(b), i)
  {
    forall j | 0 <= j < i
      ensures Cmp(At(Segs(a), j), At(Segs(b), j)) == 0
    {
      PartIs(a, j);
      PartIs(b, j);
    }
  }

  /** Two such versions compare as lists of numbers do: by the first part that differs, a longer number
      being larger, and with no further part below any. */
  lemma NumberedCompare(a: string, b: string, i: nat)
    requires Numbered(a) && Numbered(b)
    requires i <= |Split(a)| && i <= |Split(b)| && Split(a)[..i] == Split(b)[..i]
    ensures i < |Split(a)| && i < |Split(b)| && Split(a)[i] != Split(b)[i] ==>
              var p, q := Split(a)[i], Split(b)[i];
              (Compare(a, b) < 0 <==> |p| < |q| || (|p| == |q| && Below(p, q))) && Compare(a, b) != 0
    ensures i == |Split(a)| < |Split(b)| ==> Compare(a, b) < 0
    ensures i == |Split(a)| == |Split(b)| ==> Compare(a, b) == 0
  {
    forall j | 0 <= j < i
      ensures Part(a, j) == Part(b, j)
    {
      assert Split(a)[..i][j] == Split(b)[..i][j];
    }
    SamePartsTie(a, b, i);
    SkipTies(Segs(a), Segs(b), i);
    CompareUnfold(Segs(a), Segs(b), i);
    PartIs(a, i);
    PartIs(b, i);
    if i < |Split(a)| && i < |Split(b)| {
      NumbersCompare(Split(a)[i], Split(b)[i]);
    } else if i < |Split(b)| {
      assert Split(b)[i] in Split(b);
      TextsCompare("", Split(b)[i]);
    }
  }

  /** So of two versions that are single numbers the scan picks the larger. */
  lemma LatestOfTwo(x: string, y: string)
    requires Numbered(x) && Numbered(y) && '.' !in x && '.' !in y
    ensures Compare(x, y) < 0 <==> |x| < |y| || (|x| == |y| && Below(x, y))
    ensures Latest([x, y]) == if |x| < |y| || (|x| == |y| && Below(x, y)) then y else x
  {
    OneNumber(x, y);
    OneNumber(y, x);
    OfTwo(Compare, x, y);
    if x != y {
      Trichotomy(x, y);
      Antisymmetric(x, y);
    }
  }

  lemma OneNumber(x: string, y: string)
    requires Numbered(x) && Numbered(y) && '.' !in x && '.' !in y
    ensures Compare(x, y) < 0 <==> |x| < |y| || (|x| == |y| && Below(x, y))
    ensures Compare(x, y) == 0 <==> x == y
  {
    if x == y {
      Antisymmetric(x, x);
      Trichotomy(x, x);
    } else {
      OnePart(x);
      OnePart(y);
      NumberedCompare(x, y, 0);
    }
  }

  lemma OfTwo(cmp: (string, string) -> int, a: string, b: string)
    ensures Largest(cmp, [a, b]) == if cmp(b, a) > 0 then b else a
  {
    assert [a, b][..1] == [a] && Largest(cmp, [a]) == a;
  }
}
