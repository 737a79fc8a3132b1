/** Version comparison and the two drift verdicts (internal/drift/drift.go,
    internal/drift/per_version.go). */
module Drift {
  import opened Ordering
  import opened Wrappers

  // ----- Segments -----

  /** n and num as versionSegs sets them; a segment that is missing is MISSING. */
  datatype Seg = Seg(n: int, s: string, num: bool)

  const MISSING := Seg(0, "", false)

  const TWO_63: int := 0x8000_0000_0000_0000

  /** A 64-bit signed int. */
  function Wrap(n: int): (w: int)
    ensures -TWO_63 <= w < TWO_63
    ensures -TWO_63 <= n < TWO_63 ==> w == n
  {
    (n + TWO_63) % (2 * TWO_63) - TWO_63
  }

  predicate IsDigit(c: char) {
    '0' <= c <= '9'
  }

  predicate AllDigits(s: string) {
    s != "" && forall i | 0 <= i < |s| :: IsDigit(s[i])
  }

  function Digit(c: char): int {
    c as int - '0' as int
  }

  /** The number the digits stand for. */
  function Decimal(s: string): int {
    if s == "" then 0 else 10 * Decimal(s[..|s| - 1]) + Digit(s[|s| - 1])
  }

  function SegOf(p: string): Seg {
    if AllDigits(p) then Seg(Wrap(Decimal(p)), p, true) else Seg(0, p, false)
  }

  /** The parts between the dots; at least one. */
  function Split(v: string): (parts: seq<string>)
    ensures |parts| >= 1
  {
    if v == "" then [""]
    else if v[0] == '.' then [""] + Split(v[1..])
    else var rest := Split(v[1..]); [[v[0]] + rest[0]] + rest[1..]
  }

  function Join(parts: seq<string>): string {
    if parts == [] then "" else if |parts| == 1 then parts[0] else parts[0] + "." + Join(parts[1..])
  }

  lemma {:induction false} SplitExact(v: string)
    ensures Join(Split(v)) == v
    ensures forall p | p in Split(v) :: '.' !in p
  {
    if v != "" {
      SplitExact(v[1..]);
      var rest := Split(v[1..]);
      assert v == [v[0]] + v[1..];
      if v[0] == '.' {
        assert Split(v)[1..] == rest;
      } else {
        JoinFront(v[0], rest);
      }
    }
  }

  lemma JoinFront(c: char, parts: seq<string>)
    requires parts != []
    ensures Join([[c] + parts[0]] + parts[1..]) == [c] + Join(parts)
  {
    assert ([[c] + parts[0]] + parts[1..])[1..] == parts[1..];
  }

  function Segs(v: string): seq<Seg> {
    if v == "" then [] else seq(|Split(v)|, i requires 0 <= i < |Split(v)| => SegOf(Split(v)[i]))
  }

  /** 10 * Wrap(n) + d and 10 * n + d are the same 64-bit number. */
  lemma WrapShift(n: int, d: int)
    ensures Wrap(10 * Wrap(n) + d) == Wrap(10 * n + d)
  {
    var q := (n + TWO_63) / (2 * TWO_63);
    assert Wrap(n) == n - q * (2 * TWO_63);
    WrapPeriod(10 * n + d, -10 * q);
  }

  lemma WrapPeriod(n: int, k: int)
    ensures Wrap(n + k * (2 * TWO_63)) == Wrap(n)
  {
    var m := n + TWO_63;
    var q, r := m / (2 * TWO_63), m % (2 * TWO_63);
    assert m + k * (2 * TWO_63) == (q + k) * (2 * TWO_63) + r;
    assert (m + k * (2 * TWO_63)) % (2 * TWO_63) == r;
  }

  method VersionSegs(v: string) returns (out: seq<Seg>)
    ensures out == Segs(v)
  {
    if v == "" {
      return [];
    }
    var parts := Split(v);
    out := [];
    for i := 0 to |parts|
      invariant |out| == i && forall j | 0 <= j < i :: out[j] == SegOf(parts[j])
    {
      var p := parts[i];
      var seg := Seg(0, p, false);
      var n, k := 0, 0;
      while k < |p| && IsDigit(p[k])
        invariant 0 <= k <= |p| && n == Wrap(Decimal(p[..k]))
        invariant forall j | 0 <= j < k :: IsDigit(p[j])
      {
        assert p[..k + 1][..k] == p[..k];
        WrapShift(Decimal(p[..k]), Digit(p[k]));
        n := Wrap(n * 10 + Digit(p[k]));
        k := k + 1;
      }
      if k > 0 && AllDigits(p) {
        assert p[..k] == p;
        seg := Seg(n, p, true);
      }
      out := out + [seg];
    }
  }

  // ----- Comparison -----

  /** strings.Compare. */
  function StringCompare(a: string, b: string): int {
    if a == b then 0 else if Below(a, b) then -1 else 1
  }

  function Cmp(a: Seg, b: Seg): int {
    if a.num && b.num then (if a.n < b.n then -1 else if a.n > b.n then 1 else 0)
    else StringCompare(a.s, b.s)
  }

  function At(s: seq<Seg>, i: nat): Seg {
    if i < |s| then s[i] else MISSING
  }

  /** The first difference from i on decides. */
  function CompareFrom(a: seq<Seg>, b: seq<Seg>, i: nat): int
    decreases |a| + |b| - i
  {
    if i >= |a| && i >= |b| then 0
    else if Cmp(At(a, i), At(b, i)) != 0 then Cmp(At(a, i), At(b, i))
    else CompareFrom(a, b, i + 1)
  }

  function Compare(a: string, b: string): int {
    CompareFrom(Segs(a), Segs(b), 0)
  }

  method CompareVersions(a: string, b: string) returns (c: int)
    ensures c == Compare(a, b)
  {
    var as' := VersionSegs(a);
    var bs := VersionSegs(b);
    var i := 0;
    while i < |as'| || i < |bs|
      invariant CompareFrom(as', bs, i) == Compare(a, b)
      decreases |as'| + |bs| - i
    {
      var av, bv := MISSING, MISSING;
      if i < |as'| {
        av := as'[i];
      }
      if i < |bs| {
        bv := bs[i];
      }
      if Cmp(av, bv) != 0 {
        return Cmp(av, bv);
      }
      i := i + 1;
    }
    return 0;
  }

  lemma CmpAntisymmetric(a: Seg, b: Seg)
    ensures Cmp(a, b) == -Cmp(b, a)
  {
    Trichotomy(a.s, b.s);
  }

  lemma {:induction false} CompareFromAntisymmetric(a: seq<Seg>, b: seq<Seg>, i: nat)
    ensures CompareFrom(a, b, i) == -CompareFrom(b, a, i) && -1 <= CompareFrom(a, b, i) <= 1
    decreases |a| + |b| - i
  {
    CmpAntisymmetric(At(a, i), At(b, i));
    if i < |a| || i < |b| {
      CompareFromAntisymmetric(a, b, i + 1);
    }
  }

  /** On all inputs, whatever their segments. */
  lemma Antisymmetric(a: string, b: string)
    ensures Compare(a, b) == -Compare(b, a)
    ensures Compare(a, a) == 0
    ensures -1 <= Compare(a, b) <= 1
  {
    CompareFromAntisymmetric(Segs(a), Segs(b), 0);
    CompareFromAntisymmetric(Segs(a), Segs(a), 0);
  }

  // ----- Where the comparison is an order -----

  /** Every segment is a run of digits, or there is none. */
  ghost predicate Numeric(segs: seq<Seg>) {
    forall seg | seg in segs :: seg.num && seg.s != ""
  }

  ghost predicate AllDigit(v: string) {
    Numeric(Segs(v))
  }

  /** All-digit versions are the empty one and those whose parts are all runs of digits. */
  lemma AllDigitExact(v: string)
    ensures AllDigit(v) <==> v == "" || forall p | p in Split(v) :: AllDigits(p)
  {
    if v != "" {
      var parts := Split(v);
      assert forall i | 0 <= i < |parts| :: parts[i] in parts && Segs(v)[i] == SegOf(parts[i]) && Segs(v)[i] in Segs(v);
    }
  }

  /** The empty string is below every other one. */
  lemma EmptyLowest(s: string)
    ensures s != "" ==> Below("", s) && !Below(s, "")
  {
    Trichotomy("", s);
  }

  /** A segment as versionSegs makes it: its string says whether it is a number, and which. */
  predicate IsSeg(x: Seg) {
    x == SegOf(x.s)
  }

  lemma AtIsSeg(v: string, i: nat)
    ensures IsSeg(At(Segs(v), i))
  {
  }

  /** The string of a non-number stands between those of two numbers. */
  predicate Between(a: Seg, c: Seg, b: Seg) {
    a.num && b.num && !c.num && Below(a.s, c.s) && Below(c.s, b.s)
  }

  /** Strings alone are ordered. */
  lemma StringOrder(a: string, b: string, c: string)
    ensures StringCompare(a, b) == -StringCompare(b, a)
    ensures StringCompare(a, b) == 0 <==> a == b
    ensures StringCompare(a, b) <= 0 && StringCompare(b, c) <= 0 ==> StringCompare(a, c) <= 0
    ensures StringCompare(a, b) < 0 <==> Below(a, b)
  {
    Trichotomy(a, b);
    Trichotomy(b, c);
    Trichotomy(a, c);
    if Below(a, b) && Below(b, c) {
      Transitive(a, b, c);
    }
  }

  /** Where three segments in a row do not tie all round, the outer two are in order, or one of the
      three is a non-number between two numbers. */
  lemma SegStep(x: Seg, y: Seg, z: Seg)
    requires IsSeg(x) && IsSeg(y) && IsSeg(z) && Cmp(x, y) <= 0 && Cmp(y, z) <= 0
    ensures Cmp(x, z) < 0 || (Cmp(x, y) == 0 && Cmp(y, z) == 0 && Cmp(x, z) == 0)
            || Between(x, y, z) || Between(y, z, x) || Between(z, x, y)
  {
    StringOrder(x.s, y.s, z.s);
    StringOrder(y.s, z.s, x.s);
    StringOrder(z.s, x.s, y.s);
  }

  /** Of segments: the comparison is transitive on a set of them exactly when no non-number stands
      between two numbers that are not in the same order. */
  lemma SegmentsExact(segs: set<Seg>)
    requires forall x | x in segs :: IsSeg(x)
    ensures (forall x, y, z | x in segs && y in segs && z in segs && Cmp(x, y) <= 0 && Cmp(y, z) <= 0 :: Cmp(x, z) <= 0) <==>
            (forall a, b, c | a in segs && b in segs && c in segs && Between(a, c, b) :: a.n < b.n)
  {
    if forall a, b, c | a in segs && b in segs && c in segs && Between(a, c, b) :: a.n < b.n {
      forall x, y, z | x in segs && y in segs && z in segs && Cmp(x, y) <= 0 && Cmp(y, z) <= 0
        ensures Cmp(x, z) <= 0
      {
        SegStep(x, y, z);
      }
    }
    if forall x, y, z | x in segs && y in segs && z in segs && Cmp(x, y) <= 0 && Cmp(y, z) <= 0 :: Cmp(x, z) <= 0 {
      forall a, b, c | a in segs && b in segs && c in segs && Between(a, c, b)
        ensures a.n < b.n
      {
        StringOrder(a.s, c.s, b.s);
        StringOrder(c.s, b.s, a.s);
        assert Cmp(a, c) < 0 && Cmp(c, b) < 0 && Cmp(b, c) > 0;
        assert Cmp(b, a) <= 0 ==> Cmp(b, c) <= 0;
      }
    }
  }

  /** cmp is a total preorder on the elements of s. */
  ghost predicate Orders(cmp: (string, string) -> int, s: seq<string>) {
    && (forall a, b | a in s && b in s :: cmp(a, b) == -cmp(b, a))
    && (forall a, b, c | a in s && b in s && c in s :: cmp(a, b) <= 0 && cmp(b, c) <= 0 ==> cmp(a, c) <= 0)
  }

  predicate TieBefore(a: seq<Seg>, b: seq<Seg>, i: nat) {
    forall j | 0 <= j < i :: Cmp(At(a, j), At(b, j)) == 0
  }

  /** Up to position i the three are the same, and there c has a non-number between two numbers. */
  predicate Straddled(a: string, c: string, b: string, i: nat) {
    && TieBefore(Segs(a), Segs(c), i) && TieBefore(Segs(c), Segs(b), i)
    && Between(At(Segs(a), i), At(Segs(c), i), At(Segs(b), i))
  }

  ghost predicate Unmixed(versions: seq<string>) {
    forall a, b, c, i: nat | a in versions && b in versions && c in versions && Straddled(a, c, b, i) :: Compare(a, b) < 0
  }

  /** Looking at one more missing pair changes nothing. */
  lemma CompareUnfold(a: seq<Seg>, b: seq<Seg>, i: nat)
    ensures CompareFrom(a, b, i) == if Cmp(At(a, i), At(b, i)) != 0 then Cmp(At(a, i), At(b, i)) else CompareFrom(a, b, i + 1)
  {
  }

  lemma {:induction false} SkipTies(a: seq<Seg>, b: seq<Seg>, i: nat)
    requires TieBefore(a, b, i)
    ensures CompareFrom(a, b, 0) == CompareFrom(a, b, i)
  {
    if i > 0 {
      SkipTies(a, b, i - 1);
      CompareUnfold(a, b, i - 1);
    }
  }

  lemma StraddledCompare(a: string, c: string, b: string, i: nat)
    requires Straddled(a, c, b, i)
    ensures Compare(a, c) < 0 && Compare(c, b) < 0
  {
    var x, y, z := Segs(a), Segs(c), Segs(b);
    SkipTies(x, y, i);
    SkipTies(y, z, i);
    CompareUnfold(x, y, i);
    CompareUnfold(y, z, i);
    StringOrder(At(x, i).s, At(y, i).s, At(z, i).s);
    StringOrder(At(y, i).s, At(z, i).s, At(x, i).s);
  }

  lemma TiesAround(x: Seg, y: Seg, z: Seg)
    requires IsSeg(x) && IsSeg(y) && IsSeg(z) && Cmp(x, y) == 0 && Cmp(y, z) == 0
    ensures Cmp(x, z) == 0 && Cmp(z, x) == 0 && Cmp(y, x) == 0 && Cmp(z, y) == 0
  {
    StringOrder(x.s, y.s, z.s);
    StringOrder(y.s, z.s, x.s);
    StringOrder(z.s, x.s, y.s);
  }

  ghost predicate AllTie(a: string, b: string, c: string, i: nat) {
    && TieBefore(Segs(a), Segs(b), i) && TieBefore(Segs(b), Segs(c), i) && TieBefore(Segs(a), Segs(c), i)
    && TieBefore(Segs(b), Segs(a), i) && TieBefore(Segs(c), Segs(b), i) && TieBefore(Segs(c), Segs(a), i)
  }

  lemma AllTieMore(a: string, b: string, c: string, i: nat)
    requires AllTie(a, b, c, i)
    requires Cmp(At(Segs(a), i), At(Segs(b), i)) == 0 && Cmp(At(Segs(b), i), At(Segs(c), i)) == 0
    ensures AllTie(a, b, c, i + 1)
  {
    AtIsSeg(a, i);
    AtIsSeg(b, i);
    AtIsSeg(c, i);
    TiesAround(At(Segs(a), i), At(Segs(b), i), At(Segs(c), i));
  }

  /** Three versions that tie before position i, in a list without mixed triples. */
  lemma {:induction false} TransitiveFrom(versions: seq<string>, a: string, b: string, c: string, i: nat)
    requires Unmixed(versions) && a in versions && b in versions && c in versions && AllTie(a, b, c, i)
    requires Compare(a, b) <= 0 && Compare(b, c) <= 0
    ensures Compare(a, c) <= 0
    decreases |Segs(a)| + |Segs(b)| + |Segs(c)| - i
  {
    var x, y, z := Segs(a), Segs(b), Segs(c);
    SkipTies(x, y, i);
    SkipTies(y, z, i);
    SkipTies(x, z, i);
    if i < |x| || i < |y| || i < |z| {
      CompareUnfold(x, y, i);
      CompareUnfold(y, z, i);
      CompareUnfold(x, z, i);
      AtIsSeg(a, i);
      AtIsSeg(b, i);
      AtIsSeg(c, i);
      SegStep(At(x, i), At(y, i), At(z, i));
      if Cmp(At(x, i), At(y, i)) == 0 && Cmp(At(y, i), At(z, i)) == 0 {
        AllTieMore(a, b, c, i);
        TransitiveFrom(versions, a, b, c, i + 1);
      } else {
        MixedStep(versions, a, b, c, i);
      }
    }
  }

  lemma MixedStep(versions: seq<string>, a: string, b: string, c: string, i: nat)
    requires Unmixed(versions) && a in versions && b in versions && c in versions && AllTie(a, b, c, i)
    requires Compare(a, b) <= 0 && Compare(b, c) <= 0
    ensures Between(At(Segs(a), i), At(Segs(b), i), At(Segs(c), i)) ==> Compare(a, c) <= 0
    ensures !Between(At(Segs(b), i), At(Segs(c), i), At(Segs(a), i))
    ensures !Between(At(Segs(c), i), At(Segs(a), i), At(Segs(b), i))
  {
    assert Between(At(Segs(a), i), At(Segs(b), i), At(Segs(c), i)) ==> Straddled(a, b, c, i);
    assert Between(At(Segs(b), i), At(Segs(c), i), At(Segs(a), i)) ==> Straddled(b, c, a, i);
    assert Between(At(Segs(c), i), At(Segs(a), i), At(Segs(b), i)) ==> Straddled(c, a, b, i);
    Antisymmetric(a, b);
    Antisymmetric(b, c);
  }

  /** Exactly where the comparison is an order: it is a total preorder on the versions of a list if
      and only if, whenever two of them first differ from a third by numbers around its non-number,
      the two are in the order of those strings. */
  lemma OrderExact(versions: seq<string>)
    ensures Orders(Compare, versions) <==> Unmixed(versions)
  {
    if Unmixed(versions) {
      forall a, b | a in versions && b in versions
        ensures Compare(a, b) == -Compare(b, a)
      {
        Antisymmetric(a, b);
      }
      forall a, b, c | a in versions && b in versions && c in versions && Compare(a, b) <= 0 && Compare(b, c) <= 0
        ensures Compare(a, c) <= 0
      {
        TransitiveFrom(versions, a, b, c, 0);
      }
    }
    if Orders(Compare, versions) {
      forall a, b, c, i: nat | a in versions && b in versions && c in versions && Straddled(a, c, b, i)
        ensures Compare(a, b) < 0
      {
        StraddledCompare(a, c, b, i);
        OrderedStrictly(Compare, versions, a, c, b);
      }
    }
  }

  lemma OrderedStrictly(cmp: (string, string) -> int, s: seq<string>, a: string, b: string, c: string)
    requires Orders(cmp, s) && a in s && b in s && c in s
    ensures cmp(a, b) <= 0 || cmp(b, a) <= 0
    ensures cmp(a, b) <= 0 && cmp(b, c) <= 0 ==> cmp(a, c) <= 0
    ensures cmp(a, b) < 0 && cmp(b, c) <= 0 ==> cmp(a, c) < 0
    ensures cmp(a, b) <= 0 && cmp(b, c) < 0 ==> cmp(a, c) < 0
  {
    assert cmp(c, a) <= 0 && cmp(a, b) <= 0 ==> cmp(c, b) <= 0;
    assert cmp(b, c) <= 0 && cmp(c, a) <= 0 ==> cmp(b, a) <= 0;
  }

  /** Position by position, the segments that are there are all numbers or all not. */
  ghost predicate SameKinds(versions: seq<string>) {
    forall a, b, i: nat | a in versions && b in versions && i < |Segs(a)| && i < |Segs(b)| :: Segs(a)[i].num == Segs(b)[i].num
  }

  /** So versions that are built alike are ordered, with a tail such as .bcr.1 on some of them. */
  lemma SameKindsOrdered(versions: seq<string>)
    requires SameKinds(versions)
    ensures Unmixed(versions) && Orders(Compare, versions)
  {
    forall a, b, c, i: nat | a in versions && b in versions && c in versions
      ensures !Straddled(a, c, b, i)
    {
      NotStraddled(versions, a, c, b, i);
    }
    OrderExact(versions);
  }

  lemma NotStraddled(versions: seq<string>, a: string, c: string, b: string, i: nat)
    requires SameKinds(versions) && a in versions && c in versions
    ensures !Straddled(a, c, b, i)
  {
    EmptyLowest(At(Segs(a), i).s);
    assert i < |Segs(a)| && i < |Segs(c)| ==> Segs(a)[i].num == Segs(c)[i].num;
  }

  ghost predicate AllDigitVersions(versions: seq<string>) {
    forall v | v in versions :: AllDigit(v)
  }

  lemma AllDigitSameKinds(versions: seq<string>)
    requires AllDigitVersions(versions)
    ensures SameKinds(versions)
  {
    forall a, b, i: nat | a in versions && b in versions && i < |Segs(a)| && i < |Segs(b)|
      ensures Segs(a)[i].num == Segs(b)[i].num
    {
      assert Segs(a)[i] in Segs(a) && Segs(b)[i] in Segs(b);
    }
  }

  /** In particular, on versions whose parts are all runs of digits "not above" is a total preorder. */
  lemma TotalPreorder(versions: seq<string>)
    requires forall v | v in versions :: v == "" || forall p | p in Split(v) :: AllDigits(p)
    ensures Orders(Compare, versions)
  {
    forall v | v in versions
      ensures AllDigit(v)
    {
      AllDigitExact(v);
    }
    AllDigitSameKinds(versions);
    SameKindsOrdered(versions);
  }

  /** Two all-digit versions tie exactly when they have the same numbers. */
  lemma TieExact(a: string, b: string)
    requires AllDigit(a) && AllDigit(b)
    ensures Compare(a, b) == 0 <==> |Segs(a)| == |Segs(b)| && forall i | 0 <= i < |Segs(a)| :: Segs(a)[i].n == Segs(b)[i].n
  {
    TieFrom(Segs(a), Segs(b), 0);
  }

  lemma {:induction false} TieFrom(a: seq<Seg>, b: seq<Seg>, i: nat)
    requires Numeric(a) && Numeric(b) && i <= |a| && i <= |b|
    ensures CompareFrom(a, b, i) == 0 <==> |a| == |b| && forall j | i <= j < |a| :: a[j].n == b[j].n
    decreases |a| + |b| - i
  {
    if i < |a| || i < |b| {
      assert i < |a| ==> a[i] in a;
      assert i < |b| ==> b[i] in b;
      EmptyLowest(At(a, i).s);
      EmptyLowest(At(b, i).s);
      if i < |a| && i < |b| {
        TieFrom(a, b, i + 1);
      }
    }
  }

  /** Segments short enough to fit are compared by the numbers they stand for. */
  lemma NumbersNotStrings(a: string, b: string)
    requires AllDigits(a) && AllDigits(b) && Decimal(a) < TWO_63 && Decimal(b) < TWO_63
    ensures Cmp(SegOf(a), SegOf(b)) < 0 <==> Decimal(a) < Decimal(b)
    ensures Cmp(SegOf(a), SegOf(b)) == 0 <==> Decimal(a) == Decimal(b)
  {
    DecimalNat(a);
    DecimalNat(b);
  }

  lemma {:induction false} DecimalNat(s: string)
    requires forall i | 0 <= i < |s| :: IsDigit(s[i])
    ensures Decimal(s) >= 0
  {
    if s != "" {
      DecimalNat(s[..|s| - 1]);
    }
  }

  /** Not an order on mixed segments: 2 < 10 < 1a < 2. */
  lemma MixedCycle()
    ensures Compare("2", "10") < 0 && Compare("10", "1a") < 0 && Compare("1a", "2") < 0
  {
    OnePart("2");
    OnePart("10");
    OnePart("1a");
    assert Decimal("2") == 2 by {
      assert "2"[..0] == "";
    }
    assert Decimal("10") == 10 by {
      assert "10"[..1] == "1" && "1"[..0] == "";
    }
    assert !IsDigit("1a"[1]);
    assert "10"[1..] == "0" && "1a"[1..] == "a";
  }

  lemma {:induction false} OnePart(v: string)
    requires v != "" && '.' !in v
    ensures Split(v) == [v] && Segs(v) == [SegOf(v)]
  {
    if |v| > 1 {
      OnePart(v[1..]);
    }
    assert v == [v[0]] + v[1..];
    assert Split(v) == [v];
  }

  // ----- The latest version -----

  ghost predicate IsLatest(best: string, versions: seq<string>) {
    best in versions && forall v | v in versions :: Compare(v, best) <= 0
  }

  /** What a scan that replaces its pick by any larger version keeps. */
  function Largest(cmp: (string, string) -> int, versions: seq<string>): string {
    if versions == [] then ""
    else if |versions| == 1 then versions[0]
    else
      var best, v := Largest(cmp, versions[..|versions| - 1]), versions[|versions| - 1];
      if cmp(v, best) > 0 then v else best
  }

  function Latest(versions: seq<string>): string {
    Largest(Compare, versions)
  }

  lemma LargestOfNext(cmp: (string, string) -> int, s: seq<string>, i: nat)
    requires 0 < i < |s|
    ensures Largest(cmp, s[..i + 1]) == if cmp(s[i], Largest(cmp, s[..i])) > 0 then s[i] else Largest(cmp, s[..i])
  {
    assert s[..i + 1][..i] == s[..i];
  }

  method PickLatest(versions: seq<string>) returns (best: string)
    ensures best == Latest(versions)
  {
    if |versions| == 0 {
      return "";
    }
    best := versions[0];
    for i := 1 to |versions|
      invariant best == Largest(Compare, versions[..i])
    {
      LargestOfNext(Compare, versions, i);
      var c := CompareVersions(versions[i], best);
      if c > 0 {
        best := versions[i];
      }
    }
    assert versions[..|versions|] == versions;
  }

  lemma {:induction false} LargestIn(cmp: (string, string) -> int, versions: seq<string>)
    requires versions != []
    ensures Largest(cmp, versions) in versions
  {
    if |versions| > 1 {
      LargestIn(cmp, versions[..|versions| - 1]);
    }
  }

  lemma {:induction false} LargestIsMaximum(cmp: (string, string) -> int, versions: seq<string>)
    requires versions != [] && Orders(cmp, versions)
    ensures forall v | v in versions :: cmp(v, Largest(cmp, versions)) <= 0
  {
    if |versions| > 1 {
      var rest, v := versions[..|versions| - 1], versions[|versions| - 1];
      LargestIsMaximum(cmp, rest);
      LargestIn(cmp, rest);
      assert forall x :: x in versions <==> x in rest || x == v;
    }
  }

  lemma LatestIn(versions: seq<string>)
    requires versions != []
    ensures Latest(versions) in versions
  {
    LargestIn(Compare, versions);
  }

  /** Versions that tie stand in for each other. */
  ghost predicate TiesAlike(cmp: (string, string) -> int, s: seq<string>) {
    forall a, b, c | a in s && b in s && c in s && cmp(a, b) == 0 :: cmp(a, c) == cmp(b, c)
  }

  ghost predicate Antisymmetry(cmp: (string, string) -> int, s: seq<string>) {
    forall a, b | a in s && b in s :: cmp(a, b) == -cmp(b, a)
  }

  /** Once a maximum has gone by, the scan holds it or one that ties with it. */
  lemma {:induction false} LargestTies(cmp: (string, string) -> int, versions: seq<string>, m: string)
    requires Antisymmetry(cmp, versions) && TiesAlike(cmp, versions)
    requires m in versions && forall v | v in versions :: cmp(v, m) <= 0
    ensures cmp(Largest(cmp, versions), m) == 0
  {
    assert cmp(m, m) == -cmp(m, m);
    if |versions| > 1 {
      var rest, v := versions[..|versions| - 1], versions[|versions| - 1];
      LargestIn(cmp, rest);
      assert forall x :: x in versions <==> x in rest || x == v;
      if m in rest {
        LargestTies(cmp, rest, m);
      }
    }
  }

  /** No part is a number with a leading zero or beyond 64 bits. */
  predicate PlainNumbers(versions: seq<string>) {
    forall v, p | v in versions && p in Split(v) && AllDigits(p) :: Plain(p)
  }

  predicate Plain(p: string) {
    (|p| > 1 ==> p[0] != '0') && Decimal(p) < TWO_63
  }

  /** With such numbers, and with the missing parts read as empty, ties are equal segment by segment. */
  lemma PlainTiesAlike(versions: seq<string>)
    requires PlainNumbers(versions)
    ensures TiesAlike(Compare, versions)
  {
    forall a, b, c | a in versions && b in versions && c in versions && Compare(a, b) == 0
      ensures Compare(a, c) == Compare(b, c)
    {
      forall i: nat
        ensures At(Segs(a), i) == At(Segs(b), i)
      {
        PlainAt(a, i);
        PlainAt(b, i);
        TiedAt(Segs(a), Segs(b), 0, i);
        PlainTie(At(Segs(a), i), At(Segs(b), i));
      }
      SameSegments(Segs(a), Segs(b), Segs(c), 0);
    }
  }

  ghost predicate PlainSeg(x: Seg) {
    IsSeg(x) && (x.num ==> AllDigits(x.s) && Plain(x.s))
  }

  lemma PlainAt(v: string, i: nat)
    requires forall p | p in Split(v) && AllDigits(p) :: Plain(p)
    ensures PlainSeg(At(Segs(v), i))
  {
    if i < |Segs(v)| {
      assert Split(v)[i] in Split(v);
    }
  }

  lemma {:induction false} TiedAt(a: seq<Seg>, b: seq<Seg>, i: nat, k: nat)
    requires CompareFrom(a, b, i) == 0 && i <= k
    ensures Cmp(At(a, k), At(b, k)) == 0
    decreases k - i
  {
    CompareUnfold(a, b, i);
    if i < k {
      TiedAt(a, b, i + 1, k);
    }
  }

  lemma {:induction false} SameSegments(a: seq<Seg>, b: seq<Seg>, c: seq<Seg>, i: nat)
    requires forall k: nat :: At(a, k) == At(b, k)
    ensures CompareFrom(a, c, i) == CompareFrom(b, c, i)
    decreases |a| + |b| + |c| - i
  {
    CompareUnfold(a, c, i);
    CompareUnfold(b, c, i);
    if i < |a| || i < |b| || i < |c| {
      SameSegments(a, b, c, i + 1);
    }
  }

  lemma PlainTie(x: Seg, y: Seg)
    requires PlainSeg(x) && PlainSeg(y) && Cmp(x, y) == 0
    ensures x == y
  {
    if x.num && y.num {
      DecimalNat(x.s);
      DecimalNat(y.s);
      SameDecimal(x.s, y.s);
    }
  }

  lemma DecimalPositive(s: string)
    requires AllDigits(s) && s[0] != '0'
    ensures Decimal(s) > 0
  {
    if |s| > 1 {
      DecimalPositive(s[..|s| - 1]);
    } else {
      assert s[..0] == "";
    }
  }

  /** Numbers without leading zeros are written in one way. */
  lemma {:induction false} SameDecimal(a: string, b: string)
    requires AllDigits(a) && AllDigits(b) && Decimal(a) == Decimal(b)
    requires (|a| > 1 ==> a[0] != '0') && (|b| > 1 ==> b[0] != '0')
    ensures a == b
  {
    var a', b' := a[..|a| - 1], b[..|b| - 1];
    assert a == a' + [a[|a| - 1]] && b == b' + [b[|b| - 1]];
    if |a| > 1 {
      DecimalPositive(a');
    }
    if |b| > 1 {
      DecimalPositive(b');
    }
    if |a| > 1 && |b| > 1 {
      SameDecimal(a', b');
    } else {
      assert Decimal("") == 0;
    }
  }

  /** Exactly when the pick is a maximum, for plain numbers with any text between them: when there is
      a maximum at all.  Whether the comparison orders the whole list does not matter. */
  lemma LatestExact(versions: seq<string>)
    requires PlainNumbers(versions)
    ensures IsLatest(Latest(versions), versions) <==> exists m :: IsLatest(m, versions)
  {
    if m :| IsLatest(m, versions) {
      PlainTiesAlike(versions);
      AntisymmetricOn(versions);
      LargestIn(Compare, versions);
      LargestTies(Compare, versions, m);
      TieOfMaximum(Compare, versions, Latest(versions), m);
    }
  }

  lemma AntisymmetricOn(versions: seq<string>)
    ensures Antisymmetry(Compare, versions)
  {
    forall a, b | a in versions && b in versions
      ensures Compare(a, b) == -Compare(b, a)
    {
      Antisymmetric(a, b);
    }
  }

  lemma TieOfMaximum(cmp: (string, string) -> int, s: seq<string>, t: string, m: string)
    requires Antisymmetry(cmp, s) && TiesAlike(cmp, s) && t in s && m in s && cmp(t, m) == 0
    requires forall v | v in s :: cmp(v, m) <= 0
    ensures forall v | v in s :: cmp(v, t) <= 0
  {
    forall v | v in s
      ensures cmp(v, t) <= 0
    {
      assert cmp(t, v) == cmp(m, v) == -cmp(v, m);
    }
  }

  /** Exactly when it is one on every list: when, at the turn of some maximum, the pick so far is below
      it.  A maximum that ties with the pick is passed over. */
  lemma PickExact(versions: seq<string>)
    ensures IsLatest(Latest(versions), versions) <==>
              exists i :: 0 <= i < |versions| && IsLatest(versions[i], versions) && Taken(Compare, versions, i)
  {
    if versions != [] && IsLatest(Latest(versions), versions) {
      var i := PickedAt(Compare, versions);
    }
    if i :| 0 <= i < |versions| && IsLatest(versions[i], versions) && Taken(Compare, versions, i) {
      MaximumStays(Compare, versions, i);
    }
  }

  predicate Taken(cmp: (string, string) -> int, s: seq<string>, i: nat)
    requires i < |s|
  {
    i == 0 || cmp(s[i], Largest(cmp, s[..i])) > 0
  }

  lemma {:induction false} PickedAt(cmp: (string, string) -> int, s: seq<string>) returns (i: nat)
    requires s != []
    ensures i < |s| && s[i] == Largest(cmp, s) && Taken(cmp, s, i)
  {
    var n := |s| - 1;
    if n == 0 || cmp(s[n], Largest(cmp, s[..n])) > 0 {
      i := n;
    } else {
      i := PickedAt(cmp, s[..n]);
      assert s[..n][..i] == s[..i];
    }
  }

  lemma {:induction false} MaximumStays(cmp: (string, string) -> int, s: seq<string>, i: nat)
    requires i < |s| && Taken(cmp, s, i) && forall v | v in s :: cmp(v, s[i]) <= 0
    ensures Largest(cmp, s) == s[i]
  {
    var n := |s| - 1;
    if i < n {
      assert s[..n][..i] == s[..i] && s[n] in s;
      MaximumStays(cmp, s[..n], i);
    }
  }

  /** Among versions that the comparison orders, the one picked is a maximum. */
  lemma LatestIsMaximum(versions: seq<string>)
    requires versions != [] && Unmixed(versions)
    ensures IsLatest(Latest(versions), versions)
  {
    OrderExact(versions);
    LargestIn(Compare, versions);
    LargestIsMaximum(Compare, versions);
  }

  /** Of 2, 10, 1a none is: each is below another one, and the pick is below 2. */
  lemma LatestNotMaximum()
    ensures Latest(["2", "10", "1a"]) == "1a" && Compare("2", "1a") > 0
    ensures !exists m :: IsLatest(m, ["2", "10", "1a"])
  {
    MixedCycle();
    Antisymmetric("2", "10");
    Antisymmetric("10", "1a");
    Antisymmetric("1a", "2");
    OfThree(Compare, "2", "10", "1a");
  }

  /** The scan and the maxima of a list of three. */
  lemma OfThree(cmp: (string, string) -> int, a: string, b: string, c: string)
    ensures Largest(cmp, [a, b, c]) == var best := if cmp(b, a) > 0 then b else a; if cmp(c, best) > 0 then c else best
    ensures forall m :: m in [a, b, c] <==> m == a || m == b || m == c
  {
    assert [a, b][..1] == [a] && Largest(cmp, [a]) == a;
    assert Largest(cmp, [a, b]) == if cmp(b, a) > 0 then b else a;
    assert [a, b, c][..2] == [a, b];
  }

  /** Beyond plain numbers a maximum can be missed: 1 ties with 01, which comes first and is below 0a,
      while 1 itself is above 0a. */
  lemma MaximumMissed()
    ensures Latest(["01", "1", "0a"]) == "0a"
    ensures IsLatest("1", ["01", "1", "0a"]) && !IsLatest("0a", ["01", "1", "0a"])
  {
    LeadingZero();
    Antisymmetric("01", "1");
    Antisymmetric("1", "1");
    Antisymmetric("0a", "1");
    OfThree(Compare, "01", "1", "0a");
  }

  lemma LeadingZero()
    ensures Compare("01", "1") == 0 && Compare("0a", "01") > 0 && Compare("1", "0a") > 0
  {
    OnePart("01");
    OnePart("1");
    OnePart("0a");
    assert Decimal("1") == 1 by {
      assert "1"[..0] == "";
    }
    assert Decimal("01") == 1 by {
      assert "01"[..1] == "0" && "0"[..0] == "";
    }
    assert !IsDigit("0a"[1]);
    assert "01"[1..] == "1" && "0a"[1..] == "a";
  }

  // ----- The verdict on a module -----

  datatype Status = InSync | Behind | YankedUpstream | LocalOnly | UpstreamError

  datatype Metadata = Metadata(versions: seq<string>, yanked: set<string>)

  datatype Fetched = NotFound | Failed(message: string) | Found(meta: Metadata)

  datatype ModuleDrift = ModuleDrift(name: string, status: Status, localVersions: seq<string>,
    localLatest: string, upstreamVersions: seq<string>, upstreamLatest: string, newerUpstream: seq<string>,
    missingLocally: seq<string>, yankedAtUpstream: seq<string>, localOnlyVersions: seq<string>, error: string)

  /** The elements of s that p keeps, in order. */
  function Filter(s: seq<string>, p: string -> bool): seq<string> {
    if s == [] then []
    else if p(s[|s| - 1]) then Filter(s[..|s| - 1], p) + [s[|s| - 1]]
    else Filter(s[..|s| - 1], p)
  }

  lemma {:induction false} FilterExact(s: seq<string>, p: string -> bool, x: string)
    ensures x in Filter(s, p) <==> x in s && p(x)
  {
    if s != [] {
      FilterExact(s[..|s| - 1], p, x);
      assert s == s[..|s| - 1] + [s[|s| - 1]];
    }
  }

  function Above(cmp: (string, string) -> int, v: string): string -> bool {
    x => cmp(x, v) > 0
  }

  function NewerThan(v: string): string -> bool {
    Above(Compare, v)
  }

  function Missing(up: seq<string>, local: seq<string>): seq<string> {
    Filter(up, v => v !in local)
  }

  /** compareOne. */
  function DriftOf(name: string, local: seq<string>, got: Fetched): ModuleDrift {
    var d := ModuleDrift(name, InSync, local, Latest(local), [], "", [], [], [], [], "");
    match got
    case NotFound => d.(status := LocalOnly, localOnlyVersions := local)
    case Failed(message) => d.(status := UpstreamError, error := message)
    case Found(up) =>
      var newer := Filter(Missing(up.versions, local), NewerThan(Latest(local)));
      var yanked := Filter(local, v => v in up.yanked);
      d.(upstreamVersions := up.versions, upstreamLatest := Latest(up.versions),
         missingLocally := Missing(up.versions, local), newerUpstream := newer, yankedAtUpstream := yanked,
         localOnlyVersions := Missing(local, up.versions),
         status := if yanked != [] then YankedUpstream else if newer != [] then Behind else InSync)
  }

  method CompareOne(name: string, local: seq<string>, got: Fetched) returns (d: ModuleDrift)
    ensures d == DriftOf(name, local, got)
  {
    var localLatest := PickLatest(local);
    d := ModuleDrift(name, InSync, local, localLatest, [], "", [], [], [], [], "");
    match got
    case NotFound =>
      d := d.(status := LocalOnly, localOnlyVersions := local);
    case Failed(message) =>
      d := d.(status := UpstreamError, error := message);
    case Found(up) =>
      var upstreamLatest := PickLatest(up.versions);
      var missing := Absent(up.versions, local);
      var localOnly, yanked := LocalDiffs(local, up);
      var newer := NewerAmong(missing, localLatest);
      d := d.(upstreamVersions := up.versions, upstreamLatest := upstreamLatest, missingLocally := missing,
              newerUpstream := newer, yankedAtUpstream := yanked, localOnlyVersions := localOnly,
              status := if |yanked| > 0 then YankedUpstream else if |newer| > 0 then Behind else InSync);
  }

  // The three loops of compareOne.

  method Absent(up: seq<string>, local: seq<string>) returns (missing: seq<string>)
    ensures missing == Missing(up, local)
  {
    missing := [];
    for i := 0 to |up|
      invariant missing == Missing(up[..i], local)
    {
      assert up[..i + 1][..i] == up[..i];
      if up[i] !in local {
        missing := missing + [up[i]];
      }
    }
    assert up[..|up|] == up;
  }

  method LocalDiffs(local: seq<string>, up: Metadata) returns (localOnly: seq<string>, yanked: seq<string>)
    ensures localOnly == Missing(local, up.versions) && yanked == Filter(local, v => v in up.yanked)
  {
    localOnly, yanked := [], [];
    for i := 0 to |local|
      invariant localOnly == Missing(local[..i], up.versions)
      invariant yanked == Filter(local[..i], v => v in up.yanked)
    {
      assert local[..i + 1][..i] == local[..i];
      if local[i] !in up.versions {
        localOnly := localOnly + [local[i]];
      }
      if local[i] in up.yanked {
        yanked := yanked + [local[i]];
      }
    }
    assert local[..|local|] == local;
  }

  method NewerAmong(missing: seq<string>, localLatest: string) returns (newer: seq<string>)
    ensures newer == Filter(missing, NewerThan(localLatest))
  {
    newer := [];
    for i := 0 to |missing|
      invariant newer == Filter(missing[..i], NewerThan(localLatest))
    {
      assert missing[..i + 1][..i] == missing[..i];
      var c := CompareVersions(missing[i], localLatest);
      if c > 0 {
        newer := newer + [missing[i]];
      }
    }
    assert missing[..|missing|] == missing;
  }

  // ----- The verdict on one version -----

  datatype VersionDrift = VersionDrift(status: Status, behind: nat, latestUpstream: string)

  function Newer(up: seq<string>, v: string): nat {
    |Filter(up, NewerThan(v))|
  }

  function VersionDriftOf(local: string, upstream: Option<Metadata>): VersionDrift {
    if upstream.None? then VersionDrift(LocalOnly, 0, "")
    else
      var up := upstream.value;
      if local in up.yanked then VersionDrift(YankedUpstream, 0, Latest(up.versions))
      else if Newer(up.versions, local) > 0 then VersionDrift(Behind, Newer(up.versions, local), Latest(up.versions))
      else VersionDrift(InSync, 0, "")
  }

  method ComputeForVersion(local: string, upstream: Option<Metadata>) returns (d: VersionDrift)
    ensures d == VersionDriftOf(local, upstream)
  {
    if upstream.None? {
      return VersionDrift(LocalOnly, 0, "");
    }
    var up := upstream.value;
    if local in up.yanked {
      var yankedLatest := PickLatest(up.versions);
      return VersionDrift(YankedUpstream, 0, yankedLatest);
    }
    var newer := 0;
    for i := 0 to |up.versions|
      invariant newer == Newer(up.versions[..i], local)
    {
      assert up.versions[..i + 1][..i] == up.versions[..i];
      var c := CompareVersions(up.versions[i], local);
      if c > 0 {
        newer := newer + 1;
      }
    }
    assert up.versions[..|up.versions|] == up.versions;
    if newer > 0 {
      var latest := PickLatest(up.versions);
      return VersionDrift(Behind, newer, latest);
    }
    return VersionDrift(InSync, 0, "");
  }

  /** The latest upstream version is left out not only of a local-only verdict but of every in-sync one:
      exactly when the version is not yanked and nothing upstream is above it, or there is none. */
  lemma LatestUpstreamExact(local: string, up: Metadata)
    ensures VersionDriftOf(local, Some(up)).latestUpstream == "" <==>
              Latest(up.versions) == "" || (local !in up.yanked && forall v | v in up.versions :: Compare(v, local) <= 0)
    ensures up.versions != [] && "" !in up.versions ==> Latest(up.versions) != ""
  {
    forall v
      ensures v in Filter(up.versions, NewerThan(local)) <==> v in up.versions && Compare(v, local) > 0
    {
      FilterExact(up.versions, NewerThan(local), v);
    }
    var newer := Filter(up.versions, NewerThan(local));
    assert newer != [] ==> newer[0] in newer;
    if up.versions != [] {
      LatestIn(up.versions);
    }
  }

  // ----- The two verdicts agree -----

  /** An upstream version that is above v and also held locally. */
  ghost predicate HeldAbove(up: seq<string>, local: seq<string>, v: string) {
    exists x :: x in up && x in local && Compare(x, v) > 0
  }

  lemma {:induction false} NewerCounts(up: seq<string>, local: seq<string>, v: string)
    ensures |Filter(Missing(up, local), NewerThan(v))| <= Newer(up, v)
    ensures |Filter(Missing(up, local), NewerThan(v))| == Newer(up, v) <==> !HeldAbove(up, local, v)
  {
    if up != [] {
      var rest, x := up[..|up| - 1], up[|up| - 1];
      NewerCounts(rest, local, v);
      HeldAboveStep(up, local, v);
      if x !in local {
        FilterLast(Missing(rest, local), x, NewerThan(v));
      }
    }
  }

  lemma HeldAboveStep(up: seq<string>, local: seq<string>, v: string)
    requires up != []
    ensures var x := up[|up| - 1];
            HeldAbove(up, local, v) <==> HeldAbove(up[..|up| - 1], local, v) || (x in local && Compare(x, v) > 0)
  {
    var rest, x := up[..|up| - 1], up[|up| - 1];
    assert forall y :: y in up <==> y in rest || y == x;
  }

  lemma FilterLast(s: seq<string>, x: string, p: string -> bool)
    ensures Filter(s + [x], p) == Filter(s, p) + if p(x) then [x] else []
  {
    assert (s + [x])[..|s|] == s;
  }

  /** An upstream version above v that is not held locally. */
  ghost predicate MissingAbove(up: seq<string>, local: seq<string>, v: string) {
    exists x :: x in up && x !in local && Compare(x, v) > 0
  }

  lemma NewerSome(up: seq<string>, local: seq<string>, v: string)
    ensures Filter(Missing(up, local), NewerThan(v)) != [] <==> MissingAbove(up, local, v)
    ensures Newer(up, v) > 0 <==> MissingAbove(up, local, v) || HeldAbove(up, local, v)
  {
    var newer, all := Filter(Missing(up, local), NewerThan(v)), Filter(up, NewerThan(v));
    forall x
      ensures x in newer <==> x in up && x !in local && Compare(x, v) > 0
      ensures x in all <==> x in up && Compare(x, v) > 0
    {
      FilterExact(Missing(up, local), NewerThan(v), x);
      FilterExact(up, v => v !in local, x);
      FilterExact(up, NewerThan(v), x);
    }
    assert newer != [] ==> newer[0] in newer;
    assert all != [] ==> all[0] in all;
  }

  /** The two verdicts, exactly.  They count the same versions if and only if no version held here is
      above the local latest; they give the same status if and only if none is, or one that is missing
      here is too. Where the comparison orders the local versions both always hold. */
  lemma VerdictsAgree(name: string, local: seq<string>, up: Metadata)
    requires DriftOf(name, local, Found(up)).yankedAtUpstream == [] && Latest(local) !in up.yanked
    ensures var d, v := DriftOf(name, local, Found(up)), VersionDriftOf(Latest(local), Some(up));
            && (|d.newerUpstream| == v.behind <==> !HeldAbove(up.versions, local, Latest(local)))
            && (d.status == v.status <==>
                  (HeldAbove(up.versions, local, Latest(local)) ==> MissingAbove(up.versions, local, Latest(local))))
            && (Unmixed(local) ==> |d.newerUpstream| == v.behind && d.status == v.status)
  {
    NewerCounts(up.versions, local, Latest(local));
    StatusExact(name, local, up);
    if Unmixed(local) && local != [] {
      LatestIsMaximum(local);
    }
  }

  lemma StatusExact(name: string, local: seq<string>, up: Metadata)
    requires DriftOf(name, local, Found(up)).yankedAtUpstream == [] && Latest(local) !in up.yanked
    ensures var missing, held := MissingAbove(up.versions, local, Latest(local)), HeldAbove(up.versions, local, Latest(local));
            && DriftOf(name, local, Found(up)).status == (if missing then Behind else InSync)
            && VersionDriftOf(Latest(local), Some(up)).status == (if missing || held then Behind else InSync)
  {
    NewerSome(up.versions, local, Latest(local));
  }

  /** Local versions 2, 10 and 1a, of which upstream has 2: in sync as a module, behind as 1a. */
  lemma VerdictsDiffer(name: string)
    ensures DriftOf(name, ["2", "10", "1a"], Found(Metadata(["2"], {}))).status == InSync
    ensures VersionDriftOf(Latest(["2", "10", "1a"]), Some(Metadata(["2"], {}))).status == Behind
  {
    var local, up := ["2", "10", "1a"], Metadata(["2"], {});
    LatestNotYanked(name, local, up);
    StatusExact(name, local, up);
    OnlyHeld(local);
  }

  lemma OnlyHeld(local: seq<string>)
    requires local == ["2", "10", "1a"]
    ensures HeldAbove(["2"], local, Latest(local)) && !MissingAbove(["2"], local, Latest(local))
  {
    LatestNotMaximum();
    assert "2" in ["2"] && local[0] == "2" && "2" in local;
  }

  /** Where nothing held is yanked, the latest is not either, unless nothing is held at all. */
  lemma LatestNotYanked(name: string, local: seq<string>, up: Metadata)
    requires local != []
    ensures DriftOf(name, local, Found(up)).yankedAtUpstream == [] <==> forall v | v in local :: v !in up.yanked
    ensures DriftOf(name, local, Found(up)).yankedAtUpstream == [] ==> Latest(local) !in up.yanked
  {
    var yanked := Filter(local, v => v in up.yanked);
    forall x
      ensures x in yanked <==> x in local && x in up.yanked
    {
      FilterExact(local, v => v in up.yanked, x);
    }
    assert yanked != [] ==> yanked[0] in yanked;
    LatestIn(local);
  }

  lemma SubsetUnmixed(part: seq<string>, all: seq<string>)
    requires Unmixed(all) && forall v | v in part :: v in all
    ensures Unmixed(part)
  {
  }

  /** Where the comparison orders the versions of both sides, a module is behind exactly when the
      upstream latest is above the local latest. */
  lemma BehindMeansNewerLatest(name: string, local: seq<string>, up: Metadata)
    requires Unmixed(local + up.versions) && local != [] && up.versions != []
    requires DriftOf(name, local, Found(up)).yankedAtUpstream == []
    ensures var d := DriftOf(name, local, Found(up));
            d.status == Behind <==> Compare(d.upstreamLatest, d.localLatest) > 0
  {
    SubsetUnmixed(local, local + up.versions);
    SubsetUnmixed(up.versions, local + up.versions);
    LatestNotYanked(name, local, up);
    VerdictsAgree(name, local, up);
    AboveLatest(local, up.versions);
  }

  lemma AboveLatest(local: seq<string>, up: seq<string>)
    requires Unmixed(local + up) && Unmixed(up) && local != [] && up != []
    ensures Newer(up, Latest(local)) > 0 <==> Compare(Latest(up), Latest(local)) > 0
  {
    var u, l := Latest(up), Latest(local);
    LatestIn(local);
    LatestIsMaximum(up);
    OrderExact(local + up);
    var newer := Filter(up, NewerThan(l));
    if newer != [] {
      FilterExact(up, NewerThan(l), newer[0]);
      assert newer[0] in newer;
      AboveToo(Compare, local + up, newer[0], l, u);
    }
    FilterExact(up, NewerThan(l), u);
  }

  lemma AboveToo(cmp: (string, string) -> int, s: seq<string>, x: string, l: string, u: string)
    requires Orders(cmp, s) && x in s && l in s && u in s && cmp(x, l) > 0 && cmp(x, u) <= 0
    ensures cmp(u, l) > 0
  {
    OrderedStrictly(cmp, s, l, x, u);
  }

  /** There a newer local version is never further behind. */
  lemma BehindMonotone(up: seq<string>, a: string, b: string)
    requires Unmixed(up + [a, b]) && Compare(a, b) <= 0
    ensures Newer(up, b) <= Newer(up, a)
  {
    OrderExact(up + [a, b]);
    assert a in [a, b] && b in [a, b];
    FewerAbove(Compare, up + [a, b], up, a, b);
  }

  lemma {:induction false} FewerAbove(cmp: (string, string) -> int, s: seq<string>, up: seq<string>, a: string, b: string)
    requires Orders(cmp, s) && a in s && b in s && cmp(a, b) <= 0 && forall x | x in up :: x in s
    ensures |Filter(up, Above(cmp, b))| <= |Filter(up, Above(cmp, a))|
  {
    if up != [] {
      var x := up[|up| - 1];
      FewerAbove(cmp, s, up[..|up| - 1], a, b);
      assert x in up;
      if cmp(x, b) > 0 {
        OrderedStrictly(cmp, s, a, b, x);
      }
    }
  }

  // ----- The report -----

  datatype Summary = Summary(total: nat, inSync: nat, behind: nat, yanked: nat, localOnly: nat, upstreamError: nat)

  function CountOf(modules: seq<ModuleDrift>, status: Status): nat {
    if modules == [] then 0
    else CountOf(modules[..|modules| - 1], status) + if modules[|modules| - 1].status == status then 1 else 0
  }

  method Summarize(modules: seq<ModuleDrift>) returns (s: Summary)
    ensures s == Summary(|modules|, CountOf(modules, InSync), CountOf(modules, Behind), CountOf(modules, YankedUpstream),
                         CountOf(modules, LocalOnly), CountOf(modules, UpstreamError))
    ensures s.total == s.inSync + s.behind + s.yanked + s.localOnly + s.upstreamError
  {
    s := Summary(|modules|, 0, 0, 0, 0, 0);
    for i := 0 to |modules|
      invariant s == Summary(|modules|, CountOf(modules[..i], InSync), CountOf(modules[..i], Behind),
                             CountOf(modules[..i], YankedUpstream), CountOf(modules[..i], LocalOnly),
                             CountOf(modules[..i], UpstreamError))
      invariant i == s.inSync + s.behind + s.yanked + s.localOnly + s.upstreamError
    {
      assert modules[..i + 1][..i] == modules[..i];
      match modules[i].status {
        case InSync => s := s.(inSync := s.inSync + 1);
        case Behind => s := s.(behind := s.behind + 1);
        case YankedUpstream => s := s.(yanked := s.yanked + 1);
        case LocalOnly => s := s.(localOnly := s.localOnly + 1);
        case UpstreamError => s := s.(upstreamError := s.upstreamError + 1);
      }
    }
    assert modules[..|modules|] == modules;
  }
}
