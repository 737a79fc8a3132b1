/** Content addresses: what the integrity check accepts (internal/fetch/sri.go), the name a blob is
    stored under (internal/mirror/mirror.go), the name code navigation looks for
    (internal/codenav/unpack.go), and the order in which the walk verifies, finalises and records
    (internal/ingest/recursive.go). */
module ContentAddress {
  import opened Wrappers

  type Byte = b: int | 0 <= b < 256

  type Bytes = seq<Byte>

  // ----- Base64: section 4 of RFC 4648 -----

  type Sextet = v: int | 0 <= v < 64

  function Char64(v: Sextet): char {
    if v < 26 then ('A' as int + v) as char
    else if v < 52 then ('a' as int + v - 26) as char
    else if v < 62 then ('0' as int + v - 52) as char
    else if v == 62 then '+' else '/'
  }

  function Val64(c: char): Option<Sextet> {
    if 'A' <= c <= 'Z' then Some(c as int - 'A' as int)
    else if 'a' <= c <= 'z' then Some(c as int - 'a' as int + 26)
    else if '0' <= c <= '9' then Some(c as int - '0' as int + 52)
    else if c == '+' then Some(62)
    else if c == '/' then Some(63)
    else None
  }

  lemma Val64Char64(v: Sextet)
    ensures Val64(Char64(v)) == Some(v)
    ensures Char64(v) != '=' && Char64(v) != '\n' && Char64(v) != '\r'
  {
  }

  /** The alphabet of section 4, Table 1, by code points. */
  lemma AlphabetExact(v: Sextet)
    ensures Char64(v) as int == if v <= 25 then 0x41 + v else if v <= 51 then 0x47 + v else if v <= 61 then v - 4 else if v == 62 then 0x2b else 0x2f
  {
  }

  /** The four sextets of 24 bits. */
  function Quad(a: Byte, b: Byte, c: Byte): string {
    [Char64(a / 4), Char64(a % 4 * 16 + b / 16), Char64(b % 16 * 4 + c / 64), Char64(c % 64)]
  }

  function Encode64(s: Bytes): string {
    if s == [] then ""
    else if |s| == 1 then Quad(s[0], 0, 0)[..2] + "=="
    else if |s| == 2 then Quad(s[0], s[1], 0)[..3] + "="
    else Quad(s[0], s[1], s[2]) + Encode64(s[3..])
  }

  function Unquad(a: Sextet, b: Sextet, c: Sextet, d: Sextet): Bytes {
    [a * 4 + b / 16, b % 16 * 16 + c / 4, c % 4 * 64 + d]
  }

  /** One group of four characters; padding is for the last group, and the bits it leaves over are
      not looked at. */
  function DecodeGroup(q: string, last: bool): Option<Bytes>
    requires |q| == 4
  {
    var a, b, c, d := Val64(q[0]), Val64(q[1]), Val64(q[2]), Val64(q[3]);
    if a.None? || b.None? then None
    else if c.Some? && d.Some? then Some(Unquad(a.value, b.value, c.value, d.value))
    else if c.Some? && q[3] == '=' && last then Some(Unquad(a.value, b.value, c.value, 0)[..2])
    else if q[2] == '=' && q[3] == '=' && last then Some(Unquad(a.value, b.value, 0, 0)[..1])
    else None
  }

  function DecodeGroups(s: string): Option<Bytes> {
    if s == "" then Some([])
    else if |s| < 4 then None
    else
      var first, rest := DecodeGroup(s[..4], |s| == 4), DecodeGroups(s[4..]);
      if first.None? || rest.None? then None else Some(first.value + rest.value)
  }

  function WithoutNewlines(s: string): string {
    if s == "" then ""
    else if s[0] == '\n' || s[0] == '\r' then WithoutNewlines(s[1..])
    else [s[0]] + WithoutNewlines(s[1..])
  }

  /** base64.StdEncoding.DecodeString, which skips line breaks wherever they are. */
  function Decode64(s: string): Option<Bytes> {
    DecodeGroups(WithoutNewlines(s))
  }

  lemma FullGroup(a: Byte, b: Byte, c: Byte, last: bool) returns (q: string)
    ensures q == Quad(a, b, c) && DecodeGroup(q, last) == Some([a, b, c])
  {
    q := Quad(a, b, c);
    QuadValues(a, b, c);
    SextetsBack(a, b, c);
  }

  lemma TwoByteGroup(a: Byte, b: Byte)
    ensures DecodeGroup(Quad(a, b, 0)[..3] + "=", true) == Some([a, b])
  {
    var q := Quad(a, b, 0);
    QuadValues(a, b, 0);
    SextetsBack(a, b, 0);
    assert q[..3] + "=" == [q[0], q[1], q[2], '='];
    assert [a, b, 0][..2] == [a, b];
  }

  lemma OneByteGroup(a: Byte)
    ensures DecodeGroup(Quad(a, 0, 0)[..2] + "==", true) == Some([a])
  {
    var q := Quad(a, 0, 0);
    QuadValues(a, 0, 0);
    SextetsBack(a, 0, 0);
    assert q[..2] + "==" == [q[0], q[1], '=', '='];
    assert [a, 0, 0][..1] == [a];
  }

  lemma SextetsBack(a: Byte, b: Byte, c: Byte)
    ensures Unquad(a / 4, a % 4 * 16 + b / 16, b % 16 * 4 + c / 64, c % 64) == [a, b, c]
  {
  }

  lemma QuadValues(a: Byte, b: Byte, c: Byte)
    ensures var q := Quad(a, b, c);
            && Val64(q[0]) == Some(a / 4) && Val64(q[1]) == Some(a % 4 * 16 + b / 16)
            && Val64(q[2]) == Some(b % 16 * 4 + c / 64) && Val64(q[3]) == Some(c % 64)
  {
    Val64Char64(a / 4);
    Val64Char64(a % 4 * 16 + b / 16);
    Val64Char64(b % 16 * 4 + c / 64);
    Val64Char64(c % 64);
  }

  lemma {:induction false} GroupsRoundTrip(s: Bytes)
    ensures DecodeGroups(Encode64(s)) == Some(s)
  {
    if |s| > 2 {
      GroupsRoundTrip(s[3..]);
      FirstGroup(s);
    } else if s != [] {
      LastGroup(s);
    }
  }

  lemma LastGroup(s: Bytes)
    requires 0 < |s| <= 2
    ensures DecodeGroups(Encode64(s)) == Some(s)
  {
    if |s| == 1 {
      OneByteGroup(s[0]);
      OneGroup(Encode64(s), [s[0]]);
    } else {
      TwoByteGroup(s[0], s[1]);
      OneGroup(Encode64(s), [s[0], s[1]]);
    }
    assert s == if |s| == 1 then [s[0]] else [s[0], s[1]];
  }

  lemma OneGroup(q: string, b: Bytes)
    requires |q| == 4 && DecodeGroup(q, true) == Some(b)
    ensures DecodeGroups(q) == Some(b)
  {
    assert q[..4] == q && q[4..] == "";
    assert b + [] == b;
  }

  lemma FirstGroup(s: Bytes)
    requires |s| > 2 && DecodeGroups(Encode64(s[3..])) == Some(s[3..])
    ensures DecodeGroups(Encode64(s)) == Some(s)
  {
    var first, others := [s[0], s[1], s[2]], s[3..];
    FirstThree(s);
    var rest := Encode64(others);
    var q := FullGroup(s[0], s[1], s[2], rest == "");
    MoreGroups(q, rest, first, others);
  }

  lemma FirstThree<T>(s: seq<T>)
    requires |s| > 2
    ensures s == [s[0], s[1], s[2]] + s[3..]
  {
  }

  lemma MoreGroups(q: string, rest: string, first: Bytes, others: Bytes)
    requires |q| == 4 && DecodeGroup(q, rest == "") == Some(first) && DecodeGroups(rest) == Some(others)
    ensures DecodeGroups(q + rest) == Some(first + others)
  {
    assert (q + rest)[..4] == q && (q + rest)[4..] == rest;
  }

  /** The bits that padding leaves over are zero. */
  predicate SpareBitsZero(q: string)
    requires |q| == 4
  {
    if q[3] != '=' then true
    else if q[2] != '=' then Val64(q[2]).Some? && Val64(q[2]).value % 4 == 0
    else Val64(q[1]).Some? && Val64(q[1]).value % 16 == 0
  }

  predicate Canonical(s: string) {
    s == "" || (|s| >= 4 && SpareBitsZero(s[|s| - 4..]))
  }

  lemma Char64Val64(c: char)
    requires Val64(c).Some?
    ensures Char64(Val64(c).value) == c && c != '='
  {
  }

  lemma FullGroupBack(q: string, last: bool)
    requires |q| == 4 && DecodeGroup(q, last).Some? && q[3] != '='
    ensures var b := DecodeGroup(q, last).value; |b| == 3 && Quad(b[0], b[1], b[2]) == q
  {
    Char64Val64(q[0]);
    Char64Val64(q[1]);
    Char64Val64(q[2]);
    Char64Val64(q[3]);
    BytesBack(Val64(q[0]).value, Val64(q[1]).value, Val64(q[2]).value, Val64(q[3]).value);
  }

  lemma BytesBack(a: Sextet, b: Sextet, c: Sextet, d: Sextet)
    ensures var x := Unquad(a, b, c, d);
            && x[0] / 4 == a && x[0] % 4 * 16 + x[1] / 16 == b
            && x[1] % 16 * 4 + x[2] / 64 == c && x[2] % 64 == d
  {
  }

  /** With one padding character, encoding gives the group back exactly when two bits are zero. */
  lemma TwoByteGroupBack(q: string)
    requires |q| == 4 && DecodeGroup(q, true).Some? && q[3] == '=' && q[2] != '='
    ensures var b := DecodeGroup(q, true).value;
            |b| == 2 && (Quad(b[0], b[1], 0)[..3] + "=" == q <==> Val64(q[2]).value % 4 == 0)
  {
    var a, b, c := Val64(q[0]).value, Val64(q[1]).value, Val64(q[2]).value;
    Char64Val64(q[0]);
    Char64Val64(q[1]);
    Char64Val64(q[2]);
    var x := DecodeGroup(q, true).value;
    BytesBack(a, b, c, 0);
    assert x[0] == Unquad(a, b, c, 0)[0] && x[1] == Unquad(a, b, c, 0)[1];
    var e := Quad(x[0], x[1], 0);
    assert e[2] == Char64(x[1] % 16 * 4) && x[1] % 16 * 4 == c - c % 4;
    Val64Char64(c - c % 4);
    assert e[..3] + "=" == [e[0], e[1], e[2], '='] && q == [q[0], q[1], q[2], q[3]];
  }

  lemma OneByteGroupBack(q: string)
    requires |q| == 4 && DecodeGroup(q, true).Some? && q[3] == '=' && q[2] == '='
    ensures var b := DecodeGroup(q, true).value;
            |b| == 1 && (Quad(b[0], 0, 0)[..2] + "==" == q <==> Val64(q[1]).value % 16 == 0)
  {
    var a, b := Val64(q[0]).value, Val64(q[1]).value;
    Char64Val64(q[0]);
    Char64Val64(q[1]);
    assert Val64('=').None?;
    var x := DecodeGroup(q, true).value;
    BytesBack(a, b, 0, 0);
    assert x[0] == Unquad(a, b, 0, 0)[0];
    var e := Quad(x[0], 0, 0);
    assert e[1] == Char64(x[0] % 4 * 16) && x[0] % 4 * 16 == b - b % 16;
    Val64Char64(b - b % 16);
    assert e[..2] + "==" == [e[0], e[1], '=', '='] && q == [q[0], q[1], q[2], q[3]];
  }

  lemma LastGroupBack(q: string)
    requires |q| == 4 && DecodeGroup(q, true).Some?
    ensures Encode64(DecodeGroup(q, true).value) == q <==> SpareBitsZero(q)
  {
    var b := DecodeGroup(q, true).value;
    if q[3] != '=' {
      FullGroupBack(q, true);
      assert Encode64(b[3..]) == "";
    } else if q[2] != '=' {
      TwoByteGroupBack(q);
    } else {
      OneByteGroupBack(q);
    }
  }

  /** Of the strings that decode, encoding gives back exactly those without spare bits. */
  lemma {:induction false} CanonicalExact(s: string)
    requires DecodeGroups(s).Some?
    ensures Encode64(DecodeGroups(s).value) == s <==> Canonical(s)
  {
    if s != "" {
      var q, rest := s[..4], s[4..];
      var first, others := DecodeGroup(q, |s| == 4).value, DecodeGroups(rest).value;
      if |s| == 4 {
        assert q == s && s[0..] == s && first + others == first;
        LastGroupBack(s);
      } else {
        CanonicalExact(rest);
        NotPadded(q);
        FullGroupBack(q, false);
        assert rest[|rest| - 4..] == s[|s| - 4..];
        EncodedFront(first, others);
        SameFront(q, Encode64(others), rest);
        assert s == q + rest;
      }
    }
  }

  lemma NotPadded(q: string)
    requires |q| == 4 && DecodeGroup(q, false).Some?
    ensures q[3] != '='
  {
    assert Val64('=').None?;
  }

  lemma EncodedFront(first: Bytes, others: Bytes)
    requires |first| == 3
    ensures Encode64(first + others) == Quad(first[0], first[1], first[2]) + Encode64(others)
  {
    assert (first + others)[3..] == others;
  }

  lemma SameFront(q: string, a: string, b: string)
    ensures q + a == q + b <==> a == b
  {
    assert (q + a)[|q|..] == a && (q + b)[|q|..] == b;
  }

  predicate OneLine(s: string) {
    '\n' !in s && '\r' !in s
  }

  lemma {:induction false} OneLineKept(s: string)
    requires OneLine(s)
    ensures WithoutNewlines(s) == s
  {
    if s != "" {
      OneLineKept(s[1..]);
    }
  }

  lemma {:induction false} EncodedOneLine(s: Bytes)
    ensures OneLine(Encode64(s))
  {
    if s != [] {
      var a, b, c := s[0], if |s| > 1 then s[1] else 0, if |s| > 2 then s[2] else 0;
      Val64Char64(a / 4);
      Val64Char64(a % 4 * 16 + b / 16);
      Val64Char64(b % 16 * 4 + c / 64);
      Val64Char64(c % 64);
      assert OneLine(Quad(a, b, c));
      if |s| > 2 {
        EncodedOneLine(s[3..]);
      }
    }
  }

  /** Section 4: every byte string comes back, whatever its length. */
  lemma RoundTrip64(s: Bytes)
    ensures Decode64(Encode64(s)) == Some(s)
  {
    EncodedOneLine(s);
    OneLineKept(Encode64(s));
    GroupsRoundTrip(s);
  }

  /** Each three bytes, read as a number of 24 bits, are four characters that read as the same number in
      base 64. */
  lemma EncodedGroup(x: Byte, y: Byte, z: Byte, rest: Bytes, a: Sextet, b: Sextet, c: Sextet, d: Sextet)
    requires 65536 * (x as int) + 256 * (y as int) + z as int == 262144 * (a as int) + 4096 * (b as int) + 64 * (c as int) + d as int
    ensures Encode64([x, y, z] + rest) == [Char64(a), Char64(b), Char64(c), Char64(d)] + Encode64(rest)
  {
    QuadExact(x, y, z, a, b, c, d);
    assert ([x, y, z] + rest)[3..] == rest;
  }

  /** A rest of one or two bytes is padded. */
  lemma EncodedRest(x: Byte, y: Byte, a: Sextet, b: Sextet, c: Sextet)
    requires 256 * (x as int) + y as int == 1024 * (a as int) + 16 * (b as int) + (c / 4) as int && c % 4 == 0
    ensures Encode64([x, y]) == [Char64(a), Char64(b), Char64(c)] + "="
    ensures y == 0 ==> Encode64([x]) == [Char64(a), Char64(b)] + "=="
    ensures Encode64([]) == ""
  {
    QuadExact(x, y, 0, a, b, c, 0);
    assert [Char64(a), Char64(b), Char64(c), Char64(0)][..3] == [Char64(a), Char64(b), Char64(c)];
    assert [Char64(a), Char64(b), Char64(c), Char64(0)][..2] == [Char64(a), Char64(b)];
  }

  lemma QuadExact(x: Byte, y: Byte, z: Byte, a: Sextet, b: Sextet, c: Sextet, d: Sextet)
    requires 65536 * (x as int) + 256 * (y as int) + z as int == 262144 * (a as int) + 4096 * (b as int) + 64 * (c as int) + d as int
    ensures Quad(x, y, z) == [Char64(a), Char64(b), Char64(c), Char64(d)]
  {
    assert a == x / 4 && b == x % 4 * 16 + y / 16 && c == y % 16 * 4 + z / 64 && d == z % 64;
  }

  // ----- Base16: section 8 of RFC 4648, in lower case -----

  type Nibble = v: int | 0 <= v < 16

  function Char16(v: Nibble): char {
    if v < 10 then ('0' as int + v) as char else ('a' as int + v - 10) as char
  }

  function Encode16(s: Bytes): string {
    if s == [] then "" else [Char16(s[0] / 16), Char16(s[0] % 16)] + Encode16(s[1..])
  }

  const HEX := "0123456789abcdef"

  /** Two digits for each byte, the high one first. */
  lemma {:induction false} Encode16Exact(s: Bytes, i: nat)
    requires i < |s|
    ensures |Encode16(s)| == 2 * |s|
    ensures Encode16(s)[2 * i] == HEX[s[i] / 16] && Encode16(s)[2 * i + 1] == HEX[s[i] % 16]
  {
    assert forall v: Nibble :: Char16(v) == HEX[v];
    if |s| > 1 {
      Encode16Exact(s[1..], if i > 0 then i - 1 else 0);
    }
  }

  /** Two bytes strings never share a hex name. */
  lemma {:induction false} Injective16(a: Bytes, b: Bytes)
    requires Encode16(a) == Encode16(b)
    ensures a == b
  {
    if a != [] && b != [] {
      var x, y := Encode16(a), Encode16(b);
      assert x[0] == Char16(a[0] / 16) && x[1] == Char16(a[0] % 16) && x[2..] == Encode16(a[1..]);
      assert y[0] == Char16(b[0] / 16) && y[1] == Char16(b[0] % 16) && y[2..] == Encode16(b[1..]);
      Injective16(a[1..], b[1..]);
      assert a == [a[0]] + a[1..] && b == [b[0]] + b[1..];
    }
  }

  // ----- Integrity strings -----

  const PREFIX := "sha256-"

  function SRI(sum: Bytes): string {
    PREFIX + Encode64(sum)
  }

  /** strings.Cut at '-'. */
  function Cut(s: string): (r: Option<(string, string)>)
    ensures r.None? <==> '-' !in s
    ensures r.Some? ==> '-' !in r.value.0 && s == r.value.0 + ['-'] + r.value.1
  {
    if s == "" then None
    else if s[0] == '-' then Some(("", s[1..]))
    else
      var rest := Cut(s[1..]);
      if rest.None? then None else Some(([s[0]] + rest.value.0, rest.value.1))
  }

  datatype Check = Passed | Malformed | Unsupported | Mismatch

  function Verified(sum: Bytes, expected: string): Check {
    if expected == "" then Passed
    else
      var parts := Cut(expected);
      if parts.None? then Malformed
      else if parts.value.0 != "sha256" then Unsupported
      else if Encode64(sum) != parts.value.1 then Mismatch else Passed
  }

  function IntegrityToHex(integrity: string): Option<string> {
    if !(PREFIX <= integrity) then None
    else
      var b := Decode64(integrity[|PREFIX|..]);
      if b.None? || |b.value| != 32 then None else Some(Encode16(b.value))
  }

  lemma {:induction false} CutFirst(a: string, b: string)
    requires '-' !in a
    ensures Cut(a + ['-'] + b) == Some((a, b))
  {
    if a == "" {
      assert (a + ['-'] + b)[1..] == b;
    } else {
      CutFirst(a[1..], b);
      assert (a + ['-'] + b)[1..] == a[1..] + ['-'] + b;
      assert a == [a[0]] + a[1..] && (a + ['-'] + b)[0] == a[0];
    }
  }

  /** The check passes exactly for no integrity and for the one string that SRI makes: other
      spellings of the same digest are refused. */
  lemma VerifiedExact(sum: Bytes, expected: string)
    ensures Verified(sum, expected) == Passed <==> expected == "" || expected == SRI(sum)
    ensures SRI(sum) == "sha256-" + Encode64(sum)
  {
    CutFirst("sha256", Encode64(sum));
    assert "sha256" + ['-'] == PREFIX;
    assert SRI(sum) == "sha256" + ['-'] + Encode64(sum);
  }

  /** And otherwise the error says what is wrong with it: no '-', an algorithm before the first one that
      is not SHA-256, or another digest. */
  lemma RefusalExact(sum: Bytes, expected: string)
    ensures Verified(sum, expected) == Malformed <==> expected != "" && '-' !in expected
    ensures Verified(sum, expected) == Mismatch <==> "sha256-" <= expected && expected != SRI(sum)
    ensures Verified(sum, expected) == Unsupported <==> '-' in expected && !("sha256-" <= expected)
  {
    VerifiedExact(sum, expected);
    assert "sha256-"[6] == '-';
    if "sha256-" <= expected {
      CutFirst("sha256", expected[7..]);
      assert expected == "sha256" + ['-'] + expected[7..];
      assert expected[6] == '-';
    }
    if '-' in expected && Cut(expected).value.0 == "sha256" {
      assert expected[..7] == "sha256-";
    }
  }

  /** For every 32-byte digest, the integrity string that is emitted leads to the blob's name. */
  lemma AddressesAgree(sum: Bytes)
    requires |sum| == 32
    ensures IntegrityToHex(SRI(sum)) == Some(Encode16(sum))
  {
    RoundTrip64(sum);
    assert SRI(sum)[|PREFIX|..] == Encode64(sum);
  }

  /** And to no other digest's. */
  lemma AddressDetermines(sum: Bytes, sum': Bytes)
    requires |sum| == 32 && |sum'| == 32
    ensures IntegrityToHex(SRI(sum)) == Some(Encode16(sum')) <==> sum == sum'
  {
    AddressesAgree(sum);
    if Encode16(sum) == Encode16(sum') {
      Injective16(sum, sum');
    }
  }

  /** Code navigation is the laxer side.  Of the strings it accepts, exactly those that are on one
      line and have no spare bits are passed by the check, for one digest. */
  lemma SpellingExact(integrity: string)
    requires IntegrityToHex(integrity).Some?
    ensures (exists sum: Bytes :: |sum| == 32 && Verified(sum, integrity) == Passed) <==>
              OneLine(integrity[|PREFIX|..]) && Canonical(integrity[|PREFIX|..])
    ensures forall sum: Bytes | |sum| == 32 && Verified(sum, integrity) == Passed :: IntegrityToHex(integrity) == Some(Encode16(sum))
  {
    var rest := integrity[|PREFIX|..];
    assert integrity == PREFIX + rest;
    forall sum: Bytes | |sum| == 32 && Verified(sum, integrity) == Passed
      ensures OneLine(rest) && Canonical(rest) && IntegrityToHex(integrity) == Some(Encode16(sum))
    {
      VerifiedExact(sum, integrity);
      assert rest == Encode64(sum);
      EncodedOneLine(sum);
      GroupsRoundTrip(sum);
      CanonicalExact(rest);
      AddressesAgree(sum);
    }
    if OneLine(rest) && Canonical(rest) {
      OneLineKept(rest);
      CanonicalExact(rest);
      var sum := Decode64(rest).value;
      VerifiedExact(sum, integrity);
      assert |sum| == 32 && Verified(sum, integrity) == Passed;
    }
  }

  /** One such string: a trailing line break still finds the blob. */
  lemma LineBreakTolerated(sum: Bytes)
    requires |sum| == 32
    ensures IntegrityToHex(SRI(sum) + "\n") == Some(Encode16(sum))
    ensures Verified(sum, SRI(sum) + "\n") != Passed
  {
    RoundTrip64(sum);
    assert (SRI(sum) + "\n")[|PREFIX|..] == Encode64(sum) + "\n";
    TrailingBreak(Encode64(sum));
    VerifiedExact(sum, SRI(sum) + "\n");
    assert |SRI(sum) + "\n"| != |SRI(sum)|;
  }

  lemma {:induction false} TrailingBreak(s: string)
    ensures WithoutNewlines(s + "\n") == WithoutNewlines(s)
  {
    if s == "" {
      assert s + "\n" == "\n" && "\n"[1..] == "";
    } else {
      TrailingBreak(s[1..]);
      assert (s + "\n")[1..] == s[1..] + "\n";
    }
  }

  // ----- The mirror -----

  /** SHA-256 is not modelled: any function to 32 bytes. */
  type Hash = Bytes -> Bytes

  ghost predicate To32(sha: Hash) {
    forall x :: |sha(x)| == 32
  }

  class VerifyingReader {
    const sha: Hash
    const expected: string
    var source: seq<Bytes>
    var hashed: Bytes

    constructor (sha: Hash, source: seq<Bytes>, expected: string)
      ensures this.sha == sha && this.source == source && this.expected == expected && hashed == []
    {
      this.sha, this.source, this.expected, hashed := sha, source, expected, [];
    }

    /** One Read: the next piece the network delivers. */
    method Read() returns (p: Bytes)
      requires source != []
      modifies this
      ensures p == old(source)[0] && source == old(source)[1..] && hashed == old(hashed) + p
    {
      p := source[0];
      source := source[1..];
      hashed := hashed + p;
    }

    method Verify() returns (c: Check)
      ensures c == Verified(sha(hashed), expected)
    {
      if expected == "" {
        return Passed;
      }
      var parts := Cut(expected);
      if parts.None? {
        return Malformed;
      }
      if parts.value.0 != "sha256" {
        return Unsupported;
      }
      if Encode64(sha(hashed)) != parts.value.1 {
        return Mismatch;
      }
      return Passed;
    }
  }

  class BlobSink {
    const sha: Hash
    var tmp: Bytes
    var hashed: Bytes

    constructor (sha: Hash)
      ensures this.sha == sha && tmp == hashed == []
    {
      this.sha, tmp, hashed := sha, [], [];
    }

    /** n bytes reach the temporary file. */
    method Write(p: Bytes, n: nat)
      requires n <= |p|
      modifies this
      ensures tmp == old(tmp) + p[..n] && hashed == old(hashed) + p[..n]
    {
      tmp, hashed := tmp + p[..n], hashed + p[..n];
    }

    /** Sync, close, and rename to the content address unless that exists. */
    method Close(blobs: map<string, Bytes>, works: bool) returns (blobs': map<string, Bytes>, ok: bool)
      ensures ok == works
      ensures blobs' == if works then Finalised(blobs, Encode16(sha(hashed)), tmp) else blobs
    {
      if !works {
        return blobs, false;
      }
      var final := Encode16(sha(hashed));
      if final in blobs {
        return blobs, true;
      }
      return blobs[final := tmp], true;
    }
  }

  function Finalised(blobs: map<string, Bytes>, name: string, content: Bytes): map<string, Bytes> {
    if name in blobs then blobs else blobs[name := content]
  }

  function Joined(pieces: seq<Bytes>): Bytes {
    if pieces == [] then [] else pieces[0] + Joined(pieces[1..])
  }

  datatype Key = Key(name: string, version: string)

  /** What goes wrong in one walk: the connection after some pieces, a short write in one of them,
      the finalisation, or the write of source.json. */
  datatype Faults = Faults(cutAfter: Option<nat>, shortWrite: Option<nat>, finalise: bool, writeSource: bool)

  predicate Streams(f: Faults, pieces: seq<Bytes>) {
    (f.cutAfter.None? || f.cutAfter.value >= |pieces|) && (f.shortWrite.None? || f.shortWrite.value >= |pieces|)
  }

  datatype Mirrored = Mirrored(blobs: map<string, Bytes>, sources: map<Key, string>)

  /** Where one walk leaves the mirror. */
  function Walked(m: Mirrored, sha: Hash, k: Key, integrity: string, pieces: seq<Bytes>, f: Faults): Mirrored {
    var content := Joined(pieces);
    if !Streams(f, pieces) || Verified(sha(content), integrity) != Passed || f.finalise then m
    else Mirrored(Finalised(m.blobs, Encode16(sha(content)), content), if f.writeSource then m.sources else m.sources[k := integrity])
  }

  /** A walk changes the mirror exactly when the archive arrives whole, passes the check and is finalised:
      the blob is there under its digest, and the integrity is recorded unless writing it fails. */
  lemma WalkExact(m: Mirrored, sha: Hash, k: Key, integrity: string, pieces: seq<Bytes>, f: Faults)
    ensures var sum, m' := sha(Joined(pieces)), Walked(m, sha, k, integrity, pieces, f);
            var whole := (f.cutAfter.None? || f.cutAfter.value >= |pieces|) && (f.shortWrite.None? || f.shortWrite.value >= |pieces|);
            if whole && (integrity == "" || integrity == "sha256-" + Encode64(sum)) && !f.finalise then
              && m'.blobs.Keys == m.blobs.Keys + {Encode16(sum)}
              && (forall name | name in m.blobs :: m'.blobs[name] == m.blobs[name])
              && (Encode16(sum) !in m.blobs ==> m'.blobs[Encode16(sum)] == Joined(pieces))
              && m'.sources == (if f.writeSource then m.sources else m.sources[k := integrity])
            else m' == m
  {
    VerifiedExact(sha(Joined(pieces)), integrity);
  }

  lemma {:induction false} JoinedMore(pieces: seq<Bytes>, p: Bytes)
    ensures Joined(pieces + [p]) == Joined(pieces) + p && Joined([]) == []
  {
    if pieces == [] {
      assert [p][1..] == [] && p + [] == p && [] + [p] == [p];
    } else {
      JoinedMore(pieces[1..], p);
      assert (pieces + [p])[1..] == pieces[1..] + [p];
    }
  }

  /** Blobs are stored under their own digest, and every source.json with an integrity leads to one. */
  ghost predicate Addressed(m: Mirrored, sha: Hash) {
    && (forall name | name in m.blobs :: name == Encode16(sha(m.blobs[name])))
    && (forall k | k in m.sources && m.sources[k] != "" ::
          IntegrityToHex(m.sources[k]).Some? && IntegrityToHex(m.sources[k]).value in m.blobs)
  }

  class Mirror {
    const sha: Hash
    var blobs: map<string, Bytes>
    var sources: map<Key, string>

    ghost function State(): Mirrored
      reads this
    {
      Mirrored(blobs, sources)
    }

    ghost predicate Valid()
      reads this
    {
      To32(sha) && Addressed(State(), sha)
    }

    constructor (sha: Hash)
      requires To32(sha)
      ensures Valid() && State() == Mirrored(map[], map[]) && this.sha == sha
    {
      this.sha, blobs, sources := sha, map[], map[];
    }

    /** The archive part of walkOneMirrored: stream, verify, finalise, and only then record. */
    method WalkArchive(k: Key, integrity: string, pieces: seq<Bytes>, f: Faults) returns (done: bool)
      requires Valid()
      modifies this
      ensures Valid() && State() == Walked(old(State()), sha, k, integrity, pieces, f)
      ensures done <==> Streams(f, pieces) && !f.finalise && !f.writeSource && (integrity == "" || integrity == SRI(sha(Joined(pieces))))
    {
      VerifiedExact(sha(Joined(pieces)), integrity);
      WalkedKeeps(State(), sha, k, integrity, pieces, f);
      var sink := new BlobSink(sha);
      var reader := new VerifyingReader(sha, pieces, integrity);
      var copied := Copy(sink, reader, f);
      if !copied {
        return false;
      }
      var check := reader.Verify();
      if check != Passed {
        return false;
      }
      var ok;
      blobs, ok := sink.Close(blobs, !f.finalise);
      if !ok {
        return false;
      }
      if f.writeSource {
        return false;
      }
      sources := sources[k := integrity];
      return true;
    }

    /** io.Copy from the reader into the sink. */
    static method Copy(sink: BlobSink, reader: VerifyingReader, f: Faults) returns (ok: bool)
      requires sink.tmp == sink.hashed == reader.hashed == []
      modifies sink, reader
      ensures ok <==> Streams(f, old(reader.source))
      ensures ok ==> sink.tmp == sink.hashed == reader.hashed == Joined(old(reader.source))
    {
      ghost var pieces := reader.source;
      var i := 0;
      while reader.source != []
        invariant i <= |pieces| && reader.source == pieces[i..]
        invariant (f.cutAfter.None? || f.cutAfter.value >= i) && (f.shortWrite.None? || f.shortWrite.value >= i)
        invariant sink.tmp == sink.hashed == reader.hashed && reader.hashed + Joined(pieces[i..]) == Joined(pieces)
        decreases |pieces| - i
      {
        if f.cutAfter == Some(i) {
          return false;
        }
        var p := reader.Read();
        if f.shortWrite == Some(i) {
          sink.Write(p, |p| / 2);
          return false;
        }
        assert p[..|p|] == p;
        sink.Write(p, |p|);
        i := i + 1;
      }
      return true;
    }

    /** The blob code navigation opens for a recorded module version. */
    method OpenBlob(k: Key) returns (content: Option<Bytes>)
      requires Valid()
      ensures content.Some? <==> k in sources && sources[k] != ""
      ensures content.Some? ==> IntegrityToHex(sources[k]) == Some(Encode16(sha(content.value)))
    {
      if k !in sources || sources[k] == "" {
        return None;
      }
      var name := IntegrityToHex(sources[k]);
      if name.None? || name.value !in blobs {
        return None;
      }
      return Some(blobs[name.value]);
    }
  }

  lemma WalkedKeeps(m: Mirrored, sha: Hash, k: Key, integrity: string, pieces: seq<Bytes>, f: Faults)
    requires To32(sha) && Addressed(m, sha)
    ensures Addressed(Walked(m, sha, k, integrity, pieces, f), sha)
  {
    var sum := sha(Joined(pieces));
    VerifiedExact(sum, integrity);
    AddressesAgree(sum);
  }

  /** What one walk asks for. */
  datatype Walk = Walk(k: Key, integrity: string, pieces: seq<Bytes>, f: Faults)

  function WalkedAll(sha: Hash, ws: seq<Walk>): Mirrored {
    if ws == [] then Mirrored(map[], map[])
    else
      var w := ws[|ws| - 1];
      Walked(WalkedAll(sha, ws[..|ws| - 1]), sha, w.k, w.integrity, w.pieces, w.f)
  }

  /** In any series of walks, with any faults: an archive that passed the check against a non-empty
      integrity and was recorded is found by code navigation from the same source.json, then and ever
      after; what it finds has the digest that was checked. */
  lemma VerifiedIsFound(sha: Hash, ws: seq<Walk>, i: nat)
    requires To32(sha) && i < |ws|
    requires ws[i].integrity != "" && Verified(sha(Joined(ws[i].pieces)), ws[i].integrity) == Passed
    requires Streams(ws[i].f, ws[i].pieces) && !ws[i].f.finalise
    ensures var m, sum := WalkedAll(sha, ws), sha(Joined(ws[i].pieces));
            && IntegrityToHex(ws[i].integrity) == Some(Encode16(sum))
            && Encode16(sum) in m.blobs && sha(m.blobs[Encode16(sum)]) == sum
  {
    var sum := sha(Joined(ws[i].pieces));
    AllAddressed(sha, ws);
    VerifiedExact(sum, ws[i].integrity);
    AddressesAgree(sum);
    BlobStays(sha, ws, i);
    Injective16(sum, sha(WalkedAll(sha, ws).blobs[Encode16(sum)]));
  }

  /** Once finalised, a name stays. */
  lemma {:induction false} BlobStays(sha: Hash, ws: seq<Walk>, i: nat)
    requires i < |ws| && Streams(ws[i].f, ws[i].pieces) && !ws[i].f.finalise
    requires Verified(sha(Joined(ws[i].pieces)), ws[i].integrity) == Passed
    ensures Encode16(sha(Joined(ws[i].pieces))) in WalkedAll(sha, ws).blobs
  {
    var n := |ws| - 1;
    if i < n {
      BlobStays(sha, ws[..n], i);
    }
  }

  lemma {:induction false} AllAddressed(sha: Hash, ws: seq<Walk>)
    requires To32(sha)
    ensures Addressed(WalkedAll(sha, ws), sha)
  {
    if ws != [] {
      var n := |ws| - 1;
      AllAddressed(sha, ws[..n]);
      WalkedKeeps(WalkedAll(sha, ws[..n]), sha, ws[n].k, ws[n].integrity, ws[n].pieces, ws[n].f);
    }
  }
}
