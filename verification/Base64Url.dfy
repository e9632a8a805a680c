/**
 `_b64url_encode` and `_b64url_decode` of backend/app/core/license_token.py: base64url
 (section 5 of RFC 4648) with the padding removed (section 3.2 of RFC 4648).

 The decoder is the one of Python's base64 module in its default mode: characters outside the
 alphabet are skipped, and decoding stops at a complete padding.
 */
module Base64Url {
  import opened Basics
  import opened Options
  import opened Text

  type Byte = n: int | 0 <= n < 256

  type Sextet = n: int | 0 <= n < 64

  function Digit(v: Sextet): (c: char)
    ensures c as int < 128 && c != '=' && c != '.' && Value(c) == Some(v)
  {
    if v < 26 then ('A' as int + v) as char
    else if v < 52 then ('a' as int + v - 26) as char
    else if v < 62 then ('0' as int + v - 52) as char
    else if v == 62 then '-'
    else '_'
  }

  /** The value of a character once `-` and `_` have been translated to `+` and `/`. */
  function Value(c: char): (r: Option<Sextet>) {
    if 'A' <= c <= 'Z' then Some(c as int - 'A' as int)
    else if 'a' <= c <= 'z' then Some(c as int - 'a' as int + 26)
    else if '0' <= c <= '9' then Some(c as int - '0' as int + 52)
    else if c == '-' || c == '+' then Some(62)
    else if c == '_' || c == '/' then Some(63)
    else None
  }

  // ---------------------------------------------------------------------------
  // Encoding
  // ---------------------------------------------------------------------------

  /** `base64.urlsafe_b64encode` */
  function EncodePadded(data: seq<Byte>): string {
    if |data| == 0 then []
    else if |data| == 1 then [Digit(data[0] / 4), Digit(data[0] % 4 * 16), '=', '=']
    else if |data| == 2 then
      [Digit(data[0] / 4), Digit(data[0] % 4 * 16 + data[1] / 16), Digit(data[1] % 16 * 4), '=']
    else
      [Digit(data[0] / 4), Digit(data[0] % 4 * 16 + data[1] / 16),
       Digit(data[1] % 16 * 4 + data[2] / 64), Digit(data[2] % 64)] + EncodePadded(data[3..])
  }

  function Encode(data: seq<Byte>): string {
    RStripBy(EncodePadded(data), IsPad)
  }

  // ---------------------------------------------------------------------------
  // Decoding
  // ---------------------------------------------------------------------------

  /** Where the decoder is within a group of four: position, pending bits, padding seen. */
  datatype Quad = Quad(pos: int, left: int, pads: nat)

  predicate ValidQuad(q: Quad) {
    && 0 <= q.pos < 4 && 0 <= q.left
    && (q.pos == 1 ==> q.left < 64) && (q.pos == 2 ==> q.left < 16) && (q.pos == 3 ==> q.left < 4)
  }

  const START := Quad(0, 0, 0)

  function Prepend(b: Byte, rest: Option<seq<Byte>>): Option<seq<Byte>> {
    match rest
    case None => None
    case Some(r) => Some([b] + r)
  }

  function Scan(s: string, q: Quad): Option<seq<Byte>>
    requires ValidQuad(q)
    decreases |s|
  {
    if s == [] then (if q.pos == 0 then Some([]) else None)
    else if s[0] == '=' then
      if q.pos >= 2 && q.pos + q.pads + 1 >= 4 then Some([])
      else Scan(s[1..], if q.pos >= 2 then q.(pads := q.pads + 1) else q)
    else
      match Value(s[0])
      case None => Scan(s[1..], q)
      case Some(v) =>
        if q.pos == 0 then Scan(s[1..], Quad(1, v, 0))
        else if q.pos == 1 then Prepend(q.left * 4 + v / 16, Scan(s[1..], Quad(2, v % 16, 0)))
        else if q.pos == 2 then Prepend(q.left * 16 + v / 4, Scan(s[1..], Quad(3, v % 4, 0)))
        else Prepend(q.left * 64 + v, Scan(s[1..], START))
  }

  predicate IsAscii(s: string) {
    forall i :: 0 <= i < |s| ==> s[i] as int < 128
  }

  function Pads(n: nat): (r: string)
    ensures |r| == n && All(r, IsPad)
  {
    seq(n, _ => '=')
  }

  /** `None` stands for an exception. */
  function Decode(s: string): Option<seq<Byte>> {
    if IsAscii(s) then Scan(s + Pads((4 - |s| % 4) % 4), START) else None
  }

  // ---------------------------------------------------------------------------
  // The round trip
  // ---------------------------------------------------------------------------

  /** The encoding without its padding. */
  function Bare(data: seq<Byte>): string {
    if |data| == 0 then []
    else if |data| == 1 then [Digit(data[0] / 4), Digit(data[0] % 4 * 16)]
    else if |data| == 2 then
      [Digit(data[0] / 4), Digit(data[0] % 4 * 16 + data[1] / 16), Digit(data[1] % 16 * 4)]
    else
      [Digit(data[0] / 4), Digit(data[0] % 4 * 16 + data[1] / 16),
       Digit(data[1] % 16 * 4 + data[2] / 64), Digit(data[2] % 64)] + Bare(data[3..])
  }

  /** A character of the encoding alphabet. */
  predicate IsSymbol(c: char) {
    c as int < 128 && c != '=' && c != '.' && Value(c).Some?
  }

  function Missing(data: seq<Byte>): nat {
    if |data| % 3 == 0 then 0 else 3 - |data| % 3
  }

  lemma {:induction false} BareIsSymbols(data: seq<Byte>)
    ensures All(Bare(data), IsSymbol)
  {
    hide Digit;
    if |data| >= 3 {
      BareIsSymbols(data[3..]);
    }
  }

  lemma {:induction false} BareCounts(data: seq<Byte>, groups: nat, left: nat)
    requires |data| == 3 * groups + left && left < 3
    ensures |Bare(data)| == 4 * groups + if left == 0 then 0 else left + 1
  {
    hide Digit;
    if groups > 0 {
      BareCounts(data[3..], groups - 1, left);
    }
  }

  lemma Remainder(n: nat, groups: nat, left: nat)
    requires n >= 1 && left < n
    ensures (n * groups + left) % n == left
  {
    var k := (n * groups + left) / n;
    assert n * (groups - k) == (n * groups + left) % n - left;
    MultipleIsNotSmaller(n, groups - k);
  }

  lemma BareLength(data: seq<Byte>)
    ensures (4 - |Bare(data)| % 4) % 4 == Missing(data)
  {
    hide Bare;
    var groups, left := |data| / 3, |data| % 3;
    BareCounts(data, groups, left);
    Remainder(4, groups, if left == 0 then 0 else left + 1);
  }

  lemma {:induction false} PaddedIsBare(data: seq<Byte>)
    ensures EncodePadded(data) == Bare(data) + Pads(Missing(data))
  {
    hide Digit;
    if |data| >= 3 {
      hide Pads, Missing;
      PaddedIsBare(data[3..]);
      SameRemainder(data);
    }
  }

  lemma SameRemainder(data: seq<Byte>)
    requires |data| >= 3
    ensures Missing(data[3..]) == Missing(data)
  {
    assert |data[3..]| % 3 == |data| % 3;
  }

  lemma EncodeIsBare(data: seq<Byte>)
    ensures Encode(data) == Bare(data) && All(Encode(data), IsSymbol)
  {
    PaddedIsBare(data);
    BareIsSymbols(data);
    var b := Bare(data);
    assert b != [] ==> IsSymbol(b[|b| - 1]);
    RStripIs(b, Pads(Missing(data)), IsPad);
  }

  /** What the decoder does with a character of value `v`. */
  function Take(v: Sextet, rest: string, q: Quad): Option<seq<Byte>>
    requires ValidQuad(q)
  {
    if q.pos == 0 then Scan(rest, Quad(1, v, 0))
    else if q.pos == 1 then Prepend(q.left * 4 + v / 16, Scan(rest, Quad(2, v % 16, 0)))
    else if q.pos == 2 then Prepend(q.left * 16 + v / 4, Scan(rest, Quad(3, v % 4, 0)))
    else Prepend(q.left * 64 + v, Scan(rest, START))
  }

  lemma ScanSymbol(c: char, v: Sextet, rest: string, q: Quad)
    requires ValidQuad(q) && c != '=' && Value(c) == Some(v)
    ensures Scan([c] + rest, q) == Take(v, rest, q)
  {
    hide Value;
    assert ([c] + rest)[1..] == rest;
  }

  lemma ScanDigit(v: Sextet, rest: string, q: Quad)
    requires ValidQuad(q)
    ensures Scan([Digit(v)] + rest, q) == Take(v, rest, q)
  {
    hide Scan, Digit, Value, Take;
    ScanSymbol(Digit(v), v, rest, q);
  }

  /** Four sextets, read from the start of a group. */
  lemma ScanGroup(a: Sextet, b: Sextet, c: Sextet, d: Sextet, rest: string)
    ensures Scan([Digit(a), Digit(b), Digit(c), Digit(d)] + rest, START)
         == Prepend(a * 4 + b / 16, Prepend(b % 16 * 16 + c / 4, Prepend(c % 4 * 64 + d, Scan(rest, START))))
  {
    ScanThree(a, b, c, [Digit(d)] + rest);
    ScanDigit(d, rest, Quad(3, c % 4, 0));
    assert [Digit(a), Digit(b), Digit(c), Digit(d)] + rest == [Digit(a), Digit(b), Digit(c)] + ([Digit(d)] + rest);
  }

  lemma ScanThree(a: Sextet, b: Sextet, c: Sextet, rest: string)
    ensures Scan([Digit(a), Digit(b), Digit(c)] + rest, START)
         == Prepend(a * 4 + b / 16, Prepend(b % 16 * 16 + c / 4, Scan(rest, Quad(3, c % 4, 0))))
  {
    ScanPair(a, b, [Digit(c)] + rest);
    ScanDigit(c, rest, Quad(2, b % 16, 0));
    assert [Digit(a), Digit(b), Digit(c)] + rest == [Digit(a), Digit(b)] + ([Digit(c)] + rest);
  }

  lemma ScanPair(a: Sextet, b: Sextet, rest: string)
    ensures Scan([Digit(a), Digit(b)] + rest, START) == Prepend(a * 4 + b / 16, Scan(rest, Quad(2, b % 16, 0)))
  {
    ScanDigit(a, [Digit(b)] + rest, START);
    ScanDigit(b, rest, Quad(1, a, 0));
    assert [Digit(a), Digit(b)] + rest == [Digit(a)] + ([Digit(b)] + rest);
  }

  lemma EndOfOne(left: int)
    requires 0 <= left < 16
    ensures Scan(['=', '='], Quad(2, left, 0)) == Some([])
  {
    assert ['=', '='][1..] == ['='];
    assert Scan(['='], Quad(2, left, 1)) == Some([]);
  }

  lemma ScanOne(x: Byte)
    ensures Scan([Digit(x / 4), Digit(x % 4 * 16), '=', '='], START) == Some([x])
  {
    var a, b := x / 4, x % 4 * 16;
    ScanPair(a, b, ['=', '=']);
    EndOfOne(b % 16);
    assert [Digit(a), Digit(b), '=', '='] == [Digit(a), Digit(b)] + ['=', '='];
    assert a * 4 + b / 16 == x && [x] + [] == [x];
  }

  lemma ScanTwo(x: Byte, y: Byte)
    ensures Scan([Digit(x / 4), Digit(x % 4 * 16 + y / 16), Digit(y % 16 * 4), '='], START) == Some([x, y])
  {
    var a, b, c := x / 4, x % 4 * 16 + y / 16, y % 16 * 4;
    ScanThree(a, b, c, ['=']);
    assert Scan(['='], Quad(3, c % 4, 0)) == Some([]);
    assert [Digit(a), Digit(b), Digit(c), '='] == [Digit(a), Digit(b), Digit(c)] + ['='];
    assert a * 4 + b / 16 == x && b % 16 * 16 + c / 4 == y;
    assert [x] + ([y] + []) == [x, y];
  }

  function Four(x: Byte, y: Byte, z: Byte): string {
    [Digit(x / 4), Digit(x % 4 * 16 + y / 16), Digit(y % 16 * 4 + z / 64), Digit(z % 64)]
  }

  lemma ScanFour(x: Byte, y: Byte, z: Byte, rest: string)
    ensures Scan(Four(x, y, z) + rest, START) == Prepend(x, Prepend(y, Prepend(z, Scan(rest, START))))
  {
    var a, b, c, d := x / 4, x % 4 * 16 + y / 16, y % 16 * 4 + z / 64, z % 64;
    ScanGroup(a, b, c, d, rest);
    assert a * 4 + b / 16 == x && b % 16 * 16 + c / 4 == y && c % 4 * 64 + d == z;
  }

  lemma ScanNothing()
    ensures Scan([], START) == Some([])
  {
  }

  lemma {:induction false} ScanPadded(data: seq<Byte>)
    ensures Scan(EncodePadded(data), START) == Some(data)
  {
    hide Digit, Scan;
    if data == [] {
      ScanNothing();
    } else if |data| == 1 {
      ScanOne(data[0]);
      assert [data[0]] == data;
    } else if |data| == 2 {
      ScanTwo(data[0], data[1]);
      assert [data[0], data[1]] == data;
    } else if |data| >= 3 {
      ScanPadded(data[3..]);
      ScanFour(data[0], data[1], data[2], EncodePadded(data[3..]));
      assert EncodePadded(data) == Four(data[0], data[1], data[2]) + EncodePadded(data[3..]);
      assert [data[0]] + ([data[1]] + ([data[2]] + data[3..])) == data;
    }
  }

  /** Decoding an encoding, with the padding recomputed from its length, gives the bytes back. */
  lemma DecodeEncode(data: seq<Byte>)
    ensures Decode(Encode(data)) == Some(data)
  {
    EncodeIsBare(data);
    PaddedIsBare(data);
    BareLength(data);
    assert forall i :: 0 <= i < |Bare(data)| ==> IsSymbol(Bare(data)[i]);
    ScanPadded(data);
  }

  /** An encoding is ASCII and contains no dot, so it can be a field of a token. */
  lemma EncodingIsAField(data: seq<Byte>)
    ensures IsAscii(Encode(data)) && '.' !in Encode(data)
  {
    EncodeIsBare(data);
    assert forall i :: 0 <= i < |Encode(data)| ==> IsSymbol(Encode(data)[i]);
  }
}
