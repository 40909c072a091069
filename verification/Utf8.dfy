/** Go strings seen as runes: UTF-8 decoding one rune at a time as unicode/utf8 does
    (sections 3 and 4 of RFC 3629), with every byte that begins no valid sequence kept as itself. */
module Utf8 {

  type Byte = b: int | 0 <= b < 0x100
  type Bytes = seq<Byte>

  /** A decoded code point, or a byte Go reports as (RuneError, 1). */
  datatype Unit = Rune(r: int) | Bad(b: Byte)

  /** Unicode scalar values: the code points UTF-8 can carry. */
  predicate IsScalar(r: int) {
    0 <= r < 0xD800 || 0xE000 <= r < 0x11_0000
  }

  predicate Continuation(s: Bytes, i: nat, lo: int, hi: int) {
    i < |s| && lo <= s[i] <= hi
  }

  /** The six low bits of a continuation byte appended to the bits read so far. */
  function Join(high: int, low: int): int {
    high * 0x40 + (low - 0x80)
  }

  /** The first unit of a non-empty string and the number of bytes it takes. */
  function DecodeFirst(s: Bytes): (d: (Unit, nat))
    requires |s| > 0
    ensures 1 <= d.1 <= |s|
    ensures d.0.Rune? ==> IsScalar(d.0.r)
    ensures d.0.Bad? ==> d.0.b >= 0x80
  {
    var b0: int := s[0];
    if b0 < 0x80 then (Rune(b0), 1)
    else if 0xC2 <= b0 <= 0xDF && Continuation(s, 1, 0x80, 0xBF) then
      (Rune(Join(b0 - 0xC0, s[1])), 2)
    else if 0xE0 <= b0 <= 0xEF
            && Continuation(s, 1, if b0 == 0xE0 then 0xA0 else 0x80, if b0 == 0xED then 0x9F else 0xBF)
            && Continuation(s, 2, 0x80, 0xBF) then
      (Rune(Join(Join(b0 - 0xE0, s[1]), s[2])), 3)
    else if 0xF0 <= b0 <= 0xF4
            && Continuation(s, 1, if b0 == 0xF0 then 0x90 else 0x80, if b0 == 0xF4 then 0x8F else 0xBF)
            && Continuation(s, 2, 0x80, 0xBF) && Continuation(s, 3, 0x80, 0xBF) then
      (Rune(Join(Join(Join(b0 - 0xF0, s[1]), s[2]), s[3])), 4)
    else (Bad(s[0]), 1)
  }

  /** UTF-8 of one scalar value; anything else encodes as U+FFFD, as Go's WriteRune does. */
  function EncodeRune(r: int): (bytes: Bytes)
    ensures 1 <= |bytes| <= 4
  {
    if 0 <= r < 0x80 then [r]
    else if 0x80 <= r < 0x800 then [0xC0 + r / 0x40, 0x80 + r % 0x40]
    else if !IsScalar(r) then [0xEF, 0xBF, 0xBD]
    else if r < 0x1_0000 then [0xE0 + r / 0x1000, 0x80 + r / 0x40 % 0x40, 0x80 + r % 0x40]
    else [0xF0 + r / 0x4_0000, 0x80 + r / 0x1000 % 0x40, 0x80 + r / 0x40 % 0x40, 0x80 + r % 0x40]
  }

  function EncodeUnit(u: Unit): (bytes: Bytes)
    ensures 1 <= |bytes| <= 4
  {
    match u
    case Rune(r) => EncodeRune(r)
    case Bad(b) => [b]
  }

  function Encode(us: seq<Unit>): Bytes {
    if us == [] then [] else EncodeUnit(us[0]) + Encode(us[1..])
  }

  /** The units a rune-by-rune scan of s meets. */
  function Decode(s: Bytes): (us: seq<Unit>)
    ensures |us| <= |s|
    decreases |s|
  {
    if s == [] then [] else
      var d := DecodeFirst(s);
      [d.0] + Decode(s[d.1..])
  }

  lemma TwoBytes(h: int, b: int)
    requires 0x02 <= h < 0x20 && 0x80 <= b < 0xC0
    ensures var r := Join(h, b); EncodeRune(r) == [0xC0 + h, b]
  {
  }

  lemma ThreeBytes(h: int, b: int, c: int)
    requires 0 <= h < 0x10 && 0x80 <= b < 0xC0 && 0x80 <= c < 0xC0
    requires h == 0 ==> b >= 0xA0
    requires h == 0xD ==> b < 0xA0
    ensures var r := Join(Join(h, b), c); EncodeRune(r) == [0xE0 + h, b, c]
  {
    var r := Join(Join(h, b), c);
    assert r == h * 0x1000 + (b - 0x80) * 0x40 + (c - 0x80);
    assert r / 0x40 == Join(h, b);
  }

  lemma FourBytes(h: int, b: int, c: int, d: int)
    requires 0 <= h < 5 && 0x80 <= b < 0xC0 && 0x80 <= c < 0xC0 && 0x80 <= d < 0xC0
    requires h == 0 ==> b >= 0x90
    requires h == 4 ==> b < 0x90
    ensures var r := Join(Join(Join(h, b), c), d); EncodeRune(r) == [0xF0 + h, b, c, d]
  {
    var q := Join(Join(h, b), c);
    var r := Join(q, d);
    assert r / 0x40 == q && r % 0x40 == d - 0x80;
    assert q / 0x40 == Join(h, b) && q % 0x40 == c - 0x80;
    assert r / 0x1000 == q / 0x40;
    assert r / 0x4_0000 == Join(h, b) / 0x40 == h;
  }

  lemma DecodeFirstIsPrefix(s: Bytes)
    requires |s| > 0
    ensures s[..DecodeFirst(s).1] == EncodeUnit(DecodeFirst(s).0)
  {
    var n := DecodeFirst(s).1;
    if n == 2 {
      TwoBytes(s[0] - 0xC0, s[1]);
    } else if n == 3 {
      ThreeBytes(s[0] - 0xE0, s[1], s[2]);
    } else if n == 4 {
      FourBytes(s[0] - 0xF0, s[1], s[2], s[3]);
    }
  }

  /** DecodeRuneInString(s[i:]): the next unit of a scan and its size. */
  method DecodeAt(s: Bytes, i: nat) returns (u: Unit, size: nat)
    requires i < |s|
    ensures 1 <= size && i + size <= |s|
    ensures Decode(s[i..]) == [u] + Decode(s[i + size..])
  {
    var d := DecodeFirst(s[i..]);
    assert s[i..][d.1..] == s[i + d.1..];
    u, size := d.0, d.1;
  }

  lemma EncodeCons(u: Unit, us: seq<Unit>)
    ensures Encode([u] + us) == EncodeUnit(u) + Encode(us)
  {
    assert ([u] + us)[1..] == us;
  }

  lemma DecodeHead(s: Bytes) returns (u: Unit, n: nat)
    requires s != []
    ensures 1 <= n <= |s| && s[..n] == EncodeUnit(u)
    ensures Decode(s) == [u] + Decode(s[n..])
  {
    DecodeFirstIsPrefix(s);
    u, n := DecodeFirst(s).0, DecodeFirst(s).1;
  }

  /** Decoding loses nothing: the units give back exactly the bytes. */
  lemma {:induction false} EncodeUndoesDecode(s: Bytes)
    ensures Encode(Decode(s)) == s
    decreases |s|
  {
    hide DecodeFirst, EncodeUnit;
    if s != [] {
      var u, n := DecodeHead(s);
      EncodeUndoesDecode(s[n..]);
      EncodeCons(u, Decode(s[n..]));
      assert s == s[..n] + s[n..];
    }
  }

  lemma DecodeIsInjective(s: Bytes, t: Bytes)
    requires Decode(s) == Decode(t)
    ensures s == t
  {
    EncodeUndoesDecode(s);
    EncodeUndoesDecode(t);
  }

  predicate AllScalars(rs: seq<int>) {
    forall i :: 0 <= i < |rs| ==> IsScalar(rs[i])
  }

  function Runes(rs: seq<int>): seq<Unit> {
    seq(|rs|, i requires 0 <= i < |rs| => Rune(rs[i]))
  }

  lemma SplitBits(r: int)
    requires 0 <= r
    ensures Join(r / 0x40, 0x80 + r % 0x40) == r
    ensures Join(Join(r / 0x1000, 0x80 + r / 0x40 % 0x40), 0x80 + r % 0x40) == r
    ensures Join(Join(Join(r / 0x4_0000, 0x80 + r / 0x1000 % 0x40), 0x80 + r / 0x40 % 0x40), 0x80 + r % 0x40) == r
  {
    assert r / 0x40 / 0x40 == r / 0x1000;
    assert r / 0x1000 / 0x40 == r / 0x4_0000;
  }

  lemma DecodeFirstOfRune(r: int, rest: Bytes)
    requires IsScalar(r)
    ensures DecodeFirst(EncodeRune(r) + rest) == (Rune(r), |EncodeRune(r)|)
  {
    var e := EncodeRune(r);
    var s := e + rest;
    SplitBits(r);
    forall i | 0 <= i < |e| ensures s[i] == e[i] {}
    if r < 0x80 {
    } else if r < 0x800 {
      assert e[0] as int == 0xC0 + r / 0x40 && 0xC2 <= e[0] <= 0xDF;
    } else if r < 0x1_0000 {
      assert r < 0x1000 ==> r / 0x40 % 0x40 >= 0x20;
      assert r / 0x1000 == 0xD ==> r / 0x40 % 0x40 < 0x20;
    } else {
      assert r / 0x4_0000 == 0 ==> r / 0x1000 % 0x40 >= 0x10;
      assert r / 0x4_0000 == 4 ==> r / 0x1000 % 0x40 < 0x10;
    }
  }

  /** Text made of scalar values is valid UTF-8: encoding it and decoding again gives it back. */
  lemma {:induction false} DecodeUndoesEncode(rs: seq<int>)
    requires AllScalars(rs)
    ensures Decode(Encode(Runes(rs))) == Runes(rs)
  {
    if rs != [] {
      var tail := rs[1..];
      assert Runes(rs)[1..] == Runes(tail);
      var s := EncodeRune(rs[0]) + Encode(Runes(tail));
      assert Encode(Runes(rs)) == s;
      DecodeFirstOfRune(rs[0], Encode(Runes(tail)));
      assert s[|EncodeRune(rs[0])|..] == Encode(Runes(tail));
      DecodeUndoesEncode(tail);
    }
  }

  predicate ValidUnit(u: Unit) {
    match u
    case Rune(r) => IsScalar(r)
    case Bad(b) => b >= 0x80
  }

  predicate ValidUnits(us: seq<Unit>) {
    forall i :: 0 <= i < |us| ==> ValidUnit(us[i])
  }

  lemma {:induction false} DecodedUnitsAreValid(s: Bytes)
    ensures ValidUnits(Decode(s))
    decreases |s|
  {
    if s != [] {
      var d := DecodeFirst(s);
      DecodedUnitsAreValid(s[d.1..]);
      assert Decode(s) == [d.0] + Decode(s[d.1..]);
    }
  }
}
