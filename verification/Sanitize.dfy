/** The log-field renderer (logger/sanitize.go): an escaping printer with a cap and a truncation marker, and
    the reader that undoes it.
    Inputs are Go strings; an output is its list of runes, which is always valid text. */
module Sanitize {
  import opened Status
  import opened Utf8

  type Text = seq<int>

  const CAP := 1024

  const BACKSLASH := 0x5C
  const QUOTE := 0x22
  const COMMA := 0x2C
  const EQUALS := 0x3D
  const DOTS := 0x2026

  function Ascii(s: string): (t: Text)
    ensures |t| == |s|
  {
    seq(|s|, i requires 0 <= i < |s| => s[i] as int)
  }

  // ---- the printer ----

  function HexDigit(d: int): int
    requires 0 <= d < 16
  {
    if d < 10 then 0x30 + d else 0x57 + d
  }

  function Hex2(v: int): Text
    requires 0 <= v < 0x100
  {
    [HexDigit(v / 16), HexDigit(v % 16)]
  }

  function Hex4(v: int): Text
    requires 0 <= v < 0x1_0000
  {
    Hex2(v / 0x100) + Hex2(v % 0x100)
  }

  /** Neither the renderer's own structure, nor a control, nor a separator that breaks a line. */
  predicate PlainRune(r: int) {
    && r != BACKSLASH && r != QUOTE
    && !(0 <= r <= 0x1F) && !(0x7F <= r <= 0x9F) && r != 0x2028 && r != 0x2029
  }

  /** escapeRune: empty when r is safe as it stands. */
  function EscapeRune(r: int): (t: Text)
    ensures t == [] <==> PlainRune(r)
  {
    if r == BACKSLASH then [BACKSLASH, BACKSLASH]
    else if r == QUOTE then [BACKSLASH, QUOTE]
    else if r == 0x0A then [BACKSLASH, 0x6E]
    else if r == 0x0D then [BACKSLASH, 0x72]
    else if r == 0x09 then [BACKSLASH, 0x74]
    else if 0 <= r <= 0x1F || r == 0x7F then [BACKSLASH, 0x78] + Hex2(r)
    else if 0x80 <= r <= 0x9F || r == 0x2028 || r == 0x2029 then [BACKSLASH, 0x75] + Hex4(r)
    else []
  }

  predicate Plain(u: Unit) {
    u.Rune? && PlainRune(u.r)
  }

  /** The rendering of one unit. */
  function Escape(u: Unit): (t: Text)
    ensures 1 <= |t| <= 6
    ensures |t| == 1 <==> Plain(u)
    ensures !Plain(u) ==> t[0] == BACKSLASH
  {
    match u
    case Bad(b) => [BACKSLASH, 0x78] + Hex2(b)
    case Rune(r) => if EscapeRune(r) == [] then [r] else EscapeRune(r)
  }

  /** Two lower-case hexadecimal digits. */
  predicate IsHex2(t: Text, v: int)
    requires 0 <= v < 0x100
  {
    var digits := "0123456789abcdef";
    t == [digits[v / 16] as int, digits[v % 16] as int]
  }

  /** The escapes with a letter of their own. */
  lemma LetterEscapesAre()
    ensures Escape(Rune('\\' as int)) == Ascii("\\\\")
    ensures Escape(Rune('"' as int)) == Ascii("\\\"")
    ensures Escape(Rune('\n' as int)) == Ascii("\\n")
    ensures Escape(Rune('\r' as int)) == Ascii("\\r")
    ensures Escape(Rune('\t' as int)) == Ascii("\\t")
  {
    assert Ascii("\\\\") == [0x5C, 0x5C] && Ascii("\\\"") == [0x5C, 0x22] && Ascii("\\n") == [0x5C, 0x6E];
    assert Ascii("\\r") == [0x5C, 0x72] && Ascii("\\t") == [0x5C, 0x74];
  }

  lemma ByteEscapeIs(v: int, t: Text)
    requires 0 <= v < 0x100 && t == [BACKSLASH, 0x78] + Hex2(v)
    ensures t[..2] == Ascii("\\x") && IsHex2(t[2..], v)
  {
    assert Ascii("\\x") == [0x5C, 0x78];
    Hex2Is(v);
    assert t[2..] == Hex2(v) && t[..2] == [0x5C, 0x78];
  }

  lemma WideEscapeIs(v: int, t: Text)
    requires 0 <= v < 0x1_0000 && t == [BACKSLASH, 0x75] + Hex4(v)
    ensures |t| == 6 && t[..2] == Ascii("\\u") && IsHex2(t[2..4], v / 0x100) && IsHex2(t[4..], v % 0x100)
  {
    hide Hex2;
    assert Ascii("\\u") == [0x5C, 0x75];
    Hex2Is(v / 0x100);
    Hex2Is(v % 0x100);
    assert t[2..4] == Hex2(v / 0x100) && t[4..] == Hex2(v % 0x100) && t[..2] == [0x5C, 0x75];
  }

  /** The others: an undecodable byte and a control below U+0080 with two digits, the rest with four; everything else
      stands as it is. */
  lemma EscapesAre(u: Unit)
    requires ValidUnit(u) && u !in {Rune('\\' as int), Rune('"' as int), Rune('\n' as int), Rune('\r' as int), Rune('\t' as int)}
    ensures match u
            case Bad(b) => Escape(u)[..2] == Ascii("\\x") && IsHex2(Escape(u)[2..], b)
            case Rune(r) =>
              if r < 0x20 || r == 0x7F then Escape(u)[..2] == Ascii("\\x") && IsHex2(Escape(u)[2..], r)
              else if 0x80 <= r < 0xA0 || r == 0x2028 || r == 0x2029 then
                && Escape(u)[..2] == Ascii("\\u") && |Escape(u)| == 6
                && IsHex2(Escape(u)[2..4], r / 0x100) && IsHex2(Escape(u)[4..], r % 0x100)
              else Escape(u) == [r]
  {
    hide Hex2, Hex4, Ascii, IsHex2;
    match u
    case Bad(b) => ByteEscapeIs(b, Escape(u));
    case Rune(r) =>
      if r < 0x20 || r == 0x7F {
        ByteEscapeIs(r, Escape(u));
      } else if 0x80 <= r < 0xA0 || r == 0x2028 || r == 0x2029 {
        WideEscapeIs(r, Escape(u));
      }
  }

  lemma Hex2Is(v: int)
    requires 0 <= v < 0x100
    ensures |Hex2(v)| == 2 && IsHex2(Hex2(v), v)
  {
    HexDigitIs(v / 16);
    HexDigitIs(v % 16);
  }

  lemma HexDigitIs(v: int)
    requires 0 <= v < 16
    ensures HexDigit(v) == "0123456789abcdef"[v] as int
  {
  }

  function Render(us: seq<Unit>): Text {
    if us == [] then [] else Render(us[..|us| - 1]) + Escape(us[|us| - 1])
  }

  /** How many units are shown when written runes are already in the output. */
  function ShownFrom(us: seq<Unit>, written: nat): (n: nat)
    ensures n <= |us|
  {
    if us == [] || written >= CAP then 0 else 1 + ShownFrom(us[1..], written + |Escape(us[0])|)
  }

  function Shown(us: seq<Unit>): (n: nat)
    ensures n <= |us|
  {
    ShownFrom(us, 0)
  }

  function Decimal(n: nat): Text {
    if n < 10 then [0x30 + n] else Decimal(n / 10) + [0x30 + n % 10]
  }

  function Marker(shown: nat, total: nat): Text {
    [BACKSLASH, DOTS] + Ascii("(truncated, ") + Decimal(shown) + Ascii(" of ") + Decimal(total) + Ascii(" runes shown)")
  }

  predicate Truncated(us: seq<Unit>) {
    Shown(us) < |us|
  }

  function Sanitized(us: seq<Unit>): Text {
    Render(us[..Shown(us)]) + if Truncated(us) then Marker(Shown(us), |us|) else []
  }

  /** fieldNeedsSanitizing. */
  predicate Needs(us: seq<Unit>) {
    |us| > CAP || exists i :: 0 <= i < |us| && !Plain(us[i])
  }

  function PlainText(us: seq<Unit>): Text {
    seq(|us|, i requires 0 <= i < |us| => if us[i].Rune? then us[i].r else 0xFFFD)
  }

  lemma ConcatRender(us: seq<Unit>, u: Unit)
    ensures Render(us + [u]) == Render(us) + Escape(u)
  {
    assert (us + [u])[..|us|] == us;
  }

  method FieldNeedsSanitizing(s: Bytes) returns (needs: bool)
    ensures needs <==> Needs(Decode(s))
  {
    hide DecodeFirst, PlainRune;
    var runes, i := 0, 0;
    ghost var done: seq<Unit>, rest := [], Decode(s);
    assert s[0..] == s;
    while i < |s|
      invariant 0 <= i <= |s|
      invariant rest == Decode(s[i..]) && Decode(s) == done + rest && runes == |done| <= CAP
      invariant forall j :: 0 <= j < |done| ==> Plain(done[j])
    {
      var u, size := DecodeAt(s, i);
      ghost var tail := Decode(s[i + size..]);
      runes := runes + 1;
      if runes > CAP {
        return true;
      }
      if !Plain(u) {
        assert Decode(s)[|done|] == u;
        return true;
      }
      assert done + ([u] + tail) == done + [u] + tail;
      done, rest := done + [u], tail;
      i := i + size;
    }
    return false;
  }

  /** What has been written once the scan stops, at the cap or at the end. */
  lemma ScanStops(us: seq<Unit>, done: seq<Unit>, rest: seq<Unit>, written: nat)
    requires us == done + rest && Shown(us) == |done| + ShownFrom(rest, written)
    requires rest == [] || written >= CAP
    ensures Sanitized(us) == Render(done) + if rest == [] then [] else Marker(|done|, |us|)
  {
    assert us[..|done|] == done;
  }

  /** sanitizeField. */
  method SanitizeField(s: Bytes) returns (out: Text)
    ensures out == Sanitized(Decode(s))
  {
    hide DecodeFirst, Escape, PlainRune, Needs, Sanitized, Marker, ShownFrom;
    var needs := FieldNeedsSanitizing(s);
    if !needs {
      PlainTextIsItsOwnRendering(Decode(s));
      return PlainText(Decode(s));
    }
    out := [];
    var written, shown, i := 0, 0, 0;
    ghost var done: seq<Unit>, rest := [], Decode(s);
    assert s[0..] == s;
    while i < |s|
      invariant 0 <= i <= |s|
      invariant rest == Decode(s[i..]) && Decode(s) == done + rest && shown == |done|
      invariant out == Render(done) && written == |out|
      invariant Shown(Decode(s)) == shown + ShownFrom(rest, written)
    {
      if written >= CAP {
        ScanStops(Decode(s), done, rest, written);
        out := out + Marker(shown, |Decode(s)|);
        return;
      }
      var u, size := DecodeAt(s, i);
      ghost var tail := Decode(s[i + size..]);
      ConcatRender(done, u);
      ShownOnward(u, tail, written);
      out := out + Escape(u);
      written := written + |Escape(u)|;
      shown := shown + 1;
      assert done + ([u] + tail) == done + [u] + tail;
      done, rest := done + [u], tail;
      i := i + size;
    }
    ScanStops(Decode(s), done, rest, written);
  }

  // ---- where the cut falls ----

  lemma ShownOnward(u: Unit, us: seq<Unit>, written: nat)
    requires written < CAP
    ensures ShownFrom([u] + us, written) == 1 + ShownFrom(us, written + |Escape(u)|)
  {
    assert ([u] + us)[1..] == us;
  }

  ghost predicate BelowCap(us: seq<Unit>, n: nat)
    requires n <= |us|
  {
    forall k :: 0 <= k < n ==> |Render(us[..k])| < CAP
  }

  lemma SplitBefore(us: seq<Unit>, n: nat)
    requires 0 < n <= |us|
    ensures us[..n] == us[..n - 1] + [us[n - 1]] && us[n - 1..] == [us[n - 1]] + us[n..]
    ensures BelowCap(us, n) ==> BelowCap(us, n - 1) && |Render(us[..n - 1])| < CAP
  {
  }

  lemma {:induction false} ShownFromAt(us: seq<Unit>, n: nat)
    requires n <= |us| && BelowCap(us, n)
    ensures Shown(us) == n + ShownFrom(us[n..], |Render(us[..n])|)
  {
    if n == 0 {
      assert us[0..] == us;
    } else {
      hide BelowCap, Escape, Render, Shown, ShownFrom;
      SplitBefore(us, n);
      ShownFromAt(us, n - 1);
      ShownOnward(us[n - 1], us[n..], |Render(us[..n - 1])|);
      ConcatRender(us[..n - 1], us[n - 1]);
    }
  }

  /** The cut point: every shorter prefix renders below the cap, and a cut one reaches it. */
  lemma {:induction false} ShownIsFirstAtCap(us: seq<Unit>)
    ensures BelowCap(us, Shown(us))
    ensures Truncated(us) ==> |Render(us[..Shown(us)])| >= CAP
  {
    var n := FirstAtCap(us, 0);
    ShownFromAt(us, n);
  }

  ghost function FirstAtCap(us: seq<Unit>, from: nat): (n: nat)
    requires from <= |us|
    requires BelowCap(us, from)
    ensures n <= |us| && BelowCap(us, n)
    ensures n < |us| ==> |Render(us[..n])| >= CAP
    decreases |us| - from
  {
    if from == |us| || |Render(us[..from])| >= CAP then from else FirstAtCap(us, from + 1)
  }

  lemma ShownAt(us: seq<Unit>, n: nat)
    requires n < |us| && |Render(us[..n])| >= CAP && BelowCap(us, n)
    ensures Shown(us) == n
  {
    ShownFromAt(us, n);
  }

  /** What comes before the marker runs at most five runes over the cap. */
  lemma RenderingStaysNearTheCap(us: seq<Unit>)
    ensures |Render(us[..Shown(us)])| <= CAP + 5
  {
    ShownIsFirstAtCap(us);
    var n := Shown(us);
    if n > 0 {
      assert us[..n][..n - 1] == us[..n - 1];
    }
  }

  lemma {:induction false} RenderOfPlain(us: seq<Unit>)
    requires forall i :: 0 <= i < |us| ==> Plain(us[i])
    ensures Render(us) == PlainText(us)
  {
    if us != [] {
      RenderOfPlain(us[..|us| - 1]);
    }
  }

  lemma {:induction false} RenderNeverShrinks(us: seq<Unit>)
    ensures |Render(us)| >= |us|
    ensures |Render(us)| == |us| ==> forall i :: 0 <= i < |us| ==> Plain(us[i])
  {
    if us != [] {
      RenderNeverShrinks(us[..|us| - 1]);
      assert forall i :: 0 <= i < |us| - 1 ==> us[i] == us[..|us| - 1][i];
    }
  }

  /** When fieldNeedsSanitizing says no, the full rendering is the input itself. */
  lemma PlainTextIsItsOwnRendering(us: seq<Unit>)
    requires !Needs(us)
    ensures Sanitized(us) == PlainText(us) && !Truncated(us)
  {
    RenderOfPlain(us);
    ShownIsFirstAtCap(us);
    var n := Shown(us);
    RenderOfPlain(us[..n]);
    assert us[..|us|] == us;
  }

  // ---- the reader that undoes it ----

  datatype Reading = Whole(us: seq<Unit>) | Cut(us: seq<Unit>, shown: nat, total: nat) | Malformed

  function Prepend(us: seq<Unit>, r: Reading): Reading {
    match r
    case Whole(vs) => Whole(us + vs)
    case Cut(vs, shown, total) => Cut(us + vs, shown, total)
    case Malformed => Malformed
  }

  function HexValue(c: int): int {
    if 0x30 <= c <= 0x39 then c - 0x30 else if 0x61 <= c <= 0x66 then c - 0x57 else 0
  }

  function ReadHex(t: Text): int {
    if t == [] then 0 else ReadHex(t[..|t| - 1]) * 16 + HexValue(t[|t| - 1])
  }

  function ReadDecimal(acc: nat, t: Text): (nat, Text)
    decreases |t|
  {
    if t != [] && 0x30 <= t[0] <= 0x39 then ReadDecimal(acc * 10 + (t[0] - 0x30), t[1..]) else (acc, t)
  }

  function ReadMarker(t: Text): Reading {
    if !(Ascii("(truncated, ") <= t) then Malformed
    else
      var (shown, t1) := ReadDecimal(0, t[12..]);
      if !(Ascii(" of ") <= t1) then Malformed
      else
        var (total, t2) := ReadDecimal(0, t1[4..]);
        if t2 == Ascii(" runes shown)") then Cut([], shown, total) else Malformed
  }

  function ByteUnit(v: int): Unit
    requires 0 <= v < 0x100
  {
    if v < 0x80 then Rune(v) else Bad(v)
  }

  /** One escape or one plain rune; None at a marker or at malformed text. */
  function ReadUnit(t: Text): (r: Option<(Unit, nat)>)
    requires t != []
    ensures r.Some? ==> 1 <= r.value.1 <= |t|
  {
    if t[0] != BACKSLASH then Some((Rune(t[0]), 1))
    else if |t| < 2 then None
    else if t[1] == BACKSLASH || t[1] == QUOTE then Some((Rune(t[1]), 2))
    else if t[1] == 0x6E then Some((Rune(0x0A), 2))
    else if t[1] == 0x72 then Some((Rune(0x0D), 2))
    else if t[1] == 0x74 then Some((Rune(0x09), 2))
    else if t[1] == 0x78 && |t| >= 4 && 0 <= ReadHex(t[2..4]) < 0x100 then Some((ByteUnit(ReadHex(t[2..4])), 4))
    else if t[1] == 0x75 && |t| >= 6 then Some((Rune(ReadHex(t[2..6])), 6))
    else None
  }

  function Read(t: Text): Reading
    decreases |t|
  {
    if t == [] then Whole([])
    else if |t| >= 2 && t[0] == BACKSLASH && t[1] == DOTS then ReadMarker(t[2..])
    else
      match ReadUnit(t)
      case None => Malformed
      case Some((u, n)) => Prepend([u], Read(t[n..]))
  }

  lemma ReadHexOfHex(v: int)
    requires 0 <= v < 0x1_0000
    ensures v < 0x100 ==> ReadHex(Hex2(v)) == v
    ensures ReadHex(Hex4(v)) == v
  {
    ReadHex2(v % 0x100);
    ReadHex2(v / 0x100);
    var h, l := v / 0x100, v % 0x100;
    var t := Hex4(v);
    assert t[..3] == Hex2(h) + [HexDigit(l / 16)];
    assert t[..3][..2] == Hex2(h);
  }

  lemma ReadHex2(v: int)
    requires 0 <= v < 0x100
    ensures ReadHex(Hex2(v)) == v
  {
    var h := [HexDigit(v / 16)];
    assert h[..0] == [];
    assert ReadHex(h) == v / 16;
    assert Hex2(v)[..1] == h;
  }

  lemma ReadUnitOfEscape(u: Unit, rest: Text)
    requires ValidUnit(u)
    ensures ReadUnit(Escape(u) + rest) == Some((u, |Escape(u)|))
  {
    var t := Escape(u) + rest;
    var e := Escape(u);
    assert t[0] == e[0];
    if |e| > 1 { assert t[1] == e[1]; }
    if u.Bad? || (0 <= u.r <= 0x1F || u.r == 0x7F) {
      var v := if u.Bad? then u.b else u.r;
      ReadHexOfHex(v);
      if |e| == 4 { assert t[2..4] == Hex2(v); }
    } else if |e| == 6 {
      ReadHexOfHex(u.r);
      assert t[2..6] == Hex4(u.r);
    }
  }

  lemma ReadOfEscape(u: Unit, rest: Text)
    requires ValidUnit(u)
    ensures Read(Escape(u) + rest) == Prepend([u], Read(rest))
  {
    var t := Escape(u) + rest;
    ReadUnitOfEscape(u, rest);
    assert t[|Escape(u)|..] == rest;
    assert !(|t| >= 2 && t[0] == BACKSLASH && t[1] == DOTS) by {
      if |Escape(u)| == 1 { assert t[0] == Escape(u)[0]; } else { assert t[1] == Escape(u)[1]; }
    }
  }

  lemma PrependTwice(us: seq<Unit>, vs: seq<Unit>, r: Reading)
    ensures Prepend(us, Prepend(vs, r)) == Prepend(us + vs, r)
  {
    if !r.Malformed? {
      assert us + (vs + r.us) == us + vs + r.us;
    }
  }

  lemma {:induction false} ReadAfterRender(us: seq<Unit>, rest: Text)
    requires ValidUnits(us)
    ensures Read(Render(us) + rest) == Prepend(us, Read(rest))
  {
    if us == [] {
      assert Render(us) + rest == rest;
    } else {
      var n := |us| - 1;
      var u := us[n];
      assert Render(us) + rest == Render(us[..n]) + (Escape(u) + rest);
      ReadAfterRender(us[..n], Escape(u) + rest);
      ReadOfEscape(u, rest);
      assert us == us[..n] + [u];
      PrependTwice(us[..n], [u], Read(rest));
    }
  }

  lemma {:induction false} ReadDecimalOfDecimal(n: nat, rest: Text)
    ensures ReadDecimal(0, Decimal(n) + rest) == ReadDecimal(n, rest)
  {
    if n < 10 {
      assert (Decimal(n) + rest)[1..] == rest;
    } else {
      var d := [0x30 + n % 10];
      assert Decimal(n) + rest == Decimal(n / 10) + (d + rest);
      ReadDecimalOfDecimal(n / 10, d + rest);
      assert (d + rest)[1..] == rest;
    }
  }

  lemma ReadMarkerTail(total: nat)
    ensures var tail := Ascii(" of ") + Decimal(total) + Ascii(" runes shown)");
            && tail[0] == 0x20
            && Ascii(" of ") <= tail && ReadDecimal(0, tail[4..]) == (total, Ascii(" runes shown)"))
  {
    var end := Ascii(" runes shown)");
    var tail := Ascii(" of ") + Decimal(total) + end;
    assert tail[4..] == Decimal(total) + end;
    ReadDecimalOfDecimal(total, end);
    assert end[0] == 0x20;
  }

  lemma ReadOfMarker(shown: nat, total: nat)
    ensures Read(Marker(shown, total)) == Cut([], shown, total)
  {
    var head := Ascii("(truncated, ");
    var tail := Ascii(" of ") + Decimal(total) + Ascii(" runes shown)");
    var t := head + (Decimal(shown) + tail);
    assert Marker(shown, total)[2..] == t;
    assert head <= t && t[12..] == Decimal(shown) + tail;
    ReadDecimalOfDecimal(shown, tail);
    ReadMarkerTail(total);
    assert tail[0] == 0x20;
  }

  /** The reader undoes the printer: an uncut rendering gives back the whole input, a cut one the exact
      prefix shown with the true counts, and neither is ever taken for the other. */
  lemma ReadUndoesSanitize(us: seq<Unit>)
    requires ValidUnits(us)
    ensures Read(Sanitized(us)) ==
            if Truncated(us) then Cut(us[..Shown(us)], Shown(us), |us|) else Whole(us)
  {
    var k := Shown(us);
    if Truncated(us) {
      ReadAfterRender(us[..k], Marker(k, |us|));
      ReadOfMarker(k, |us|);
    } else {
      assert us[..k] == us;
      assert Render(us) + [] == Render(us);
      ReadAfterRender(us, []);
    }
  }

  /** Two strings that render alike are the same string, or both are cut at the same prefix and have the
      same length in runes. */
  lemma SameRenderingSameInput(s: Bytes, t: Bytes)
    requires Sanitized(Decode(s)) == Sanitized(Decode(t))
    ensures var us, vs := Decode(s), Decode(t);
            || s == t
            || (Truncated(us) && Truncated(vs) && |us| == |vs| && us[..Shown(us)] == vs[..Shown(vs)])
  {
    DecodedUnitsAreValid(s);
    DecodedUnitsAreValid(t);
    ReadUndoesSanitize(Decode(s));
    ReadUndoesSanitize(Decode(t));
    if !Truncated(Decode(s)) || !Truncated(Decode(t)) {
      DecodeIsInjective(s, t);
    }
  }

  // ---- the output is one safe line ----

  predicate LineSafe(r: int) {
    && IsScalar(r) && !(r <= 0x1F) && !(0x7F <= r <= 0x9F) && r != 0x2028 && r != 0x2029
  }

  predicate AllLineSafe(t: Text) {
    forall i :: 0 <= i < |t| ==> LineSafe(t[i])
  }

  lemma SafeMeans(t: Text)
    requires AllLineSafe(t)
    ensures forall r :: r in t ==> r >= 0x20 && !(0x7F <= r < 0xA0) && r !in {0x2028, 0x2029} && !(0xD800 <= r < 0xE000) && r < 0x11_0000
  {
  }

  lemma EscapeIsLineSafe(u: Unit)
    requires ValidUnit(u)
    ensures AllLineSafe(Escape(u))
  {
  }

  lemma {:induction false} DecimalIsDigits(n: nat)
    ensures forall i :: 0 <= i < |Decimal(n)| ==> 0x30 <= Decimal(n)[i] <= 0x39
  {
    if n >= 10 { DecimalIsDigits(n / 10); }
  }

  lemma MarkerIsLineSafe(shown: nat, total: nat)
    ensures AllLineSafe(Marker(shown, total))
  {
    DecimalIsDigits(shown);
    DecimalIsDigits(total);
    assert AllLineSafe(Ascii("(truncated, "));
    assert AllLineSafe(Ascii(" of "));
    assert AllLineSafe(Ascii(" runes shown)"));
  }

  lemma {:induction false} RenderIsLineSafe(us: seq<Unit>)
    requires ValidUnits(us)
    ensures AllLineSafe(Render(us))
  {
    if us != [] {
      RenderIsLineSafe(us[..|us| - 1]);
      EscapeIsLineSafe(us[|us| - 1]);
    }
  }

  /** No rendering holds a raw control character, a line or a paragraph separator. */
  lemma SanitizedIsLineSafe(us: seq<Unit>)
    requires ValidUnits(us)
    ensures AllLineSafe(Sanitized(us))
    ensures forall r :: r in Sanitized(us) ==> r >= 0x20 && !(0x7F <= r < 0xA0) && r !in {0x2028, 0x2029} && !(0xD800 <= r < 0xE000) && r < 0x11_0000
  {
    RenderIsLineSafe(us[..Shown(us)]);
    MarkerIsLineSafe(Shown(us), |us|);
    SafeMeans(Sanitized(us));
  }
}
