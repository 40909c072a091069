/** The "key=value" list of a log line and the parser that undoes it (logger/sanitize.go).
    A field value is the string its %v formatting gave. */
module LogLine {
  import opened Status
  import opened Utf8
  import opened Sanitize
  import opened Sorting

  const SPACE := 0x20

  // ---- the printer ----

  /** Whether the rendering carries the list's own structure. */
  predicate Structured(t: Text) {
    COMMA in t || EQUALS in t || QUOTE in t
  }

  /** renderField on the already sanitized text. */
  function Quoted(t: Text): Text {
    if Structured(t) then [QUOTE] + t + [QUOTE] else t
  }

  function Shape(s: Bytes): Text {
    Sanitized(Decode(s))
  }

  method RenderField(s: Bytes) returns (t: Text)
    ensures t == Quoted(Shape(s))
    ensures t == if exists r :: r in Shape(s) && r in {',' as int, '=' as int, '"' as int} then
                   ['"' as int] + Shape(s) + ['"' as int]
                 else Shape(s)
  {
    var rendered := SanitizeField(s);
    if !Structured(rendered) {
      return rendered;
    }
    return [QUOTE] + rendered + [QUOTE];
  }

  /** One field as the list shows it, its key and value already sanitized. */
  datatype Pair = Pair(key: Text, value: Text)

  function Field(p: Pair): Text {
    Quoted(p.key) + [EQUALS] + Quoted(p.value)
  }

  function RenderPairs(ps: seq<Pair>): Text {
    if ps == [] then []
    else
      var n := |ps| - 1;
      RenderPairs(ps[..n]) + (if n > 0 then [COMMA, SPACE] else []) + Field(ps[n])
  }

  /** The named fields, in the given key order, each key and value as sanitizeField renders it. */
  function Pairs(keys: seq<Bytes>, fields: map<Bytes, Bytes>): seq<Pair>
    requires forall k :: k in keys ==> k in fields
  {
    seq(|keys|, i requires 0 <= i < |keys| => Pair(Shape(keys[i]), Shape(fields[keys[i]])))
  }

  function RenderList(keys: seq<Bytes>, fields: map<Bytes, Bytes>): Text
    requires forall k :: k in keys ==> k in fields
  {
    RenderPairs(Pairs(keys, fields))
  }

  function ByteCode(b: Byte): int {
    b
  }

  lemma RenderPairsOnward(ps: seq<Pair>, i: nat)
    requires i < |ps|
    ensures RenderPairs(ps[..i + 1]) == RenderPairs(ps[..i]) + (if i > 0 then [COMMA, SPACE] else []) + Field(ps[i])
  {
    hide Field;
    assert ps[..i + 1][..i] == ps[..i];
  }

  /** renderSanitizedFields: the keys in any order the map yields them, sorted, then one pass. */
  method RenderSanitizedFields(fields: map<Bytes, Bytes>) returns (line: Text, ghost keys: seq<Bytes>)
    ensures SortedKeys(ByteCode, keys, fields.Keys)
    ensures line == RenderList(keys, fields)
    ensures ParseLine(line) == Some(Pairs(keys, fields))
    ensures AllLineSafe(line)
  {
    hide ParseLine, AllLineSafe, RenderPairs, Shape, Quoted, Ascending;
    var sorted := SortKeys(ByteCode, fields.Keys);
    keys := sorted;
    line := [];
    ghost var pairs := Pairs(sorted, fields);
    assert RenderPairs(pairs[..0]) == [] by { NoPairs(pairs); }
    for i := 0 to |sorted|
      invariant line == RenderPairs(pairs[..i])
    {
      RenderPairsOnward(pairs, i);
      if i > 0 {
        line := line + [COMMA, SPACE];
      }
      var key := RenderField(sorted[i]);
      var value := RenderField(fields[sorted[i]]);
      line := line + (key + [EQUALS] + value);
    }
    assert pairs[..|sorted|] == pairs;
    ParseUndoesRender(sorted, fields);
    LineIsSafe(sorted, fields);
  }

  /** The list: keys and values with an equals sign, pairs with a comma and a space. */
  lemma LineReads(ps: seq<Pair>, p: Pair)
    ensures RenderPairs([]) == []
    ensures RenderPairs(ps + [p]) ==
            RenderPairs(ps) + (if ps == [] then [] else Ascii(", ")) + (Quoted(p.key) + Ascii("=") + Quoted(p.value))
  {
    hide Quoted;
    assert (ps + [p])[..|ps|] == ps;
    assert Ascii(", ") == [COMMA, SPACE] && Ascii("=") == [EQUALS];
  }

  lemma NoPairs(ps: seq<Pair>)
    ensures RenderPairs(ps[..0]) == []
  {
  }

  // ---- the parser ----

  /** How far an unquoted token runs. */
  function BareLength(t: Text): (n: nat)
    ensures n <= |t|
  {
    if t == [] || t[0] == COMMA || t[0] == EQUALS then 0 else 1 + BareLength(t[1..])
  }

  /** Where the closing quote is; a backslash takes the next rune with it. */
  function QuotedLength(t: Text): (n: Option<nat>)
    ensures n.Some? ==> n.value < |t|
    decreases |t|
  {
    if t == [] then None
    else if t[0] == QUOTE then Some(0)
    else if t[0] == BACKSLASH then
      if |t| < 2 then None else Add(2, QuotedLength(t[2..]))
    else Add(1, QuotedLength(t[1..]))
  }

  function Add(n: nat, m: Option<nat>): Option<nat> {
    if m.None? then None else Some(n + m.value)
  }

  /** One token and what follows it. */
  function ReadToken(t: Text): (r: Option<(Text, Text)>)
    ensures r.Some? ==> |r.value.1| <= |t|
  {
    if t != [] && t[0] == QUOTE then
      match QuotedLength(t[1..])
      case None => None
      case Some(n) => Some((t[1..n + 1], t[n + 2..]))
    else
      var n := BareLength(t);
      Some((t[..n], t[n..]))
  }

  function ReadPair(t: Text): (r: Option<(Pair, Text)>)
    ensures r.Some? ==> |r.value.1| < |t|
  {
    match ReadToken(t)
    case None => None
    case Some((key, rest)) =>
      if rest == [] || rest[0] != EQUALS then None
      else
        match ReadToken(rest[1..])
        case None => None
        case Some((value, tail)) => Some((Pair(key, value), tail))
  }

  function ParsePairs(t: Text): Option<seq<Pair>>
    decreases |t|
  {
    match ReadPair(t)
    case None => None
    case Some((p, rest)) =>
      if rest == [] then Some([p])
      else if |rest| >= 2 && rest[0] == COMMA && rest[1] == SPACE then Before([p], ParsePairs(rest[2..]))
      else None
  }

  function Before(ps: seq<Pair>, r: Option<seq<Pair>>): Option<seq<Pair>> {
    if r.None? then None else Some(ps + r.value)
  }

  function ParseLine(t: Text): Option<seq<Pair>> {
    if t == [] then Some([]) else ParsePairs(t)
  }

  // ---- a rendering cannot break out of its quotes ----

  /** Every quote is escaped and no backslash is left over. */
  predicate Closed(t: Text)
    decreases |t|
  {
    t == [] ||
    (t[0] != QUOTE && if t[0] == BACKSLASH then |t| >= 2 && Closed(t[2..]) else Closed(t[1..]))
  }

  lemma {:induction false} ClosedConcat(a: Text, b: Text)
    requires Closed(a) && Closed(b)
    ensures Closed(a + b)
    decreases |a|
  {
    if a == [] {
      assert a + b == b;
    } else if a[0] == BACKSLASH {
      assert (a + b)[2..] == a[2..] + b;
      ClosedConcat(a[2..], b);
    } else {
      assert (a + b)[1..] == a[1..] + b;
      ClosedConcat(a[1..], b);
    }
  }

  predicate NoStructure(t: Text) {
    forall i :: 0 <= i < |t| ==> t[i] != QUOTE && t[i] != BACKSLASH
  }

  lemma {:induction false} UnstructuredIsClosed(t: Text)
    requires NoStructure(t)
    ensures Closed(t)
  {
    if t != [] { UnstructuredIsClosed(t[1..]); }
  }

  lemma EscapeIsClosed(u: Unit)
    requires ValidUnit(u)
    ensures Closed(Escape(u))
  {
    var e := Escape(u);
    if |e| == 1 {
      UnstructuredIsClosed(e);
    } else if |e| == 2 {
      assert e[2..] == [];
    } else {
      forall i | 2 <= i < |e| ensures e[i] != QUOTE && e[i] != BACKSLASH {}
      UnstructuredIsClosed(e[2..]);
    }
  }

  lemma MarkerIsClosed(shown: nat, total: nat)
    ensures Closed(Marker(shown, total))
  {
    DecimalIsDigits(shown);
    DecimalIsDigits(total);
    assert NoStructure(Ascii("(truncated, ")) && NoStructure(Ascii(" of ")) && NoStructure(Ascii(" runes shown)"));
    UnstructuredIsClosed(Marker(shown, total)[2..]);
  }

  lemma {:induction false} RenderIsClosed(us: seq<Unit>)
    requires ValidUnits(us)
    ensures Closed(Render(us))
  {
    if us != [] {
      hide Escape, Closed;
      var n := |us| - 1;
      RenderIsClosed(us[..n]);
      EscapeIsClosed(us[n]);
      ClosedConcat(Render(us[..n]), Escape(us[n]));
    } else {
      assert Closed([]);
    }
  }

  lemma ShapeIsClosed(s: Bytes)
    ensures Closed(Shape(s))
  {
    hide Closed, Render, Marker;
    var us := Decode(s);
    DecodedUnitsAreValid(s);
    RenderIsClosed(us[..Shown(us)]);
    MarkerIsClosed(Shown(us), |us|);
    if Truncated(us) {
      ClosedConcat(Render(us[..Shown(us)]), Marker(Shown(us), |us|));
    } else {
      assert Sanitized(us) == Render(us[..Shown(us)]);
    }
  }

  lemma QuotedLengthSkips(t: Text)
    requires t != [] && t[0] != QUOTE
    ensures t[0] != BACKSLASH ==> QuotedLength(t) == Add(1, QuotedLength(t[1..]))
    ensures t[0] == BACKSLASH && |t| >= 2 ==> QuotedLength(t) == Add(2, QuotedLength(t[2..]))
  {
  }

  lemma {:induction false} ClosedEndsAtTheQuote(t: Text, rest: Text)
    requires Closed(t)
    ensures QuotedLength(t + ([QUOTE] + rest)) == Some(|t|)
    decreases |t|
  {
    var all := t + ([QUOTE] + rest);
    if t == [] {
      assert all[0] == QUOTE;
    } else {
      hide QuotedLength;
      assert all[0] == t[0];
      QuotedLengthSkips(all);
      var n := if t[0] == BACKSLASH then 2 else 1;
      assert all[n..] == t[n..] + ([QUOTE] + rest);
      ClosedEndsAtTheQuote(t[n..], rest);
    }
  }

  predicate EndsToken(rest: Text) {
    rest == [] || rest[0] == COMMA || rest[0] == EQUALS
  }

  lemma {:induction false} BareEndsAtTheDelimiter(t: Text, rest: Text)
    requires COMMA !in t && EQUALS !in t && EndsToken(rest)
    ensures BareLength(t + rest) == |t|
  {
    if t == [] {
      assert t + rest == rest;
    } else {
      assert (t + rest)[1..] == t[1..] + rest;
      assert t[0] in t;
      BareEndsAtTheDelimiter(t[1..], rest);
    }
  }

  /** The parser reads a rendered key or value back whole, whatever it holds. */
  lemma ReadTokenUndoesQuoted(t: Text, rest: Text)
    requires Closed(t) && EndsToken(rest)
    ensures ReadToken(Quoted(t) + rest) == Some((t, rest))
  {
    hide Closed, QuotedLength, BareLength;
    var all := Quoted(t) + rest;
    if Structured(t) {
      ClosedEndsAtTheQuote(t, rest);
      assert all[0] == QUOTE && all[1..] == t + ([QUOTE] + rest);
      assert all[1..|t| + 1] == t && all[|t| + 2..] == rest;
    } else {
      BareEndsAtTheDelimiter(t, rest);
      assert all == t + rest;
      assert all[..|t|] == t && all[|t|..] == rest;
      assert t != [] ==> t[0] in t && all[0] == t[0];
    }
  }

  ghost predicate AllClosed(ps: seq<Pair>) {
    forall i :: 0 <= i < |ps| ==> Closed(ps[i].key) && Closed(ps[i].value)
  }

  lemma ReadPairUndoesField(p: Pair, rest: Text)
    requires Closed(p.key) && Closed(p.value)
    requires rest == [] || rest[0] == COMMA
    ensures ReadPair(Field(p) + rest) == Some((p, rest))
  {
    hide Closed, Quoted, ReadToken;
    var after := [EQUALS] + (Quoted(p.value) + rest);
    assert Field(p) + rest == Quoted(p.key) + after;
    ReadTokenUndoesQuoted(p.key, after);
    assert after[1..] == Quoted(p.value) + rest;
    ReadTokenUndoesQuoted(p.value, rest);
  }

  lemma BeforeTwice(ps: seq<Pair>, qs: seq<Pair>, r: Option<seq<Pair>>)
    ensures Before(ps, Before(qs, r)) == Before(ps + qs, r)
  {
    if r.Some? { assert ps + (qs + r.value) == ps + qs + r.value; }
  }

  lemma ParsePairsOnward(t: Text, p: Pair, rest: Text)
    requires ReadPair(t) == Some((p, [COMMA, SPACE] + rest))
    ensures ParsePairs(t) == Before([p], ParsePairs(rest))
  {
    assert ([COMMA, SPACE] + rest)[2..] == rest;
  }

  lemma Regroup(a: Text, b: Text, c: Text, d: Text, e: Text)
    ensures a + b + c + d + e == a + b + (c + (d + e))
    ensures c + d + e == c + (d + e)
  {
  }

  lemma {:induction false} ParseAfterRender(ps: seq<Pair>, rest: Text)
    requires ps != [] && AllClosed(ps)
    ensures ParsePairs(RenderPairs(ps) + [COMMA, SPACE] + rest) == Before(ps, ParsePairs(rest))
    decreases |ps|
  {
    hide ReadPair, Field, ParsePairs, Closed;
    var n := |ps| - 1;
    var field, sep := Field(ps[n]), [COMMA, SPACE];
    var last := field + (sep + rest);
    ReadPairUndoesField(ps[n], sep + rest);
    ParsePairsOnward(last, ps[n], rest);
    assert ps == ps[..n] + [ps[n]];
    Regroup(RenderPairs(ps[..n]), sep, field, sep, rest);
    if n == 0 {
      assert ps[..0] == [] && ps == [ps[0]];
      assert RenderPairs(ps) == field;
      assert field + sep + rest == last;
    } else {
      ParseAfterRender(ps[..n], last);
      BeforeTwice(ps[..n], [ps[n]], ParsePairs(rest));
    }
  }

  /** The parser undoes the list printer on any texts that cannot break out of quotes. */
  lemma ParseUndoesRenderPairs(ps: seq<Pair>)
    requires AllClosed(ps)
    ensures ParseLine(RenderPairs(ps)) == Some(ps)
  {
    hide ReadPair, Field, Closed;
    if ps != [] {
      var n := |ps| - 1;
      var field := Field(ps[n]);
      ReadPairUndoesField(ps[n], []);
      assert field + [] == field;
      assert ps == ps[..n] + [ps[n]];
      if n == 0 {
        assert ps[..0] == [] && ps == [ps[0]];
        assert RenderPairs(ps) == field;
      } else {
        ParseAfterRender(ps[..n], field);
      }
    }
  }

  /** No forgery: whatever the keys and values hold, cut ones included, the line reads back as exactly its
      own fields, in order, each key and value as sanitizeField rendered it. */
  lemma ParseUndoesRender(keys: seq<Bytes>, fields: map<Bytes, Bytes>)
    requires forall k :: k in keys ==> k in fields
    ensures ParseLine(RenderList(keys, fields)) == Some(Pairs(keys, fields))
  {
    hide Shape, Closed, ParseLine, RenderPairs;
    forall i | 0 <= i < |keys| ensures Closed(Shape(keys[i])) && Closed(Shape(fields[keys[i]])) {
      ShapeIsClosed(keys[i]);
      ShapeIsClosed(fields[keys[i]]);
    }
    ParseUndoesRenderPairs(Pairs(keys, fields));
  }

  ghost predicate NothingCut(fields: map<Bytes, Bytes>) {
    forall k :: k in fields ==> !Truncated(Decode(k)) && !Truncated(Decode(fields[k]))
  }

  /** Two field maps that render to the same line are the same map, as long as one of them has nothing cut. */
  lemma SameLineSameFields(ks: seq<Bytes>, fields: map<Bytes, Bytes>, ls: seq<Bytes>, others: map<Bytes, Bytes>)
    requires (forall k :: k in ks <==> k in fields) && (forall k :: k in ls <==> k in others)
    requires RenderList(ks, fields) == RenderList(ls, others) && NothingCut(fields)
    ensures fields == others
  {
    ParseUndoesRender(ks, fields);
    ParseUndoesRender(ls, others);
    SamePairsSameFields(ks, fields, ls, others);
  }

  lemma SamePairsSameFields(ks: seq<Bytes>, fields: map<Bytes, Bytes>, ls: seq<Bytes>, others: map<Bytes, Bytes>)
    requires forall k :: k in ks <==> k in fields
    requires forall k :: k in ls <==> k in others
    requires Pairs(ks, fields) == Pairs(ls, others) && NothingCut(fields)
    ensures fields == others
  {
    hide Shape, Truncated;
    assert |ks| == |ls|;
    forall i | 0 <= i < |ks| ensures ks[i] == ls[i] && fields[ks[i]] == others[ls[i]] {
      assert Pairs(ks, fields)[i] == Pairs(ls, others)[i];
      assert ks[i] in ks;
      SameShape(ks[i], ls[i]);
      SameShape(fields[ks[i]], others[ls[i]]);
    }
    assert ks == ls;
    assert fields.Keys == others.Keys;
  }

  lemma SameShape(s: Bytes, t: Bytes)
    requires Shape(s) == Shape(t) && !Truncated(Decode(s))
    ensures s == t
  {
    SameRenderingSameInput(s, t);
  }

  // ---- the whole line is safe ----

  lemma SafeConcat(a: Text, b: Text)
    requires AllLineSafe(a) && AllLineSafe(b)
    ensures AllLineSafe(a + b)
  {
  }

  lemma FieldIsSafe(p: Pair)
    requires AllLineSafe(p.key) && AllLineSafe(p.value)
    ensures AllLineSafe(Field(p))
  {
  }

  lemma SeparatorIsSafe(some: bool)
    ensures AllLineSafe(if some then [COMMA, SPACE] else [])
  {
  }

  ghost predicate AllSafe(ps: seq<Pair>) {
    forall i :: 0 <= i < |ps| ==> AllLineSafe(ps[i].key) && AllLineSafe(ps[i].value)
  }

  lemma {:induction false} PairsAreSafe(ps: seq<Pair>)
    requires AllSafe(ps)
    ensures AllLineSafe(RenderPairs(ps))
  {
    if ps != [] {
      hide Field, AllLineSafe;
      var n := |ps| - 1;
      PairsAreSafe(ps[..n]);
      FieldIsSafe(ps[n]);
      SeparatorIsSafe(n > 0);
      SafeConcat(RenderPairs(ps[..n]), if n > 0 then [COMMA, SPACE] else []);
      SafeConcat(RenderPairs(ps[..n]) + (if n > 0 then [COMMA, SPACE] else []), Field(ps[n]));
    }
  }

  lemma ShapeIsSafe(s: Bytes)
    ensures AllLineSafe(Shape(s))
  {
    hide Sanitized, Decode;
    DecodedUnitsAreValid(s);
    SanitizedIsLineSafe(Decode(s));
  }

  /** The whole line holds no control character and no separator that breaks a line. */
  lemma LineIsSafe(keys: seq<Bytes>, fields: map<Bytes, Bytes>)
    requires forall k :: k in keys ==> k in fields
    ensures AllLineSafe(RenderList(keys, fields))
    ensures forall r :: r in RenderList(keys, fields) ==> r >= 0x20 && !(0x7F <= r < 0xA0) && r !in {0x2028, 0x2029}
  {
    hide Shape, AllLineSafe, RenderPairs;
    forall i | 0 <= i < |keys| ensures AllLineSafe(Shape(keys[i])) && AllLineSafe(Shape(fields[keys[i]])) {
      ShapeIsSafe(keys[i]);
      ShapeIsSafe(fields[keys[i]]);
    }
    PairsAreSafe(Pairs(keys, fields));
    SafeMeans(RenderList(keys, fields));
  }
}
