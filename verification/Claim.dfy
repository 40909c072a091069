/** The claim decisions, the markers and the clamp their caller-supplied text goes through
    (slippy/claim.go). */
module Claim {
  import opened Status
  import opened Rows
  import opened Utf8

  const MAX_MARKER_REASON_LEN := 512
  const MAX_MARKER_ACTOR_LEN := 128
  const MAX_MARKER_FIELD_BYTES := 1024
  const ELLIPSIS := 0x2026

  // ---- clampRunes ----

  /** []rune(s): an undecodable byte becomes U+FFFD. */
  function ToRunes(us: seq<Unit>): (rs: seq<int>)
    ensures |rs| == |us|
  {
    seq(|us|, i requires 0 <= i < |us| => if us[i].Rune? && IsScalar(us[i].r) then us[i].r else 0xFFFD)
  }

  function RunesToBytes(rs: seq<int>): Bytes {
    Encode(Runes(rs))
  }

  /** The longest prefix of rs that leaves room for the ellipsis. */
  function Fit(rs: seq<int>): seq<int> {
    if |rs| > 0 && |RunesToBytes(rs)| > MAX_MARKER_FIELD_BYTES - 3 then Fit(rs[..|rs| - 1]) else rs
  }

  predicate FitsMarker(s: Bytes, limit: nat) {
    |Decode(s)| <= limit && |s| <= MAX_MARKER_FIELD_BYTES
  }

  function Kept(s: Bytes, limit: nat): seq<int>
    requires limit >= 1
  {
    var rs := ToRunes(Decode(s));
    Fit(if |rs| > limit then rs[..limit - 1] else rs)
  }

  function Clamped(s: Bytes, limit: nat): Bytes
    requires limit >= 1
  {
    if FitsMarker(s, limit) then s else RunesToBytes(Kept(s, limit) + [ELLIPSIS])
  }

  /** clampRunes. */
  method ClampRunes(s: Bytes, limit: nat) returns (r: Bytes)
    requires limit >= 1
    ensures r == Clamped(s, limit)
  {
    if |Decode(s)| <= limit && |s| <= MAX_MARKER_FIELD_BYTES {
      return s;
    }
    var runes := ToRunes(Decode(s));
    if |runes| > limit {
      runes := runes[..limit - 1];
    }
    ghost var start := runes;
    while |runes| > 0 && |RunesToBytes(runes)| > MAX_MARKER_FIELD_BYTES - 3
      invariant Fit(runes) == Fit(start)
      decreases |runes|
    {
      runes := runes[..|runes| - 1];
    }
    r := RunesToBytes(runes + [ELLIPSIS]);
  }

  lemma {:induction false} EncodeConcat(a: seq<Unit>, b: seq<Unit>)
    ensures Encode(a + b) == Encode(a) + Encode(b)
  {
    if a == [] {
      assert a + b == b;
    } else {
      assert (a + b)[1..] == a[1..] + b;
      EncodeConcat(a[1..], b);
    }
  }

  lemma {:induction false} FitIsLongestPrefix(rs: seq<int>)
    ensures |Fit(rs)| <= |rs| && Fit(rs) == rs[..|Fit(rs)|]
    ensures |RunesToBytes(Fit(rs))| <= MAX_MARKER_FIELD_BYTES - 3
    ensures forall k :: |Fit(rs)| < k <= |rs| ==> |RunesToBytes(rs[..k])| > MAX_MARKER_FIELD_BYTES - 3
    decreases |rs|
  {
    if |rs| > 0 && |RunesToBytes(rs)| > MAX_MARKER_FIELD_BYTES - 3 {
      var shorter := rs[..|rs| - 1];
      FitIsLongestPrefix(shorter);
      forall k | |Fit(rs)| < k <= |rs| ensures |RunesToBytes(rs[..k])| > MAX_MARKER_FIELD_BYTES - 3 {
        if k == |rs| { assert rs[..k] == rs; } else { assert rs[..k] == shorter[..k]; }
      }
    } else {
      assert rs[..|rs|] == rs;
    }
  }

  lemma {:induction false} RunesNeverShrink(us: seq<Unit>)
    requires ValidUnits(us)
    ensures |RunesToBytes(ToRunes(us))| >= |Encode(us)|
  {
    if us != [] {
      assert ToRunes(us)[1..] == ToRunes(us[1..]);
      assert Runes(ToRunes(us))[1..] == Runes(ToRunes(us[1..]));
      RunesNeverShrink(us[1..]);
    }
  }

  /** What a cut keeps: the longest rune prefix that respects both bounds, and never the whole text. */
  lemma KeptIsLongestPrefix(s: Bytes, limit: nat)
    requires limit >= 1 && !FitsMarker(s, limit)
    ensures var rs, k := ToRunes(Decode(s)), |Kept(s, limit)|;
            && k < |rs| && k <= limit - 1 && Kept(s, limit) == rs[..k]
            && |RunesToBytes(rs[..k])| <= MAX_MARKER_FIELD_BYTES - 3
            && (k == limit - 1 || |RunesToBytes(rs[..k + 1])| > MAX_MARKER_FIELD_BYTES - 3)
  {
    hide DecodeFirst, Fit, RunesToBytes;
    var rs := ToRunes(Decode(s));
    var start := if |rs| > limit then rs[..limit - 1] else rs;
    var k := |Kept(s, limit)|;
    FitIsLongestPrefix(start);
    assert Kept(s, limit) == rs[..k];
    if k < |start| { assert start[..k + 1] == rs[..k + 1]; }
    if |rs| <= limit {
      LongTextStaysLong(s);
      assert rs[..|rs|] == rs;
    }
  }

  lemma LongTextStaysLong(s: Bytes)
    ensures |RunesToBytes(ToRunes(Decode(s)))| >= |s|
  {
    DecodedUnitsAreValid(s);
    EncodeUndoesDecode(s);
    RunesNeverShrink(Decode(s));
  }

  lemma BytesWithEllipsis(rs: seq<int>)
    requires AllScalars(rs)
    ensures |RunesToBytes(rs + [ELLIPSIS])| == |RunesToBytes(rs)| + 3
    ensures Decode(RunesToBytes(rs + [ELLIPSIS])) == Runes(rs + [ELLIPSIS])
  {
    DecodeUndoesEncode(rs + [ELLIPSIS]);
    assert Runes(rs + [ELLIPSIS]) == Runes(rs) + Runes([ELLIPSIS]);
    EncodeConcat(Runes(rs), Runes([ELLIPSIS]));
    assert Encode(Runes([ELLIPSIS])) == EncodeRune(ELLIPSIS);
  }

  /** Both bounds hold of every clamped text, a cut shows exactly the kept runes and an ellipsis, and only
      an empty text clamps to an empty one. */
  lemma ClampKeepsBothBounds(s: Bytes, limit: nat)
    requires limit >= 1
    ensures |Decode(Clamped(s, limit))| <= limit && |Clamped(s, limit)| <= MAX_MARKER_FIELD_BYTES
    ensures Clamped(s, limit) == [] <==> s == []
    ensures |Decode(s)| <= limit && |s| <= 1024 ==> Clamped(s, limit) == s
    ensures !FitsMarker(s, limit) ==> Decode(Clamped(s, limit)) == Runes(Kept(s, limit) + [ELLIPSIS])
  {
    if !FitsMarker(s, limit) {
      hide DecodeFirst, RunesToBytes, Kept;
      KeptIsLongestPrefix(s, limit);
      BytesWithEllipsis(Kept(s, limit));
    }
  }

  // ---- markers ----

  /** "slippy-library". */
  const LIBRARY_ACTOR: Bytes := [0x73, 0x6C, 0x69, 0x70, 0x70, 0x79, 0x2D, 0x6C, 0x69, 0x62, 0x72, 0x61, 0x72, 0x79]

  /** markerActor: clamped, then defaulted. */
  function MarkerActor(actor: Bytes): (a: Bytes) {
    var clamped := Clamped(actor, MAX_MARKER_ACTOR_LEN);
    if clamped == [] then LIBRARY_ACTOR else clamped
  }

  /** A marker always names somebody, within both bounds. */
  lemma MarkerActorIsBounded(actor: Bytes)
    ensures MarkerActor(actor) != []
    ensures |MarkerActor(actor)| <= MAX_MARKER_FIELD_BYTES && |Decode(MarkerActor(actor))| <= MAX_MARKER_ACTOR_LEN
  {
    ClampKeepsBothBounds(actor, MAX_MARKER_ACTOR_LEN);
    if Clamped(actor, MAX_MARKER_ACTOR_LEN) == [] {
      ClampKeepsBothBounds(LIBRARY_ACTOR, MAX_MARKER_ACTOR_LEN);
    }
  }

  function ClaimMarker(actor: Bytes, at: int): Entry {
    Entry(CLAIM_MARKER, "", Running, at, MarkerActor(actor), "")
  }

  function ReleaseMarker(actor: Bytes, at: int): Entry {
    Entry(RELEASE_MARKER, "", Completed, at, MarkerActor(actor), "")
  }

  /** The marker a terminal status write leaves: a release by the library. */
  function EndMarker(at: int): Entry {
    Entry(RELEASE_MARKER, "", Completed, at, LIBRARY_ACTOR, "")
  }

  /** The library's own name passes both bounds as it is. */
  lemma EndMarkerIsTheReleaseMarker(at: int)
    ensures EndMarker(at) == ReleaseMarker(LIBRARY_ACTOR, at)
  {
    hide DecodeFirst;
    assert |Decode(LIBRARY_ACTOR)| <= |LIBRARY_ACTOR|;
  }

  /** What each marker says beside its text: the claim's reads running under the claimant's name, the release's
      completed; a name within both bounds stands as it is, and nobody is the library. */
  lemma MarkersSay(actor: Bytes, at: int)
    ensures var e := ClaimMarker(actor, at); e.step == "slip_claimed" && e.component == "" && e.status == Running && e.at == at
    ensures var e := ReleaseMarker(actor, at); e.step == "slip_released" && e.component == "" && e.status == Completed && e.at == at
    ensures ClaimMarker(actor, at).actor == ReleaseMarker(actor, at).actor
    ensures actor != [] && |Decode(actor)| <= 128 && |actor| <= 1024 ==> ClaimMarker(actor, at).actor == actor
    ensures actor == [] ==> ClaimMarker(actor, at).actor == LIBRARY_ACTOR
  {
    hide Decode;
    assert actor == [] ==> |Decode([])| == 0 by { EmptyDecodes(); }
  }

  lemma EmptyDecodes()
    ensures Decode([]) == []
  {
  }

  // ---- decisions ----

  /** RunInFlight: both maps in any order. */
  method RunInFlight(row: Row) returns (inFlight: bool)
    ensures inFlight <==> InFlight(row)
    ensures inFlight <==>
            || (exists s :: s in row.steps && s != "push_parsed" && row.steps[s] in {Running, Held})
            || (exists a, c :: a in row.aggregates && a != "push_parsed" && c in row.aggregates[a] && c.status in {Running, Held})
  {
    InFlightMeans(row);
    var steps := row.steps.Keys;
    while steps != {}
      invariant steps <= row.steps.Keys
      invariant forall s :: s in row.steps && s !in steps && s != PUSH_PARSED ==> !row.steps[s].IsRunning()
      decreases steps
    {
      var s :| s in steps;
      steps := steps - {s};
      if s != PUSH_PARSED && row.steps[s].IsRunning() {
        return true;
      }
    }
    var aggregates := row.aggregates.Keys;
    while aggregates != {}
      invariant aggregates <= row.aggregates.Keys
      invariant forall a :: a in row.aggregates && a !in aggregates && a != PUSH_PARSED ==> !ComponentInFlight(row.aggregates[a])
      decreases aggregates
    {
      var a :| a in aggregates;
      aggregates := aggregates - {a};
      if a != PUSH_PARSED {
        var items := row.aggregates[a];
        for i := 0 to |items|
          invariant forall j :: 0 <= j < i ==> !items[j].status.IsRunning()
        {
          if items[i].status.IsRunning() {
            assert ComponentInFlight(items);
            return true;
          }
        }
      }
    }
    return false;
  }

  lemma InFlightMeans(row: Row)
    ensures InFlight(row) <==>
            || (exists s :: s in row.steps && s != "push_parsed" && row.steps[s] in {Running, Held})
            || (exists a, c :: a in row.aggregates && a != "push_parsed" && c in row.aggregates[a] && c.status in {Running, Held})
  {
    forall a | a in row.aggregates
      ensures ComponentInFlight(row.aggregates[a]) <==> exists c :: c in row.aggregates[a] && c.status in {Running, Held}
    {
      if c :| c in row.aggregates[a] && c.status in {Running, Held} {
        var i :| 0 <= i < |row.aggregates[a]| && row.aggregates[a][i] == c;
      }
      if i :| 0 <= i < |row.aggregates[a]| && row.aggregates[a][i].status.IsRunning() {
        assert row.aggregates[a][i] in row.aggregates[a];
      }
    }
  }

  datatype ClaimRefusal = NoStatusToRecord | OutsideExpected | RunInFlightNotNamed

  datatype ClaimDecision = ClaimRefused(why: ClaimRefusal) | ClaimAgreed(prior: SlipStatus, write: bool)

  function DecideClaim(status: SlipStatus, claimedFrom: SlipStatus, inFlight: bool,
                       expected: seq<SlipStatus>): ClaimDecision {
    if status.SlipUnset? then ClaimRefused(NoStatusToRecord)
    else if |expected| > 0 && status !in expected then ClaimRefused(OutsideExpected)
    else if !claimedFrom.SlipUnset? then ClaimAgreed(claimedFrom, false)
    else if inFlight && status !in expected then ClaimRefused(RunInFlightNotNamed)
    else ClaimAgreed(status, true)
  }

  datatype ReleaseDecision = NotClaimed | Keep | Clear

  function DecideRelease(row: Row): ReleaseDecision {
    if row.claimedFrom.SlipUnset? then NotClaimed
    else if InFlight(row) then Keep
    else Clear
  }

  /** DecideReset: true when the in-place reset is allowed. */
  predicate DecideReset(claimedFrom: SlipStatus) {
    claimedFrom.SlipUnset?
  }
}
