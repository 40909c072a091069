/** Exactly which inputs sanitizeField leaves as they are, against what fieldNeedsSanitizing says of them
    (logger/sanitize.go). */
module FixedPoints {
  import opened Utf8
  import opened Sanitize

  /** The rendering is the input itself. */
  ghost predicate Unchanged(us: seq<Unit>) {
    Runes(Sanitized(us)) == us
  }

  function Repeat(u: Unit, n: nat): seq<Unit> {
    seq(n, i => u)
  }

  predicate AllPlain(us: seq<Unit>) {
    forall i :: 0 <= i < |us| ==> Plain(us[i])
  }

  /** k units shown: some plain ones, then backslashes, which render as twice as many; the input goes on with
      those extra backslashes and the very marker its own truncation writes. */
  ghost predicate ImitatesItsCut(us: seq<Unit>, plain: nat, k: nat) {
    && plain <= k <= |us|
    && CAP <= plain + 2 * (k - plain)
    && (if k > plain then plain + 2 * (k - plain) - 2 < CAP else plain - 1 < CAP)
    && AllPlain(us[..plain])
    && us == us[..plain] + Repeat(Rune(BACKSLASH), 2 * (k - plain)) + Runes(Marker(k, |us|))
  }

  /** Plain units followed by n backslashes, and what they render as. */
  function Form(head: seq<Unit>, n: nat): seq<Unit> {
    head + Repeat(Rune(BACKSLASH), n)
  }

  function Doubled(head: seq<Unit>, n: nat): (t: Text)
    ensures |t| == |head| + 2 * n
    ensures forall i :: |head| <= i < |t| ==> t[i] == BACKSLASH
  {
    PlainText(head) + seq(2 * n, i => BACKSLASH)
  }

  lemma {:induction false} RenderForm(head: seq<Unit>, n: nat)
    requires AllPlain(head)
    ensures Render(Form(head, n)) == Doubled(head, n)
  {
    if n == 0 {
      assert Form(head, 0) == head;
      RenderOfPlain(head);
    } else {
      RenderForm(head, n - 1);
      assert Form(head, n) == Form(head, n - 1) + [Rune(BACKSLASH)];
      ConcatRender(Form(head, n - 1), Rune(BACKSLASH));
      assert Escape(Rune(BACKSLASH)) == [BACKSLASH, BACKSLASH];
    }
  }

  lemma RunesOfDoubled(head: seq<Unit>, n: nat)
    requires AllPlain(head)
    ensures Runes(Doubled(head, n)) == Form(head, 2 * n)
  {
    forall i | 0 <= i < |head| + 2 * n ensures Runes(Doubled(head, n))[i] == Form(head, 2 * n)[i] {
      if i < |head| { assert Plain(head[i]); }
    }
  }

  lemma RunesConcat(s: Text, t: Text)
    ensures Runes(s + t) == Runes(s) + Runes(t)
  {
  }

  // ---- an imitation is unchanged ----

  lemma ImitationPrefix(us: seq<Unit>, plain: nat, k: nat, i: nat)
    requires ImitatesItsCut(us, plain, k) && i <= k
    ensures i >= plain ==> us[..i] == Form(us[..plain], i - plain)
    ensures |Render(us[..i])| == if i <= plain then i else plain + 2 * (i - plain)
  {
    hide Marker, Render;
    if i >= plain {
      assert us[..i] == Form(us[..plain], i - plain);
      RenderForm(us[..plain], i - plain);
    } else {
      assert us[..i] == us[..plain][..i];
      RenderOfPlain(us[..i]);
    }
  }

  lemma MarkerIsLong(shown: nat, total: nat)
    ensures |Marker(shown, total)| >= 31
  {
  }

  lemma ImitationIsUnchanged(us: seq<Unit>, plain: nat, k: nat)
    requires ImitatesItsCut(us, plain, k)
    ensures Unchanged(us) && Needs(us)
  {
    hide Marker, Render, Doubled, ShownFrom, PlainRune;
    MarkerIsLong(k, |us|);
    assert |us| == plain + 2 * (k - plain) + |Marker(k, |us|)|;
    forall i | 0 <= i < k ensures |Render(us[..i])| < CAP {
      ImitationPrefix(us, plain, k, i);
    }
    ImitationPrefix(us, plain, k, k);
    ShownAt(us, k);
    RenderForm(us[..plain], k - plain);
    RunesConcat(Doubled(us[..plain], k - plain), Marker(k, |us|));
    RunesOfDoubled(us[..plain], k - plain);
  }

  // ---- an unchanged input is an imitation ----

  ghost function FirstEscaped(us: seq<Unit>): (n: nat)
    ensures n <= |us| && AllPlain(us[..n])
    ensures n < |us| ==> !Plain(us[n])
  {
    if us == [] then 0
    else if Plain(us[0]) then
      var m := FirstEscaped(us[1..]);
      assert us[..m + 1] == [us[0]] + us[1..][..m];
      m + 1
    else 0
  }

  lemma {:induction false} RenderPrefix(us: seq<Unit>, i: nat)
    requires i <= |us|
    ensures Render(us[..i]) <= Render(us)
    decreases |us| - i
  {
    hide Escape;
    if i < |us| {
      RenderPrefix(us, i + 1);
      assert us[..i + 1] == us[..i] + [us[i]];
      ConcatRender(us[..i], us[i]);
    } else {
      assert us[..i] == us;
    }
  }

  lemma ShownPrefix(us: seq<Unit>, i: nat)
    requires i <= Shown(us)
    ensures Render(us[..i]) <= Sanitized(us)
  {
    hide Render, Marker, ShownFrom;
    assert us[..Shown(us)][..i] == us[..i];
    RenderPrefix(us[..Shown(us)], i);
  }

  lemma UnchangedUnit(us: seq<Unit>, i: nat, shown: Text)
    requires Unchanged(us) && shown <= Sanitized(us) && i < |shown| && i < |us|
    ensures us[i] == Rune(shown[i])
  {
    hide Sanitized;
    assert Runes(Sanitized(us))[i] == us[i];
  }

  /** An unchanged input is backslashes from its first escaped unit to the cut: each rendered pair forces the
      next unit to be one too. */
  lemma {:induction false} BackslashesToTheCut(us: seq<Unit>, plain: nat, i: nat)
    requires Unchanged(us) && plain <= i <= Shown(us)
    requires AllPlain(us[..plain]) && (plain < |us| ==> !Plain(us[plain]))
    ensures us[..i] == Form(us[..plain], i - plain)
  {
    hide Unchanged, Render, Sanitized, Escape, ShownFrom, PlainRune;
    if i > plain {
      BackslashesToTheCut(us, plain, i - 1);
      RenderForm(us[..plain], i - 1 - plain);
      var before := us[..i - 1];
      if i - 1 == plain {
        assert us[..i] == before + [us[plain]];
        ConcatRender(before, us[plain]);
        ShownPrefix(us, i);
        UnchangedUnit(us, plain, Render(us[..i]));
      } else {
        ShownPrefix(us, i - 1);
        UnchangedUnit(us, i - 1, Render(before));
      }
      assert us[i - 1] == Rune(BACKSLASH);
      assert us[..i] == before + [us[i - 1]];
    }
  }

  lemma UnchangedUnlessCut(us: seq<Unit>)
    requires Unchanged(us)
    ensures !Truncated(us) ==> !Needs(us)
  {
    hide Escape, Marker, ShownFrom, PlainRune;
    if !Truncated(us) {
      ShownIsFirstAtCap(us);
      assert us[..|us|] == us;
      RenderNeverShrinks(us);
      if |us| > 0 {
        RenderNeverShrinks(us[..|us| - 1]);
      }
    }
  }

  lemma FormAtTheCut(us: seq<Unit>) returns (plain: nat)
    requires Unchanged(us)
    ensures plain <= Shown(us) && AllPlain(us[..plain])
    ensures us[..Shown(us)] == Form(us[..plain], Shown(us) - plain)
  {
    hide Unchanged, Plain, ShownFrom;
    var k := Shown(us);
    var first := FirstEscaped(us);
    if first < k {
      plain := first;
      BackslashesToTheCut(us, plain, k);
    } else {
      plain := k;
      assert us[..k] == us[..first][..k];
      assert us[..k] == Form(us[..k], 0);
    }
  }

  lemma SomethingIsShown(us: seq<Unit>)
    requires us != []
    ensures Shown(us) > 0
  {
  }

  lemma UnchangedIsImitation(us: seq<Unit>) returns (plain: nat)
    requires Unchanged(us) && Needs(us)
    ensures ImitatesItsCut(us, plain, Shown(us))
  {
    hide Render, Marker, ShownFrom, PlainRune, Doubled, Needs;
    var k := Shown(us);
    UnchangedUnlessCut(us);
    assert Truncated(us);
    ShownIsFirstAtCap(us);
    plain := FormAtTheCut(us);
    var head := us[..plain];
    RenderForm(head, k - plain);
    RunesConcat(Doubled(head, k - plain), Marker(k, |us|));
    RunesOfDoubled(head, k - plain);
    assert us == Form(head, 2 * (k - plain)) + Runes(Marker(k, |us|));
    SomethingIsShown(us);
    assert |Render(us[..k - 1])| < CAP;
    if k > plain {
      assert us[..k - 1] == us[..k][..k - 1] == Form(head, k - 1 - plain);
      RenderForm(head, k - 1 - plain);
    } else {
      assert us[..k - 1] == head[..k - 1];
      RenderOfPlain(us[..k - 1]);
    }
  }

  /** sanitizeField leaves an input as it is exactly when fieldNeedsSanitizing says no, or when the input
      imitates its own truncation. */
  lemma UnchangedExactlyWhen(us: seq<Unit>)
    ensures Unchanged(us) && Needs(us) <==> exists plain: nat, k: nat :: ImitatesItsCut(us, plain, k)
    ensures !Needs(us) ==> Unchanged(us)
  {
    if !Needs(us) {
      PlainTextIsItsOwnRendering(us);
    }
    if Unchanged(us) && Needs(us) {
      var plain := UnchangedIsImitation(us);
    }
    forall plain: nat, k: nat | ImitatesItsCut(us, plain, k) ensures Unchanged(us) && Needs(us) {
      ImitationIsUnchanged(us, plain, k);
    }
  }

  /** Such an input exists: 1024 plain runes and the marker that says 1024 of 1063 are shown. */
  lemma AnUnchangedInputThatNeedsSanitizing() returns (us: seq<Unit>)
    ensures Unchanged(us) && Needs(us)
  {
    var head := Repeat(Rune(0x61), 1024);
    assert |Decimal(1063)| == 4 && |Decimal(1024)| == 4 by {
      assert |Decimal(10)| == 2;
      assert |Decimal(106)| == 3 && |Decimal(102)| == 3;
    }
    assert |Marker(1024, 1063)| == 39;
    us := head + Runes(Marker(1024, 1063));
    assert us[..1024] == head && us == head + Repeat(Rune(BACKSLASH), 0) + Runes(Marker(1024, 1063));
    ImitationIsUnchanged(us, 1024, 1024);
  }
}
