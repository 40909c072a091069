/** Substring search on strings. */
module Strings {

  /** strings.Contains. */
  predicate Contains(s: string, part: string)
    decreases |s|
  {
    part <= s || (s != [] && Contains(s[1..], part))
  }

  lemma {:induction false} ContainsMiddle(before: string, part: string, after: string)
    ensures Contains(before + part + after, part)
  {
    var s := before + part + after;
    if before == [] {
      assert part <= s;
    } else {
      assert s[1..] == before[1..] + part + after;
      ContainsMiddle(before[1..], part, after);
    }
  }

  lemma {:induction false} HoldsItsCharacters(s: string, part: string, c: char)
    requires Contains(s, part) && c in part
    ensures c in s
  {
    if part <= s {
      var i :| 0 <= i < |part| && part[i] == c;
      assert s[i] == c;
    } else {
      HoldsItsCharacters(s[1..], part, c);
    }
  }

  /** A string that lacks one of the part's characters does not contain the part. */
  lemma LacksCharacter(s: string, part: string, c: char)
    requires c in part && c !in s
    ensures !Contains(s, part)
  {
    if Contains(s, part) {
      HoldsItsCharacters(s, part, c);
      assert false;
    }
  }

  lemma PrefixStops(before: string, c: char, after: string, part: string)
    requires part <= before + [c] + after
    ensures part <= before || c in part
  {
    if |part| > |before| {
      assert part[|before|] == (before + [c] + after)[|before|];
    }
  }

  /** A character the part does not have splits the search. */
  lemma {:induction false} SplitAt(before: string, c: char, after: string, part: string)
    requires c !in part && part != []
    ensures Contains(before + [c] + after, part) <==> Contains(before, part) || Contains(after, part)
  {
    var s := before + [c] + after;
    if part <= s {
      PrefixStops(before, c, after, part);
    }
    if before == [] {
      assert s[1..] == after;
    } else {
      assert s[1..] == before[1..] + [c] + after;
      SplitAt(before[1..], c, after, part);
      assert part <= before ==> part <= s;
    }
  }
}
