/** The routing_slips columns a configuration generates, as the store lists them
    (slippy/postgres_store.go, slippy/columns.go). */
module SlipColumns {
  import opened Rows
  import opened Pipeline

  const MAX_IDENTIFIER := 63

  /** What Postgres makes of an unquoted identifier: folded to lower case and cut at 63 bytes. */
  function PgName(column: string): string {
    var folded := ToLower(column);
    if |folded| > MAX_IDENTIFIER then folded[..MAX_IDENTIFIER] else folded
  }

  function StatusColumns(steps: seq<StepConfig>): seq<string> {
    seq(|steps|, i requires 0 <= i < |steps| => StatusColumn(steps[i].name))
  }

  function AggregateColumns(steps: seq<StepConfig>): seq<string> {
    if steps == [] then []
    else
      var last := steps[|steps| - 1];
      AggregateColumns(steps[..|steps| - 1]) + if last.aggregates != "" then [last.name] else []
  }

  function Columns(steps: seq<StepConfig>): seq<string> {
    FIXED_COLUMNS + StatusColumns(steps) + AggregateColumns(steps)
  }

  function SelectColumns(steps: seq<StepConfig>): seq<string> {
    Columns(steps) + [CLAIMED_FROM]
  }

  method ListAggregateColumns(steps: seq<StepConfig>) returns (cols: seq<string>)
    ensures cols == AggregateColumns(steps)
  {
    cols := [];
    for i := 0 to |steps|
      invariant cols == AggregateColumns(steps[..i])
    {
      assert steps[..i + 1][..i] == steps[..i];
      if steps[i].aggregates != "" {
        cols := cols + [steps[i].name];
      }
    }
    assert steps[..|steps|] == steps;
  }

  /** slipColumns. */
  method SlipColumns(steps: seq<StepConfig>) returns (cols: seq<string>)
    ensures cols == Columns(steps)
  {
    cols := FIXED_COLUMNS;
    for i := 0 to |steps|
      invariant cols == FIXED_COLUMNS + StatusColumns(steps)[..i]
    {
      cols := cols + [StatusColumn(steps[i].name)];
    }
    assert StatusColumns(steps)[..|steps|] == StatusColumns(steps);
    for i := 0 to |steps|
      invariant cols == FIXED_COLUMNS + StatusColumns(steps) + AggregateColumns(steps[..i])
    {
      assert steps[..i + 1][..i] == steps[..i];
      if steps[i].aggregates != "" {
        cols := cols + [steps[i].name];
      }
    }
    assert steps[..|steps|] == steps;
  }

  // ---- no two columns are one identifier ----

  ghost predicate DistinctFolded(cols: seq<string>) {
    forall i, j :: 0 <= i < j < |cols| ==> ToLower(cols[i]) != ToLower(cols[j])
  }

  ghost predicate Apart(xs: seq<string>, ys: seq<string>) {
    forall x, y :: x in xs && y in ys ==> ToLower(x) != ToLower(y)
  }

  lemma AppendDistinct(xs: seq<string>, ys: seq<string>)
    requires DistinctFolded(xs) && DistinctFolded(ys) && Apart(xs, ys)
    ensures DistinctFolded(xs + ys)
  {
    hide ToLower;
    var cols := xs + ys;
    forall i, j | 0 <= i < j < |cols| ensures ToLower(cols[i]) != ToLower(cols[j]) {
      if i < |xs| <= j {
        assert xs[i] in xs && ys[j - |xs|] in ys;
      }
    }
  }

  predicate AlreadyLower(s: string) {
    forall i :: 0 <= i < |s| ==> s[i] == '_' || 'a' <= s[i] <= 'z'
  }

  lemma LowerStays(s: string)
    requires AlreadyLower(s)
    ensures ToLower(s) == s
  {
  }

  lemma FixedAreLower()
    ensures forall c :: c in FIXED_COLUMNS ==> AlreadyLower(c)
    ensures AlreadyLower(CLAIMED_FROM)
  {
  }

  /** No fixed column ends the way a status column does. */
  predicate NoStatusSuffix(c: string) {
    |c| < 8 || c[|c| - 2] != 'u'
  }

  lemma FixedHaveNoSuffix()
    ensures forall c :: c in FIXED_COLUMNS ==> NoStatusSuffix(c)
    ensures NoStatusSuffix(CLAIMED_FROM)
  {
  }

  lemma StatusColumnSuffix(name: string)
    requires name != ""
    ensures !NoStatusSuffix(ToLower(StatusColumn(name)))
  {
    var s := StatusColumn(name);
    assert s[|s| - 2] == "_status"[5] == 'u';
  }

  lemma FixedDistinct()
    ensures DistinctFolded(FIXED_COLUMNS)
  {
    FixedAreLower();
    forall i, j | 0 <= i < j < |FIXED_COLUMNS| ensures ToLower(FIXED_COLUMNS[i]) != ToLower(FIXED_COLUMNS[j]) {
      assert FIXED_COLUMNS[i] in FIXED_COLUMNS && FIXED_COLUMNS[j] in FIXED_COLUMNS;
      LowerStays(FIXED_COLUMNS[i]);
      LowerStays(FIXED_COLUMNS[j]);
      FixedDiffer(i, j);
    }
  }

  lemma FixedDiffer(i: nat, j: nat)
    requires i < j < |FIXED_COLUMNS|
    ensures FIXED_COLUMNS[i] != FIXED_COLUMNS[j]
  {
    assert |"correlation_id"| == 14 && |"repository"| == 10 && |"branch"| == 6 && |"commit_sha"| == 10
           && |"created_at"| == 10 && |"updated_at"| == 10 && |"status"| == 6 && |"step_details"| == 12 && |"state_history"| == 13;
    assert "repository"[0] == 'r' && "commit_sha"[1] == 'o' && "created_at"[1] == 'r' && "updated_at"[0] == 'u'
           && "commit_sha"[0] == 'c' && "created_at"[0] == 'c' && "branch"[0] == 'b' && "status"[0] == 's';
  }

  lemma {:induction false} AggregateColumnsAre(steps: seq<StepConfig>, c: string)
    requires c in AggregateColumns(steps)
    ensures exists i :: 0 <= i < |steps| && steps[i].name == c && steps[i].aggregates != ""
  {
    var n := |steps| - 1;
    if !(steps[n].aggregates != "" && steps[n].name == c) {
      AggregateColumnsAre(steps[..n], c);
      var i :| 0 <= i < n && steps[..n][i].name == c && steps[..n][i].aggregates != "";
      assert steps[i] == steps[..n][i];
    }
  }

  lemma StatusClaim(step: StepConfig)
    ensures ToLower(StatusColumn(step.name)) in Claims(step)
    ensures step.aggregates != "" ==> ToLower(step.name) in Claims(step)
  {
    ClaimsAre(step);
  }

  lemma StatusColumnsDistinct(steps: seq<StepConfig>)
    requires NoSharedColumn(steps)
    ensures DistinctFolded(StatusColumns(steps))
  {
    hide ToLower, Claims;
    var cols := StatusColumns(steps);
    forall i, j | 0 <= i < j < |cols| ensures ToLower(cols[i]) != ToLower(cols[j]) {
      StatusClaim(steps[i]);
      StatusClaim(steps[j]);
      assert Claims(steps[i]) !! Claims(steps[j]);
    }
  }

  lemma {:induction false} AggregateColumnsDistinct(steps: seq<StepConfig>)
    requires NoSharedColumn(steps)
    ensures DistinctFolded(AggregateColumns(steps))
  {
    hide ToLower, Claims;
    if steps != [] {
      var n := |steps| - 1;
      AggregateColumnsDistinct(steps[..n]);
      if steps[n].aggregates != "" {
        forall x | x in AggregateColumns(steps[..n]) ensures ToLower(x) != ToLower(steps[n].name) {
          AggregateColumnsAre(steps[..n], x);
          var i :| 0 <= i < n && steps[..n][i].name == x && steps[..n][i].aggregates != "";
          StatusClaim(steps[i]);
          StatusClaim(steps[n]);
          assert Claims(steps[i]) !! Claims(steps[n]);
        }
        AppendDistinct(AggregateColumns(steps[..n]), [steps[n].name]);
      }
    }
  }

  lemma StatusApartFromAggregates(steps: seq<StepConfig>)
    requires NoSharedColumn(steps)
    ensures Apart(StatusColumns(steps), AggregateColumns(steps))
  {
    hide ToLower, Claims;
    forall x, y | x in StatusColumns(steps) && y in AggregateColumns(steps) ensures ToLower(x) != ToLower(y) {
      var i :| 0 <= i < |steps| && StatusColumns(steps)[i] == x;
      AggregateColumnsAre(steps, y);
      var j :| 0 <= j < |steps| && steps[j].name == y && steps[j].aggregates != "";
      StatusClaim(steps[i]);
      StatusClaim(steps[j]);
      if i == j {
        OwnColumnsFoldApart(y);
      } else {
        var lo, hi := if i < j then i else j, if i < j then j else i;
        assert Claims(steps[lo]) !! Claims(steps[hi]);
      }
    }
  }

  lemma OwnColumnsFoldApart(name: string)
    ensures ToLower(StatusColumn(name)) != ToLower(name)
  {
    assert |ToLower(StatusColumn(name))| != |ToLower(name)|;
  }

  ghost predicate OwnColumn(c: string) {
    c in FIXED_COLUMNS || c == CLAIMED_FROM
  }

  lemma OwnApartFromGenerated(steps: seq<StepConfig>, own: seq<string>)
    requires GoodNames(steps) && forall c :: c in own ==> OwnColumn(c)
    ensures Apart(own, StatusColumns(steps)) && Apart(own, AggregateColumns(steps))
  {
    hide ToLower, IsIdentifier, ReservedMarkerStep, NoStatusSuffix;
    FixedAreLower();
    FixedHaveNoSuffix();
    forall x, y | x in own && y in StatusColumns(steps) ensures ToLower(x) != ToLower(y) {
      var i :| 0 <= i < |steps| && StatusColumns(steps)[i] == y;
      NameIsNotEmpty(steps, i);
      StatusColumnSuffix(steps[i].name);
      LowerStays(x);
    }
    forall x, y | x in own && y in AggregateColumns(steps) ensures ToLower(x) != ToLower(y) {
      AggregateColumnsAre(steps, y);
      var i :| 0 <= i < |steps| && steps[i].name == y;
      assert GoodName(steps[i].name);
      LowerStays(x);
    }
  }

  lemma NameIsNotEmpty(steps: seq<StepConfig>, i: nat)
    requires GoodNames(steps) && i < |steps|
    ensures steps[i].name != ""
  {
    assert GoodName(steps[i].name);
  }

  lemma ApartConcat(xs: seq<string>, ys: seq<string>, zs: seq<string>)
    requires Apart(xs, zs) && Apart(ys, zs)
    ensures Apart(xs + ys, zs)
  {
    hide ToLower;
  }

  lemma ApartSwaps(xs: seq<string>, ys: seq<string>)
    requires Apart(xs, ys)
    ensures Apart(ys, xs)
  {
  }

  lemma FixedApartFromClaimedFrom()
    ensures Apart(FIXED_COLUMNS, [CLAIMED_FROM])
  {
    hide ToLower;
    FixedAreLower();
    assert |CLAIMED_FROM| == 12 && CLAIMED_FROM[0] == 'c' && "step_details"[0] == 's';
    assert |"correlation_id"| == 14 && |"repository"| == 10 && |"branch"| == 6 && |"commit_sha"| == 10
           && |"created_at"| == 10 && |"updated_at"| == 10 && |"status"| == 6 && |"step_details"| == 12 && |"state_history"| == 13;
    forall x | x in FIXED_COLUMNS ensures ToLower(x) != ToLower(CLAIMED_FROM) {
      LowerStays(x);
      LowerStays(CLAIMED_FROM);
    }
  }

  /** The select list of an accepted configuration has no two names that fold to one identifier. */
  lemma SelectColumnsDistinct(steps: seq<StepConfig>)
    requires ValidConfig(steps)
    ensures DistinctFolded(SelectColumns(steps))
  {
    hide ToLower, ValidConfig, StatusColumns, AggregateColumns, Apart, DistinctFolded, GoodNames, NoSharedColumn;
    ValidParts(steps);
    var fixed, statuses, aggregates, claim := FIXED_COLUMNS, StatusColumns(steps), AggregateColumns(steps), [CLAIMED_FROM];
    FixedDistinct();
    StatusColumnsDistinct(steps);
    AggregateColumnsDistinct(steps);
    OwnApartFromGenerated(steps, fixed);
    OwnApartFromGenerated(steps, claim);
    ApartSwaps(claim, statuses);
    ApartSwaps(claim, aggregates);
    StatusApartFromAggregates(steps);
    FixedApartFromClaimedFrom();
    AppendDistinct(fixed, statuses);
    ApartConcat(fixed, statuses, aggregates);
    AppendDistinct(fixed + statuses, aggregates);
    ApartConcat(fixed, statuses, claim);
    ApartConcat(fixed + statuses, aggregates, claim);
    SingleDistinct(CLAIMED_FROM);
    AppendDistinct(fixed + statuses + aggregates, claim);
  }

  lemma SingleDistinct(c: string)
    ensures DistinctFolded([c])
  {
  }

  lemma ValidParts(steps: seq<StepConfig>)
    requires ValidConfig(steps)
    ensures GoodNames(steps) && NoSharedColumn(steps)
  {
  }

  // ---- every column is an identifier Postgres takes whole ----

  predicate Whole(c: string) {
    IsIdentifier(c) && |c| <= MAX_IDENTIFIER
  }

  lemma LowerIsIdentifier(c: string)
    requires AlreadyLower(c) && 1 <= |c| <= MAX_IDENTIFIER
    ensures Whole(c)
  {
  }

  lemma FixedAreWhole(c: string)
    requires OwnColumn(c)
    ensures Whole(c)
  {
    FixedAreLower();
    LowerIsIdentifier(c);
  }

  lemma StatusColumnIsWhole(name: string)
    requires GoodName(name)
    ensures Whole(StatusColumn(name)) && Whole(name)
  {
    hide ReservedColumn, ReservedMarkerStep;
    assert AlreadyLower("_status");
  }

  /** Every column of an accepted configuration is a bare identifier of at most 63 bytes. */
  lemma SelectColumnsAreWhole(steps: seq<StepConfig>, c: string)
    requires ValidConfig(steps) && c in SelectColumns(steps)
    ensures Whole(c)
  {
    hide ToLower, Whole, GoodName, NoSharedColumn;
    if c in FIXED_COLUMNS || c == CLAIMED_FROM {
      FixedAreWhole(c);
    } else if c in StatusColumns(steps) {
      var i :| 0 <= i < |steps| && StatusColumns(steps)[i] == c;
      StatusColumnIsWhole(steps[i].name);
    } else {
      AggregateColumnsAre(steps, c);
      var i :| 0 <= i < |steps| && steps[i].name == c;
      StatusColumnIsWhole(steps[i].name);
    }
  }

  /** So no two of them are the same column to Postgres. */
  lemma PgNamesDistinct(steps: seq<StepConfig>, i: nat, j: nat)
    requires ValidConfig(steps) && i < j < |SelectColumns(steps)|
    ensures PgName(SelectColumns(steps)[i]) != PgName(SelectColumns(steps)[j])
  {
    hide ValidConfig, IsIdentifier, SelectColumns;
    var cols := SelectColumns(steps);
    SelectColumnsDistinct(steps);
    SelectColumnsAreWhole(steps, cols[i]);
    SelectColumnsAreWhole(steps, cols[j]);
  }
}
