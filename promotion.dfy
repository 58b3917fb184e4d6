/** A model of the promotion procedure `log_production_model`: pick the run of an
    experiment with the lowest mean absolute error, move every registered version of
    the model built from that run to stage Production and every other version to
    Staging, and decide whether the winning model artifact is saved locally.

    The tracking service is replaced by its results: the run table is a sequence of
    `Run` rows in the order the service returned them, and the model registry is an
    array of `ModelVersion` records whose `stage` the procedure overwrites in place. */
module LogProductionModel {

  datatype Option<T> = None | Some(value: T)

  /** One row of the run table. `mae` is `None` where the run never logged the metric
      (a NaN cell of the `metrics.mae` column); the float is modelled as a real. */
  datatype Run = Run(runId: string, mae: Option<real>)

  /** The registry stages of a model version; `NoStage` is the registry's "None". */
  datatype Stage = NoStage | Staging | Production | Archived

  datatype ModelVersion = ModelVersion(version: string, runId: string, source: string, stage: Stage)

  /** How the procedure ends: one of the two early exits, or the stage loop ran with
      `bestRunId` selected and `loggedModel` holding the source it recorded, if any. */
  datatype Outcome =
    | NoRuns
    | NoMaeColumn
    | Finished(bestRunId: string, loggedModel: Option<string>)

  // ---------------------------------------------------------------------------
  // Best-run selection
  // ---------------------------------------------------------------------------

  /** The run table has a `metrics.mae` column exactly when some run logged the metric. */
  predicate HasMaeColumn(runs: seq<Run>): (b: bool)
    ensures b ==> |runs| > 0
  {
    exists i :: 0 <= i < |runs| && runs[i].mae.Some?
  }

  /** The smallest logged mae; runs without the metric are skipped, as pandas' `min()` skips NaN. */
  function Lowest(runs: seq<Run>): (m: real)
    requires HasMaeColumn(runs)
    ensures exists i :: 0 <= i < |runs| && runs[i].mae == Some(m)
    ensures forall i :: 0 <= i < |runs| && runs[i].mae.Some? ==> m <= runs[i].mae.value
  {
    var head := runs[0].mae;
    if !HasMaeColumn(runs[1..]) then
      assert forall i :: 1 <= i < |runs| ==> runs[i] == runs[1..][i - 1];
      head.value
    else
      var rest := Lowest(runs[1..]);
      assert forall i :: 1 <= i < |runs| ==> runs[i] == runs[1..][i - 1];
      assert exists i :: 1 <= i < |runs| && runs[i].mae == Some(rest) by {
        var j :| 0 <= j < |runs[1..]| && runs[1..][j].mae == Some(rest);
        assert runs[j + 1].mae == Some(rest);
      }
      if head.Some? && head.value < rest then head.value else rest
  }

  /** The position of the first run, in table order, whose mae equals `m`
      (the `.iloc[0]` of the rows filtered by `metrics.mae == m`). */
  function FirstWithMae(runs: seq<Run>, m: real): (k: nat)
    requires exists i :: 0 <= i < |runs| && runs[i].mae == Some(m)
    ensures k < |runs| && runs[k].mae == Some(m)
    ensures forall j :: 0 <= j < k ==> runs[j].mae != Some(m)
  {
    if runs[0].mae == Some(m) then 0
    else
      assert exists i :: 0 <= i < |runs[1..]| && runs[1..][i].mae == Some(m) by {
        var i :| 0 <= i < |runs| && runs[i].mae == Some(m);
        assert runs[1..][i - 1] == runs[i];
      }
      var k := FirstWithMae(runs[1..], m);
      assert forall j :: 1 <= j <= k ==> runs[j] == runs[1..][j - 1];
      k + 1
  }

  /** The index of the selected run: it has the minimum mae, and every earlier run
      either has no mae or a strictly larger one. */
  function SelectBest(runs: seq<Run>): (k: nat)
    requires HasMaeColumn(runs)
    ensures k < |runs| && runs[k].mae.Some?
    ensures forall i :: 0 <= i < |runs| && runs[i].mae.Some? ==> runs[k].mae.value <= runs[i].mae.value
    ensures forall j :: 0 <= j < k ==> runs[j].mae.None? || runs[j].mae.value > runs[k].mae.value
  {
    FirstWithMae(runs, Lowest(runs))
  }

  /** The selection rule determines the selected run: any index that has the minimum
      mae and no earlier run at that minimum is the one `SelectBest` returns. */
  lemma SelectBestUnique(runs: seq<Run>, k: nat)
    requires k < |runs| && runs[k].mae.Some?
    requires forall i :: 0 <= i < |runs| && runs[i].mae.Some? ==> runs[k].mae.value <= runs[i].mae.value
    requires forall j :: 0 <= j < k ==> runs[j].mae.None? || runs[j].mae.value > runs[k].mae.value
    ensures HasMaeColumn(runs) && SelectBest(runs) == k
  {
  }

  // ---------------------------------------------------------------------------
  // Stage reassignment
  // ---------------------------------------------------------------------------

  /** The stage the loop gives a version: it depends on its run id only. */
  function NewStage(mv: ModelVersion, bestRunId: string): (r: Stage)
    ensures r == Production <==> mv.runId == bestRunId
    ensures r == Production || r == Staging
  {
    if mv.runId == bestRunId then Production else Staging
  }

  /** The registry after the loop has visited every version of `s`. */
  function Reassigned(s: seq<ModelVersion>, bestRunId: string): (r: seq<ModelVersion>)
    ensures |r| == |s|
  {
    if |s| == 0 then []
    else Reassigned(s[..|s| - 1], bestRunId) + [s[|s| - 1].(stage := NewStage(s[|s| - 1], bestRunId))]
  }

  /** The value `logged_model` holds after the loop has visited every version of `s`. */
  function LastMatchSource(s: seq<ModelVersion>, bestRunId: string): (r: Option<string>)
    ensures r.Some? ==> exists i :: 0 <= i < |s| && s[i].runId == bestRunId && s[i].source == r.value
  {
    if |s| == 0 then None
    else if s[|s| - 1].runId == bestRunId then Some(s[|s| - 1].source)
    else LastMatchSource(s[..|s| - 1], bestRunId)
  }

  /** Every version matching the selected run is Production, every other one Staging,
      and nothing but the stage changes; no version is added or removed. */
  lemma {:induction false} ReassignedAt(s: seq<ModelVersion>, bestRunId: string, i: nat)
    requires i < |s|
    ensures |Reassigned(s, bestRunId)| == |s|
    ensures Reassigned(s, bestRunId)[i].stage == (if s[i].runId == bestRunId then Production else Staging)
    ensures Reassigned(s, bestRunId)[i].version == s[i].version
    ensures Reassigned(s, bestRunId)[i].runId == s[i].runId
    ensures Reassigned(s, bestRunId)[i].source == s[i].source
  {
    var n := |s| - 1;
    if i < n {
      ReassignedAt(s[..n], bestRunId, i);
    } else if n > 0 {
      ReassignedAt(s[..n], bestRunId, 0);
    }
  }

  /** The new stage of each version depends only on its run id, never on its previous
      stage: registries that differ only in stages are reassigned alike. */
  lemma {:induction false} ReassignedIgnoresStage(s: seq<ModelVersion>, t: seq<ModelVersion>, bestRunId: string)
    requires |s| == |t|
    requires forall i :: 0 <= i < |s| ==> s[i].(stage := NoStage) == t[i].(stage := NoStage)
    ensures Reassigned(s, bestRunId) == Reassigned(t, bestRunId)
  {
    if |s| > 0 {
      var n := |s| - 1;
      ReassignedIgnoresStage(s[..n], t[..n], bestRunId);
      assert s[n].(stage := NoStage) == t[n].(stage := NoStage);
    }
  }

  /** Reassigning an already reassigned registry changes nothing. */
  lemma {:induction false} ReassignedIdempotent(s: seq<ModelVersion>, bestRunId: string)
    ensures Reassigned(Reassigned(s, bestRunId), bestRunId) == Reassigned(s, bestRunId)
  {
    var r := Reassigned(s, bestRunId);
    forall i | 0 <= i < |s|
      ensures r[i].(stage := NoStage) == s[i].(stage := NoStage)
    {
      ReassignedAt(s, bestRunId, i);
    }
    ReassignedIgnoresStage(r, s, bestRunId);
  }

  /** `logged_model` is set exactly when some version came from the selected run, and
      then it holds the source of the last such version in iteration order. */
  lemma {:induction false} LastMatchSourceSpec(s: seq<ModelVersion>, bestRunId: string)
    ensures LastMatchSource(s, bestRunId).Some? <==> exists i :: 0 <= i < |s| && s[i].runId == bestRunId
    ensures LastMatchSource(s, bestRunId).Some? ==>
      exists j :: 0 <= j < |s| && s[j].runId == bestRunId
        && s[j].source == LastMatchSource(s, bestRunId).value
        && forall k :: j < k < |s| ==> s[k].runId != bestRunId
  {
    if |s| > 0 {
      var n := |s| - 1;
      var p := s[..n];
      LastMatchSourceSpec(p, bestRunId);
      if s[n].runId == bestRunId {
        assert LastMatchSource(s, bestRunId) == Some(s[n].source);
      } else {
        assert LastMatchSource(s, bestRunId) == LastMatchSource(p, bestRunId);
        if LastMatchSource(p, bestRunId).Some? {
          var j :| 0 <= j < n && p[j].runId == bestRunId
            && p[j].source == LastMatchSource(p, bestRunId).value
            && forall k :: j < k < n ==> p[k].runId != bestRunId;
          assert s[j] == p[j];
          forall k | j < k < |s|
            ensures s[k].runId != bestRunId
          {
            if k < n {
              assert s[k] == p[k];
            }
          }
        } else {
          forall i | 0 <= i < |s|
            ensures s[i].runId != bestRunId
          {
            if i < n {
              assert s[i] == p[i];
            }
          }
        }
      }
    }
  }

  /** When no version came from the selected run, every version ends up Staging and
      nothing is recorded. */
  lemma {:induction false} NoMatchAllStaging(s: seq<ModelVersion>, bestRunId: string)
    requires forall i :: 0 <= i < |s| ==> s[i].runId != bestRunId
    ensures LastMatchSource(s, bestRunId) == None
    ensures |Reassigned(s, bestRunId)| == |s|
    ensures forall i :: 0 <= i < |s| ==> Reassigned(s, bestRunId)[i].stage == Staging
  {
    LastMatchSourceSpec(s, bestRunId);
    forall i | 0 <= i < |s|
      ensures Reassigned(s, bestRunId)[i].stage == Staging
    {
      ReassignedAt(s, bestRunId, i);
    }
  }

  /** When at most one version came from the selected run, at most one version is
      Production afterwards (the registry-wide invariant the procedure aims at). */
  lemma AtMostOneProduction(s: seq<ModelVersion>, bestRunId: string, i: nat, j: nat)
    requires forall a, b :: 0 <= a < b < |s| ==> s[a].runId == bestRunId ==> s[b].runId != bestRunId
    requires i < |Reassigned(s, bestRunId)| && j < |Reassigned(s, bestRunId)|
    requires Reassigned(s, bestRunId)[i].stage == Production
    requires Reassigned(s, bestRunId)[j].stage == Production
    ensures i == j
  {
    ReassignedAt(s, bestRunId, i);
    ReassignedAt(s, bestRunId, j);
  }

  /** The recorded source is the same when the loop runs over an already reassigned registry. */
  lemma {:induction false} LastMatchSourceOfReassigned(s: seq<ModelVersion>, bestRunId: string)
    ensures LastMatchSource(Reassigned(s, bestRunId), bestRunId) == LastMatchSource(s, bestRunId)
  {
    if |s| > 0 {
      var n := |s| - 1;
      var r := Reassigned(s, bestRunId);
      var rp := Reassigned(s[..n], bestRunId);
      assert r[..|r| - 1] == rp;
      LastMatchSourceOfReassigned(s[..n], bestRunId);
    }
  }

  // ---------------------------------------------------------------------------
  // The whole procedure
  // ---------------------------------------------------------------------------

  /** What the procedure yields on the run table `runs` and the registry contents `s`:
      its outcome and the registry afterwards. */
  function Promoted(runs: seq<Run>, s: seq<ModelVersion>): (p: (Outcome, seq<ModelVersion>))
    ensures |runs| == 0 ==> p == (NoRuns, s)
    ensures |runs| > 0 && !HasMaeColumn(runs) ==> p == (NoMaeColumn, s)
    ensures p.0.Finished? ==>
      exists k :: 0 <= k < |runs| && runs[k].runId == p.0.bestRunId && runs[k].mae.Some?
        && (forall i :: 0 <= i < |runs| && runs[i].mae.Some? ==> runs[k].mae.value <= runs[i].mae.value)
        && (forall j :: 0 <= j < k ==> runs[j].mae.None? || runs[j].mae.value > runs[k].mae.value)
    ensures |runs| > 0 && HasMaeColumn(runs) ==>
      p.0.Finished? && p.1 == Reassigned(s, p.0.bestRunId) && p.0.loggedModel == LastMatchSource(s, p.0.bestRunId)
  {
    if |runs| == 0 then (NoRuns, s)
    else if !HasMaeColumn(runs) then (NoMaeColumn, s)
    else
      var best := runs[SelectBest(runs)].runId;
      (Finished(best, LastMatchSource(s, best)), Reassigned(s, best))
  }

  /** The artifact location saved locally, if any: `if logged_model:` is false both
      when nothing was recorded and when the recorded source is the empty string. */
  function SavedModel(o: Outcome): (r: Option<string>)
    ensures r.Some? ==> o.Finished? && o.loggedModel == r && r.value != ""
    ensures o.Finished? && o.loggedModel.Some? && o.loggedModel.value != "" ==> r.Some?
  {
    if o.Finished? && o.loggedModel.Some? && o.loggedModel.value != "" then Some(o.loggedModel.value)
    else None
  }

  /** After a completed run each version of the selected run is Production, every
      other version Staging, and nothing but the stages changed. */
  lemma PromotedStages(runs: seq<Run>, s: seq<ModelVersion>, i: nat)
    requires |runs| > 0 && HasMaeColumn(runs) && i < |s|
    ensures Promoted(runs, s).0.Finished? && |Promoted(runs, s).1| == |s|
    ensures Promoted(runs, s).1[i].stage ==
      (if s[i].runId == Promoted(runs, s).0.bestRunId then Production else Staging)
    ensures Promoted(runs, s).1[i] == s[i].(stage := Promoted(runs, s).1[i].stage)
  {
    ReassignedAt(s, runs[SelectBest(runs)].runId, i);
  }

  /** A model is saved only after a completed loop, and what is saved is the source of
      the last version that came from the selected run; with no such version, or after
      an early exit, nothing is saved. */
  lemma SavedModelSpec(runs: seq<Run>, s: seq<ModelVersion>)
    ensures SavedModel(Promoted(runs, s).0).Some? ==>
      var o := Promoted(runs, s).0;
      o.Finished? &&
      exists j :: 0 <= j < |s| && s[j].runId == o.bestRunId
        && s[j].source == SavedModel(o).value != ""
        && forall k :: j < k < |s| ==> s[k].runId != o.bestRunId
    ensures Promoted(runs, s).0.Finished? && (forall i :: 0 <= i < |s| ==> s[i].runId != Promoted(runs, s).0.bestRunId)
      ==> SavedModel(Promoted(runs, s).0) == None
    ensures Promoted(runs, s).0.Finished? ==>
      var o := Promoted(runs, s).0;
      forall j :: 0 <= j < |s| && s[j].runId == o.bestRunId && s[j].source != ""
        && (forall k :: j < k < |s| ==> s[k].runId != o.bestRunId)
        ==> SavedModel(o) == Some(s[j].source)
  {
    var o := Promoted(runs, s).0;
    if o.Finished? {
      LastMatchSourceSpec(s, o.bestRunId);
    }
  }

  /** Running the procedure again on the same runs and the registry it left behind
      yields the same outcome and the same stage assignment. */
  lemma PromotedIdempotent(runs: seq<Run>, s: seq<ModelVersion>)
    ensures Promoted(runs, Promoted(runs, s).1) == Promoted(runs, s)
  {
    if |runs| > 0 && HasMaeColumn(runs) {
      var best := runs[SelectBest(runs)].runId;
      ReassignedIdempotent(s, best);
      LastMatchSourceOfReassigned(s, best);
    }
  }

  /** The procedure itself: the two early exits, the selection, the loop that
      transitions every registered version in place, and the save decision.
      `saved` is the artifact location loaded and written to the local model path. */
  method PromoteBestRun(runs: seq<Run>, registry: array<ModelVersion>) returns (outcome: Outcome, saved: Option<string>)
    modifies registry
    ensures (outcome, registry[..]) == Promoted(runs, old(registry[..]))
    ensures saved == SavedModel(outcome)
    ensures !outcome.Finished? ==> registry[..] == old(registry[..]) && saved == None
  {
    if |runs| == 0 {
      return NoRuns, None;
    }
    if !HasMaeColumn(runs) {
      return NoMaeColumn, None;
    }
    var lowest := Lowest(runs);
    var bestRunId := runs[FirstWithMae(runs, lowest)].runId;

    ghost var s := registry[..];
    var loggedModel: Option<string> := None;
    for i := 0 to registry.Length
      invariant registry[..i] == Reassigned(s[..i], bestRunId)
      invariant forall k :: i <= k < registry.Length ==> registry[k] == s[k]
      invariant loggedModel == LastMatchSource(s[..i], bestRunId)
    {
      var mv := registry[i];
      assert mv == s[i];
      assert s[..i + 1][..i] == s[..i];
      if mv.runId == bestRunId {
        loggedModel := Some(mv.source);
        registry[i] := mv.(stage := Production);
      } else {
        registry[i] := mv.(stage := Staging);
      }
      assert registry[..i + 1] == registry[..i] + [registry[i]];
    }
    assert registry[..] == registry[..registry.Length];
    assert s == s[..registry.Length];

    outcome := Finished(bestRunId, loggedModel);
    if loggedModel.Some? && loggedModel.value != "" {
      saved := Some(loggedModel.value);
    } else {
      saved := None;
    }
  }

  /** Three runs where two tie at the minimum, each with one registered version: the
      first of the tied runs is selected, its version becomes Production and is saved,
      and the other two versions become Staging. */
  lemma TieGoesToFirst()
    ensures var runs := [Run("a", Some(5.0)), Run("b", Some(2.1)), Run("c", Some(2.1))];
      var s := [ModelVersion("1", "a", "src-a", Production), ModelVersion("2", "b", "src-b", NoStage),
                ModelVersion("3", "c", "src-c", Staging)];
      var p := Promoted(runs, s);
      && p.0 == Finished("b", Some("src-b"))
      && p.1 == [s[0].(stage := Staging), s[1].(stage := Production), s[2].(stage := Staging)]
      && SavedModel(p.0) == Some("src-b")
  {
    var runs := [Run("a", Some(5.0)), Run("b", Some(2.1)), Run("c", Some(2.1))];
    var s := [ModelVersion("1", "a", "src-a", Production), ModelVersion("2", "b", "src-b", NoStage),
              ModelVersion("3", "c", "src-c", Staging)];
    assert runs[1].mae.Some?;
    SelectBestUnique(runs, 1);
    assert s[..2][..1] == s[..1] && s[..1][..0] == [];
    assert s[..2] == [s[0], s[1]] && s[..3] == s && s[..1] == [s[0]];
    assert Reassigned(s[..1], "b") == [s[0].(stage := Staging)];
    assert Reassigned(s[..2], "b") == [s[0].(stage := Staging), s[1].(stage := Production)];
    assert LastMatchSource(s[..2], "b") == Some("src-b");
  }
}
