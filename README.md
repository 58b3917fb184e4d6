# Production-model promotion, modelled in Dafny

The repository holds one script, `src/log_production_model.py`, whose function
`log_production_model` promotes a model in an MLflow registry. It fetches the runs of
an experiment, picks the run with the lowest `metrics.mae`, and walks over every
registered version of the model. A version built from that run is moved to stage
Production and remembered as `logged_model`; every other version is moved to Staging.
If a model was remembered, its artifact is loaded and saved to a local path.

`promotion.dfy` (module `LogProductionModel`) models that decision logic:

- the run table returned by `search_runs` is a `seq<Run>` in the order it was fetched;
  each run has a run id and an optional mae (`None` is a NaN cell: a run that never
  logged the metric), with the float modelled as a `real`;
- the versions returned by `search_model_versions` are an `array<ModelVersion>`; the
  remote `transition_model_version_stage` call is an in-place update of the version's
  `stage` field;
- `PromoteBestRun` is the procedure. It returns an `Outcome` (one of the two early
  exits, or `Finished` with the selected run id and the recorded `logged_model`) and the
  artifact location that is loaded and saved, if any;
- `Promoted` is the specification function of the procedure, and `SavedModel` that of
  the save decision; the lemmas state what the source promises about them.

## Model

| member | source | states |
|---|---|---|
| LogProductionModel.HasMaeColumn | src/log_production_model.py:29 | the `metrics.mae` column test: true exactly when some run logged mae, which needs a non-empty table |
| LogProductionModel.Lowest | src/log_production_model.py:33 | the lowest mae is the mae of some run, and no run that logged mae has a smaller one; runs without the metric are skipped |
| LogProductionModel.FirstWithMae | src/log_production_model.py:34 | the index returned holds a run with the given mae, and no earlier run has that mae |
| LogProductionModel.SelectBest | src/log_production_model.py:33-34 | the selected run has the minimum mae, and every earlier run has no mae or a strictly larger one (first-in-order tie-break) |
| LogProductionModel.SelectBestUnique | src/log_production_model.py:33-34 | any run with the minimum mae and no earlier run at that minimum is exactly the selected run |
| LogProductionModel.TieGoesToFirst | src/log_production_model.py:24-69 | on runs a=5.0, b=2.1, c=2.1 with one version per run, b is selected, its version becomes Production and its source is saved, and the versions of a and c become Staging |
| LogProductionModel.NewStage | src/log_production_model.py:43-59 | a version's new stage is Production exactly when its run id is the selected one, and Staging otherwise |
| LogProductionModel.Reassigned | src/log_production_model.py:41-60 | the registry after the loop has as many versions as before (its per-version content is stated by ReassignedAt) |
| LogProductionModel.LastMatchSource | src/log_production_model.py:40-45 | a recorded `logged_model` is the source of some version from the selected run (the "last such version" part is LastMatchSourceSpec) |
| LogProductionModel.ReassignedAt | src/log_production_model.py:41-60 | after the loop, a version whose run id equals the selected run is Production and any other is Staging; version, run id and source are unchanged and no version is added or removed |
| LogProductionModel.ReassignedIgnoresStage | src/log_production_model.py:43-60 | the new stages depend only on run ids, never on the previous stages |
| LogProductionModel.ReassignedIdempotent | src/log_production_model.py:41-60 | running the loop again on the registry it produced changes nothing |
| LogProductionModel.LastMatchSourceSpec | src/log_production_model.py:40-45 | `logged_model` is set if and only if some version came from the selected run, and it then holds the source of the last such version in iteration order |
| LogProductionModel.NoMatchAllStaging | src/log_production_model.py:40-60 | when no version came from the selected run, nothing is recorded and every version ends up Staging |
| LogProductionModel.AtMostOneProduction | src/log_production_model.py:41-60 | when at most one version came from the selected run, at most one version is Production afterwards |
| LogProductionModel.LastMatchSourceOfReassigned | src/log_production_model.py:41-45 | the loop records the same source when it runs over the registry it produced |
| LogProductionModel.Promoted | src/log_production_model.py:24-60 | with no runs, or no run with mae, the outcome is the matching early exit and the registry is untouched; otherwise the loop runs: the registry becomes `Reassigned` and `logged_model` `LastMatchSource` for the selected run, whose id belongs to a run with the minimum mae and no earlier run at it |
| LogProductionModel.PromotedStages | src/log_production_model.py:24-60 | on a non-empty table with some mae the loop runs, and afterwards each version of the selected run is Production, every other version Staging, and nothing but the stage changed |
| LogProductionModel.SavedModel | src/log_production_model.py:62 | `if logged_model:`: a location is saved only after the loop, only the recorded one and only when it is a non-empty string; a non-empty recorded source is always saved |
| LogProductionModel.SavedModelSpec | src/log_production_model.py:62-69 | a model is saved only after the loop ran, and it is the non-empty source of the last version from the selected run; conversely, when that last version has a non-empty source exactly that source is saved; with no such version nothing is saved |
| LogProductionModel.PromotedIdempotent | src/log_production_model.py:24-60 | rerunning the procedure on the same runs and the registry it left gives the same outcome and the same stages |
| LogProductionModel.PromoteBestRun | src/log_production_model.py:24-69 | the outcome and the new registry contents are those of `Promoted` on the old contents, the saved location is that of `SavedModel`, and after an early exit the registry is unchanged and nothing is saved |

## Left out

- Configuration loading (`read_params`) is file I/O; `src/get_data` is not part of this model. The model name, server address and output path are not needed by the decision logic.
- The MLflow calls `set_tracking_uri`, `get_experiment_by_name`, `search_runs` and `search_model_versions` are network calls; their results are the inputs `runs` and `registry`.
- The remote effect of `transition_model_version_stage` is modelled only as the in-place stage update; nothing is modelled about the server (no archiving of other versions, no failure of the call mid-loop).
- The missing-experiment case: line 21 dereferences a possibly missing experiment and crashes, so there is no handled path to model.
- The `metrics.mae` column test is modelled as "some run logged mae", since the run table has a metric column exactly when some run logged it. This differs from the source in one case: when the column exists but every value is NaN (only NaN was logged), `min()` returns NaN and `.iloc[0]` at line 34 raises an IndexError, whereas the model takes the clean `NoMaeColumn` exit. The registry is untouched and nothing is saved in both cases.
- Floating point: mae is a `real`; NaN is modelled as a missing value, which `min()` skips and which never equals the minimum.
- `mlflow.pyfunc.load_model` and `joblib.dump` (artifact download and file serialisation): only the decision which artifact location is saved is modelled, as `SavedModel`.
- The local `current_version` only feeds the transition call and the messages, which are modelled by the stage update alone.
- `print`/`pprint` messages and the argparse command line.
- Concurrent modification of the registry by other processes: the model is sequential.
