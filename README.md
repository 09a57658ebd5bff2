# Battery preprocessing core, modelled in Dafny

This project models the data-shaping core of `preprocess.py`. That file prepares
lithium-ion battery cycling data (CALCE cycler sheets and NASA cycle lists) for a
capacity-fade sequence model.

The model covers these routines:

- the windowed sigma-clip outlier filter `drop_outlier`;
- the per-cycle feature extraction `BatteryDataPreprocessor.process_battery_data`. Per cycle this is the constant-current and constant-voltage charge durations (CCCT, CVCT), plus the discharge capacity, a health indicator and the internal resistance;
- the feature table `aggregate_data`;
- the sliding-window pair builder `build_sequences`;
- the leave-one-out assembler `get_train_test`;
- the NASA record filters `getBatteryCapacity` and `getBatteryValues`;
- the end-of-life metric `relative_error`;
- the base expansion of the `convert_to_triplets` encoder.

Modules, one file each:

| file | module | models |
|---|---|---|
| `wrappers.dfy` | `Wrappers` | `Option` |
| `stats.dfy` | `Stats` | sum, mean, population variance (`np.std` squared), max, min, first arg-min |
| `outlier.dfy` | `OutlierFilter` | `drop_outlier` |
| `features.dfy` | `CycleFeatures` | `process_battery_data`, `aggregate_data` |
| `sequences.dfy` | `Sequences` | `build_sequences`, `get_train_test` |
| `nasa.dfy` | `NasaRecords` | `getBatteryCapacity`, `getBatteryValues` |
| `metrics.dfy` | `Metrics` | `relative_error` |
| `triplets.dfy` | `Triplets` | `convert_to_triplets`, within-budget path |

## How the model is built

Each routine that works by loop-and-append is a `method`. Its loop is written out, and it is proved equal to a specification function:

| method | specification function |
|---|---|
| `DropOutlier` | `Kept` |
| `BuildSequences` | `Inputs` / `Targets` |
| `GetTrainTest` | `TrainTest` |
| `GetBatteryCapacity` | `Capacities` |
| `GetBatteryValues` | `Filtered` |
| `RelativeError` | `RelativeErrorOf` |
| `ConvertToTriplets` | `Encode` |

The lemmas then state what the source promises about those functions.

`process_battery_data` appends to five lists that belong to its caller. It also increments the class counter `BatteryDataPreprocessor.count`. In the model these are:

- the five lists are the `seq` fields of the class `FeatureLists`;
- `ProcessBatteryData` and `ProcessCycle` modify that object and are proved against `Record` and `Run`, which define one iteration and the whole loop on values;
- the counter is a `count` parameter that is passed in and returned.

Raised exceptions are modelled as outcomes:

| routine | source error | outcome in the model |
|---|---|---|
| `process_battery_data` | `IndexError` (a cycle with one discharge row) | `ok == false` |
| `aggregate_data` | `IndexError` (empty or out-of-range index set) | `None` |
| `get_train_test` | `KeyError` (unknown battery) | `UnknownBattery` |
| `get_train_test` | `ValueError` (`np.r_` joins arrays of different shape) | `ShapeMismatch` |
| `getBatteryCapacity` | `KeyError` / `IndexError` (no capacity sample) | `None` |
| `relative_error` | `ZeroDivisionError` | `None` |
| `convert_to_triplets` | `KeyError` (row without `cycle`) | `MissingCycleColumn` |

Missing values are modelled with `Option`: the NaN of `np.max`/`np.min` over an empty phase, and the nulls `pd.notnull` tests for.

Some behaviours of the code are easy to misread, and the model follows the code in each:

- **A flat window keeps nothing.** The test `x < mean + 2σ` is strict and σ is 0, so no value passes (`FlatWindowKeepsNothing`).
- **Rows are not aligned by cycle.** The code indexes all five lists at the same positions, and that misaligns the rows when a cycle has no discharge rows (see Findings).
- **An empty index set raises.** When `drop_outlier` keeps nothing, it returns a float-typed empty array. Indexing with that array raises `IndexError`, so `aggregate_data` gives `None` rather than an empty table.
- **Feature columns are sorted.** `Index.difference` returns its columns sorted, so the triplet feature order is sorted by code point (`FeatureColumnsSpec`).
- **The metric fails when `true_re == 0`.** The code divides by `true_re` without a guard, so the model returns `None` there (`Ratio`, `UndefinedIff`).

## Model

| member | source | states |
|---|---|---|
| Stats.Sum | preprocess.py:184-185 | the sum under `np.mean` and `np.std`; no contract of its own, characterised by `SumBetween` (elementwise bounds lift to the sum) and `SumConstant` (n copies of c sum to n·c) |
| Stats.Mean | preprocess.py:185 | `np.mean`: the mean times the number of samples is the sum; `MeanBetween` and `MeanBetweenMinAndMax` place it between the bounds of the samples |
| Stats.Variance | preprocess.py:184 | the population variance of a window is never negative |
| Stats.MaxOf | preprocess.py:73 | `np.max`: the result is an element of the series and bounds every element from above |
| Stats.MinOf | preprocess.py:73 | `np.min`: the result is an element of the series and bounds every element from below |
| Stats.ArgMinDistance | preprocess.py:86-87 | `np.abs(v - target).argmin()`: an index of minimal distance to the target, strictly closer than every earlier index, so ties go to the first |
| Stats.ConstantSampleStatistics | preprocess.py:184-185 | a window of equal values has that value as its mean and variance 0 |
| Stats.MeanBetweenMinAndMax | preprocess.py:90 | `np.mean` lies between the smallest and the largest sample |
| OutlierFilter.Arange | preprocess.py:181 | `np.arange(lo, hi, step)` is empty iff `lo >= hi`; its terms lie in `[lo, hi)` and are at least `step` apart, in ascending order |
| OutlierFilter.Window | preprocess.py:183 | `array[i:i+bins]` has at most `bins` values, is empty iff `i` is past the end (or `bins` is 0), and its entry k is `array[i + k]` |
| OutlierFilter.Inside | preprocess.py:186-187 | the squared two-sigma test; a value can pass only when the variance is positive (`InsideIsTwoSigmaBand` proves it is `m - 2σ < x < m + 2σ`) |
| OutlierFilter.PassesWindowTest | preprocess.py:183-187 | index j passes the test of the window at i; passing needs a non-empty window (i before the end, `bins > 0`) of positive variance |
| OutlierFilter.ProcessedStarts | preprocess.py:181-182 | `np.arange(1, count, bins)[:-1]`: every processed start is at least 1 and its window ends before `count` (`ProcessedStartsShape` gives the starts exactly) |
| OutlierFilter.Kept | preprocess.py:179-190 | what `drop_outlier` returns: every entry is a position of the array (see the lemmas below for the rest) |
| OutlierFilter.KeepFrom | preprocess.py:187-188 | `np.where` offset by the window start: ascending positions in range, and a position is kept iff its value passes the two-sigma test |
| OutlierFilter.WindowInliers | preprocess.py:183-188 | one window's kept indices are ascending, lie within the window and the array, and are exactly those passing the window's two-sigma test |
| OutlierFilter.DropOutlier | preprocess.py:179-190 | the loop over `range_[:-1]` returns exactly `Kept`, the window-by-window concatenation of the inliers |
| OutlierFilter.CollectSnoc | preprocess.py:189 | `index.extend` appends the next window's inliers after those of the earlier windows |
| OutlierFilter.ArangeShape | preprocess.py:181 | `np.arange(lo, hi, step)` has `lo + k·step` at position k, and has position k iff that term is below `hi` |
| OutlierFilter.ProcessedStartsShape | preprocess.py:181-182 | the processed starts are `1 + k·bins`, exactly for the k whose window ends before `count` (the last start is dropped) |
| OutlierFilter.KeptEmptyForShortCount | preprocess.py:181-182 | when `count <= 1 + bins` no window is processed and the result is empty |
| OutlierFilter.CollectMembership | preprocess.py:182-189 | an index is collected iff one of the listed windows keeps it |
| OutlierFilter.KeptSound | preprocess.py:181-189 | every returned index j is at least 1, is a position of the array, lies in a processed window, and passes the two-sigma test of the window that holds it |
| OutlierFilter.KeptSoundAll | preprocess.py:181-189 | the same for every entry of the result at once |
| OutlierFilter.KeptComplete | preprocess.py:181-189 | every position in a processed window that passes its window's test is returned |
| OutlierFilter.KeptMembership | preprocess.py:181-189 | both directions: j is returned iff `1 <= j < len`, its window is processed, and it passes that window's test |
| OutlierFilter.CollectIncreasing | preprocess.py:182-189 | over consecutive starts the collected indices are strictly ascending and lie before the end of the last window |
| OutlierFilter.KeptIncreasing | preprocess.py:179-190 | the result is strictly ascending, so it has no duplicates |
| OutlierFilter.KeptBounds | preprocess.py:181-182 | index 0 and every index at or after the last `arange` start are never returned |
| OutlierFilter.InsideIsTwoSigmaBand | preprocess.py:186-187 | the square-root-free test `(x - m)² < 4·var` is `m - 2σ < x < m + 2σ` for σ = √var |
| OutlierFilter.FlatWindowKeepsNothing | preprocess.py:184-187 | a window of equal values keeps no index (strict bounds, σ = 0) |
| CycleFeatures.Select | preprocess.py:70-77 | the rows of cycle c and step code s are exactly those of the sheet with that cycle and step |
| CycleFeatures.SheetPositionsSpec | preprocess.py:70-77 | the positions boolean indexing keeps ascend, and they are exactly those of the sheet rows with that cycle and step |
| CycleFeatures.SelectAtPositions | preprocess.py:70-77 | entry k of the selection is the sheet row at the k-th kept position, so sheet order and repeated rows are kept |
| CycleFeatures.SelectKeepsTimeOrder | preprocess.py:70-77 | selecting from a sheet in time order gives rows in time order, as `np.diff` at :83 expects |
| CycleFeatures.SheetCapacityNonNegative | preprocess.py:70-85 | in a time-ordered sheet whose discharge rows have non-positive current, every cycle with two or more discharge rows gets a non-negative capacity |
| CycleFeatures.PhaseDuration | preprocess.py:73-74 | `max - min` of the test times: None (NaN) iff the phase is empty, otherwise non-negative, an upper bound of all differences and attained by one |
| CycleFeatures.DischargeFeatures | preprocess.py:78-90 | no discharge values iff no discharge row; the single-sample case (IndexError) iff one discharge row |
| CycleFeatures.FeaturesOfCycle | preprocess.py:70-90 | one cycle's values: CCCT (CVCT) is NaN iff the cycle has no step-2 (step-4) rows; no discharge values iff no step-7 rows; the raising single-sample case iff exactly one |
| CycleFeatures.Records | preprocess.py:68-69 | one record per listed cycle, in the order of `cycles` |
| CycleFeatures.Increments | preprocess.py:83-84 | `np.diff(t) * c[1:] / 3600` has one entry fewer than the samples (none for an empty phase) |
| CycleFeatures.CumSum | preprocess.py:84 | `np.cumsum` keeps the length of its input |
| CycleFeatures.Cumulative | preprocess.py:83-84 | the cumulative capacity has one entry per discharge sample after the first |
| CycleFeatures.CumSumAt | preprocess.py:84 | entry k of `np.cumsum` is the sum of the first k + 1 increments |
| CycleFeatures.Record | preprocess.py:70-91 | one iteration appends exactly the cycle's `Own` contribution to the five lists, advances the counter by the capacities appended, and raises iff the cycle has exactly one discharge row |
| CycleFeatures.Run | preprocess.py:69-91 | the loop stops at the first exception, leaves a failed state as it is, only appends to the lists (each old list is a prefix of the new one) and never decreases the counter |
| CycleFeatures.FeatureLists.constructor | preprocess.py:44 | the five lists start empty |
| CycleFeatures.ProcessCycle | preprocess.py:69-91 | one cycle appends its CCCT and CVCT, and only for a cycle with two or more discharge rows its capacity, health indicator, resistance and a counter increment; the single-row case raises |
| CycleFeatures.ProcessBatteryData | preprocess.py:67-91 | the lists and counter after the call are those of the per-cycle loop `Run` over the cycles in order, stopping at the first exception |
| CycleFeatures.IncrementsSumToChargeMoved | preprocess.py:83-84 | the sum of `np.diff(t) * c[1:] / 3600` is the charge moved, Σ (t[j] - t[j-1])·c[j]/3600 over j = 1..n-1 |
| CycleFeatures.CumulativeIsChargeMoved | preprocess.py:84 | entry k of the cumulative capacity is the charge moved over the first k + 2 samples |
| CycleFeatures.DischargeCapacityIsChargeMoved | preprocess.py:83-85 | the appended capacity is minus the charge moved over the whole discharge |
| CycleFeatures.ConstantCurrentCapacity | preprocess.py:83-85 | at a constant current the capacity is minus the current times the elapsed hours |
| CycleFeatures.TwoAmpsForOneHour | preprocess.py:83-85 | a constant −2 A over 3600 s gives a capacity of 2.0 |
| CycleFeatures.CapacityNonNegative | preprocess.py:83-85 | with non-decreasing test times and non-positive currents the capacity is never negative |
| CycleFeatures.FirstNearestUnique | preprocess.py:86-87 | the first nearest sample to a marker voltage is unique |
| CycleFeatures.HealthIndicatorBetweenMarkers | preprocess.py:86-88 | the health indicator is the charge moved up to the sample nearest 3.4 V minus that up to the sample nearest 3.8 V |
| CycleFeatures.ResistanceIsMeanOfSamples | preprocess.py:89-90 | the resistance is the arithmetic mean of the samples and lies between their minimum and maximum |
| CycleFeatures.RunAppends | preprocess.py:69-91 | a run that raises nothing appends each cycle's `Own` contribution in cycle order, and advances the counter by the number of capacities appended |
| CycleFeatures.RunFailsOnSingleSample | preprocess.py:78-85 | a run raises iff some cycle has exactly one discharge row |
| CycleFeatures.AppendedShape | preprocess.py:69-91 | CCCT and CVCT get one entry per cycle, in order; capacity, health indicator and resistance get one entry per discharge cycle, in order, so they are never longer |
| CycleFeatures.AppendedDurations | preprocess.py:73-74 | the CCCT and CVCT lists hold every cycle's durations, in order |
| CycleFeatures.AppendedDischarges | preprocess.py:85-90 | the three discharge lists hold the discharge cycles' values, in order |
| CycleFeatures.RunKeepsLengthsAligned | preprocess.py:69-91 | every run keeps the three discharge lists equally long and no longer than CCCT = CVCT, and keeps the counter's lead over the capacity list |
| CycleFeatures.AggregateData | preprocess.py:93-106 | the table exists iff `drop_outlier` keeps an index and every kept index is a position of all five lists; it then has one row per kept index, numbered 1..N, whose five values are read at that index of the five lists |
| CycleFeatures.AggregateDefinedIffKept | preprocess.py:100-106 | on lists built this way the table exists iff `drop_outlier` keeps at least one index |
| CycleFeatures.AggregateRowsAreInliers | preprocess.py:100-106 | the table has one row per kept index, numbered 1..N; the indices ascend, and each row's capacity is a kept capacity that passes its window's test |
| CycleFeatures.DurationsShiftedAfterChargeOnlyCycle | preprocess.py:100-106 | as written: after a first cycle without discharge rows, every row pairs cycle j + 1's capacity with cycle j's CCCT and CVCT |
| CycleFeatures.AlignedRowsDescribeOneCycle | preprocess.py:100-106 | corrected: every row of the aligned table is one discharge cycle's record, whole |
| CycleFeatures.AlignedAgreesWhenEveryCycleDischarges | preprocess.py:93-108 | when every cycle has discharge rows, the corrected table equals the one `aggregate_data` builds |
| CycleFeatures.TablesAgree | preprocess.py:100-106 | lists holding, position by position, the discharge cycles' values give the same table column by column as record by record |
| Sequences.BuildSequences | preprocess.py:193-203 | the loop returns exactly the input windows and the target windows, in start order |
| Sequences.Inputs | preprocess.py:196-201 | the input windows `x` of `build_sequences`: `PairCount` of them (`len - w`, or 0); `SequencesShape` gives each as `text[i:i+w]` |
| Sequences.Targets | preprocess.py:196-201 | the target windows `y`: as many as the inputs; `SequencesShape` and `TargetIsShiftedInput` give each as `text[i+1:i+1+w]` |
| Sequences.SequencesShape | preprocess.py:196-201 | L > w gives exactly L − w pairs with `x[i] = text[i:i+w]` and `y[i] = text[i+1:i+1+w]`, both of length w; L <= w gives none |
| Sequences.TargetIsShiftedInput | preprocess.py:197-198 | `y[i][0..w-1] == x[i][1..w]`, and the last target sample is `text[i+w]` |
| Sequences.TargetIsNextInput | preprocess.py:197-198 | each target window is the next input window |
| Sequences.WindowsRecoverText | preprocess.py:196-201 | the first input window followed by the last sample of every target rebuilds the text |
| Sequences.Lookup | preprocess.py:208 | `data_dict[name]` fails (KeyError) iff no battery has the name, and otherwise returns one battery's series |
| Sequences.GetTrainTest | preprocess.py:207-216 | the procedure computes `TrainTest`, its errors included |
| Sequences.TrainTest | preprocess.py:207-216 | the value of `get_train_test`: KeyError iff the name is absent, and when assembled `train_data + test_data` is the held-out series; `SplitPartitionsHeldOut`, `HeldOutContributesOnePair`, `PooledPairsComeFromOtherBatteries` and `TrainingPairCount` state the rest |
| Sequences.Cut | preprocess.py:209 | where `[:w+1]` cuts the held-out series: at most its length and at most w + 1, and equal to one of the two |
| Sequences.PooledInputs | preprocess.py:211-214 | the other batteries' input windows in mapping order; no contract of its own, characterised by `PooledLengths` and `PooledPairsComeFromOtherBatteries` |
| Sequences.PooledTargets | preprocess.py:211-214 | the other batteries' target windows in mapping order; no contract of its own, characterised by `PooledLengths` and `PooledPairsComeFromOtherBatteries` |
| Sequences.PoolOthers | preprocess.py:211-214 | the loop succeeds iff every other battery's pair array has the held-out one's emptiness; it then appends their pairs in mapping order |
| Sequences.UnknownBatteryIff | preprocess.py:208 | KeyError iff no battery carries the name |
| Sequences.LongSeriesAssemble | preprocess.py:209-214 | when every series is longer than w, the assembly raises nothing |
| Sequences.SplitPartitionsHeldOut | preprocess.py:209 | `train_data + test_data` is the held-out series, and `train_data` is its first `min(len, w + 1)` samples |
| Sequences.HeldOutContributesOnePair | preprocess.py:209-210 | the held-out battery contributes exactly one pair (samples 0..w-1 and 1..w) when it has w + 1 samples, and none otherwise |
| Sequences.PooledPairsComeFromOtherBatteries | preprocess.py:211-214 | every pooled pair is a pair of windows at one start of some other battery |
| Sequences.PooledLengths | preprocess.py:211-214 | the pooled inputs and targets number the sum of the other batteries' pair counts |
| Sequences.TrainingPairCount | preprocess.py:210-214 | `train_x` and `train_y` are equally long: the held-out pairs plus every other battery's pairs |
| Triplets.FeatureColumnsSpec | preprocess.py:256 | `columns.difference(['cycle', target])` is ascending and holds exactly the columns other than those two |
| Triplets.FeatureColumns | preprocess.py:256 | `columns.difference(['cycle', target])`: never more names than columns; `FeatureColumnsSpec` proves it sorted and exactly the other columns |
| Triplets.RowTriplets | preprocess.py:256-265 | one record per feature of the row, in feature order, each naming its feature with the mask of its value |
| Triplets.Expansion | preprocess.py:253-265 | every record names a feature column and carries the mask of its value; `ExpansionLayout` and `ExpansionSize` give the row-major layout |
| Triplets.Encode | preprocess.py:249-286 | KeyError iff the table has rows but no `cycle` column; the over-budget marker only for more than `max_triplets` records; an expansion returned whole has at most `max_triplets` records |
| Triplets.Mask | preprocess.py:258 | the mask is 1 iff the value is present and 0 iff it is null |
| Triplets.ConvertToTriplets | preprocess.py:249-266 | the nested loop computes `Encode`: the expansion when within budget, the over-budget marker otherwise, and the KeyError of a table without `cycle` |
| Triplets.ExpansionLayout | preprocess.py:253-265 | row-major layout: record `i·F + j` is feature j of row i, with that row's cycle, value and mask |
| Triplets.ExpansionSize | preprocess.py:253-265 | the expansion has rows × features records |
| Triplets.ExpansionRecords | preprocess.py:256-264 | every record's feature is a column other than `cycle` and the target, and its mask is 1 iff its value is present |
| Triplets.WithinBudgetUnchanged | preprocess.py:266 | at most `max_triplets` records returns the expansion unchanged; more takes the over-budget branch |
| Triplets.ExpansionValueFromRow | preprocess.py:257 | every record's value is one row's value at one feature |
| Triplets.FullTableAllMasksOne | preprocess.py:258 | a table without nulls gives mask 1 everywhere |
| NasaRecords.PositionsSpec | preprocess.py:174-175 | the selected positions ascend, and they are exactly those of records of the requested type |
| NasaRecords.FilteredAtPositions | preprocess.py:172-177 | the k-th selected data is that of the k-th record of the requested type |
| NasaRecords.GetBatteryValues | preprocess.py:172-177 | the loop returns exactly the data of the records of the type, in order |
| NasaRecords.Filtered | preprocess.py:172-177 | the data of the records of the type: one per matching position (`FilteredAtPositions` gives entry k) |
| NasaRecords.GetBatteryCapacity | preprocess.py:160-168 | the loop returns cycle numbers 1..n and the discharge capacities, or fails where a discharge record lacks `Capacity[0]` |
| NasaRecords.CapacitiesSpec | preprocess.py:163-165 | fails iff some discharge record has no capacity sample; otherwise one capacity per discharge record, its first sample, in order |
| NasaRecords.Capacities | preprocess.py:160-168 | when no lookup raises, one capacity per discharge record (`CapacitiesSpec` gives each and the failure condition) |
| NasaRecords.Numbering | preprocess.py:161-167 | the counter `i` yields exactly n cycle numbers, one per discharge record |
| Metrics.FirstMeasured | preprocess.py:221-224 | the first i with `y_test[i] <= threshold >= y_test[i+1]`, or none such below `len - 1` |
| Metrics.FirstPredicted | preprocess.py:225-228 | the first i below `len - 1` with `y_predict[i] <= threshold`, or none |
| Metrics.Ratio | preprocess.py:229 | undefined iff `true_re == 0`, and otherwise at most 1 |
| Metrics.RelativeError | preprocess.py:219-229 | the two search loops with `break` and the capped ratio compute `RelativeErrorOf` |
| Metrics.RelativeErrorOf | preprocess.py:219-229 | the value of `relative_error`: undefined (ZeroDivisionError) iff `true_re == 0`, and at most 1 otherwise |
| Metrics.TrueIndex | preprocess.py:220-224 | `true_re`: between −1 and `len(y_test)`; `len(y_test)` iff no crossing, −1 iff the first crossing is at index 0 |
| Metrics.PredIndex | preprocess.py:220-228 | `pred_re`: −1 iff the first predicted crossing is at index 0, otherwise an index below `len(y_predict)` (0 for no crossing) |
| Metrics.UndefinedIff | preprocess.py:219-229 | ZeroDivisionError iff `y_test` is empty or its first crossing is at index 1 |
| Metrics.ScoreInUnitInterval | preprocess.py:229 | a positive `true_re` gives a score in [0, 1] |
| Metrics.CrossingAtStartScoresNonPositive | preprocess.py:221-229 | a crossing at index 0 makes `true_re = -1` and the score minus the gap |
| Metrics.NoCrossingScoresOne | preprocess.py:219-229 | when neither series reaches the threshold the score is 1 |
| Metrics.ExactPredictionScoresZero | preprocess.py:219-229 | a non-increasing series predicted exactly, crossing after index 1, scores 0 |

## Left out

- Loading, plotting and set-up are not modelled because they are I/O, UI and global state: `load_datasets`, `load_calce_datasets`, `load_nasa_datasets` and `loadMat` (Excel/MAT reading through pandas, glob and scipy), `convert_to_time`, `plot_capacity_degradation`, `setup_seed` and `evaluation` (an sklearn call).
- The over-budget branch of `convert_to_triplets` (preprocess.py:267-285) is not modelled: it crashes at `sort_vakue` and depends on correlation and random sampling. Triplets.Encode only reports `OverBudget(size)` for it.
- Triplets.ConvertToTriplets: for more than `max_triplets` records the contract states only that the over-budget branch is taken, not what it returns.
- Floating point is modelled with exact `real` arithmetic, with no rounding, infinities or IEEE NaN; NaN and nulls are `None`.
- The order of `list(set(df['Cycle_Index']))` is unspecified in Python, so the cycle list is an input. `ListsEachCycleOnce` states that it lists each cycle of the sheet once.
- The class counter `BatteryDataPreprocessor.count` is never reset across batteries and is shared by every instance. It is a parameter passed in and returned, not shared state.
- `drop_outlier` is modelled only with a positive `bins`; `np.arange` with step 0 raises, and `aggregate_data` always passes 40. Negative window sizes in `build_sequences` are not modelled (`w` is a `nat`).
- Duplicate DataFrame column names are not modelled: a row is a map from column name to value.
- The sheet is a sequence of rows with the six columns the code reads; other columns and the sheet's index are not modelled.
- Default arguments are not modelled: `window_size=8` of `get_train_test` (preprocess.py:207) and `Type='charge'` of `getBatteryValues` (preprocess.py:172) are ordinary parameters. `Sequences.DefaultWindow` and `NasaRecords.DefaultKind` record the defaults.
- Sequences.Dataset: a sequence of (name, series) pairs may repeat a name, which a Python dict cannot. `Lookup` then returns the first match, and the pooling skips every entry with the held-out name. For distinct names this is the dict's behaviour; the model does not require distinct names.
- NumPy's array-of-arrays shapes in `build_sequences` and `np.r_` are modelled as sequences of windows. Only the empty-versus-two-dimensional shape mismatch is kept.

## Findings

| source | as written | input that shows it | evidently intended | confidence | as-written member | corrected member |
|---|---|---|---|---|---|---|
| preprocess.py:100-106 | `aggregate_data` indexes CCCT and CVCT with the positions `drop_outlier` found in the capacity list. CCCT/CVCT have one entry per cycle, but the capacity list has one only per cycle with discharge rows. | A sheet whose first cycle has charge rows but no discharge rows (steps 2 and 4 only), followed by 42 or more discharge cycles, each with two or more discharge rows (one row raises `IndexError` in `process_battery_data`). With a count of 42 or more the window of capacity positions 1..40 is processed, and its 40 capacities must not all be equal (a window of equal values keeps nothing, and `aggregate_data` then raises instead). Every row of the table then pairs cycle j + 1's capacity with cycle j's CCCT and CVCT. | Each row's five values come from the same cycle, as for a sheet where every cycle discharges | medium, not executed | CycleFeatures.DurationsShiftedAfterChargeOnlyCycle | CycleFeatures.AggregateAligned (proved by CycleFeatures.AlignedRowsDescribeOneCycle and CycleFeatures.AlignedAgreesWhenEveryCycleDischarges) |
