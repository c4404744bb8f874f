# Wastewater qPCR calculations and QA/QC, modelled in Dafny

This project models the numeric core of a wastewater SARS-CoV-2 qPCR pipeline. That
core takes tables of replicate-averaged qPCR rows and does four things:

- **calculate_gc_per_l** turns each row's quantity into gene copies per litre of
  wastewater. Rows on the master curve are divided by a fixed 50 mL. All other rows
  are divided by their own extracted volume.
- **normalize_to_pmmov** can first replace below-limit (BLOQ) quantities with the
  lowest standard quantity. It then left-joins every row to the PMMoV rows of its
  sample and task, and divides by the PMMoV quantity.
- **xeno_inhibition_test** first finds, for each plate and well, the targets other
  than the Xeno spike-in. It rejects wells where more than one such target shares a
  well with Xeno. It then does the following:
  - groups the Xeno readings;
  - joins each sample group to its plate's negative-control Ct;
  - computes `dCt` and labels it;
  - stamps `is_inhibited` onto the normalised table, sample by sample.
- **get_extraction_control** reduces the PBS extraction blanks to one minimum Ct per
  batch, target and plate, and encodes that Ct as "negative" or the Ct value. It then
  drops the blanks and left-joins the result back onto the remaining rows.

How the model is built:

- **Rows.** A table is a `seq<Row>` of one wide `Row` datatype (`tables.dfy`). A
  missing or NaN number is `None` in `Num = Option<real>`. Arithmetic propagates
  `None`.
- **Generic operations.** Boolean-mask selection, first-appearance key listing, a
  pandas `merge(how='left')` and skip-NaN column min/max are defined once, as generic
  functions with lemmas. Most of the pipeline is built from them.
- **Mutations.** The source mutates tables in three places:
  - the two column assignments of calculate_gc_per_l;
  - the BLOQ replacement;
  - the `is_inhibited` stamping.

  Each of these is a method over a `Frame` class holding `var rows: seq<Row>`, with
  one loop per masked assignment. Each is proved against a per-row specification
  function.
- **Pure stages.** The filter, groupby and merge stages that build new frames are
  functions. get_extraction_control works on copies, so it is a function as a whole.

Where the source's own docstrings and messages promise more than its code does, the
model follows the code:

- **Duplicate PMMoV rows.** The docstring of normalize_to_pmmov (calculations.py:61)
  says each value is divided by "PMMoV that is associated with that sample name", and
  that a PMMoV row gets 1. In the code, a sample with several PMMoV rows is neither
  rejected nor tie-broken: each of its rows appears once per PMMoV row
  (`PmmovLeftJoin`). A PMMoV row that is its key's only PMMoV row, with a defined and
  non-zero quantity, gets exactly 1 (`PmmovSelfRatio`). With several PMMoV rows, each
  copy of a PMMoV row is divided by one of the key's PMMoV quantities. It gets 1 only
  when that quantity equals its own.
- **Two inhibition thresholds.** The docstring of xeno_inhibition_test
  (calculations.py:83) calls `x` "the dCt defined as inhibited". That holds for the
  per-row label (calculations.py:134). The sample sets behind `is_inhibited` use a
  hard-coded 1 (calculations.py:138-139). Both are kept.
  `LabelMatchesSetsAtDefault` and `LabelDisagreesWithSetsAboveDefault` show where the
  two agree and where they disagree.
- **The multiplex check.** The error message (calculations.py:110) speaks of more
  than two multiplexed targets. The code tests for a comma in the joined target list
  (calculations.py:108). It therefore also fires when one non-Xeno target is read
  twice in a well, and on a target name that itself holds a comma (`CommaInJoin`,
  `MultiplexErrorMeaning`).

## Model

| member | source | states |
|---|---|---|
| Calculations.GcPerL | calculations.py:32-37 | Inside the `blod_master_curve == True` mask a row gets 1000 · (Quantity_mean / template_volume) · elution_vol_ul / 50. Every other row, including a False or missing flag, gets the same product divided by weight_vol_extracted_ml. The result is undefined exactly when an input it uses is missing or a divisor is zero. |
| Calculations.GcPerLIdempotent | calculations.py:32-37 | Recomputing the two new columns on a row that already has them changes nothing. |
| Calculations.AssignGcPerUlInput | calculations.py:32 | Every row gets gc_per_ul_input = Quantity_mean / template_volume. The length and all other columns are unchanged. |
| Calculations.ClearGcPerL | calculations.py:35 | Every row gets gc_per_L = NaN. Nothing else changes. |
| Calculations.AssignMasterCurveGc | calculations.py:36 | Exactly the rows inside the master-curve mask get the /50 formula. All other rows are left as they were. |
| Calculations.AssignExtractedVolumeGc | calculations.py:37 | Exactly the rows outside the mask get the extracted-volume formula. All other rows are left as they were. |
| Calculations.CalculateGcPerL | calculations.py:32-40 | The frame keeps its length and order. Each row ends with gc_per_ul_input and with gc_per_L from exactly one formula (GcPerL), and no other column changes. The returned column lists each row's gc_per_L, in row order. |
| Calculations.NormalizeToPmmov | calculations.py:65-71 | With replace_bloq set, exactly the `bloq == True` rows take lowest_std_quantity as Quantity_mean, and nothing else changes. Without it the caller's frame is untouched. The result is a new frame holding the PMMoV left join of the updated rows. |
| Calculations.PmmovQuantities | calculations.py:68-70 | The PMMoV quantities of a sample and task are empty exactly when no PMMoV row has that sample and task. |
| Calculations.PmmovMatches | calculations.py:68-71 | The PMMoV rows a row joins with are exactly its sample and task's PMMoV quantities, in order. |
| Calculations.PmmovLeftJoin | calculations.py:68-72 | Every input row appears in order, starting right after the copies of the rows before it. A row without a PMMoV row gets one copy with pmmov_mean and the ratio undefined. A row whose key has k PMMoV rows gets k copies, copy j divided by the j-th PMMoV quantity. |
| Calculations.PmmovCopy | calculations.py:71-72 | Copy j of row i in the join is that row with pmmov_mean set to the j-th PMMoV quantity and the ratio Quantity_mean / pmmov_mean. With no PMMoV quantity, both are undefined. |
| Calculations.PmmovMergeSize | calculations.py:71 | The merged frame has the join size: one row per unmatched input row and k per row with k matches. It is never shorter than its input. |
| Calculations.PmmovSelfRatio | calculations.py:72 | Take a PMMoV row whose sample and task have no other PMMoV row, and whose quantity is defined and non-zero. It is its key's only PMMoV quantity. In the merged frame, its copy carries its own quantity as pmmov_mean and mean_normalized_to_pmmov exactly 1. |
| Calculations.PmmovQuantitiesAreRows | calculations.py:68-70 | The PMMoV quantities of a sample and task are those of its PMMoV rows, one per row and in row order, so k PMMoV rows give k values and k copies in the join. |
| Calculations.OtherTargets | calculations.py:99-101 | A well's non-Xeno target list is empty exactly when the well has no non-Xeno row. A name is in it exactly when some non-Xeno row of that well reads that target. |
| Calculations.TwoOtherRows | calculations.py:99-101 | A well's list holds two or more targets exactly when two different rows of the well read a target other than Xeno. |
| Calculations.CommaInJoin | calculations.py:101 | The comma-joined target list holds a comma exactly when it joins at least two targets, or when a target name holds a comma itself. |
| Calculations.MultiplexErrorMeaning | calculations.py:99-110 | With comma-free target names, the ValueError condition holds exactly when some Xeno row's plate and well has two or more entries in its target list. Equivalently, it holds when two different non-Xeno rows share that Xeno row's plate and well. |
| Calculations.XenoReadingsFrom | calculations.py:105-112 | Every grouped reading comes from a Xeno row with that group key. Every Xeno row whose well has another target is grouped. GroupColumns states that each group keeps one entry per row. |
| Calculations.GroupColumns | calculations.py:112-115 | A group's Cq and Quantity columns are those of its Xeno rows: one entry per row, in row order, repeated values included. |
| Calculations.XenoGroupCount | calculations.py:114-115 | Ct_vet_count is the number of the group's Xeno rows with a defined Cq, repeated values included. Ct_vet_std is defined exactly when that number is at least two. |
| Calculations.XenoGroupKeysUnique | calculations.py:112-115 | The aggregated frame has one entry per group key. |
| Calculations.XenoRowHasGroup | calculations.py:112 | Every Xeno row with an additional target falls in the group of its (Sample, sample_full, additional_target, plate_id, Task) key. |
| Calculations.XenoGroupHasRow | calculations.py:112 | Every group key is the key of some Xeno row. |
| Calculations.XenoGroupStats | calculations.py:112-115 | Every group holds at least one row. Ct_vet_mean is NaN exactly when all its Cq values are, and otherwise is gmean of the defined values. Ct_vet_std is defined exactly when at least two Cq values are defined, and is then gstd of them. Quantity_std_crv is the skip-NaN maximum of the group's Quantity values. Ct_vet_count counts the defined values. |
| Calculations.NtcControlsFromNegativeControls | calculations.py:119-121 | Every ntc_col entry is the plate, additional target and mean Ct of a negative-control group. |
| Calculations.NegativeControlInNtc | calculations.py:119-121 | Every negative-control group yields its ntc_col entry. |
| Calculations.XenoFinAllRows | calculations.py:130-134 | Every xeno_fin_all row is a `Task == 'Unknown'` group, and its dCt = Ct_vet_mean - Ct_control_mean. It is labelled "Yes" exactly when dCt is defined and above x, and "No" otherwise, including when dCt is NaN. |
| Calculations.ControlledAreSamples | calculations.py:130-131 | The join to the negative controls keeps only sample (Unknown) groups. |
| Calculations.ControlJoin | calculations.py:130-131 | Each sample group appears in order, once per negative control of the same plate and additional target and carrying that control's Ct. It appears once, with the control Ct undefined, when there is none. |
| Calculations.ControlJoinUnmatched | calculations.py:119-131 | A sample group gets no control (so an undefined control Ct) exactly when no negative-control group has its plate_id and additional_target. |
| Calculations.InhibitionMeaning | calculations.py:138-143 | For a sample, the final is_inhibited is one of three values: (1) False exactly when one of its dCt values is ≤ 1, even if another is > 1; (2) True exactly when some dCt is > 1 and none is ≤ 1; (3) 'unknown' exactly when all of its dCt values are NaN or it has none. |
| Calculations.LabelsMatchSetsAtDefault | calculations.py:132-139 | With x = 1, across the whole of xeno_fin_all, the inhibited set is exactly the samples of rows labelled "Yes". The not-inhibited set is exactly the samples of rows labelled "No" with a defined dCt. |
| Calculations.LabelMatchesSetsAtDefault | calculations.py:134-139 | With x = 1, a row is labelled "Yes" exactly when its sample enters the inhibited set. It is labelled "No" with a defined dCt exactly when its sample enters the not-inhibited set. |
| Calculations.LabelDisagreesWithSetsAboveDefault | calculations.py:134-139 | Take x > 1 and a dCt in (1, x]. The row is labelled "No". Yet when it is its sample's only row, the sample is stamped True. |
| Calculations.FillIsInhibited | calculations.py:141 | Every row of qpcr_normd gets is_inhibited = 'unknown'. Nothing else changes. |
| Calculations.StampIsInhibited | calculations.py:142-143 | Exactly the rows whose Sample is in the set get the new flag. All other rows are left as they were. |
| Calculations.XenoInhibitionTest | calculations.py:99-143 | The ValueError is raised, with its message and qpcr_normd untouched, exactly when the multiplex condition holds. Otherwise the result is xeno_fin_all, and each qpcr_normd row keeps every column but is_inhibited, which becomes its sample's flag: unknown, then True, then False winning. |
| Calculations.ReplaceBloq | calculations.py:66 | Defines the BLOQ replacement of one row. NormalizeToPmmov states that exactly the bloq == True rows change. |
| Calculations.PmmovTable | calculations.py:68-70 | Defines the PMMoV table (pmmov_mean, Sample, Task). It is never longer than the frame, and PmmovTableRows states its content. |
| Calculations.PmmovTableRows | calculations.py:68-70 | The PMMoV table holds exactly the PMMoV rows, in row order, each projected to its Quantity_mean, Sample and Task. |
| Calculations.PmmovMerge | calculations.py:71-72 | Defines qpcr_m as the left join on (Sample, Task) with the ratio computed. PmmovLeftJoin, PmmovCopy and PmmovMergeSize state its content. |
| Calculations.AdditionalTarget | calculations.py:99-107 | A Xeno row's additional_target is NaN exactly when its plate and well has no non-Xeno row; otherwise it is the comma-joined list of their targets. CommaInJoin and MultiplexErrorMeaning state its meaning. |
| Calculations.XenoKeyOf | calculations.py:105-112 | A Xeno row's group key is NaN, so the row leaves the grouping, exactly when its plate and well has no non-Xeno row. Otherwise the key carries the row's Sample, sample_full, plate_id and Task. |
| Calculations.XenoKeyTarget | calculations.py:99-112 | A group key's additional_target is the comma-joined list of the targets of its plate and well's non-Xeno rows, in row order. |
| Calculations.XenoKeySingleTarget | calculations.py:99-112 | Assume the ValueError is not raised and target names are comma-free. Then a grouped Xeno row's additional_target is the target that every non-Xeno row of its well reads, and some such row exists. |
| Calculations.MultiplexError | calculations.py:108-110 | Defines the ValueError condition. MultiplexErrorMeaning and XenoInhibitionTest state when it holds. |
| Calculations.XenoReadings | calculations.py:105-112 | Defines the grouped Xeno readings. XenoReadingsFrom states which rows they come from. |
| Calculations.Aggregate | calculations.py:112-115 | Defines one group's Ct_vet_mean, Quantity_std_crv, Ct_vet_std and Ct_vet_count. XenoGroupStats states them. |
| Calculations.XenoGroups | calculations.py:112-115 | Defines target_s. XenoGroupKeysUnique, XenoRowHasGroup, XenoGroupHasRow and XenoGroupStats state its content. |
| Calculations.NtcControls | calculations.py:119-121 | Defines ntc_col. NtcControlsFromNegativeControls and NegativeControlInNtc state its content in both directions. |
| Calculations.SampleGroups | calculations.py:116-130 | Defines the Unknown, non-standard groups joined to the controls. |
| Calculations.ControlledUnknowns | calculations.py:130-131 | Defines the sample groups left-joined to ntc_col. ControlJoin, ControlJoinUnmatched and ControlledAreSamples state its content. |
| Calculations.Label | calculations.py:132-134 | Defines dCt and the "Yes"/"No" label. XenoFinAllRows states them for every row. |
| Calculations.XenoFinAll | calculations.py:130-134 | Defines xeno_fin_all. XenoFinAllRows states its rows. |
| Calculations.InhibitedSamples | calculations.py:138 | Defines the samples with some dCt > 1. InhibitionMeaning states what this set does to is_inhibited. |
| Calculations.NotInhibitedSamples | calculations.py:139 | Defines the samples with some dCt <= 1. InhibitionMeaning states what this set does to is_inhibited. |
| Calculations.InhibitionOf | calculations.py:141-143 | Defines the flag a sample ends with after the three writes. InhibitionMeaning characterises it and XenoInhibitionTest applies it. |
| QaQc.CtsOf | qa_qc.py:17-25 | A key's Ct list is empty exactly when no blank has that key. It holds every such blank's Cq_init_min, and nothing else. |
| QaQc.PbsControls | qa_qc.py:17-30 | Defines the PBS summary. PbsControlKeysUnique, PbsControlForKey and PbsControlMinimum state its content. |
| QaQc.EncodePbsResult | qa_qc.py:26-28 | Defines the PBS_result encoding, "negative" for NaN and the Ct otherwise. PbsControlMinimum states it for each entry. |
| QaQc.PbsResultFor | qa_qc.py:24-34 | Defines the PBS_result a key receives. ControlOf and UnmatchedRowHasNoResult state that the join delivers it. |
| QaQc.GetExtractionControl | qa_qc.py:33-34 | Defines get_extraction_control. ExtractionControlRows and ExtractionControlDropsPbs state its content. |
| QaQc.PbsControlKeysUnique | qa_qc.py:24-25 | The PBS summary lists each (batch, Target, plate_id) key at most once, so the merge is many-to-one. |
| QaQc.PbsControlForKey | qa_qc.py:17-25 | The summary has an entry for a key exactly when some PBS blank has that key. |
| QaQc.PbsControlMinimum | qa_qc.py:23-28 | A summary entry is "negative" exactly when all its blanks' Cq_init_min are NaN. Otherwise it is a Ct that one of those blanks has, and that no blank of the key undercuts. |
| QaQc.AtMostOneControl | qa_qc.py:34 | With unique summary keys, a row matches at most one summary entry. |
| QaQc.ControlOf | qa_qc.py:34 | The PBS_result a row receives from the join is its key's encoded minimum Ct, or undefined when no blank has its key. |
| QaQc.ExtractionControlRows | qa_qc.py:33-34 | The output is the non-PBS rows, one for one and in order, each with PBS_result set for its key and nothing else changed. Output rows plus blanks account for every input row. |
| QaQc.ExtractionControlDropsPbs | qa_qc.py:33 | No output row has interceptor == 'PBS'. |
| QaQc.UnmatchedRowHasNoResult | qa_qc.py:34 | A row whose key has no blank gets an undefined PBS_result. |
| QaQc.SingleKeyControls | qa_qc.py:24-28 | When there are blanks and they all share one key, the summary has one entry: that key, the minimum of its blanks' Cts and its encoding. |
| QaQc.PbsMinimumExample | qa_qc.py:23-28 | Three blanks of one key with Ct NaN, 32.1 and 30.5 give the summary [(key, 30.5, 30.5)]. |
| Tables.Filter | calculations.py:99 | A boolean-mask selection keeps exactly the rows that satisfy the mask, and is no longer than its input. On a single row it keeps the row exactly when the row satisfies the mask. |
| Tables.FilterCounts | qa_qc.py:33 | The selection keeps each selected row as many times as it occurs in the input, and no other row. |
| Tables.FilterAppend | qa_qc.py:33 | Selecting from two pieces is selecting from each in turn. With the one-row case, this fixes that the selection keeps the input's order. |
| Tables.Distinct | qa_qc.py:24 | Group keys hold every key of the input and nothing else, each once. |
| Tables.DistinctOfOne | qa_qc.py:24 | A non-empty key column whose entries are all one key gives that key once. |
| Tables.MatchesOfFrom | calculations.py:71 | Every match a left row finds is a right-hand row. |
| Tables.MatchesOfComplete | calculations.py:71 | Every right-hand row satisfying the join condition is among the matches. |
| Tables.MatchesOf | calculations.py:71 | Defines a left row's matches, in right-hand order. Every match satisfies the join condition and there are at most as many as right-hand rows. |
| Tables.LeftJoin | calculations.py:71 | Defines merge(how='left'). LeftJoinCopies, LeftJoinSize, LeftJoinKeeps and LeftJoinManyToOne state its content. |
| Tables.LeftJoinSize | calculations.py:71 | A left join yields one row per unmatched left row and k rows per left row with k matches, so it is never shorter than the left frame. |
| Tables.LeftJoinCopies | calculations.py:71 | Left row i's copies sit right after the copies of rows 0..i-1: one combined with each match, in right-hand order, or one with nothing when there is no match. |
| Tables.LeftJoinKeeps | qa_qc.py:34 | Any property that every combined row inherits from its left row holds for the whole join. |
| Tables.LeftJoinManyToOne | qa_qc.py:34 | When every left row has at most one match, the join has the left frame's length and order, and row i is left row i combined with its match. |
| Tables.PresentValues | calculations.py:112-114 | Dropping NaN keeps one value per defined entry, in order, repeated values included. |
| Tables.FilterAligned | calculations.py:115 | Two columns that agree, position by position, on which entries are selected keep the same number of entries. |
| Tables.MinOf | qa_qc.py:24-25 | A skip-NaN minimum is NaN exactly when every value is NaN. Otherwise it is one of the values and at most every defined value. |
| Tables.MaxOf | calculations.py:113 | A skip-NaN maximum is NaN exactly when every value is NaN. Otherwise it is one of the values and at least every defined value. |

## Left out

- The log10 columns (calculations.py:73-74) are not modelled: they are transcendental floating-point maths.
- Calculations.Aggregate: scipy's `gmean` and `gstd` are function parameters with no properties. Only their inputs and their defined-when guards (at least one and at least two defined Cq values) are modelled.
- Numbers are exact reals, not IEEE doubles: rounding is not modelled.
- Calculations.GcPerL: a zero divisor gives an undefined value where floating point gives ±inf (or NaN for 0/0).
- Calculations.NormalizeToPmmov: a zero divisor gives an undefined value where floating point gives ±inf.
- Numeric coercion (`astype(float)`, `pd.to_numeric`) is not modelled: the model starts from already numeric columns.
- The `plate_id + "_" + Well` string key is modelled as a (plate, well) pair. The model therefore does not reproduce the collisions the string can produce (for example plate "1_2" with well "3" and plate "1" with well "2_3").
- Calculations.XenoGroups: groups are listed in order of first appearance, where pandas sorts them by (Sample, sample_full, additional_target, plate_id, Task). So the row order of xeno_fin_all differs from the program's. Only the sample sets and the resulting is_inhibited flags do not depend on it.
- Calculations.XenoKeyOf: Xeno rows whose well has no other target are dropped from the grouping explicitly, mirroring pandas dropping NaN group keys.
- The diagnostic `print` before the ValueError (calculations.py:109) is not modelled.
- The `ntc_std_control` report frame (calculations.py:123-128, 136) is not modelled: it is report assembly and feeds no other result.
- The `date_sampling` re-typing (qa_qc.py:37) is not modelled: it is a type conversion.
- The commented-out BLOQ code in calculate_gc_per_l (calculations.py:27-28) is not modelled: it never runs.
- Calculations.XenoInhibitionTest: `qpcr_data` is passed as a value, so aliasing between `qpcr_data` and `qpcr_normd` is not captured.
- Identity columns are assumed present. Sample, sample_full, plate_id, Well, Task, Target, batch and interceptor are strings that are never NaN. pandas' groupby drops a row with NaN in any key column (calculations.py:112, qa_qc.py:24). pandas' merge matches a NaN key with a NaN key (calculations.py:71 and 131, qa_qc.py:34). Neither behaviour is modelled, except for NaN additional_target (see XenoKeyOf above).
- Input frames that already hold a column the merges add (which pandas would suffix) are not modelled.
