/** The concentration, PMMoV-normalisation and Xeno inhibition stages
    (calculate_gc_per_l, normalize_to_pmmov, xeno_inhibition_test). */
module Calculations {
  import opened Wrappers
  import opened Tables

  // ---------------------------------------------------------------------------
  // Gene copies per litre
  // ---------------------------------------------------------------------------

  /** Fixed denominator (mL) used for rows quantified on the master curve. */
  const MASTER_CURVE_VOLUME_ML: real := 50.0
  /** Millilitres per litre. */
  const ML_PER_L: real := 1000.0

  /** The mask `blod_master_curve == True`; False and missing flags fall outside it. */
  predicate UsesMasterCurve(r: Row)
  {
    r.blodMasterCurve == Some(true)
  }

  /** Copies per microlitre of template put into the reaction. */
  function GcPerUlInput(r: Row): Num
  {
    Div(r.quantityMean, r.templateVolume)
  }

  /** Gene copies per litre of one row: the master-curve formula inside the mask,
      the extracted-volume formula outside it. */
  function GcPerL(r: Row): (g: Num)
    ensures UsesMasterCurve(r) && r.quantityMean.Some? && r.templateVolume.Some? && r.elutionVolUl.Some?
            && r.templateVolume.value != 0.0
            ==> g == Some(ML_PER_L * (r.quantityMean.value / r.templateVolume.value) * r.elutionVolUl.value
                          / MASTER_CURVE_VOLUME_ML)
    ensures !UsesMasterCurve(r) && r.quantityMean.Some? && r.templateVolume.Some? && r.elutionVolUl.Some?
            && r.weightVolExtractedMl.Some? && r.templateVolume.value != 0.0 && r.weightVolExtractedMl.value != 0.0
            ==> g == Some(ML_PER_L * (r.quantityMean.value / r.templateVolume.value) * r.elutionVolUl.value
                          / r.weightVolExtractedMl.value)
    ensures g.None? <==>
            || r.quantityMean.None? || r.templateVolume.None? || r.elutionVolUl.None?
            || r.templateVolume.value == 0.0
            || (!UsesMasterCurve(r) && (r.weightVolExtractedMl.None? || r.weightVolExtractedMl.value == 0.0))
  {
    var scaled := Mul(Mul(Some(ML_PER_L), GcPerUlInput(r)), r.elutionVolUl);
    assert scaled.Some? ==> scaled.value == ML_PER_L * (r.quantityMean.value / r.templateVolume.value) * r.elutionVolUl.value;
    if UsesMasterCurve(r) then Div(scaled, Some(MASTER_CURVE_VOLUME_ML))
    else Div(scaled, r.weightVolExtractedMl)
  }

  /** A row after calculate_gc_per_l: both new columns filled, nothing else touched. */
  function WithGcPerL(r: Row): Row
  {
    r.(gcPerUlInput := GcPerUlInput(r), gcPerL := GcPerL(r))
  }

  /** Recomputing on a row that already carries the columns gives the same row: the
      new columns depend only on the input columns. */
  lemma GcPerLIdempotent(r: Row)
    ensures WithGcPerL(WithGcPerL(r)) == WithGcPerL(r)
  {
  }

  /** `gc_per_ul_input = Quantity_mean / template_volume` on every row. */
  method AssignGcPerUlInput(data: Frame)
    modifies data
    ensures |data.rows| == |old(data.rows)|
    ensures forall k :: 0 <= k < |data.rows| ==>
              data.rows[k] == old(data.rows[k]).(gcPerUlInput := GcPerUlInput(old(data.rows[k])))
  {
    var n := |data.rows|;
    ghost var input := data.rows;
    var i := 0;
    while i < n
      invariant 0 <= i <= n && |data.rows| == n
      invariant forall k :: 0 <= k < i ==> data.rows[k] == input[k].(gcPerUlInput := GcPerUlInput(input[k]))
      invariant forall k :: i <= k < n ==> data.rows[k] == input[k]
    {
      var r := data.rows[i];
      data.rows := data.rows[i := r.(gcPerUlInput := Div(r.quantityMean, r.templateVolume))];
      i := i + 1;
    }
  }

  /** `gc_per_L = NaN` on every row. */
  method ClearGcPerL(data: Frame)
    modifies data
    ensures |data.rows| == |old(data.rows)|
    ensures forall k :: 0 <= k < |data.rows| ==> data.rows[k] == old(data.rows[k]).(gcPerL := None)
  {
    var n := |data.rows|;
    ghost var input := data.rows;
    var i := 0;
    while i < n
      invariant 0 <= i <= n && |data.rows| == n
      invariant forall k :: 0 <= k < i ==> data.rows[k] == input[k].(gcPerL := None)
      invariant forall k :: i <= k < n ==> data.rows[k] == input[k]
    {
      data.rows := data.rows[i := data.rows[i].(gcPerL := None)];
      i := i + 1;
    }
  }

  /** `1000 * gc_per_ul_input * elution_vol_ul / volume`, from the row's own columns. */
  function ScaledGc(r: Row, volume: Num): Num
  {
    Div(Mul(Mul(Some(ML_PER_L), r.gcPerUlInput), r.elutionVolUl), volume)
  }

  /** The masked assignment for `blod_master_curve == True`: those rows are divided by
      the master-curve volume, the others are left as they are. */
  method AssignMasterCurveGc(data: Frame)
    modifies data
    ensures |data.rows| == |old(data.rows)|
    ensures forall k :: 0 <= k < |data.rows| ==>
              data.rows[k] == if UsesMasterCurve(old(data.rows[k]))
                              then old(data.rows[k]).(gcPerL := ScaledGc(old(data.rows[k]), Some(MASTER_CURVE_VOLUME_ML)))
                              else old(data.rows[k])
  {
    var n := |data.rows|;
    ghost var input := data.rows;
    var i := 0;
    while i < n
      invariant 0 <= i <= n && |data.rows| == n
      invariant forall k :: 0 <= k < i ==>
                  data.rows[k] == if UsesMasterCurve(input[k])
                                  then input[k].(gcPerL := ScaledGc(input[k], Some(MASTER_CURVE_VOLUME_ML)))
                                  else input[k]
      invariant forall k :: i <= k < n ==> data.rows[k] == input[k]
    {
      var r := data.rows[i];
      if r.blodMasterCurve == Some(true) {
        data.rows := data.rows[i := r.(gcPerL := ScaledGc(r, Some(MASTER_CURVE_VOLUME_ML)))];
      }
      i := i + 1;
    }
  }

  /** The masked assignment for `blod_master_curve != True`: those rows are divided by
      their extracted volume, the others are left as they are. */
  method AssignExtractedVolumeGc(data: Frame)
    modifies data
    ensures |data.rows| == |old(data.rows)|
    ensures forall k :: 0 <= k < |data.rows| ==>
              data.rows[k] == if !UsesMasterCurve(old(data.rows[k]))
                              then old(data.rows[k]).(gcPerL := ScaledGc(old(data.rows[k]), old(data.rows[k]).weightVolExtractedMl))
                              else old(data.rows[k])
  {
    var n := |data.rows|;
    ghost var input := data.rows;
    var i := 0;
    while i < n
      invariant 0 <= i <= n && |data.rows| == n
      invariant forall k :: 0 <= k < i ==>
                  data.rows[k] == if !UsesMasterCurve(input[k])
                                  then input[k].(gcPerL := ScaledGc(input[k], input[k].weightVolExtractedMl))
                                  else input[k]
      invariant forall k :: i <= k < n ==> data.rows[k] == input[k]
    {
      var r := data.rows[i];
      if r.blodMasterCurve != Some(true) {
        data.rows := data.rows[i := r.(gcPerL := ScaledGc(r, r.weightVolExtractedMl))];
      }
      i := i + 1;
    }
  }

  /** calculate_gc_per_l: writes `gc_per_ul_input` and `gc_per_L` into the caller's
      frame, one column assignment at a time, and returns the `gc_per_L` column. The
      two masks split the rows, so every row ends with exactly one of the formulas. */
  method CalculateGcPerL(data: Frame) returns (gcPerL: seq<Num>)
    modifies data
    ensures |data.rows| == |old(data.rows)|
    ensures forall i :: 0 <= i < |data.rows| ==> data.rows[i] == WithGcPerL(old(data.rows[i]))
    ensures |gcPerL| == |data.rows|
    ensures forall i :: 0 <= i < |gcPerL| ==> gcPerL[i] == GcPerL(old(data.rows[i]))
  {
    AssignGcPerUlInput(data);
    ClearGcPerL(data);
    AssignMasterCurveGc(data);
    AssignExtractedVolumeGc(data);
    var rows := data.rows;
    gcPerL := seq(|rows|, k requires 0 <= k < |rows| => rows[k].gcPerL);
  }

  // ---------------------------------------------------------------------------
  // Normalisation to PMMoV
  // ---------------------------------------------------------------------------

  const PMMOV := "PMMoV"

  /** Below-limit replacement: a row flagged `bloq == True` takes its
      `lowest_std_quantity` as `Quantity_mean`; any other row is left as it is. */
  function ReplaceBloq(r: Row): Row
  {
    if r.bloq == Some(true) then r.(quantityMean := r.lowestStdQuantity) else r
  }

  /** One row of the PMMoV table: (`pmmov_mean`, `Sample`, `Task`). */
  datatype PmmovRow = PmmovRow(pmmovMean: Num, sample: string, task: string)

  predicate IsPmmov(r: Row)
  {
    r.target == PMMOV
  }

  /** The PMMoV rows projected to their quantity and join key, in row order. */
  function PmmovTable(rows: seq<Row>): (t: seq<PmmovRow>)
    ensures |t| <= |rows|
  {
    if rows == [] then []
    else (if IsPmmov(rows[0]) then [PmmovRow(rows[0].quantityMean, rows[0].sample, rows[0].task)] else [])
         + PmmovTable(rows[1..])
  }

  /** The PMMoV table holds exactly the PMMoV rows, in row order, each projected to
      its quantity, sample and task. */
  lemma {:induction false} PmmovTableRows(rows: seq<Row>)
    ensures var t := PmmovTable(rows);
            var ps := Filter(rows, IsPmmov);
            |t| == |ps| && forall j :: 0 <= j < |t| ==> t[j] == PmmovRow(ps[j].quantityMean, ps[j].sample, ps[j].task)
  {
    if rows != [] {
      PmmovTableRows(rows[1..]);
      FilterHead(rows, IsPmmov);
    }
  }

  /** The join condition `on=["Sample", "Task"]`. */
  predicate SameSampleTask(r: Row, p: PmmovRow)
  {
    r.sample == p.sample && r.task == p.task
  }

  /** A row with `pmmov_mean` set and `mean_normalized_to_pmmov = Quantity_mean / pmmov_mean`. */
  function NormalizedBy(r: Row, pmmov: Num): Row
  {
    r.(pmmovMean := pmmov, meanNormalizedToPmmov := Div(r.quantityMean, pmmov))
  }

  function AttachPmmov(r: Row, p: Option<PmmovRow>): Row
  {
    NormalizedBy(r, if p.Some? then p.value.pmmovMean else None)
  }

  /** The merged frame `qpcr_m`: every row left-joined to the PMMoV rows of its
      sample and task, with the ratio computed. */
  function PmmovMerge(rows: seq<Row>): seq<Row>
  {
    LeftJoin(rows, PmmovTable(rows), SameSampleTask, AttachPmmov)
  }

  /** The `Quantity_mean` of every PMMoV row of the given sample and task, in row
      order: the values a row of that sample and task is joined with. */
  function PmmovQuantities(rows: seq<Row>, sample: string, task: string): (qs: seq<Num>)
    ensures |qs| <= |rows|
    ensures qs == [] <==>
            forall k :: 0 <= k < |rows| ==> !(IsPmmov(rows[k]) && rows[k].sample == sample && rows[k].task == task)
  {
    if rows == [] then []
    else
      var rest := PmmovQuantities(rows[1..], sample, task);
      assert forall k :: 1 <= k < |rows| ==> rows[k] == rows[1..][k - 1];
      if IsPmmov(rows[0]) && rows[0].sample == sample && rows[0].task == task
      then [rows[0].quantityMean] + rest
      else rest
  }

  /** The mask `Target == 'PMMoV'` restricted to one sample and task. */
  function PmmovOf(sample: string, task: string): Row -> bool
  {
    r => IsPmmov(r) && r.sample == sample && r.task == task
  }

  /** The quantities of a sample and task are those of its PMMoV rows, one per row
      and in row order; with `FilterCounts` this makes k PMMoV rows give k values. */
  lemma {:induction false} PmmovQuantitiesAreRows(rows: seq<Row>, sample: string, task: string)
    ensures var qs := PmmovQuantities(rows, sample, task);
            var ps := Filter(rows, PmmovOf(sample, task));
            |qs| == |ps| && forall j :: 0 <= j < |qs| ==> qs[j] == ps[j].quantityMean
  {
    if rows != [] {
      PmmovQuantitiesAreRows(rows[1..], sample, task);
      FilterHead(rows, PmmovOf(sample, task));
    }
  }

  /** The PMMoV rows a row joins with are exactly its sample's PMMoV quantities, in
      order. */
  lemma {:induction false} PmmovMatches(rows: seq<Row>, r: Row)
    ensures var ms := MatchesOf(r, PmmovTable(rows), SameSampleTask);
            var qs := PmmovQuantities(rows, r.sample, r.task);
            |ms| == |qs| && forall j :: 0 <= j < |qs| ==> ms[j].pmmovMean == qs[j]
  {
    if rows != [] {
      var head := if IsPmmov(rows[0]) then [PmmovRow(rows[0].quantityMean, rows[0].sample, rows[0].task)] else [];
      assert PmmovTable(rows) == head + PmmovTable(rows[1..]);
      MatchesOfAppend(r, head, PmmovTable(rows[1..]), SameSampleTask);
      if head != [] {
        assert head[1..] == [];
      }
      PmmovMatches(rows[1..], r);
    }
  }

  /** The PMMoV left join keeps every input row in order: the copies of row i start
      right after the copies of the rows before it; there is one copy with undefined
      `pmmov_mean` and ratio when its sample has no PMMoV row, and otherwise one copy
      per PMMoV row of its sample and task, carrying that row's quantity. */
  lemma PmmovLeftJoin(rows: seq<Row>, i: nat)
    requires i < |rows|
    ensures var qs := PmmovQuantities(rows, rows[i].sample, rows[i].task);
            var out := PmmovMerge(rows);
            var start := |LeftJoin(rows[..i], PmmovTable(rows), SameSampleTask, AttachPmmov)|;
            && start + (if qs == [] then 1 else |qs|) <= |out|
            && (qs == [] ==> out[start] == rows[i].(pmmovMean := None, meanNormalizedToPmmov := None))
            && (forall j :: 0 <= j < |qs| ==> out[start + j] == NormalizedBy(rows[i], qs[j]))
  {
    var qs := PmmovQuantities(rows, rows[i].sample, rows[i].task);
    PmmovCopy(rows, i, 0);
    forall j | 0 <= j < |qs|
      ensures PmmovMerge(rows)[|LeftJoin(rows[..i], PmmovTable(rows), SameSampleTask, AttachPmmov)| + j]
           == NormalizedBy(rows[i], qs[j])
    {
      PmmovCopy(rows, i, j);
    }
  }

  /** Copy `j` of row `i` in the PMMoV join. */
  lemma PmmovCopy(rows: seq<Row>, i: nat, j: nat)
    requires i < |rows|
    requires var qs := PmmovQuantities(rows, rows[i].sample, rows[i].task);
             j < (if qs == [] then 1 else |qs|)
    ensures var qs := PmmovQuantities(rows, rows[i].sample, rows[i].task);
            var out := PmmovMerge(rows);
            var start := |LeftJoin(rows[..i], PmmovTable(rows), SameSampleTask, AttachPmmov)|;
            && start + (if qs == [] then 1 else |qs|) <= |out|
            && out[start + j] == NormalizedBy(rows[i], if qs == [] then None else qs[j])
  {
    PmmovMatches(rows, rows[i]);
    LeftJoinCopy(rows, i, PmmovTable(rows), SameSampleTask, AttachPmmov, j);
  }

  /** A key with several PMMoV rows multiplies the rows of that key: the join is
      longer than its input exactly by the surplus copies. */
  lemma PmmovMergeSize(rows: seq<Row>)
    ensures |PmmovMerge(rows)| == JoinSize(rows, PmmovTable(rows), SameSampleTask)
    ensures |PmmovMerge(rows)| >= |rows|
  {
    LeftJoinSize(rows, PmmovTable(rows), SameSampleTask, AttachPmmov);
  }

  /** A PMMoV row whose sample and task have no other PMMoV row, and whose quantity is
      defined and non-zero, normalises to exactly 1. */
  lemma {:induction false} PmmovSelfRatio(rows: seq<Row>, i: nat)
    requires i < |rows| && IsPmmov(rows[i])
    requires rows[i].quantityMean.Some? && rows[i].quantityMean.value != 0.0
    requires forall k :: 0 <= k < |rows| && k != i && IsPmmov(rows[k]) ==>
               rows[k].sample != rows[i].sample || rows[k].task != rows[i].task
    ensures PmmovQuantities(rows, rows[i].sample, rows[i].task) == [rows[i].quantityMean]
    ensures var start := |LeftJoin(rows[..i], PmmovTable(rows), SameSampleTask, AttachPmmov)|;
            && start < |PmmovMerge(rows)|
            && PmmovMerge(rows)[start].pmmovMean == rows[i].quantityMean
            && PmmovMerge(rows)[start].meanNormalizedToPmmov == Some(1.0)
  {
    SoleQuantity(rows, rows[i].sample, rows[i].task, i);
    PmmovCopy(rows, i, 0);
    var q := rows[i].quantityMean.value;
    assert q / q == 1.0;
  }

  lemma {:induction false} SoleQuantity(rows: seq<Row>, sample: string, task: string, i: nat)
    requires i < |rows| && IsPmmov(rows[i]) && rows[i].sample == sample && rows[i].task == task
    requires forall k :: 0 <= k < |rows| && k != i && IsPmmov(rows[k]) ==>
               rows[k].sample != sample || rows[k].task != task
    ensures PmmovQuantities(rows, sample, task) == [rows[i].quantityMean]
  {
    assert forall k :: 1 <= k < |rows| ==> rows[k] == rows[1..][k - 1];
    if i == 0 {
      assert PmmovQuantities(rows[1..], sample, task) == [];
    } else {
      SoleQuantity(rows[1..], sample, task, i - 1);
    }
  }

  /** normalize_to_pmmov: with `replaceBloq` set, overwrites the below-limit quantities
      of the caller's frame in place (and leaves every other row and column alone);
      then returns a new frame joining every row to its sample's PMMoV quantity. */
  method NormalizeToPmmov(data: Frame, replaceBloq: bool) returns (normalized: Frame)
    modifies data
    ensures |data.rows| == |old(data.rows)|
    ensures forall i :: 0 <= i < |data.rows| ==>
              data.rows[i] == if replaceBloq then ReplaceBloq(old(data.rows[i])) else old(data.rows[i])
    ensures fresh(normalized) && normalized.rows == PmmovMerge(data.rows)
  {
    if replaceBloq {
      var n := |data.rows|;
      ghost var input := data.rows;
      var i := 0;
      while i < n
        invariant 0 <= i <= n && |data.rows| == n
        invariant forall k :: 0 <= k < i ==> data.rows[k] == ReplaceBloq(input[k])
        invariant forall k :: i <= k < n ==> data.rows[k] == input[k]
      {
        var r := data.rows[i];
        if r.bloq == Some(true) {
          data.rows := data.rows[i := r.(quantityMean := r.lowestStdQuantity)];
        }
        i := i + 1;
      }
    }
    normalized := new Frame(PmmovMerge(data.rows));
  }

  // ---------------------------------------------------------------------------
  // Xeno inhibition test
  // ---------------------------------------------------------------------------

  const XENO := "Xeno"
  const TASK_UNKNOWN := "Unknown"
  const TASK_NEGATIVE_CONTROL := "Negative Control"
  const TASK_STANDARD := "Standard"
  /** The dCt boundary hard-coded in the inhibited / not-inhibited sample sets, used
      whatever the label threshold `x` is. */
  const SAMPLE_SET_THRESHOLD: real := 1.0
  const MULTIPLEX_ERROR := "Error: update function, more than 2 multiplexed targets or one of the two multiplexed targets is not xeno"

  /** A plate and a well; stands for the key `plate_id + "_" + Well`. */
  datatype WellId = WellId(plateId: string, well: string)

  function WellOf(r: Row): WellId
  {
    WellId(r.plateId, r.well)
  }

  predicate IsXeno(r: Row)
  {
    r.target == XENO
  }

  /** A row of well `w` reading a target other than Xeno. */
  predicate OtherIn(r: Row, w: WellId)
  {
    !IsXeno(r) && WellOf(r) == w
  }

  /** The targets other than Xeno read in well `w`, one entry per row, in row order. */
  function OtherTargets(rows: seq<Row>, w: WellId): (ts: seq<string>)
    ensures ts == [] <==> forall k :: 0 <= k < |rows| ==> !OtherIn(rows[k], w)
    ensures forall t :: t in ts <==> exists k :: 0 <= k < |rows| && OtherIn(rows[k], w) && rows[k].target == t
  {
    if rows == [] then []
    else
      var rest := OtherTargets(rows[1..], w);
      assert forall k :: 1 <= k < |rows| ==> rows[k] == rows[1..][k - 1];
      if OtherIn(rows[0], w) then [rows[0].target] + rest else rest
  }

  /** A well's list holds two or more targets exactly when two different rows of the
      well read a target other than Xeno. */
  lemma {:induction false} TwoOtherRows(rows: seq<Row>, w: WellId)
    ensures |OtherTargets(rows, w)| >= 2 <==> TwoRowsIn(rows, w)
  {
    if rows != [] {
      var rest := rows[1..];
      TwoOtherRows(rest, w);
      if OtherIn(rows[0], w) {
        assert OtherTargets(rows, w) == [rows[0].target] + OtherTargets(rest, w);
        TwoRowsWithHead(rows, w);
      } else {
        assert OtherTargets(rows, w) == OtherTargets(rest, w);
        TwoRowsWithoutHead(rows, w);
      }
    }
  }

  /** Two different rows of well `w` read a target other than Xeno. */
  predicate TwoRowsIn(rows: seq<Row>, w: WellId)
  {
    exists j, k :: 0 <= j < k < |rows| && OtherIn(rows[j], w) && OtherIn(rows[k], w)
  }

  lemma TwoRowsWithHead(rows: seq<Row>, w: WellId)
    requires rows != [] && OtherIn(rows[0], w)
    ensures TwoRowsIn(rows, w) <==> exists k :: 0 <= k < |rows[1..]| && OtherIn(rows[1..][k], w)
  {
    var rest := rows[1..];
    if exists k :: 0 <= k < |rest| && OtherIn(rest[k], w) {
      var k :| 0 <= k < |rest| && OtherIn(rest[k], w);
      assert rows[k + 1] == rest[k];
    }
    if TwoRowsIn(rows, w) {
      var j, k :| 0 <= j < k < |rows| && OtherIn(rows[j], w) && OtherIn(rows[k], w);
      assert rest[k - 1] == rows[k];
    }
  }

  lemma TwoRowsWithoutHead(rows: seq<Row>, w: WellId)
    requires rows != [] && !OtherIn(rows[0], w)
    ensures TwoRowsIn(rows, w) <==> TwoRowsIn(rows[1..], w)
  {
    var rest := rows[1..];
    if TwoRowsIn(rows, w) {
      var j, k :| 0 <= j < k < |rows| && OtherIn(rows[j], w) && OtherIn(rows[k], w);
      assert rest[j - 1] == rows[j] && rest[k - 1] == rows[k];
    }
    if TwoRowsIn(rest, w) {
      var j, k :| 0 <= j < k < |rest| && OtherIn(rest[j], w) && OtherIn(rest[k], w);
      assert rows[j + 1] == rest[j] && rows[k + 1] == rest[k];
    }
  }

  /** `','.join(targets)`. */
  function JoinWithCommas(ts: seq<string>): string
  {
    if ts == [] then ""
    else if |ts| == 1 then ts[0]
    else ts[0] + "," + JoinWithCommas(ts[1..])
  }

  /** The joined list holds a comma exactly when it joins two or more targets, or
      when some target name holds one itself. */
  lemma {:induction false} CommaInJoin(ts: seq<string>)
    ensures ',' in JoinWithCommas(ts) <==> |ts| >= 2 || exists t :: t in ts && ',' in t
  {
    if |ts| >= 2 {
      var joined := ts[0] + "," + JoinWithCommas(ts[1..]);
      assert joined[|ts[0]|] == ',';
    } else if |ts| == 1 {
      assert ts == [ts[0]];
    }
  }

  /** The `additional_target` a Xeno row of well `w` receives from the merge: the
      joined list of the well's other targets, or NaN when it has none. */
  function AdditionalTarget(rows: seq<Row>, w: WellId): (a: Option<string>)
    ensures a.None? <==> forall k :: 0 <= k < |rows| ==> !OtherIn(rows[k], w)
  {
    var ts := OtherTargets(rows, w);
    if ts == [] then None else Some(JoinWithCommas(ts))
  }

  /** `str.contains(',')` after `astype('str')`: a NaN becomes 'nan', which has none. */
  predicate HasComma(a: Option<string>)
  {
    a.Some? && ',' in a.value
  }

  /** The condition under which the test raises its ValueError. */
  predicate MultiplexError(rows: seq<Row>)
  {
    exists i :: 0 <= i < |rows| && IsXeno(rows[i]) && HasComma(AdditionalTarget(rows, WellOf(rows[i])))
  }

  /** With comma-free target names, the error is raised exactly when some well holding
      a Xeno row also holds two or more other rows. */
  lemma MultiplexErrorMeaning(rows: seq<Row>)
    requires forall k :: 0 <= k < |rows| ==> ',' !in rows[k].target
    ensures MultiplexError(rows) <==>
            exists i :: 0 <= i < |rows| && IsXeno(rows[i]) && |OtherTargets(rows, WellOf(rows[i]))| >= 2
    ensures MultiplexError(rows) <==>
            exists i, j, k :: 0 <= i < |rows| && 0 <= j < k < |rows| && IsXeno(rows[i])
                              && OtherIn(rows[j], WellOf(rows[i])) && OtherIn(rows[k], WellOf(rows[i]))
  {
    forall i | 0 <= i < |rows|
      ensures HasComma(AdditionalTarget(rows, WellOf(rows[i]))) <==> |OtherTargets(rows, WellOf(rows[i]))| >= 2
      ensures |OtherTargets(rows, WellOf(rows[i]))| >= 2 <==> TwoRowsIn(rows, WellOf(rows[i]))
    {
      var ts := OtherTargets(rows, WellOf(rows[i]));
      CommaInJoin(ts);
      assert forall t :: t in ts ==> ',' !in t;
      TwoOtherRows(rows, WellOf(rows[i]));
    }
  }

  /** The groupby key (`Sample`, `sample_full`, `additional_target`, `plate_id`, `Task`). */
  datatype XenoKey = XenoKey(sample: string, sampleFull: string, additionalTarget: string, plateId: string, task: string)

  /** The group of a Xeno row; none when its well has no other target, since a NaN
      key is dropped by the grouping. */
  function XenoKeyOf(rows: seq<Row>, r: Row): (key: Option<XenoKey>)
    ensures key.None? <==> forall k :: 0 <= k < |rows| ==> !OtherIn(rows[k], WellOf(r))
    ensures key.Some? ==> key.value.sample == r.sample && key.value.sampleFull == r.sampleFull &&
                          key.value.plateId == r.plateId && key.value.task == r.task
  {
    match AdditionalTarget(rows, WellOf(r))
    case None => None
    case Some(a) => Some(XenoKey(r.sample, r.sampleFull, a, r.plateId, r.task))
  }

  /** A group key's `additional_target` is the comma-joined list of the well's other
      targets. */
  lemma XenoKeyTarget(rows: seq<Row>, r: Row)
    requires XenoKeyOf(rows, r).Some?
    ensures XenoKeyOf(rows, r).value.additionalTarget == JoinWithCommas(OtherTargets(rows, WellOf(r)))
  {
  }

  /** When the test does not raise its error and target names are comma-free, the
      group of a Xeno row carries the target of its well's single other row. */
  lemma XenoKeySingleTarget(rows: seq<Row>, i: nat)
    requires forall k :: 0 <= k < |rows| ==> ',' !in rows[k].target
    requires i < |rows| && IsXeno(rows[i]) && XenoKeyOf(rows, rows[i]).Some?
    requires !MultiplexError(rows)
    ensures var t := XenoKeyOf(rows, rows[i]).value.additionalTarget;
            && (exists k :: 0 <= k < |rows| && OtherIn(rows[k], WellOf(rows[i])) && rows[k].target == t)
            && forall k :: 0 <= k < |rows| && OtherIn(rows[k], WellOf(rows[i])) ==> rows[k].target == t
  {
    var ts := OtherTargets(rows, WellOf(rows[i]));
    XenoKeyTarget(rows, rows[i]);
    MultiplexErrorMeaning(rows);
    assert |ts| == 1;
    assert ts == [ts[0]] && ts[0] in ts;
  }

  /** One Xeno row as the aggregation sees it. */
  datatype XenoReading = XenoReading(key: XenoKey, cq: Num, quantity: Num)

  /** The grouped Xeno rows of `rows`, in row order; `all` is the frame that supplies
      the well's other targets. */
  function XenoReadings(all: seq<Row>, rows: seq<Row>): seq<XenoReading>
  {
    if rows == [] then []
    else
      var rest := XenoReadings(all, rows[1..]);
      var key := XenoKeyOf(all, rows[0]);
      if IsXeno(rows[0]) && key.Some? then [XenoReading(key.value, rows[0].cq, rows[0].quantity)] + rest
      else rest
  }

  /** Every grouped reading comes from a Xeno row with that key, and every Xeno row
      with a key is grouped. */
  lemma {:induction false} XenoReadingsFrom(all: seq<Row>, rows: seq<Row>)
    ensures forall m :: m in XenoReadings(all, rows) ==>
              exists k :: 0 <= k < |rows| && IsXeno(rows[k]) && XenoKeyOf(all, rows[k]) == Some(m.key)
    ensures forall k :: 0 <= k < |rows| && IsXeno(rows[k]) && XenoKeyOf(all, rows[k]).Some? ==>
              XenoReading(XenoKeyOf(all, rows[k]).value, rows[k].cq, rows[k].quantity) in XenoReadings(all, rows)
  {
    forall m | m in XenoReadings(all, rows)
      ensures exists k :: 0 <= k < |rows| && IsXeno(rows[k]) && XenoKeyOf(all, rows[k]) == Some(m.key)
    {
      ReadingFromRow(all, rows, m);
    }
    forall k | 0 <= k < |rows| && IsXeno(rows[k]) && XenoKeyOf(all, rows[k]).Some?
      ensures XenoReading(XenoKeyOf(all, rows[k]).value, rows[k].cq, rows[k].quantity) in XenoReadings(all, rows)
    {
      RowGivesReading(all, rows, k);
    }
  }

  lemma {:induction false} ReadingFromRow(all: seq<Row>, rows: seq<Row>, m: XenoReading)
    requires m in XenoReadings(all, rows)
    ensures exists k :: 0 <= k < |rows| && IsXeno(rows[k]) && XenoKeyOf(all, rows[k]) == Some(m.key)
  {
    XenoReadingsHead(all, rows);
    if m in XenoReadings(all, rows[1..]) {
      ReadingFromRow(all, rows[1..], m);
      var k :| 0 <= k < |rows[1..]| && IsXeno(rows[1..][k]) && XenoKeyOf(all, rows[1..][k]) == Some(m.key);
      assert rows[k + 1] == rows[1..][k];
    } else {
      assert IsXeno(rows[0]) && XenoKeyOf(all, rows[0]) == Some(m.key);
    }
  }

  lemma {:induction false} RowGivesReading(all: seq<Row>, rows: seq<Row>, k: nat)
    requires k < |rows| && IsXeno(rows[k]) && XenoKeyOf(all, rows[k]).Some?
    ensures XenoReading(XenoKeyOf(all, rows[k]).value, rows[k].cq, rows[k].quantity) in XenoReadings(all, rows)
  {
    XenoReadingsHead(all, rows);
    var m := XenoReading(XenoKeyOf(all, rows[k]).value, rows[k].cq, rows[k].quantity);
    if k > 0 {
      assert rows[1..][k - 1] == rows[k];
      RowGivesReading(all, rows[1..], k - 1);
      assert m in XenoReadings(all, rows[1..]);
    } else {
      assert XenoReadings(all, rows)[0] == m;
    }
  }

  /** The first row contributes a reading exactly when it is a Xeno row with a key. */
  lemma XenoReadingsHead(all: seq<Row>, rows: seq<Row>)
    requires rows != []
    ensures var key := XenoKeyOf(all, rows[0]);
            XenoReadings(all, rows) ==
              (if IsXeno(rows[0]) && key.Some? then [XenoReading(key.value, rows[0].cq, rows[0].quantity)] else [])
              + XenoReadings(all, rows[1..])
  {
  }

  function KeysOf(rs: seq<XenoReading>): seq<XenoKey>
  {
    seq(|rs|, i requires 0 <= i < |rs| => rs[i].key)
  }

  /** The `Cq` column of one group. */
  function CqsOf(rs: seq<XenoReading>, key: XenoKey): (cqs: seq<Num>)
    ensures cqs == [] <==> forall m :: m in rs ==> m.key != key
    ensures forall m :: m in rs && m.key == key ==> m.cq in cqs
    ensures forall c :: c in cqs ==> exists m :: m in rs && m.key == key && m.cq == c
  {
    if rs == [] then []
    else if rs[0].key == key then [rs[0].cq] + CqsOf(rs[1..], key)
    else CqsOf(rs[1..], key)
  }

  /** The `Quantity` column of one group. */
  function QuantitiesOf(rs: seq<XenoReading>, key: XenoKey): seq<Num>
  {
    if rs == [] then []
    else if rs[0].key == key then [rs[0].quantity] + QuantitiesOf(rs[1..], key)
    else QuantitiesOf(rs[1..], key)
  }

  /** The Xeno rows of group `key`. */
  function InGroup(all: seq<Row>, key: XenoKey): Row -> bool
  {
    r => IsXeno(r) && XenoKeyOf(all, r) == Some(key)
  }

  predicate HasCq(r: Row)
  {
    r.cq.Some?
  }

  /** The `Cq` column of a frame. */
  function CqColumn(rows: seq<Row>): seq<Num>
  {
    seq(|rows|, j requires 0 <= j < |rows| => rows[j].cq)
  }

  /** The `Quantity` column of a frame. */
  function QuantityColumn(rows: seq<Row>): seq<Num>
  {
    seq(|rows|, j requires 0 <= j < |rows| => rows[j].quantity)
  }

  /** A group's `Cq` and `Quantity` columns are those of the group's Xeno rows: one
      entry per row, in row order, repeated values included. */
  lemma {:induction false} GroupColumns(all: seq<Row>, rows: seq<Row>, key: XenoKey)
    ensures var gr := Filter(rows, InGroup(all, key));
            var rs := XenoReadings(all, rows);
            CqsOf(rs, key) == CqColumn(gr) && QuantitiesOf(rs, key) == QuantityColumn(gr)
  {
    if rows != [] {
      GroupColumns(all, rows[1..], key);
      GroupColumnsHead(all, rows, key);
      FilterHead(rows, InGroup(all, key));
      ColumnsCons(rows[0], Filter(rows[1..], InGroup(all, key)));
    }
  }

  lemma ColumnsCons(r: Row, rows: seq<Row>)
    ensures CqColumn([r] + rows) == [r.cq] + CqColumn(rows)
    ensures QuantityColumn([r] + rows) == [r.quantity] + QuantityColumn(rows)
  {
  }

  /** The first row adds its Cq and Quantity to the group's columns exactly when it
      belongs to the group. */
  lemma GroupColumnsHead(all: seq<Row>, rows: seq<Row>, key: XenoKey)
    requires rows != []
    ensures var rs := XenoReadings(all, rows);
            var rest := XenoReadings(all, rows[1..]);
            if InGroup(all, key)(rows[0])
            then CqsOf(rs, key) == [rows[0].cq] + CqsOf(rest, key)
                 && QuantitiesOf(rs, key) == [rows[0].quantity] + QuantitiesOf(rest, key)
            else CqsOf(rs, key) == CqsOf(rest, key) && QuantitiesOf(rs, key) == QuantitiesOf(rest, key)
  {
    var rs := XenoReadings(all, rows);
    var rest := XenoReadings(all, rows[1..]);
    var k := XenoKeyOf(all, rows[0]);
    if IsXeno(rows[0]) && k.Some? {
      assert rs == [XenoReading(k.value, rows[0].cq, rows[0].quantity)] + rest;
      assert rs[1..] == rest;
    } else {
      assert rs == rest;
    }
  }

  /** One aggregated group: `Ct_vet_mean`, `Quantity_std_crv`, `Ct_vet_std`, `Ct_vet_count`. */
  datatype XenoGroup = XenoGroup(key: XenoKey, ctVetMean: Num, quantityStdCrv: Num, ctVetStd: Num, ctVetCount: nat)

  /** Aggregates one group; `gmean` and `gstd` are the geometric mean and geometric
      standard deviation, applied to the defined Cq values only. */
  function Aggregate(rs: seq<XenoReading>, key: XenoKey, gmean: seq<real> -> real, gstd: seq<real> -> real): XenoGroup
  {
    var present := Present(CqsOf(rs, key));
    XenoGroup(key,
              if present == [] then None else Some(gmean(present)),
              MaxOf(QuantitiesOf(rs, key)),
              if |present| < 2 then None else Some(gstd(present)),
              |present|)
  }

  /** The aggregated frame `target_s`, one entry per group key, in order of first
      appearance. */
  function XenoGroups(rows: seq<Row>, gmean: seq<real> -> real, gstd: seq<real> -> real): seq<XenoGroup>
  {
    var rs := XenoReadings(rows, rows);
    var keys := Distinct(KeysOf(rs));
    seq(|keys|, i requires 0 <= i < |keys| => Aggregate(rs, keys[i], gmean, gstd))
  }

  /** No two groups share a key. */
  lemma XenoGroupKeysUnique(rows: seq<Row>, gmean: seq<real> -> real, gstd: seq<real> -> real)
    ensures var gs := XenoGroups(rows, gmean, gstd);
            forall i, j :: 0 <= i < j < |gs| ==> gs[i].key != gs[j].key
  {
    var gs := XenoGroups(rows, gmean, gstd);
    var keys := Distinct(KeysOf(XenoReadings(rows, rows)));
    assert forall i :: 0 <= i < |gs| ==> gs[i].key == keys[i];
  }

  /** Every Xeno row whose well has another target falls in a group with its key. */
  lemma XenoRowHasGroup(rows: seq<Row>, gmean: seq<real> -> real, gstd: seq<real> -> real, k: nat)
    requires k < |rows| && IsXeno(rows[k]) && XenoKeyOf(rows, rows[k]).Some?
    ensures var gs := XenoGroups(rows, gmean, gstd);
            exists i :: 0 <= i < |gs| && gs[i].key == XenoKeyOf(rows, rows[k]).value
  {
    var gs := XenoGroups(rows, gmean, gstd);
    var rs := XenoReadings(rows, rows);
    var keys := Distinct(KeysOf(rs));
    XenoReadingsFrom(rows, rows);
    var m := XenoReading(XenoKeyOf(rows, rows[k]).value, rows[k].cq, rows[k].quantity);
    assert m in rs;
    var p :| 0 <= p < |rs| && rs[p] == m;
    assert KeysOf(rs)[p] == m.key;
    assert m.key in keys;
    var i :| 0 <= i < |keys| && keys[i] == m.key;
    assert gs[i].key == m.key;
  }

  /** Every group key is the key of some Xeno row whose well has another target. */
  lemma XenoGroupHasRow(rows: seq<Row>, gmean: seq<real> -> real, gstd: seq<real> -> real, i: nat)
    requires i < |XenoGroups(rows, gmean, gstd)|
    ensures exists k :: 0 <= k < |rows| && IsXeno(rows[k])
                        && XenoKeyOf(rows, rows[k]) == Some(XenoGroups(rows, gmean, gstd)[i].key)
  {
    var gs := XenoGroups(rows, gmean, gstd);
    var rs := XenoReadings(rows, rows);
    var keys := Distinct(KeysOf(rs));
    XenoReadingsFrom(rows, rows);
    assert gs[i].key == keys[i];
    assert keys[i] in KeysOf(rs);
    var p :| 0 <= p < |KeysOf(rs)| && KeysOf(rs)[p] == keys[i];
    assert rs[p] in rs && rs[p].key == gs[i].key;
  }

  /** Every group holds at least one row; its mean Ct is undefined exactly when all
      its Cq values are, its spread needs two defined values, and its count is the
      number of defined values. */
  lemma XenoGroupStats(rows: seq<Row>, gmean: seq<real> -> real, gstd: seq<real> -> real, i: nat)
    requires i < |XenoGroups(rows, gmean, gstd)|
    ensures var g := XenoGroups(rows, gmean, gstd)[i];
            var cqs := CqsOf(XenoReadings(rows, rows), g.key);
            && cqs != []
            && (g.ctVetMean.None? <==> forall j :: 0 <= j < |cqs| ==> cqs[j].None?)
            && (g.ctVetMean.Some? ==> g.ctVetMean.value == gmean(Present(cqs)))
            && (g.ctVetStd.Some? <==> |Present(cqs)| >= 2)
            && (g.ctVetStd.Some? ==> g.ctVetStd.value == gstd(Present(cqs)))
            && g.quantityStdCrv == MaxOf(QuantitiesOf(XenoReadings(rows, rows), g.key))
            && g.ctVetCount == |Present(cqs)|
  {
    var rs := XenoReadings(rows, rows);
    var keys := Distinct(KeysOf(rs));
    var g := XenoGroups(rows, gmean, gstd)[i];
    assert g == Aggregate(rs, keys[i], gmean, gstd);
    assert keys[i] in KeysOf(rs);
    var p :| 0 <= p < |KeysOf(rs)| && KeysOf(rs)[p] == keys[i];
    assert rs[p] in rs && rs[p].key == keys[i];
  }

  /** `Ct_vet_count` is the number of the group's Xeno rows with a defined Cq, repeated
      values included, and `Ct_vet_std` is defined exactly when there are two or more. */
  lemma XenoGroupCount(rows: seq<Row>, gmean: seq<real> -> real, gstd: seq<real> -> real, i: nat)
    requires i < |XenoGroups(rows, gmean, gstd)|
    ensures var g := XenoGroups(rows, gmean, gstd)[i];
            var n := |Filter(Filter(rows, InGroup(rows, g.key)), HasCq)|;
            g.ctVetCount == n && (g.ctVetStd.Some? <==> n >= 2)
  {
    var g := XenoGroups(rows, gmean, gstd)[i];
    var rs := XenoReadings(rows, rows);
    var gr := Filter(rows, InGroup(rows, g.key));
    var cqs := CqsOf(rs, g.key);
    XenoGroupStats(rows, gmean, gstd, i);
    GroupColumns(rows, rows, g.key);
    PresentValues(cqs);
    assert cqs == CqColumn(gr);
    FilterAligned(cqs, gr, Defined, HasCq);
  }

  predicate NotStandard(g: XenoGroup)
  {
    g.key.task != TASK_STANDARD
  }

  predicate IsNegativeControl(g: XenoGroup)
  {
    g.key.task == TASK_NEGATIVE_CONTROL
  }

  predicate IsUnknown(g: XenoGroup)
  {
    g.key.task == TASK_UNKNOWN
  }

  /** One row of `ntc_col`: a plate's negative-control Xeno Ct for one additional target. */
  datatype NtcControl = NtcControl(plateId: string, additionalTarget: string, ctControlMean: Num)

  /** `ntc_col`: the negative-control groups among the non-standard groups. */
  function NtcControls(groups: seq<XenoGroup>): seq<NtcControl>
  {
    var ntc := Filter(Filter(groups, NotStandard), IsNegativeControl);
    seq(|ntc|, i requires 0 <= i < |ntc| => NtcControl(ntc[i].key.plateId, ntc[i].key.additionalTarget, ntc[i].ctVetMean))
  }

  /** Each entry of `ntc_col` is a negative-control group's plate, additional target
      and mean Ct. */
  lemma NtcControlsFromNegativeControls(groups: seq<XenoGroup>, j: int)
    requires 0 <= j < |NtcControls(groups)|
    ensures exists g :: g in groups && IsNegativeControl(g)
                        && NtcControls(groups)[j] == NtcControl(g.key.plateId, g.key.additionalTarget, g.ctVetMean)
  {
    var selected := Filter(Filter(groups, NotStandard), IsNegativeControl);
    var g := selected[j];
    assert g in selected && IsNegativeControl(g);
    assert g in Filter(groups, NotStandard);
    assert NtcControls(groups)[j] == NtcControl(g.key.plateId, g.key.additionalTarget, g.ctVetMean);
  }

  /** Every negative-control group yields its `ntc_col` entry. */
  lemma NegativeControlInNtc(groups: seq<XenoGroup>, g: XenoGroup)
    requires g in groups && IsNegativeControl(g)
    ensures NtcControl(g.key.plateId, g.key.additionalTarget, g.ctVetMean) in NtcControls(groups)
  {
    assert NotStandard(g);
    assert g in Filter(groups, NotStandard);
    var selected := Filter(Filter(groups, NotStandard), IsNegativeControl);
    assert g in selected;
    var p :| 0 <= p < |selected| && selected[p] == g;
    assert NtcControls(groups)[p] == NtcControl(g.key.plateId, g.key.additionalTarget, g.ctVetMean);
  }

  /** The join columns shared by the sample groups and `ntc_col`. */
  predicate SamePlateTarget(g: XenoGroup, c: NtcControl)
  {
    g.key.plateId == c.plateId && g.key.additionalTarget == c.additionalTarget
  }

  /** A sample group with its plate's control Ct attached (NaN without a control). */
  datatype ControlledGroup = ControlledGroup(group: XenoGroup, ctControlMean: Num)

  function AttachControl(g: XenoGroup, c: Option<NtcControl>): ControlledGroup
  {
    ControlledGroup(g, if c.Some? then c.value.ctControlMean else None)
  }

  /** One row of `xeno_fin_all`. */
  datatype XenoResult = XenoResult(group: XenoGroup, ctControlMean: Num, dCt: Num, inhibited: string)

  /** `dCt = Ct_vet_mean - Ct_control_mean`, labelled "Yes" when `dCt > x` and "No"
      otherwise, including when `dCt` is NaN. */
  function Label(c: ControlledGroup, x: real): XenoResult
  {
    var d := Sub(c.group.ctVetMean, c.ctControlMean);
    XenoResult(c.group, c.ctControlMean, d, if Greater(d, x) then "Yes" else "No")
  }

  /** `target[target.Task == 'Unknown']`: the sample groups. */
  function SampleGroups(groups: seq<XenoGroup>): seq<XenoGroup>
  {
    Filter(Filter(groups, NotStandard), IsUnknown)
  }

  /** The sample groups left-joined to their plate's negative controls. */
  function ControlledUnknowns(groups: seq<XenoGroup>): seq<ControlledGroup>
  {
    LeftJoin(SampleGroups(groups), NtcControls(groups), SamePlateTarget, AttachControl)
  }

  /** `xeno_fin_all`. */
  function XenoFinAll(rows: seq<Row>, x: real, gmean: seq<real> -> real, gstd: seq<real> -> real): seq<XenoResult>
  {
    var joined := ControlledUnknowns(XenoGroups(rows, gmean, gstd));
    seq(|joined|, i requires 0 <= i < |joined| => Label(joined[i], x))
  }

  predicate IsUnknownControlled(c: ControlledGroup)
  {
    IsUnknown(c.group)
  }

  /** Every row of `xeno_fin_all` is a sample (`Task == 'Unknown'`) group, labelled
      "Yes" exactly when its dCt is defined and above `x`. */
  lemma XenoFinAllRows(rows: seq<Row>, x: real, gmean: seq<real> -> real, gstd: seq<real> -> real)
    ensures var fin := XenoFinAll(rows, x, gmean, gstd);
            forall j :: 0 <= j < |fin| ==>
              && fin[j].group.key.task == TASK_UNKNOWN
              && fin[j].dCt == Sub(fin[j].group.ctVetMean, fin[j].ctControlMean)
              && (fin[j].inhibited == "Yes" <==> fin[j].dCt.Some? && fin[j].dCt.value > x)
              && (fin[j].inhibited == "No" <==> !(fin[j].dCt.Some? && fin[j].dCt.value > x))
  {
    ControlledAreSamples(XenoGroups(rows, gmean, gstd));
  }

  lemma ControlledAreSamples(groups: seq<XenoGroup>)
    ensures var joined := ControlledUnknowns(groups);
            forall j :: 0 <= j < |joined| ==> joined[j].group.key.task == TASK_UNKNOWN
  {
    LeftJoinKeeps(SampleGroups(groups), NtcControls(groups), SamePlateTarget, AttachControl, IsUnknown, IsUnknownControlled);
    var joined := ControlledUnknowns(groups);
    assert forall j :: 0 <= j < |joined| ==> joined[j] in joined;
  }

  /** The control Ct of each sample group: its copies in the join carry the Ct of each
      control it matches, and a group with no match gets one row with undefined control
      Ct (`ControlJoinUnmatched` says when that happens). */
  lemma ControlJoin(groups: seq<XenoGroup>, i: nat)
    requires i < |SampleGroups(groups)|
    ensures var unknown := SampleGroups(groups);
            var ms := MatchesOf(unknown[i], NtcControls(groups), SamePlateTarget);
            var out := ControlledUnknowns(groups);
            var start := |LeftJoin(unknown[..i], NtcControls(groups), SamePlateTarget, AttachControl)|;
            && start + (if ms == [] then 1 else |ms|) <= |out|
            && (forall j :: 0 <= j < |ms| ==> out[start + j] == ControlledGroup(unknown[i], ms[j].ctControlMean))
            && (ms == [] ==> out[start] == ControlledGroup(unknown[i], None))
  {
    LeftJoinCopies(SampleGroups(groups), i, NtcControls(groups), SamePlateTarget, AttachControl);
  }

  /** A sample group goes without a control exactly when no negative-control group
      has its plate and additional target. */
  lemma ControlJoinUnmatched(groups: seq<XenoGroup>, i: nat)
    requires i < |SampleGroups(groups)|
    ensures var u := SampleGroups(groups)[i];
            MatchesOf(u, NtcControls(groups), SamePlateTarget) == [] <==>
            !exists g :: g in groups && IsNegativeControl(g)
                         && g.key.plateId == u.key.plateId && g.key.additionalTarget == u.key.additionalTarget
  {
    var u := SampleGroups(groups)[i];
    var ntc := NtcControls(groups);
    var ms := MatchesOf(u, ntc, SamePlateTarget);
    if exists g :: g in groups && IsNegativeControl(g)
                   && g.key.plateId == u.key.plateId && g.key.additionalTarget == u.key.additionalTarget {
      var g :| g in groups && IsNegativeControl(g)
               && g.key.plateId == u.key.plateId && g.key.additionalTarget == u.key.additionalTarget;
      NegativeControlInNtc(groups, g);
      MatchesOfComplete(u, ntc, SamePlateTarget, NtcControl(g.key.plateId, g.key.additionalTarget, g.ctVetMean));
    }
    if ms != [] {
      MatchesOfFrom(u, ntc, SamePlateTarget, 0);
      var p :| 0 <= p < |ntc| && ntc[p] == ms[0];
      NtcControlsFromNegativeControls(groups, p);
      assert SamePlateTarget(u, ms[0]);
    }
  }

  /** `inhibited`: the samples with some dCt above 1. */
  function InhibitedSamples(fin: seq<XenoResult>): set<string>
  {
    set i | 0 <= i < |fin| && Greater(fin[i].dCt, SAMPLE_SET_THRESHOLD) :: fin[i].group.key.sample
  }

  /** `not_inhibited`: the samples with some dCt at most 1. */
  function NotInhibitedSamples(fin: seq<XenoResult>): set<string>
  {
    set i | 0 <= i < |fin| && AtMost(fin[i].dCt, SAMPLE_SET_THRESHOLD) :: fin[i].group.key.sample
  }

  /** The final `is_inhibited` of a sample: 'unknown' first, True for the inhibited
      set, then False for the not-inhibited set, which is written last and wins. */
  function InhibitionOf(sample: string, inhibited: set<string>, notInhibited: set<string>): InhibitionFlag
  {
    if sample in notInhibited then Known(false)
    else if sample in inhibited then Known(true)
    else Unknown
  }

  /** What `is_inhibited` means for a sample: False when one of its dCt values is at
      most 1 (even if another is above 1), True when some dCt is above 1 and none is at
      most 1, and 'unknown' exactly when all its dCt values are NaN or it has none. */
  lemma InhibitionMeaning(fin: seq<XenoResult>, s: string)
    ensures var flag := InhibitionOf(s, InhibitedSamples(fin), NotInhibitedSamples(fin));
            && (flag == Known(false) <==>
                  exists i :: 0 <= i < |fin| && fin[i].group.key.sample == s && AtMost(fin[i].dCt, 1.0))
            && (flag == Known(true) <==>
                  (exists i :: 0 <= i < |fin| && fin[i].group.key.sample == s && Greater(fin[i].dCt, 1.0))
                  && forall i :: 0 <= i < |fin| && fin[i].group.key.sample == s ==> !AtMost(fin[i].dCt, 1.0))
            && (flag == Unknown <==>
                  forall i :: 0 <= i < |fin| && fin[i].group.key.sample == s ==> fin[i].dCt.None?)
  {
    var inh := InhibitedSamples(fin);
    var notInh := NotInhibitedSamples(fin);
    forall i | 0 <= i < |fin| && fin[i].group.key.sample == s
      ensures Greater(fin[i].dCt, 1.0) ==> s in inh
      ensures AtMost(fin[i].dCt, 1.0) ==> s in notInh
    {
    }
  }

  /** With `x` at its default of 1 the row label and the sample sets agree. */
  lemma LabelMatchesSetsAtDefault(c: ControlledGroup)
    ensures var r := Label(c, 1.0);
            (r.inhibited == "Yes" <==> r.group.key.sample in InhibitedSamples([r]))
            && (r.inhibited == "No" && r.dCt.Some? <==> r.group.key.sample in NotInhibitedSamples([r]))
  {
    var r := Label(c, 1.0);
    if r.inhibited == "Yes" {
      assert Greater([r][0].dCt, SAMPLE_SET_THRESHOLD);
    }
    if r.inhibited == "No" && r.dCt.Some? {
      assert AtMost([r][0].dCt, SAMPLE_SET_THRESHOLD);
    }
  }

  /** At the default `x` the same holds for the whole of xeno_fin_all: the inhibited
      set is exactly the samples of rows labelled "Yes", and the not-inhibited set
      exactly those of rows labelled "No" with a defined dCt. */
  lemma LabelsMatchSetsAtDefault(rows: seq<Row>, gmean: seq<real> -> real, gstd: seq<real> -> real)
    ensures var fin := XenoFinAll(rows, 1.0, gmean, gstd);
            && (forall s :: s in InhibitedSamples(fin) <==>
                  exists i :: 0 <= i < |fin| && fin[i].group.key.sample == s && fin[i].inhibited == "Yes")
            && (forall s :: s in NotInhibitedSamples(fin) <==>
                  exists i :: 0 <= i < |fin| && fin[i].group.key.sample == s && fin[i].inhibited == "No" && fin[i].dCt.Some?)
  {
    var fin := XenoFinAll(rows, 1.0, gmean, gstd);
    var joined := ControlledUnknowns(XenoGroups(rows, gmean, gstd));
    forall i | 0 <= i < |fin|
      ensures fin[i].inhibited == "Yes" <==> Greater(fin[i].dCt, SAMPLE_SET_THRESHOLD)
      ensures fin[i].inhibited == "No" && fin[i].dCt.Some? <==> AtMost(fin[i].dCt, SAMPLE_SET_THRESHOLD)
    {
      assert fin[i] == Label(joined[i], 1.0);
    }
  }

  /** With a larger `x` they disagree: a dCt between 1 and `x` is labelled "No" while
      its sample is put in the inhibited set (and stamped True if nothing else says
      otherwise). */
  lemma LabelDisagreesWithSetsAboveDefault(c: ControlledGroup, x: real)
    requires Sub(c.group.ctVetMean, c.ctControlMean).Some?
    requires 1.0 < Sub(c.group.ctVetMean, c.ctControlMean).value <= x
    ensures var r := Label(c, x);
            r.inhibited == "No"
            && InhibitionOf(r.group.key.sample, InhibitedSamples([r]), NotInhibitedSamples([r])) == Known(true)
  {
    var r := Label(c, x);
    assert Greater([r][0].dCt, SAMPLE_SET_THRESHOLD);
  }

  /** Sets `is_inhibited` to `v` on every row. */
  method FillIsInhibited(normd: Frame, v: InhibitionFlag)
    modifies normd
    ensures |normd.rows| == |old(normd.rows)|
    ensures forall k :: 0 <= k < |normd.rows| ==> normd.rows[k] == old(normd.rows[k]).(isInhibited := Some(v))
  {
    var n := |normd.rows|;
    ghost var input := normd.rows;
    var i := 0;
    while i < n
      invariant 0 <= i <= n && |normd.rows| == n
      invariant forall k :: 0 <= k < i ==> normd.rows[k] == input[k].(isInhibited := Some(v))
      invariant forall k :: i <= k < n ==> normd.rows[k] == input[k]
    {
      normd.rows := normd.rows[i := normd.rows[i].(isInhibited := Some(v))];
      i := i + 1;
    }
  }

  /** Sets `is_inhibited` to `v` on the rows whose sample is in `samples` (`Sample.isin`),
      leaving every other row as it is. */
  method StampIsInhibited(normd: Frame, samples: set<string>, v: InhibitionFlag)
    modifies normd
    ensures |normd.rows| == |old(normd.rows)|
    ensures forall k :: 0 <= k < |normd.rows| ==>
              normd.rows[k] == if old(normd.rows[k]).sample in samples
                               then old(normd.rows[k]).(isInhibited := Some(v))
                               else old(normd.rows[k])
  {
    var n := |normd.rows|;
    ghost var input := normd.rows;
    var i := 0;
    while i < n
      invariant 0 <= i <= n && |normd.rows| == n
      invariant forall k :: 0 <= k < i ==>
                  normd.rows[k] == if input[k].sample in samples then input[k].(isInhibited := Some(v)) else input[k]
      invariant forall k :: i <= k < n ==> normd.rows[k] == input[k]
    {
      if normd.rows[i].sample in samples {
        normd.rows := normd.rows[i := normd.rows[i].(isInhibited := Some(v))];
      }
      i := i + 1;
    }
  }

  /** xeno_inhibition_test: raises (and changes nothing) when a Xeno well is
      multiplexed with more than one other target; otherwise returns `xeno_fin_all` and
      stamps `is_inhibited` onto the normalised frame, changing no other column and no
      row count. */
  method XenoInhibitionTest(data: seq<Row>, normd: Frame, x: real,
                            gmean: seq<real> -> real, gstd: seq<real> -> real)
    returns (result: Result<seq<XenoResult>, string>)
    modifies normd
    ensures result.Failure? <==> MultiplexError(data)
    ensures result.Failure? ==> result.error == MULTIPLEX_ERROR && normd.rows == old(normd.rows)
    ensures result.Success? ==> result.value == XenoFinAll(data, x, gmean, gstd)
    ensures result.Success? ==>
              var fin := XenoFinAll(data, x, gmean, gstd);
              && |normd.rows| == |old(normd.rows)|
              && forall k :: 0 <= k < |normd.rows| ==>
                   normd.rows[k] == old(normd.rows[k]).(isInhibited := Some(InhibitionOf(
                                      old(normd.rows[k]).sample, InhibitedSamples(fin), NotInhibitedSamples(fin))))
  {
    if exists i :: 0 <= i < |data| && IsXeno(data[i]) && HasComma(AdditionalTarget(data, WellOf(data[i]))) {
      return Failure(MULTIPLEX_ERROR);
    }
    var fin := XenoFinAll(data, x, gmean, gstd);
    var inhibited := InhibitedSamples(fin);
    var notInhibited := NotInhibitedSamples(fin);
    ghost var input := normd.rows;
    FillIsInhibited(normd, Unknown);
    StampIsInhibited(normd, inhibited, Known(true));
    StampIsInhibited(normd, notInhibited, Known(false));
    forall k | 0 <= k < |normd.rows|
      ensures normd.rows[k] == input[k].(isInhibited := Some(InhibitionOf(input[k].sample, inhibited, notInhibited)))
    {
    }
    result := Success(fin);
  }
}
