/** The extraction-control screen (get_extraction_control): PBS blanks are reduced
    to one result per batch, target and plate, removed from the table, and their
    result is attached to every remaining row. The caller's table is a value here, so
    it is never changed. */
module QaQc {
  import opened Wrappers
  import opened Tables

  /** The `interceptor` tag of an extraction blank. */
  const PBS := "PBS"

  predicate IsPbs(r: Row)
  {
    r.interceptor == PBS
  }

  predicate IsNotPbs(r: Row)
  {
    r.interceptor != PBS
  }

  /** The grouping and join key (`batch`, `Target`, `plate_id`). */
  datatype PbsKey = PbsKey(batch: string, target: string, plateId: string)

  function PbsKeyOf(r: Row): PbsKey
  {
    PbsKey(r.batch, r.target, r.plateId)
  }

  /** One row of the PBS summary: its key, the group's minimum `Cq_init_min`, and the
      encoded `PBS_result`. */
  datatype PbsControl = PbsControl(key: PbsKey, cqInitMin: Num, result: PbsResult)

  /** The `Cq_init_min` values of the blanks with key `key`, in row order. */
  function CtsOf(pbs: seq<Row>, key: PbsKey): (cts: seq<Num>)
    ensures cts == [] <==> forall r :: r in pbs ==> PbsKeyOf(r) != key
    ensures forall r :: r in pbs && PbsKeyOf(r) == key ==> r.cqInitMin in cts
    ensures forall c :: c in cts ==> exists r :: r in pbs && PbsKeyOf(r) == key && r.cqInitMin == c
  {
    if pbs == [] then []
    else
      var rest := CtsOf(pbs[1..], key);
      assert forall r :: r in pbs <==> r == pbs[0] || r in pbs[1..];
      if PbsKeyOf(pbs[0]) == key then [pbs[0].cqInitMin] + rest else rest
  }

  /** `PBS_result`: 'negative' for an undefined Ct, otherwise the Ct itself. */
  function EncodePbsResult(ct: Num): PbsResult
  {
    if ct.None? then Negative else Detected(ct.value)
  }

  function PbsKeys(pbs: seq<Row>): seq<PbsKey>
  {
    seq(|pbs|, i requires 0 <= i < |pbs| => PbsKeyOf(pbs[i]))
  }

  /** The PBS summary: one entry per key of a blank, in order of first appearance,
      holding the smallest Ct among that key's blanks. */
  function PbsControls(rows: seq<Row>): seq<PbsControl>
  {
    var pbs := Filter(rows, IsPbs);
    var keys := Distinct(PbsKeys(pbs));
    seq(|keys|, i requires 0 <= i < |keys| =>
      var m := MinOf(CtsOf(pbs, keys[i]));
      PbsControl(keys[i], m, EncodePbsResult(m)))
  }

  /** The join condition `on=['plate_id', 'batch', 'Target']`. */
  predicate SameControlKey(r: Row, c: PbsControl)
  {
    PbsKeyOf(r) == c.key
  }

  function AttachPbsResult(r: Row, c: Option<PbsControl>): Row
  {
    r.(pbsResult := if c.Some? then Some(c.value.result) else None)
  }

  /** get_extraction_control: the non-PBS rows, left-joined to the PBS summary. */
  function GetExtractionControl(rows: seq<Row>): seq<Row>
  {
    LeftJoin(Filter(rows, IsNotPbs), PbsControls(rows), SameControlKey, AttachPbsResult)
  }

  /** The result a row with key `key` receives: none when no blank has that key,
      otherwise the encoded minimum Ct of the blanks that have it. */
  function PbsResultFor(rows: seq<Row>, key: PbsKey): Option<PbsResult>
  {
    var cts := CtsOf(Filter(rows, IsPbs), key);
    if cts == [] then None else Some(EncodePbsResult(MinOf(cts)))
  }

  /** The summary lists each key at most once. */
  lemma PbsControlKeysUnique(rows: seq<Row>)
    ensures var cs := PbsControls(rows);
            forall i, j :: 0 <= i < j < |cs| ==> cs[i].key != cs[j].key
  {
    var cs := PbsControls(rows);
    var keys := Distinct(PbsKeys(Filter(rows, IsPbs)));
    assert forall i :: 0 <= i < |cs| ==> cs[i].key == keys[i];
  }

  /** The summary has an entry for a key exactly when some blank has that key. */
  lemma PbsControlForKey(rows: seq<Row>, key: PbsKey)
    ensures (exists i :: 0 <= i < |PbsControls(rows)| && PbsControls(rows)[i].key == key) <==>
            (exists r :: r in rows && IsPbs(r) && PbsKeyOf(r) == key)
  {
    var cs := PbsControls(rows);
    if exists i :: 0 <= i < |cs| && cs[i].key == key {
      var i :| 0 <= i < |cs| && cs[i].key == key;
      ControlHasBlank(rows, i);
    }
    if exists r :: r in rows && IsPbs(r) && PbsKeyOf(r) == key {
      var r :| r in rows && IsPbs(r) && PbsKeyOf(r) == key;
      BlankHasControl(rows, r);
    }
  }

  lemma ControlHasBlank(rows: seq<Row>, i: nat)
    requires i < |PbsControls(rows)|
    ensures exists r :: r in rows && IsPbs(r) && PbsKeyOf(r) == PbsControls(rows)[i].key
  {
    var pbs := Filter(rows, IsPbs);
    var keys := Distinct(PbsKeys(pbs));
    assert PbsControls(rows)[i].key == keys[i];
    assert keys[i] in PbsKeys(pbs);
    var p :| 0 <= p < |pbs| && PbsKeys(pbs)[p] == keys[i];
    assert pbs[p] in pbs;
  }

  lemma BlankHasControl(rows: seq<Row>, r: Row)
    requires r in rows && IsPbs(r)
    ensures exists i :: 0 <= i < |PbsControls(rows)| && PbsControls(rows)[i].key == PbsKeyOf(r)
  {
    var pbs := Filter(rows, IsPbs);
    var keys := Distinct(PbsKeys(pbs));
    assert r in pbs;
    var p :| 0 <= p < |pbs| && pbs[p] == r;
    assert PbsKeys(pbs)[p] == PbsKeyOf(r);
    assert PbsKeyOf(r) in keys;
    var i :| 0 <= i < |keys| && keys[i] == PbsKeyOf(r);
    assert PbsControls(rows)[i].key == PbsKeyOf(r);
  }

  /** Each summary entry holds the minimum of its blanks' Cts: 'negative' exactly when
      every one of them is undefined, and otherwise a Ct that one of them has and that
      none of them undercuts. */
  lemma PbsControlMinimum(rows: seq<Row>, i: nat)
    requires i < |PbsControls(rows)|
    ensures var c := PbsControls(rows)[i];
            && (c.result == Negative <==>
                  forall r :: r in rows && IsPbs(r) && PbsKeyOf(r) == c.key ==> r.cqInitMin.None?)
            && (c.result.Detected? ==>
                  && c.cqInitMin == Some(c.result.ct)
                  && (exists r :: r in rows && IsPbs(r) && PbsKeyOf(r) == c.key && r.cqInitMin == c.cqInitMin)
                  && forall r :: r in rows && IsPbs(r) && PbsKeyOf(r) == c.key && r.cqInitMin.Some? ==>
                       c.result.ct <= r.cqInitMin.value)
  {
    var pbs := Filter(rows, IsPbs);
    var keys := Distinct(PbsKeys(pbs));
    var c := PbsControls(rows)[i];
    var cts := CtsOf(pbs, keys[i]);
    assert c == PbsControl(keys[i], MinOf(cts), EncodePbsResult(MinOf(cts)));
    forall r | r in rows && IsPbs(r) && PbsKeyOf(r) == c.key
      ensures r.cqInitMin in cts
    {
      assert r in pbs;
    }
    if c.result == Negative {
      forall r | r in rows && IsPbs(r) && PbsKeyOf(r) == c.key
        ensures r.cqInitMin.None?
      {
        var p :| 0 <= p < |cts| && cts[p] == r.cqInitMin;
      }
    } else {
      var p :| 0 <= p < |cts| && cts[p] == MinOf(cts);
      assert MinOf(cts) in cts;
      var r :| r in pbs && PbsKeyOf(r) == c.key && r.cqInitMin == MinOf(cts);
      assert r in rows && IsPbs(r);
      forall r' | r' in rows && IsPbs(r') && PbsKeyOf(r') == c.key && r'.cqInitMin.Some?
        ensures c.result.ct <= r'.cqInitMin.value
      {
        var q :| 0 <= q < |cts| && cts[q] == r'.cqInitMin;
      }
    }
  }

  /** Keys that are unique in the summary give each row at most one match. */
  lemma {:induction false} AtMostOneControl(r: Row, cs: seq<PbsControl>)
    requires forall i, j :: 0 <= i < j < |cs| ==> cs[i].key != cs[j].key
    ensures |MatchesOf(r, cs, SameControlKey)| <= 1
  {
    if cs != [] {
      if SameControlKey(r, cs[0]) {
        NoMatches(r, cs[1..], SameControlKey);
      } else {
        AtMostOneControl(r, cs[1..]);
      }
    }
  }

  /** The control a row joins with is the one of its key, if the summary has one. */
  lemma ControlOf(rows: seq<Row>, r: Row)
    ensures AttachPbsResult(r, FirstMatch(r, PbsControls(rows), SameControlKey))
            == r.(pbsResult := PbsResultFor(rows, PbsKeyOf(r)))
  {
    var cs := PbsControls(rows);
    PbsControlForKey(rows, PbsKeyOf(r));
    if exists j :: 0 <= j < |cs| && cs[j].key == PbsKeyOf(r) {
      var j :| 0 <= j < |cs| && cs[j].key == PbsKeyOf(r);
      ControlOfKey(rows, r, j);
    } else {
      NoControlOfKey(rows, r);
    }
  }

  lemma ControlOfKey(rows: seq<Row>, r: Row, j: nat)
    requires j < |PbsControls(rows)| && PbsControls(rows)[j].key == PbsKeyOf(r)
    ensures AttachPbsResult(r, FirstMatch(r, PbsControls(rows), SameControlKey))
            == r.(pbsResult := PbsResultFor(rows, PbsKeyOf(r)))
  {
    var cs := PbsControls(rows);
    var pbs := Filter(rows, IsPbs);
    var key := PbsKeyOf(r);
    PbsControlKeysUnique(rows);
    MatchesOfUnique(r, cs, SameControlKey, j);
    var keys := Distinct(PbsKeys(pbs));
    assert cs[j] == PbsControl(keys[j], MinOf(CtsOf(pbs, keys[j])), EncodePbsResult(MinOf(CtsOf(pbs, keys[j]))));
    ControlHasBlank(rows, j);
    var b :| b in rows && IsPbs(b) && PbsKeyOf(b) == key;
    assert b in pbs;
  }

  lemma NoControlOfKey(rows: seq<Row>, r: Row)
    requires forall j :: 0 <= j < |PbsControls(rows)| ==> PbsControls(rows)[j].key != PbsKeyOf(r)
    ensures AttachPbsResult(r, FirstMatch(r, PbsControls(rows), SameControlKey))
            == r.(pbsResult := PbsResultFor(rows, PbsKeyOf(r)))
  {
    var pbs := Filter(rows, IsPbs);
    var key := PbsKeyOf(r);
    PbsControlForKey(rows, key);
    NoMatches(r, PbsControls(rows), SameControlKey);
    forall b | b in pbs
      ensures PbsKeyOf(b) != key
    {
      assert b in rows && IsPbs(b);
    }
  }

  /** The output is the non-PBS rows, one for one and in order, each carrying the PBS
      result of its key; together with the blanks they account for every input row. */
  lemma ExtractionControlRows(rows: seq<Row>)
    ensures var out := GetExtractionControl(rows);
            var kept := Filter(rows, IsNotPbs);
            && |out| == |kept|
            && |out| + |Filter(rows, IsPbs)| == |rows|
            && forall i :: 0 <= i < |out| ==> out[i] == kept[i].(pbsResult := PbsResultFor(rows, PbsKeyOf(kept[i])))
  {
    var kept := Filter(rows, IsNotPbs);
    var cs := PbsControls(rows);
    PbsControlKeysUnique(rows);
    forall i | 0 <= i < |kept|
      ensures |MatchesOf(kept[i], cs, SameControlKey)| <= 1
    {
      AtMostOneControl(kept[i], cs);
    }
    LeftJoinManyToOne(kept, cs, SameControlKey, AttachPbsResult);
    forall i | 0 <= i < |kept|
      ensures AttachPbsResult(kept[i], FirstMatch(kept[i], cs, SameControlKey))
              == kept[i].(pbsResult := PbsResultFor(rows, PbsKeyOf(kept[i])))
    {
      ControlOf(rows, kept[i]);
    }
    FilterComplement(rows, IsNotPbs, IsPbs);
  }

  /** No blank survives into the output. */
  lemma ExtractionControlDropsPbs(rows: seq<Row>)
    ensures forall r :: r in GetExtractionControl(rows) ==> !IsPbs(r)
  {
    LeftJoinKeeps(Filter(rows, IsNotPbs), PbsControls(rows), SameControlKey, AttachPbsResult, IsNotPbs, IsNotPbs);
  }

  /** A non-PBS row whose key has no blank gets an undefined `PBS_result`. */
  lemma UnmatchedRowHasNoResult(rows: seq<Row>, r: Row)
    requires forall b :: b in rows && IsPbs(b) ==> PbsKeyOf(b) != PbsKeyOf(r)
    ensures PbsResultFor(rows, PbsKeyOf(r)) == None
  {
    forall b | b in Filter(rows, IsPbs)
      ensures PbsKeyOf(b) != PbsKeyOf(r)
    {
    }
  }

  /** Three blanks of one key with Cts NaN, 32.1 and 30.5 report 30.5. */
  lemma PbsMinimumExample(a: Row, b: Row, c: Row)
    requires IsPbs(a) && IsPbs(b) && IsPbs(c)
    requires PbsKeyOf(a) == PbsKeyOf(b) == PbsKeyOf(c)
    requires a.cqInitMin == None && b.cqInitMin == Some(32.1) && c.cqInitMin == Some(30.5)
    ensures PbsControls([a, b, c]) == [PbsControl(PbsKeyOf(a), Some(30.5), Detected(30.5))]
  {
    var key := PbsKeyOf(a);
    ExampleShared(a, b, c);
    SingleKeyControls([a, b, c], key);
    ExampleFilter(a, b, c);
    ExampleCts(a, b, c);
    assert EncodePbsResult(Some(30.5)) == Detected(30.5);
  }

  lemma ExampleShared(a: Row, b: Row, c: Row)
    requires IsPbs(a) && PbsKeyOf(a) == PbsKeyOf(b) == PbsKeyOf(c)
    ensures exists r :: r in [a, b, c] && IsPbs(r)
    ensures forall r :: r in [a, b, c] && IsPbs(r) ==> PbsKeyOf(r) == PbsKeyOf(a)
  {
    assert [a, b, c][0] == a;
  }

  /** When there are blanks and they all share one key, the summary is that key's
      single entry. */
  lemma SingleKeyControls(rows: seq<Row>, key: PbsKey)
    requires exists r :: r in rows && IsPbs(r)
    requires forall r :: r in rows && IsPbs(r) ==> PbsKeyOf(r) == key
    ensures var m := MinOf(CtsOf(Filter(rows, IsPbs), key));
            PbsControls(rows) == [PbsControl(key, m, EncodePbsResult(m))]
  {
    var pbs := Filter(rows, IsPbs);
    var r :| r in rows && IsPbs(r);
    assert r in pbs;
    var p :| 0 <= p < |pbs| && pbs[p] == r;
    assert PbsKeys(pbs)[p] == key;
    assert forall i :: 0 <= i < |pbs| ==> pbs[i] in pbs;
    DistinctOfOne(PbsKeys(pbs), key);
    ControlsOfOneKey(rows, key);
  }

  lemma ControlsOfOneKey(rows: seq<Row>, key: PbsKey)
    requires Distinct(PbsKeys(Filter(rows, IsPbs))) == [key]
    ensures var m := MinOf(CtsOf(Filter(rows, IsPbs), key));
            PbsControls(rows) == [PbsControl(key, m, EncodePbsResult(m))]
  {
  }

  lemma ExampleFilter(a: Row, b: Row, c: Row)
    requires IsPbs(a) && IsPbs(b) && IsPbs(c)
    ensures Filter([a, b, c], IsPbs) == [a, b, c]
  {
    assert [a, b, c][1..] == [b, c] && [b, c][1..] == [c] && [c][1..] == [];
    assert Filter([c], IsPbs) == [c];
    assert Filter([b, c], IsPbs) == [b, c];
  }

  lemma ExampleCts(a: Row, b: Row, c: Row)
    requires PbsKeyOf(a) == PbsKeyOf(b) == PbsKeyOf(c)
    requires a.cqInitMin == None && b.cqInitMin == Some(32.1) && c.cqInitMin == Some(30.5)
    ensures MinOf(CtsOf([a, b, c], PbsKeyOf(a))) == Some(30.5)
  {
    ExampleCtsList(a, b, c);
    ExampleMin();
  }

  lemma ExampleCtsList(a: Row, b: Row, c: Row)
    requires PbsKeyOf(a) == PbsKeyOf(b) == PbsKeyOf(c)
    ensures CtsOf([a, b, c], PbsKeyOf(a)) == [a.cqInitMin, b.cqInitMin, c.cqInitMin]
  {
    var key := PbsKeyOf(a);
    assert [a, b, c][1..] == [b, c] && [b, c][1..] == [c] && [c][1..] == [];
    assert CtsOf([c], key) == [c.cqInitMin];
    assert CtsOf([b, c], key) == [b.cqInitMin, c.cqInitMin];
  }

  lemma ExampleMin()
    ensures MinOf([None, Some(32.1), Some(30.5)]) == Some(30.5)
  {
    var cts: seq<Num> := [None, Some(32.1), Some(30.5)];
    assert cts[1..] == [Some(32.1), Some(30.5)] && cts[1..][1..] == [Some(30.5)] && cts[1..][1..][1..] == [];
    assert MinOf([Some(30.5)]) == Some(30.5);
  }
}
