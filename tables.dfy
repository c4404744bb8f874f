/** The row-level table abstraction shared by every stage: one replicate-averaged
    qPCR result per row, float columns that may be NaN, a mutable data frame, and
    the generic filter, distinct-key and left-join operations the stages are built from. */
module Tables {
  import opened Wrappers

  /** A float cell; None stands for NaN (a non-detect, a missing value, or a failed
      join). */
  type Num = Option<real>

  /** NaN-propagating arithmetic: an undefined operand gives an undefined result, and
      a zero divisor (which yields inf or NaN in floating point) gives an undefined
      result as well. */
  function Add(a: Num, b: Num): Num
  {
    if a.Some? && b.Some? then Some(a.value + b.value) else None
  }

  function Sub(a: Num, b: Num): Num
  {
    if a.Some? && b.Some? then Some(a.value - b.value) else None
  }

  function Mul(a: Num, b: Num): Num
  {
    if a.Some? && b.Some? then Some(a.value * b.value) else None
  }

  function Div(a: Num, b: Num): Num
  {
    if a.Some? && b.Some? && b.value != 0.0 then Some(a.value / b.value) else None
  }

  /** Float comparisons with NaN: every comparison involving NaN is false. */
  predicate Greater(a: Num, t: real)
  {
    a.Some? && a.value > t
  }

  predicate AtMost(a: Num, t: real)
  {
    a.Some? && a.value <= t
  }

  /** Value of the `is_inhibited` column: the string 'unknown' or a boolean. */
  datatype InhibitionFlag = Unknown | Known(inhibited: bool)

  /** Value of the `PBS_result` column: the string 'negative' or the numeric Ct. */
  datatype PbsResult = Negative | Detected(ct: real)

  /** One replicate-averaged measurement row. Columns that a stage adds are None
      until the stage has run (or when the stage leaves them undefined). */
  datatype Row = Row(
    // identity
    plateId: string,
    well: string,
    sample: string,
    sampleFull: string,
    target: string,
    task: string,
    batch: string,
    interceptor: string,
    // measurements and volumes
    quantity: Num,
    quantityMean: Num,
    cq: Num,
    cqInitMin: Num,
    templateVolume: Num,
    elutionVolUl: Num,
    weightVolExtractedMl: Num,
    // QA-derived inputs
    blodMasterCurve: Option<bool>,
    bloq: Option<bool>,
    lowestStdQuantity: Num,
    // derived columns
    gcPerUlInput: Num,
    gcPerL: Num,
    pmmovMean: Num,
    meanNormalizedToPmmov: Num,
    isInhibited: Option<InhibitionFlag>,
    pbsResult: Option<PbsResult>
  )

  /** A data frame that the pipeline updates in place. */
  class Frame {
    var rows: seq<Row>

    constructor (rows: seq<Row>)
      ensures this.rows == rows
    {
      this.rows := rows;
    }
  }

  /** Rows of `s` that satisfy `p`, in their original order (a boolean-mask selection). */
  function Filter<T>(s: seq<T>, p: T -> bool): (r: seq<T>)
    ensures |r| <= |s|
    ensures forall x :: x in r ==> x in s && p(x)
    ensures forall x :: x in s && p(x) ==> x in r
    ensures |s| == 1 ==> r == if p(s[0]) then s else []
  {
    if s == [] then []
    else if p(s[0]) then [s[0]] + Filter(s[1..], p)
    else Filter(s[1..], p)
  }

  /** One step of the selection. */
  lemma FilterHead<T>(s: seq<T>, p: T -> bool)
    requires s != []
    ensures Filter(s, p) == if p(s[0]) then [s[0]] + Filter(s[1..], p) else Filter(s[1..], p)
  {
  }

  /** The selection keeps every selected element as many times as it occurs, and no
      other element. */
  lemma {:induction false} FilterCounts<T>(s: seq<T>, p: T -> bool)
    ensures forall x :: multiset(Filter(s, p))[x] == if p(x) then multiset(s)[x] else 0
  {
    if s != [] {
      FilterCounts(s[1..], p);
      assert s == [s[0]] + s[1..];
      assert multiset(s) == multiset{s[0]} + multiset(s[1..]);
    }
  }

  /** Selecting from two pieces selects from each in turn: with the one-element case
      of `Filter`'s contract this fixes the order of the selected elements. */
  lemma {:induction false} FilterAppend<T>(a: seq<T>, b: seq<T>, p: T -> bool)
    ensures Filter(a + b, p) == Filter(a, p) + Filter(b, p)
  {
    if a == [] {
      assert a + b == b;
    } else {
      assert (a + b)[0] == a[0] && (a + b)[1..] == a[1..] + b;
      FilterAppend(a[1..], b, p);
    }
  }

  /** A mask and its complement split the rows: the two selections together have
      exactly as many rows as the input. */
  lemma {:induction false} FilterComplement<T>(s: seq<T>, p: T -> bool, q: T -> bool)
    requires forall x :: q(x) == !p(x)
    ensures |Filter(s, p)| + |Filter(s, q)| == |s|
  {
    if s != [] {
      FilterComplement(s[1..], p, q);
    }
  }

  /** The keys of `ks` without repetitions, in order of first appearance. */
  function Distinct<K(==,!new)>(ks: seq<K>): (d: seq<K>)
    ensures forall k :: k in d <==> k in ks
    ensures forall i, j :: 0 <= i < j < |d| ==> d[i] != d[j]
  {
    if ks == [] then []
    else
      var d := Distinct(ks[..|ks| - 1]);
      assert forall k :: k in ks <==> k in ks[..|ks| - 1] || k == ks[|ks| - 1];
      if ks[|ks| - 1] in d then d else d + [ks[|ks| - 1]]
  }

  /** Listing a column whose every entry is `k` gives `k` once. */
  lemma {:induction false} DistinctOfOne<K(!new)>(ks: seq<K>, k: K)
    requires ks != []
    requires forall i :: 0 <= i < |ks| ==> ks[i] == k
    ensures Distinct(ks) == [k]
  {
    if |ks| > 1 {
      DistinctOfOne(ks[..|ks| - 1], k);
    }
  }

  /** The right-hand rows that match `l`, in right-hand order. */
  function MatchesOf<L, R>(l: L, right: seq<R>, on: (L, R) -> bool): (ms: seq<R>)
    ensures |ms| <= |right|
    ensures forall j :: 0 <= j < |ms| ==> on(l, ms[j])
  {
    if right == [] then []
    else if on(l, right[0]) then [right[0]] + MatchesOf(l, right[1..], on)
    else MatchesOf(l, right[1..], on)
  }

  /** Every match is a right-hand row. */
  lemma {:induction false} MatchesOfFrom<L, R>(l: L, right: seq<R>, on: (L, R) -> bool, j: nat)
    requires j < |MatchesOf(l, right, on)|
    ensures MatchesOf(l, right, on)[j] in right
  {
    if on(l, right[0]) {
      if j > 0 {
        MatchesOfFrom(l, right[1..], on, j - 1);
      }
    } else {
      MatchesOfFrom(l, right[1..], on, j);
    }
  }

  /** Every matching right-hand row is among the matches. */
  lemma {:induction false} MatchesOfComplete<L, R>(l: L, right: seq<R>, on: (L, R) -> bool, r: R)
    requires r in right && on(l, r)
    ensures r in MatchesOf(l, right, on)
  {
    if right[0] != r {
      MatchesOfComplete(l, right[1..], on, r);
    }
  }

  /** When exactly one right-hand row matches `l`, that row is its only match. */
  lemma {:induction false} MatchesOfUnique<L, R>(l: L, right: seq<R>, on: (L, R) -> bool, j: nat)
    requires j < |right| && on(l, right[j])
    requires forall k :: 0 <= k < |right| && k != j ==> !on(l, right[k])
    ensures MatchesOf(l, right, on) == [right[j]]
  {
    if j == 0 {
      NoMatches(l, right[1..], on);
    } else {
      MatchesOfUnique(l, right[1..], on, j - 1);
    }
  }

  lemma {:induction false} NoMatches<L, R>(l: L, right: seq<R>, on: (L, R) -> bool)
    requires forall k :: 0 <= k < |right| ==> !on(l, right[k])
    ensures MatchesOf(l, right, on) == []
  {
    if right != [] {
      NoMatches(l, right[1..], on);
    }
  }

  /** The output rows one left row contributes to a left join: one per match, or a
      single row with undefined right-hand columns when nothing matches. */
  function JoinOne<L, R, O>(l: L, ms: seq<R>, combine: (L, Option<R>) -> O): (out: seq<O>)
    ensures |out| == if ms == [] then 1 else |ms|
    ensures ms == [] ==> out == [combine(l, None)]
    ensures forall j :: 0 <= j < |ms| ==> out[j] == combine(l, Some(ms[j]))
  {
    if ms == [] then [combine(l, None)]
    else seq(|ms|, j requires 0 <= j < |ms| => combine(l, Some(ms[j])))
  }

  /** A left join (`merge(how='left')`): every left row in order, each followed by
      the copies produced by its matches. */
  function LeftJoin<L, R, O>(left: seq<L>, right: seq<R>, on: (L, R) -> bool,
                              combine: (L, Option<R>) -> O): seq<O>
  {
    if left == [] then []
    else JoinOne(left[0], MatchesOf(left[0], right, on), combine) + LeftJoin(left[1..], right, on, combine)
  }

  /** The number of rows a left join produces: one per unmatched left row, k per left
      row with k matches. */
  function JoinSize<L, R>(left: seq<L>, right: seq<R>, on: (L, R) -> bool): nat
  {
    if left == [] then 0
    else
      var k := |MatchesOf(left[0], right, on)|;
      (if k == 0 then 1 else k) + JoinSize(left[1..], right, on)
  }

  lemma {:induction false} LeftJoinSize<L, R, O>(left: seq<L>, right: seq<R>, on: (L, R) -> bool,
                                                combine: (L, Option<R>) -> O)
    ensures |LeftJoin(left, right, on, combine)| == JoinSize(left, right, on)
    ensures |LeftJoin(left, right, on, combine)| >= |left|
  {
    if left != [] {
      LeftJoinSize(left[1..], right, on, combine);
    }
  }

  lemma {:induction false} LeftJoinAppend<L, R, O>(a: seq<L>, b: seq<L>, right: seq<R>, on: (L, R) -> bool,
                                                  combine: (L, Option<R>) -> O)
    ensures LeftJoin(a + b, right, on, combine) == LeftJoin(a, right, on, combine) + LeftJoin(b, right, on, combine)
  {
    if a == [] {
      assert a + b == b;
    } else {
      assert (a + b)[0] == a[0] && (a + b)[1..] == a[1..] + b;
      LeftJoinAppend(a[1..], b, right, on, combine);
    }
  }

  /** Every left row appears in the join, in place: the output is the join of the rows
      before it, then that row's own copies, then the join of the rows after it. */
  lemma {:induction false} LeftJoinAt<L, R, O>(left: seq<L>, i: nat, right: seq<R>, on: (L, R) -> bool,
                            combine: (L, Option<R>) -> O)
    requires i < |left|
    ensures LeftJoin(left, right, on, combine)
         == LeftJoin(left[..i], right, on, combine)
          + JoinOne(left[i], MatchesOf(left[i], right, on), combine)
          + LeftJoin(left[i + 1..], right, on, combine)
  {
    assert left == left[..i] + left[i..];
    LeftJoinAppend(left[..i], left[i..], right, on, combine);
    assert left[i..][1..] == left[i + 1..];
  }

  /** The copies one left row contributes, located in the output: they start right
      after the copies of the rows before it. */
  lemma {:induction false} LeftJoinCopies<L, R, O>(left: seq<L>, i: nat, right: seq<R>, on: (L, R) -> bool,
                                                  combine: (L, Option<R>) -> O)
    requires i < |left|
    ensures var out := LeftJoin(left, right, on, combine);
            var start := |LeftJoin(left[..i], right, on, combine)|;
            var ms := MatchesOf(left[i], right, on);
            && start + (if ms == [] then 1 else |ms|) <= |out|
            && (ms == [] ==> out[start] == combine(left[i], None))
            && (forall j :: 0 <= j < |ms| ==> out[start + j] == combine(left[i], Some(ms[j])))
  {
    var ms := MatchesOf(left[i], right, on);
    LeftJoinCopy(left, i, right, on, combine, 0);
    forall j | 0 <= j < |ms|
      ensures LeftJoin(left, right, on, combine)[|LeftJoin(left[..i], right, on, combine)| + j]
           == combine(left[i], Some(ms[j]))
    {
      LeftJoinCopy(left, i, right, on, combine, j);
    }
  }

  /** Copy `j` of left row `i`. */
  lemma LeftJoinCopy<L, R, O>(left: seq<L>, i: nat, right: seq<R>, on: (L, R) -> bool,
                              combine: (L, Option<R>) -> O, j: nat)
    requires i < |left|
    requires j < |JoinOne(left[i], MatchesOf(left[i], right, on), combine)|
    ensures var out := LeftJoin(left, right, on, combine);
            var start := |LeftJoin(left[..i], right, on, combine)|;
            && start + |JoinOne(left[i], MatchesOf(left[i], right, on), combine)| <= |out|
            && out[start + j] == JoinOne(left[i], MatchesOf(left[i], right, on), combine)[j]
  {
    LeftJoinAt(left, i, right, on, combine);
    InMiddle(LeftJoin(left[..i], right, on, combine), JoinOne(left[i], MatchesOf(left[i], right, on), combine),
             LeftJoin(left[i + 1..], right, on, combine), j);
  }

  lemma InMiddle<T>(before: seq<T>, mine: seq<T>, after: seq<T>, j: nat)
    requires j < |mine|
    ensures |before| + |mine| <= |before + mine + after|
    ensures (before + mine + after)[|before| + j] == mine[j]
  {
  }

  /** A property that every combined row inherits from its left row holds of the
      whole join. */
  lemma {:induction false} LeftJoinKeeps<L, R, O>(left: seq<L>, right: seq<R>, on: (L, R) -> bool,
                                                 combine: (L, Option<R>) -> O, q: L -> bool, p: O -> bool)
    requires forall l, c :: q(l) ==> p(combine(l, c))
    requires forall i :: 0 <= i < |left| ==> q(left[i])
    ensures forall o :: o in LeftJoin(left, right, on, combine) ==> p(o)
  {
    if left != [] {
      LeftJoinKeeps(left[1..], right, on, combine, q, p);
      var ms := MatchesOf(left[0], right, on);
      var one := JoinOne(left[0], ms, combine);
      assert q(left[0]);
      forall j | 0 <= j < |one|
        ensures p(one[j])
      {
        if ms == [] {
          assert one[j] == combine(left[0], None);
        } else {
          assert one[j] == combine(left[0], Some(ms[j]));
        }
      }
      assert LeftJoin(left, right, on, combine) == one + LeftJoin(left[1..], right, on, combine);
    }
  }

  /** A many-to-one left join keeps the left rows one for one: when no left row has
      more than one match, the output has the left's length and row i is left row i
      combined with its match, if any. */
  lemma {:induction false} LeftJoinManyToOne<L, R, O>(left: seq<L>, right: seq<R>, on: (L, R) -> bool,
                                                     combine: (L, Option<R>) -> O)
    requires forall i :: 0 <= i < |left| ==> |MatchesOf(left[i], right, on)| <= 1
    ensures |LeftJoin(left, right, on, combine)| == |left|
    ensures forall i :: 0 <= i < |left| ==>
      LeftJoin(left, right, on, combine)[i] == combine(left[i], FirstMatch(left[i], right, on))
  {
    if left != [] {
      assert |MatchesOf(left[0], right, on)| <= 1;
      LeftJoinManyToOne(left[1..], right, on, combine);
    }
  }

  /** The first right-hand row matching `l`, if any. */
  function FirstMatch<L, R>(l: L, right: seq<R>, on: (L, R) -> bool): Option<R>
  {
    var ms := MatchesOf(l, right, on);
    if ms == [] then None else Some(ms[0])
  }

  lemma {:induction false} MatchesOfAppend<L, R>(l: L, a: seq<R>, b: seq<R>, on: (L, R) -> bool)
    ensures MatchesOf(l, a + b, on) == MatchesOf(l, a, on) + MatchesOf(l, b, on)
  {
    if a == [] {
      assert a + b == b;
    } else {
      assert (a + b)[0] == a[0] && (a + b)[1..] == a[1..] + b;
      MatchesOfAppend(l, a[1..], b, on);
    }
  }

  /** The defined values of a float column (`dropna`), in order. */
  function Present(xs: seq<Num>): (ps: seq<real>)
    ensures |ps| <= |xs|
    ensures ps == [] <==> forall i :: 0 <= i < |xs| ==> xs[i].None?
    ensures forall v :: v in ps <==> Some(v) in xs
  {
    if xs == [] then []
    else if xs[0].Some? then [xs[0].value] + Present(xs[1..])
    else Present(xs[1..])
  }

  predicate Defined(x: Num)
  {
    x.Some?
  }

  /** A column of defined values. */
  function Somes(vs: seq<real>): (xs: seq<Num>)
    ensures |xs| == |vs|
  {
    seq(|vs|, j requires 0 <= j < |vs| => Some(vs[j]))
  }

  /** `dropna` keeps one value per defined entry, in order: the defined entries are
      exactly its values, position by position. */
  lemma {:induction false} PresentValues(xs: seq<Num>)
    ensures Filter(xs, Defined) == Somes(Present(xs))
  {
    if xs != [] {
      PresentValues(xs[1..]);
      FilterHead(xs, Defined);
      if xs[0].Some? {
        SomesCons(xs[0].value, Present(xs[1..]));
      }
    }
  }

  lemma SomesCons(v: real, vs: seq<real>)
    ensures Somes([v] + vs) == [Some(v)] + Somes(vs)
  {
  }

  /** Two columns that agree position by position on whether an entry is selected
      keep the same number of entries. */
  lemma {:induction false} FilterAligned<A, B>(a: seq<A>, b: seq<B>, p: A -> bool, q: B -> bool)
    requires |a| == |b|
    requires forall j :: 0 <= j < |a| ==> p(a[j]) == q(b[j])
    ensures |Filter(a, p)| == |Filter(b, q)|
  {
    if a != [] {
      assert p(a[0]) == q(b[0]);
      assert forall j :: 0 <= j < |a[1..]| ==> a[1..][j] == a[j + 1] && b[1..][j] == b[j + 1];
      FilterAligned(a[1..], b[1..], p, q);
    }
  }

  /** Column minimum skipping NaN: NaN when every value is NaN. */
  function MinOf(xs: seq<Num>): (m: Num)
    ensures m.None? <==> forall i :: 0 <= i < |xs| ==> xs[i].None?
    ensures m.Some? ==> m in xs
    ensures m.Some? ==> forall i :: 0 <= i < |xs| && xs[i].Some? ==> m.value <= xs[i].value
  {
    if xs == [] then None
    else
      var rest := MinOf(xs[1..]);
      assert forall i :: 1 <= i < |xs| ==> xs[i] == xs[1..][i - 1];
      if xs[0].None? then rest
      else if rest.None? || xs[0].value <= rest.value then xs[0]
      else rest
  }

  /** Column maximum skipping NaN: NaN when every value is NaN. */
  function MaxOf(xs: seq<Num>): (m: Num)
    ensures m.None? <==> forall i :: 0 <= i < |xs| ==> xs[i].None?
    ensures m.Some? ==> m in xs
    ensures m.Some? ==> forall i :: 0 <= i < |xs| && xs[i].Some? ==> xs[i].value <= m.value
  {
    if xs == [] then None
    else
      var rest := MaxOf(xs[1..]);
      assert forall i :: 1 <= i < |xs| ==> xs[i] == xs[1..][i - 1];
      if xs[0].None? then rest
      else if rest.None? || xs[0].value >= rest.value then xs[0]
      else rest
  }
}
