/** Per-listing metric derivation of the preparation script: achievement
    ratio, criticality band, lost revenue and shortfall, and the selection
    of the "berlinda" watch list (listings between 80% and 110% of target). */
module Metrics {
  import opened Numeric
  import opened Calendar
  import opened Sequences

  /** One merged listing row, as the metric stage reads it. Cells the script
      passes through `pd.to_numeric(..., errors='coerce')` are nullable. */
  datatype Listing = Listing(
    id: string,
    blockedDays: Option<real>,       // dias_bloqueados
    priceOccupied: Option<real>,     // media_preco_ocupado
    revenue: Option<real>,           // faturamento_mes
    target: Option<real>,            // meta
    priceAvailable: real,            // media_preco_disponivel
    occupancyRate: real,             // to_listings
    daysAvailableRaw: Option<int>,   // ocupacao_ainda_disponivel
    runDate: Option<Date>)           // data_da_execucao

  /** The five criticality groups, in ascending order of achievement. */
  datatype Criticality = Critico | Atencao | Berlinda | Ok | MetaSubestimada

  function Level(c: Criticality): nat
  {
    match c
    case Critico => 0
    case Atencao => 1
    case Berlinda => 2
    case Ok => 3
    case MetaSubestimada => 4
  }

  /** A listing after the metric stage. `ratio` is the stored, rounded
      achievement ratio; `None` stands for NaN. */
  datatype Enriched = Enriched(
    id: string,
    revenue: real,
    target: real,
    ratio: Option<real>,
    group: Criticality,
    lostRevenue: real,
    shortfall: real,
    priceAvailable: real,
    occupancyRate: real,
    daysAvailableRaw: Option<int>,
    runDate: Option<Date>)

  /** Achievement ratio with the zero-target guard. The guard is `target > 0`
      on the raw cell, before coercion: a missing target fails the test and
      gives 0, while a missing revenue under a positive target gives NaN. */
  function AchievementRatio(revenue: Option<real>, target: Option<real>): (r: Option<real>)
    ensures (target.None? || target.value <= 0.0) ==> r == Some(0.0)
    ensures target.Some? && target.value > 0.0 && revenue.Some? ==>
              r.Some? && r.value * target.value == revenue.value
    ensures r.None? <==> target.Some? && target.value > 0.0 && revenue.None?
  {
    match target
    case Some(t) =>
      if t > 0.0 then
        (match revenue
         case Some(v) => Some(v / t)
         case None => None)
      else Some(0.0)
    case None => Some(0.0)
  }

  /** The ratio is zero exactly when there is no usable target or the
      revenue itself is zero. */
  lemma RatioZeroIff(revenue: Option<real>, target: Option<real>)
    ensures AchievementRatio(revenue, target) == Some(0.0) <==>
              (target.None? || target.value <= 0.0 || revenue == Some(0.0))
  {
    if target.Some? && target.value > 0.0 && revenue.Some? && revenue.value != 0.0 {
      var r := AchievementRatio(revenue, target);
      assert r.value * target.value != 0.0;
    }
  }

  /** Step function on a defined ratio, every band closed at its upper end. */
  function ClassifyValue(x: real): (c: Criticality)
    ensures c == Critico <==> x <= 0.5
    ensures c == Atencao <==> 0.5 < x <= 0.8
    ensures c == Berlinda <==> 0.8 < x <= 1.1
    ensures c == Ok <==> 1.1 < x <= 2.0
    ensures c == MetaSubestimada <==> 2.0 < x
  {
    if x <= 0.5 then Critico
    else if x <= 0.8 then Atencao
    else if x <= 1.1 then Berlinda
    else if x <= 2.0 then Ok
    else MetaSubestimada
  }

  /** `classificar_criticidade`: a NaN ratio fails every `<=` test and falls
      through to the last band. */
  function Classify(ratio: Option<real>): (c: Criticality)
    ensures ratio.None? ==> c == MetaSubestimada
    ensures ratio.Some? ==> c == ClassifyValue(ratio.value)
  {
    match ratio
    case Some(x) => ClassifyValue(x)
    case None => MetaSubestimada
  }

  /** A higher ratio never lands in a lower band. */
  lemma ClassifyMonotone(x: real, y: real)
    requires x <= y
    ensures Level(ClassifyValue(x)) <= Level(ClassifyValue(y))
  {
  }

  /** The boundary values: 0.8 is still "atenção", 1.1 is still "berlinda". */
  lemma ClassifyBoundaries()
    ensures ClassifyValue(0.5) == Critico
    ensures ClassifyValue(0.8) == Atencao
    ensures ClassifyValue(1.1) == Berlinda
    ensures ClassifyValue(2.0) == Ok
  {
  }

  /** Classification must use the unrounded ratio: a ratio just above 0.8
      is in the watch list although it rounds to 0.80. */
  lemma ClassifyBeforeRounding()
    ensures ClassifyValue(0.801) == Berlinda
    ensures ClassifyValue(Round2(0.801)) == Atencao
  {
    assert (0.801 * 100.0).Floor == 80;
  }

  /** Lost revenue from blocking and shortfall to target, both on the
      coerced cells (null becomes 0). */
  function FinancialImpact(blockedDays: Option<real>, priceOccupied: Option<real>,
                           revenue: Option<real>, target: Option<real>): (r: (real, real))
    ensures revenue.GetOr(0.0) + r.1 == target.GetOr(0.0)
    ensures blockedDays.GetOr(0.0) >= 0.0 && priceOccupied.GetOr(0.0) >= 0.0 ==> r.0 >= 0.0
    ensures blockedDays.None? || priceOccupied.None? ==> r.0 == 0.0
  {
    var blocked := blockedDays.GetOr(0.0);
    var price := priceOccupied.GetOr(0.0);
    (blocked * price, target.GetOr(0.0) - revenue.GetOr(0.0))
  }

  /** The whole per-row metric stage. The band is taken on the exact ratio;
      only the stored ratio is rounded. */
  function Derive(l: Listing): (e: Enriched)
    ensures e.group == Classify(AchievementRatio(l.revenue, l.target))
    ensures e.revenue + e.shortfall == e.target
    ensures e.ratio.None? <==> AchievementRatio(l.revenue, l.target).None?
    ensures e.ratio.Some? ==> IsCents(e.ratio.value)
    ensures e.id == l.id && e.daysAvailableRaw == l.daysAvailableRaw && e.runDate == l.runDate
  {
    var exact := AchievementRatio(l.revenue, l.target);
    var stored := match exact
                  case Some(x) => Some(Round2(x))
                  case None => None;
    var impact := FinancialImpact(l.blockedDays, l.priceOccupied, l.revenue, l.target);
    Enriched(l.id, l.revenue.GetOr(0.0), l.target.GetOr(0.0), stored, Classify(exact),
             impact.0, impact.1, l.priceAvailable, l.occupancyRate, l.daysAvailableRaw, l.runDate)
  }

  lemma RevenueWindow(q: real, t: real, v: real)
    requires t > 0.0 && q * t == v && 0.8 < q <= 1.1
    ensures 0.8 * t < v <= 1.1 * t
  {
    MulStrictMonotone(0.8, q, t);
    MulMonotone(q, 1.1, t);
  }

  /** Every derived watch-list row has a positive target, a revenue within
      (80%, 110%] of it, and a stored ratio within [0.80, 1.10]. */
  lemma BerlindaRowFacts(l: Listing)
    requires Derive(l).group == Berlinda
    ensures l.target.Some? && l.target.value > 0.0 && l.revenue.Some?
    ensures Derive(l).target > 0.0
    ensures 0.8 * Derive(l).target < Derive(l).revenue <= 1.1 * Derive(l).target
    ensures Derive(l).ratio.Some? && 0.8 <= Derive(l).ratio.value <= 1.1
  {
    var x := AchievementRatio(l.revenue, l.target);
    assert x.Some? && 0.8 < x.value <= 1.1;
    var t := l.target.value;
    var v := l.revenue.value;
    RevenueWindow(x.value, t, v);
    assert Derive(l).revenue == v && Derive(l).target == t;
    assert IsCents(0.8) && IsCents(1.1) by {
      assert (0.8 * 100.0).Floor == 80;
      assert (1.1 * 100.0).Floor == 110;
    }
    Round2Between(x.value, 0.8, 1.1);
  }

  /** `df_final.apply(...)` row by row: one output row per input row. */
  function DeriveAll(rows: seq<Listing>): (out: seq<Enriched>)
    ensures |out| == |rows|
    ensures forall i :: 0 <= i < |rows| ==> out[i] == Derive(rows[i])
  {
    seq(|rows|, i requires 0 <= i < |rows| => Derive(rows[i]))
  }

  /** `df_final[df_final["grupo_criticidade"] == "berlinda"]`: keeps the
      watch-list rows, each as often as it occurs, in their original order. */
  function FilterBerlinda(rows: seq<Enriched>): (out: seq<Enriched>)
    ensures |out| <= |rows|
    ensures forall e :: e in out <==> e in rows && e.group == Berlinda
    ensures forall e :: multiset(out)[e] == if e.group == Berlinda then multiset(rows)[e] else 0
    ensures Subsequence(out, rows)
  {
    Filter(rows, (e: Enriched) => e.group == Berlinda)
  }

  /** The watch list is exactly the rows whose exact ratio lies in (0.8, 1.1]. */
  lemma BerlindaIsRatioWindow(rows: seq<Listing>, l: Listing)
    requires l in rows
    ensures Derive(l) in FilterBerlinda(DeriveAll(rows)) <==>
              (var x := AchievementRatio(l.revenue, l.target); x.Some? && 0.8 < x.value <= 1.1)
  {
    var out := DeriveAll(rows);
    var i :| 0 <= i < |rows| && rows[i] == l;
    assert out[i] == Derive(l);
  }
}
