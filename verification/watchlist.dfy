/** The dashboard's enrichment of the watch list ("berlinda"): remaining
    days from a reference date, days needed to close the gap, revenue
    potentials, the five-state operational status, the raw priority score,
    the cohort-wide rank normalisation and the four priority bands.
    The dashboard repository carries this chain twice, in
    app/streamlit_app.py and in streamlit_app.py, with the same rules. */
module Watchlist {
  import opened Numeric
  import opened Calendar

  /** A watch-list row as the dashboard reads it back from the enriched
      file. `ratio` is the stored (rounded) achievement ratio. */
  datatype WatchRow = WatchRow(
    revenue: real,                   // faturamento_mes
    target: real,                    // meta
    ratio: real,                     // atingimento_meta
    priceAvailable: real,            // media_preco_disponivel
    occupancyRate: real,             // to_listings
    daysAvailableRaw: Option<int>)   // ocupacao_ainda_disponivel

  datatype Status = AbaixoInviavel | AbaixoViavel | AbaixoPrecisaEsforco | AcimaComRisco | AcimaSemAcao
  {
    predicate IsAbove()
    {
      this == AcimaComRisco || this == AcimaSemAcao
    }
  }

  datatype Priority = Critico | Alta | Media | Baixa

  function PriorityLevel(p: Priority): nat
  {
    match p
    case Baixa => 0
    case Media => 1
    case Alta => 2
    case Critico => 3
  }

  datatype Potentials = Potentials(max: real, realistic: real)

  /** Everything the dashboard derives for one row before ranking. */
  datatype Scored = Scored(
    row: WatchRow,
    days: int,                       // dias_disponiveis
    shortfall: real,                 // falta_meta
    needed: int,                     // dias_necessarios
    potentials: Potentials,
    status: Status,
    raw: real)                       // score_bruto

  /** A ranked row: normalised score (rounded to cents) and its band. */
  datatype Ranked = Ranked(scored: Scored, normalised: real, band: Priority)

  /** Remaining actionable days: none on the month's last day; otherwise
      the extract's count clipped from above by the days left in the month,
      a missing count becoming 0. */
  function AvailableDays(ref: Date, raw: Option<int>): (n: int)
    requires ValidDate(ref)
    ensures IsMonthEnd(ref) ==> n == 0
    ensures n <= DaysLeftInMonth(ref)
    ensures raw.Some? && raw.value >= 0 ==> n <= raw.value
    ensures !IsMonthEnd(ref) && raw.Some? ==> n == raw.value || n == DaysLeftInMonth(ref)
    ensures raw.None? ==> n == 0
    ensures raw.None? || raw.value >= 0 ==> n >= 0
  {
    if IsMonthEnd(ref) then 0
    else
      match raw
      case Some(v) => MinI(v, DaysLeftInMonth(ref))
      case None => 0
  }

  /** The dashboard's reference date, 2024-09-30, is a month end, so as
      shipped every row gets no available days. */
  lemma ShippedReferenceIsMonthEnd()
    ensures ValidDate(Date(2024, 9, 30)) && IsMonthEnd(Date(2024, 9, 30))
    ensures forall raw: Option<int> :: AvailableDays(Date(2024, 9, 30), raw) == 0
  {
  }

  /** Days needed: `ceil(shortfall / price)` only with days left, a positive
      shortfall and a positive price; 0 otherwise. When computed it is the
      least day count whose revenue covers the shortfall. */
  function DaysNeeded(days: int, shortfall: real, price: real): (n: int)
    ensures n >= 0
    ensures n > 0 <==> days > 0 && shortfall > 0.0 && price > 0.0
    ensures n > 0 ==> n as real * price >= shortfall && (n - 1) as real * price < shortfall
  {
    if days > 0 && shortfall > 0.0 && price > 0.0 then
      CeilDivIsLeastCover(shortfall, price);
      Ceil(shortfall / price)
    else 0
  }

  /** Potentials default to the revenue and are projected only where days
      remain: `max` sells every remaining day, `realistic` sells the
      occupancy-rate share of them. */
  function ProjectPotentials(revenue: real, days: int, price: real, rate: real): (p: Potentials)
    ensures days <= 0 ==> p.max == revenue && p.realistic == revenue
    ensures days > 0 ==> p.max - revenue == days as real * price
    ensures days > 0 ==> p.realistic - revenue == rate * (p.max - revenue)
  {
    if days > 0 then
      Potentials(revenue + days as real * price, revenue + rate * days as real * price)
    else Potentials(revenue, revenue)
  }

  /** With a rate in [0, 1] and a non-negative price, the realistic
      potential lies between the revenue and the maximum potential. */
  lemma RealisticWithinMax(revenue: real, days: int, price: real, rate: real)
    requires 0.0 <= rate <= 1.0 && price >= 0.0
    ensures var p := ProjectPotentials(revenue, days, price, rate);
            days >= 0 ==> revenue <= p.realistic <= p.max
  {
    var p := ProjectPotentials(revenue, days, price, rate);
    if days > 0 {
      var gain := days as real * price;
      assert gain >= 0.0;
      MulMonotone(rate, 1.0, gain);
      MulMonotone(0.0, rate, gain);
    }
  }

  /** `definir_status`, first match wins. Each tag is characterised here by
      its own condition. */
  function DefineStatus(revenue: real, target: real, days: int, needed: int, realistic: real): (s: Status)
    ensures s.IsAbove() <==> revenue >= target
    ensures days == 0 ==> s == AbaixoInviavel || s == AcimaSemAcao
    ensures s == AbaixoViavel <==> revenue < target && days != 0 && needed <= days && realistic >= target
    ensures s == AbaixoPrecisaEsforco <==> revenue < target && days != 0 && needed <= days && realistic < target
    ensures s == AbaixoInviavel <==> revenue < target && (days == 0 || needed > days)
    ensures s == AcimaComRisco <==> revenue >= target && days != 0
  {
    if revenue < target then
      if days == 0 then AbaixoInviavel
      else if needed <= days && realistic >= target then AbaixoViavel
      else if needed <= days then AbaixoPrecisaEsforco
      else AbaixoInviavel
    else
      if days == 0 then AcimaSemAcao
      else AcimaComRisco
  }

  /** Proximity to target for at-or-above rows, floored at 0.01. */
  function Closeness(ratio: real): (c: real)
    ensures 0.01 <= c <= 1.0
    ensures c == 1.0 <==> ratio == 1.0
    ensures c > 0.01 ==> c == 1.0 - Abs(ratio - 1.0)
  {
    MaxR(1.0 - Abs(ratio - 1.0), 0.01)
  }

  /** `calcular_score`. Zero without days; zero for a below-target row that
      needs no days or more days than remain; the one division that can
      fault (by the target) is caught and scored 0. */
  function RawScore(row: WatchRow, days: int, needed: int, potentialMax: real, shortfall: real): (r: real)
    ensures days == 0 ==> r == 0.0
    ensures row.revenue < row.target && (needed <= 0 || needed > days) ==> r == 0.0
    ensures row.revenue < row.target && row.target == 0.0 ==> r == 0.0
    ensures row.revenue >= row.target && days != 0 ==>
              r == Closeness(row.ratio) * days as real * row.priceAvailable
    ensures row.revenue < row.target && row.target != 0.0 && 0 < needed <= days ==>
              r * row.target * days as real * needed as real == shortfall * (potentialMax - row.revenue)
  {
    if days == 0 then 0.0
    else if row.revenue < row.target then
      if needed <= 0 || needed > days then 0.0
      else if row.target == 0.0 then 0.0
      else
        UndoQuotients(shortfall, row.target, days as real, potentialMax - row.revenue, needed as real);
        (shortfall / row.target) * (1.0 / days as real) * (potentialMax - row.revenue) * (1.0 / needed as real)
    else Closeness(row.ratio) * days as real * row.priceAvailable
  }

  /** The per-row chain, given the row's available days. */
  function EnrichRow(row: WatchRow, days: int): (s: Scored)
    ensures s.row == row && s.days == days
    ensures row.revenue + s.shortfall == row.target
    ensures s.status.IsAbove() <==> row.revenue >= row.target
  {
    var shortfall := row.target - row.revenue;
    var p := ProjectPotentials(row.revenue, days, row.priceAvailable, row.occupancyRate);
    var needed := DaysNeeded(days, shortfall, row.priceAvailable);
    var status := DefineStatus(row.revenue, row.target, days, needed, p.realistic);
    Scored(row, days, shortfall, needed, p, status, RawScore(row, days, needed, p.max, shortfall))
  }

  lemma PositiveProduct4(a: real, b: real, c: real, d: real)
    requires a > 0.0 && b > 0.0 && c > 0.0 && d > 0.0
    ensures a * b * c * d > 0.0
  {
    assert a * b > 0.0;
    assert a * b * c > 0.0;
  }

  /** With a positive target and price and no negative day count, a row
      enters the ranking (raw > 0) exactly when it is actionable: below
      target and reachable in time, or above target with days at risk. */
  lemma RankedIffActionable(row: WatchRow, days: int)
    requires row.target > 0.0 && row.priceAvailable > 0.0 && days >= 0
    ensures var s := EnrichRow(row, days);
            s.raw > 0.0 <==> s.status in {AbaixoViavel, AbaixoPrecisaEsforco, AcimaComRisco}
  {
    var s := EnrichRow(row, days);
    if row.revenue < row.target && days > 0 && s.needed <= days {
      ReachableBelowIsRanked(row, days);
    } else if row.revenue >= row.target && days > 0 {
      assert Closeness(row.ratio) * days as real > 0.0;
    }
  }

  lemma ReachableBelowIsRanked(row: WatchRow, days: int)
    requires row.target > 0.0 && row.priceAvailable > 0.0 && row.revenue < row.target && days > 0
    requires EnrichRow(row, days).needed <= days
    ensures EnrichRow(row, days).raw > 0.0
  {
    var s := EnrichRow(row, days);
    assert s.needed > 0;
    assert s.potentials.max - row.revenue == days as real * row.priceAvailable;
    assert days as real * row.priceAvailable > 0.0;
    BelowScorePositive(row, days, s.needed, s.potentials.max, s.shortfall);
  }

  lemma BelowScorePositive(row: WatchRow, days: int, needed: int, potentialMax: real, shortfall: real)
    requires row.revenue < row.target && row.target > 0.0 && 0 < needed <= days
    requires shortfall > 0.0 && potentialMax - row.revenue > 0.0
    ensures RawScore(row, days, needed, potentialMax, shortfall) > 0.0
  {
    PositiveProduct4(shortfall / row.target, 1.0 / days as real, potentialMax - row.revenue, 1.0 / needed as real);
  }

  /** Scenario: revenue 9000 of 10000, 5 days left at 300 with occupancy
      0.5: 4 days are needed, the realistic potential is 9750, and the row
      "needs effort". */
  lemma NeedsEffortScenario()
    ensures var s := EnrichRow(WatchRow(9000.0, 10000.0, 0.9, 300.0, 0.5, Some(5)), 5);
            s.needed == 4 && s.potentials.realistic == 9750.0 && s.status == AbaixoPrecisaEsforco
  {
    var s := EnrichRow(WatchRow(9000.0, 10000.0, 0.9, 300.0, 0.5, Some(5)), 5);
    assert Ceil(1000.0 / 300.0) == 4;
  }

  // ---------------------------------------------------------------------
  // Cohort-wide rank normalisation

  /** Number of valid (positive) raw scores. */
  function CountValid(raws: seq<real>): (n: nat)
    ensures n <= |raws|
  {
    if |raws| == 0 then 0
    else CountValid(raws[..|raws| - 1]) + (if raws[|raws| - 1] > 0.0 then 1 else 0)
  }

  /** Number of valid raw scores strictly above `x`: the descending
      min-tie rank of `x`, minus one. */
  function CountHigher(raws: seq<real>, x: real): (n: nat)
    ensures n <= |raws|
  {
    if |raws| == 0 then 0
    else CountHigher(raws[..|raws| - 1], x) + (if raws[|raws| - 1] > 0.0 && raws[|raws| - 1] > x then 1 else 0)
  }

  /** Closed form of the normalisation: 0 for a non-positive raw score,
      100 for the only valid row, and otherwise 100 times the share of the
      other valid rows that score strictly higher. The rank is taken
      descending, so the highest raw score normalises to 0. */
  function NormalisedScore(raws: seq<real>, x: real): real
  {
    if x <= 0.0 then 0.0
    else if CountValid(raws) == 1 then 100.0
    else (CountHigher(raws, x) as real / (CountValid(raws) - 1) as real) * 100.0
  }

  lemma {:induction false} HigherAtMostValid(raws: seq<real>, x: real)
    ensures CountHigher(raws, x) <= CountValid(raws)
    ensures x > 0.0 && x in raws ==> CountHigher(raws, x) + 1 <= CountValid(raws)
  {
    if |raws| > 0 {
      var init := raws[..|raws| - 1];
      HigherAtMostValid(init, x);
      if x > 0.0 && x in raws && x !in init {
        assert raws[|raws| - 1] == x by {
          assert raws == init + [raws[|raws| - 1]];
        }
      }
    }
  }

  lemma {:induction false} HigherAntitone(raws: seq<real>, x: real, y: real)
    requires x < y
    ensures CountHigher(raws, y) <= CountHigher(raws, x)
    ensures y > 0.0 && y in raws ==> CountHigher(raws, y) + 1 <= CountHigher(raws, x)
  {
    if |raws| > 0 {
      var init := raws[..|raws| - 1];
      HigherAntitone(init, x, y);
      if y > 0.0 && y in raws && y !in init {
        assert raws[|raws| - 1] == y by {
          assert raws == init + [raws[|raws| - 1]];
        }
      }
    }
  }

  lemma {:induction false} ValidAtLeastOne(raws: seq<real>, x: real)
    requires x > 0.0 && x in raws
    ensures CountValid(raws) >= 1
  {
    var init := raws[..|raws| - 1];
    if x !in init {
      assert raws[|raws| - 1] == x by {
        assert raws == init + [raws[|raws| - 1]];
      }
    } else {
      ValidAtLeastOne(init, x);
    }
  }

  /** Every normalised score lies in [0, 100]. */
  lemma NormalisedInRange(raws: seq<real>, x: real)
    requires x in raws
    ensures 0.0 <= NormalisedScore(raws, x) <= 100.0
  {
    if x > 0.0 && CountValid(raws) != 1 {
      HigherAtMostValid(raws, x);
      ValidAtLeastOne(raws, x);
      var h, n := CountHigher(raws, x) as real, (CountValid(raws) - 1) as real;
      DivBetween(h, n);
    }
  }

  /** Among valid rows of a cohort with several valid rows, a strictly
      larger raw score gets a strictly smaller normalised score. */
  lemma NormalisedStrictlyDecreasing(raws: seq<real>, x: real, y: real)
    requires 0.0 < x < y && x in raws && y in raws
    requires CountValid(raws) > 1
    ensures NormalisedScore(raws, y) < NormalisedScore(raws, x)
  {
    HigherAntitone(raws, x, y);
    var n := (CountValid(raws) - 1) as real;
    var hx, hy := CountHigher(raws, x) as real, CountHigher(raws, y) as real;
    DivStrictMonotone(hy, hx, n);
    MulStrictMonotone(hy / n, hx / n, 100.0);
  }

  lemma DivBetween(h: real, n: real)
    requires 0.0 <= h <= n && n > 0.0
    ensures 0.0 <= (h / n) * 100.0 <= 100.0
  {
    assert h / n <= 1.0 by {
      assert (h / n) * n == h;
    }
  }

  lemma DivStrictMonotone(a: real, b: real, n: real)
    requires a < b && n > 0.0
    ensures a / n < b / n
  {
    assert (a / n) * n == a && (b / n) * n == b;
  }

  /** Equal normalised scores among valid rows mean equal raw scores, and
      conversely (the min-tie rule). */
  lemma NormalisedTiesExact(raws: seq<real>, x: real, y: real)
    requires 0.0 < x && 0.0 < y && x in raws && y in raws
    ensures NormalisedScore(raws, x) == NormalisedScore(raws, y) <==> x == y
  {
    if x != y {
      if CountValid(raws) == 1 {
        ValidOnlyOne(raws, x, y);
      } else {
        ValidAtLeastOne(raws, x);
        if x < y {
          NormalisedStrictlyDecreasing(raws, x, y);
        } else {
          NormalisedStrictlyDecreasing(raws, y, x);
        }
      }
    }
  }

  lemma {:induction false} ValidOnlyOne(raws: seq<real>, x: real, y: real)
    requires 0.0 < x && 0.0 < y && x in raws && y in raws && x != y
    ensures CountValid(raws) >= 2
  {
    var init := raws[..|raws| - 1];
    var last := raws[|raws| - 1];
    assert raws == init + [last];
    if x in init && y in init {
      ValidOnlyOne(init, x, y);
    } else if x in init {
      ValidAtLeastOne(init, x);
    } else {
      ValidAtLeastOne(init, y);
    }
  }

  /** The highest valid raw score normalises to 0 once there are two or
      more valid rows, while a lone valid row gets 100. */
  lemma TopAndSingleton(raws: seq<real>, x: real)
    requires x > 0.0 && x in raws
    requires forall j :: 0 <= j < |raws| ==> raws[j] <= x
    ensures CountValid(raws) == 1 ==> NormalisedScore(raws, x) == 100.0
    ensures CountValid(raws) > 1 ==> NormalisedScore(raws, x) == 0.0
  {
    NoneHigherThanMax(raws, x);
  }

  lemma {:induction false} NoneHigherThanMax(raws: seq<real>, x: real)
    requires forall j :: 0 <= j < |raws| ==> raws[j] <= x
    ensures CountHigher(raws, x) == 0
  {
    if |raws| > 0 {
      NoneHigherThanMax(raws[..|raws| - 1], x);
    }
  }

  /** Two-pass normalisation: pass one counts the valid rows, pass two
      ranks each row against the whole cohort. */
  method Normalise(raws: seq<real>) returns (norm: seq<real>)
    ensures |norm| == |raws|
    ensures forall i :: 0 <= i < |raws| ==> norm[i] == NormalisedScore(raws, raws[i])
  {
    var valid := 0;
    var k := 0;
    while k < |raws|
      invariant 0 <= k <= |raws|
      invariant valid == CountValid(raws[..k])
    {
      assert raws[..k + 1][..k] == raws[..k];
      if raws[k] > 0.0 {
        valid := valid + 1;
      }
      k := k + 1;
    }
    assert raws[..|raws|] == raws;
    norm := [];
    var i := 0;
    while i < |raws|
      invariant 0 <= i <= |raws|
      invariant |norm| == i
      invariant forall j :: 0 <= j < i ==> norm[j] == NormalisedScore(raws, raws[j])
    {
      var x := raws[i];
      var score := 0.0;
      if x > 0.0 {
        if valid == 1 {
          score := 100.0;
        } else {
          var higher := 0;
          var m := 0;
          while m < |raws|
            invariant 0 <= m <= |raws|
            invariant higher == CountHigher(raws[..m], x)
          {
            assert raws[..m + 1][..m] == raws[..m];
            if raws[m] > 0.0 && raws[m] > x {
              higher := higher + 1;
            }
            m := m + 1;
          }
          score := (higher as real / (valid - 1) as real) * 100.0;
        }
      }
      norm := norm + [score];
      i := i + 1;
    }
  }

  /** `classificar_prioridade`: thresholds 80, 50 and 20, each closed below. */
  function Band(score: real): (p: Priority)
    ensures p == Critico <==> score >= 80.0
    ensures p == Alta <==> 50.0 <= score < 80.0
    ensures p == Media <==> 20.0 <= score < 50.0
    ensures p == Baixa <==> score < 20.0
  {
    if score >= 80.0 then Critico
    else if score >= 50.0 then Alta
    else if score >= 20.0 then Media
    else Baixa
  }

  /** A higher score never gets a lower band. */
  lemma BandMonotone(x: real, y: real)
    requires x <= y
    ensures PriorityLevel(Band(x)) <= PriorityLevel(Band(y))
  {
  }

  function RawScores(scored: seq<Scored>): (raws: seq<real>)
    ensures |raws| == |scored|
    ensures forall i :: 0 <= i < |scored| ==> raws[i] == scored[i].raw
  {
    seq(|scored|, i requires 0 <= i < |scored| => scored[i].raw)
  }

  /** The whole enrichment of a watch-list cohort against a reference
      date: per-row chain, then ranking, rounding to cents and banding. */
  method EnrichCohort(rows: seq<WatchRow>, ref: Date) returns (out: seq<Ranked>)
    requires ValidDate(ref)
    ensures |out| == |rows|
    ensures forall i :: 0 <= i < |rows| ==>
              out[i].scored == EnrichRow(rows[i], AvailableDays(ref, rows[i].daysAvailableRaw))
    ensures forall i :: 0 <= i < |rows| ==>
              out[i].normalised == Round2(NormalisedScore(RawScores(Scores(rows, ref)), out[i].scored.raw))
    ensures forall i :: 0 <= i < |rows| ==> out[i].band == Band(out[i].normalised)
    ensures forall i :: 0 <= i < |rows| ==> 0.0 <= out[i].normalised <= 100.0
  {
    var scored := Scores(rows, ref);
    var raws := RawScores(scored);
    var norm := Normalise(raws);
    out := [];
    var i := 0;
    while i < |rows|
      invariant 0 <= i <= |rows|
      invariant |out| == i
      invariant forall j :: 0 <= j < i ==>
                  out[j].scored == scored[j] && out[j].normalised == Round2(norm[j])
                  && out[j].band == Band(out[j].normalised) && 0.0 <= out[j].normalised <= 100.0
    {
      NormalisedInRange(raws, raws[i]);
      CentsBounds();
      Round2Between(norm[i], 0.0, 100.0);
      var n := Round2(norm[i]);
      out := out + [Ranked(scored[i], n, Band(n))];
      i := i + 1;
    }
  }

  lemma CentsBounds()
    ensures IsCents(0.0) && IsCents(100.0)
  {
    assert (100.0 * 100.0).Floor == 10000;
  }

  function Scores(rows: seq<WatchRow>, ref: Date): (scored: seq<Scored>)
    requires ValidDate(ref)
    ensures |scored| == |rows|
    ensures forall i :: 0 <= i < |rows| ==>
              scored[i] == EnrichRow(rows[i], AvailableDays(ref, rows[i].daysAvailableRaw))
  {
    seq(|rows|, i requires 0 <= i < |rows| => EnrichRow(rows[i], AvailableDays(ref, rows[i].daysAvailableRaw)))
  }

  /** On a month-end reference date nothing is actionable: every row has
      no days, is "inviável" or "sem ação", scores 0 raw and 0 normalised,
      and falls in the lowest band. */
  lemma MonthEndCohort(rows: seq<WatchRow>, ref: Date, i: int)
    requires ValidDate(ref) && IsMonthEnd(ref) && 0 <= i < |rows|
    ensures var s := Scores(rows, ref)[i];
            s.days == 0 && s.raw == 0.0 && s.status in {AbaixoInviavel, AcimaSemAcao}
    ensures NormalisedScore(RawScores(Scores(rows, ref)), Scores(rows, ref)[i].raw) == 0.0
    ensures Band(Round2(0.0)) == Baixa
  {
    CentsBounds();
    Round2Fixed(0.0);
  }

  /** A lone valid row scores 100 and is "Crítico". */
  lemma SingleValidRowIsCritical(raws: seq<real>, x: real)
    requires x > 0.0 && x in raws && CountValid(raws) == 1
    ensures NormalisedScore(raws, x) == 100.0
    ensures Band(Round2(NormalisedScore(raws, x))) == Critico
  {
    CentsBounds();
    Round2Fixed(100.0);
  }
}
