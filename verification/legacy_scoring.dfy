/** The preparation script's own revision of the watch-list scoring: its
    days-needed and potentials, the status rule on the rounded ratio with
    no days-needed gate, the split into below-target and above-target rows
    with one raw score for each, ascending average percent-rank, and the
    two sets of band labels. Kept apart from the dashboard's rules. */
module LegacyScoring {
  import opened Numeric
  import opened Calendar
  import opened Sequences
  import Metrics
  import Watchlist

  /** Band labels for above-target rows. */
  datatype RiskBand = RiscoAlto | RiscoMedio | RiscoBaixo | SemRisco

  /** Each side of the split gets its own label set. */
  datatype Tier = BelowTier(priority: Watchlist.Priority) | AboveTier(risk: RiskBand)

  /** A watch-list row after this revision's per-row stage. */
  datatype Staged = Staged(
    row: Metrics.Enriched,
    days: int,
    needed: int,
    potentials: Watchlist.Potentials)

  datatype LegacyRanked = LegacyRanked(
    staged: Staged,
    raw: real,
    normalised: real,
    tier: Tier,
    status: Watchlist.Status)

  /** Days needed as this revision computes it: a positive price is the
      only gate, so a row already past its target can need a negative
      number of days. */
  function LegacyDaysNeeded(shortfall: real, price: real): (n: int)
    ensures price <= 0.0 ==> n == 0
    ensures price > 0.0 && shortfall > 0.0 ==>
              n >= 1 && n as real * price >= shortfall && (n - 1) as real * price < shortfall
    ensures shortfall <= 0.0 ==> n <= 0
  {
    if price > 0.0 then
      if shortfall > 0.0 then
        CeilDivIsLeastCover(shortfall, price);
        Ceil(shortfall / price)
      else
        NonPositiveQuotient(shortfall, price);
        Ceil(shortfall / price)
    else 0
  }

  lemma NonPositiveQuotient(s: real, p: real)
    requires s <= 0.0 && p > 0.0
    ensures Ceil(s / p) <= 0
  {
    assert (s / p) * p == s;
  }

  /** Where the dashboard computes days needed, both revisions agree. */
  lemma DaysNeededAgree(days: int, shortfall: real, price: real)
    requires days > 0 && shortfall > 0.0
    ensures LegacyDaysNeeded(shortfall, price) == Watchlist.DaysNeeded(days, shortfall, price)
  {
  }

  /** They differ above target: a 400 surplus at a 300 daily price gives
      -1 here and 0 on the dashboard. */
  lemma DaysNeededNegativeAboveTarget()
    ensures LegacyDaysNeeded(-400.0, 300.0) == -1
    ensures Watchlist.DaysNeeded(5, -400.0, 300.0) == 0
  {
    assert Ceil(-400.0 / 300.0) == -1;
  }

  /** `calcular_potenciais` has no days gate: the same projection,
      applied to every row. */
  function LegacyPotentials(revenue: real, days: int, price: real, rate: real): (p: Watchlist.Potentials)
    ensures p.max - revenue == days as real * price
    ensures p.realistic - revenue == rate * days as real * price
  {
    Watchlist.Potentials(revenue + days as real * price, revenue + rate * days as real * price)
  }

  /** For any non-negative day count the ungated projection equals the
      dashboard's gated one. */
  lemma PotentialsAgree(revenue: real, days: int, price: real, rate: real)
    requires days >= 0
    ensures LegacyPotentials(revenue, days, price, rate) == Watchlist.ProjectPotentials(revenue, days, price, rate)
  {
  }

  /** `classificar_status` of this revision: "Acima" is decided on the
      rounded ratio, and a below-target row with days left is "viável"
      exactly when its realistic potential reaches the target. */
  function LegacyStatus(ratio: real, target: real, days: int, realistic: real): (s: Watchlist.Status)
    ensures s.IsAbove() <==> ratio >= 1.0
    ensures s == Watchlist.AcimaComRisco <==> ratio >= 1.0 && days > 0
    ensures s == Watchlist.AbaixoInviavel <==> ratio < 1.0 && days == 0
    ensures s == Watchlist.AbaixoViavel <==> ratio < 1.0 && days != 0 && realistic >= target
    ensures s == Watchlist.AbaixoPrecisaEsforco <==> ratio < 1.0 && days != 0 && realistic < target
  {
    if ratio >= 1.0 then
      (if days > 0 then Watchlist.AcimaComRisco else Watchlist.AcimaSemAcao)
    else if days == 0 then Watchlist.AbaixoInviavel
    else if realistic >= target then Watchlist.AbaixoViavel
    else Watchlist.AbaixoPrecisaEsforco
  }

  /** When both revisions see a row below target with days left, the
      dashboard's "viável" implies this revision's "viável". */
  lemma DashboardViableImpliesLegacyViable(revenue: real, target: real, ratio: real,
                                           days: int, needed: int, realistic: real)
    requires revenue < target && ratio < 1.0 && days > 0
    requires Watchlist.DefineStatus(revenue, target, days, needed, realistic) == Watchlist.AbaixoViavel
    ensures LegacyStatus(ratio, target, days, realistic) == Watchlist.AbaixoViavel
  {
  }

  /** With an occupancy rate of at most 1 the converse holds as well for
      rows enriched on both sides from the same inputs: a realistic
      potential that reaches the target means the maximum one does, so the
      days needed fit in the days left. The revisions then differ only in
      how they name below-target rows that cannot make it in time. */
  lemma ViableAgreesForRatesUpToOne(revenue: real, target: real, ratio: real,
                                    days: int, price: real, rate: real)
    requires revenue < target && ratio < 1.0 && days > 0 && rate <= 1.0
    ensures var p := Watchlist.ProjectPotentials(revenue, days, price, rate);
            var needed := Watchlist.DaysNeeded(days, target - revenue, price);
            (Watchlist.DefineStatus(revenue, target, days, needed, p.realistic) == Watchlist.AbaixoViavel
             <==> LegacyStatus(ratio, target, days, p.realistic) == Watchlist.AbaixoViavel)
  {
    var p := Watchlist.ProjectPotentials(revenue, days, price, rate);
    var shortfall := target - revenue;
    var needed := Watchlist.DaysNeeded(days, shortfall, price);
    if p.realistic >= target && price > 0.0 {
      var gain := days as real * price;
      assert p.realistic - revenue == rate * gain;
      ShareAtMostWhole(rate, gain, shortfall);
      CoverFitsInDays(days, needed, price, shortfall);
    }
  }

  lemma ShareAtMostWhole(rate: real, gain: real, shortfall: real)
    requires rate <= 1.0 && gain >= 0.0 && rate * gain >= shortfall
    ensures gain >= shortfall
  {
    MulMonotone(rate, 1.0, gain);
  }

  lemma CoverFitsInDays(days: int, needed: int, price: real, shortfall: real)
    requires price > 0.0 && shortfall > 0.0 && days as real * price >= shortfall
    requires (needed - 1) as real * price < shortfall
    ensures needed <= days
  {
    if needed > days {
      MulMonotone(days as real, (needed - 1) as real, price);
    }
  }

  /** The two revisions can disagree on which side of the target a row is:
      99.6% of target is below target for the dashboard, but its ratio
      rounds to 1.00, which this revision counts as above. */
  lemma RoundedRatioSidesDiffer()
    ensures Round2(0.996) == 1.0
    ensures Watchlist.DefineStatus(9960.0, 10000.0, 5, 1, 9960.0) == Watchlist.AbaixoPrecisaEsforco
    ensures LegacyStatus(Round2(0.996), 10000.0, 5, 9960.0) == Watchlist.AcimaComRisco
  {
    assert (0.996 * 100.0).Floor == 99;
  }

  /** pandas `replace(0, 1)` on a day count. */
  function ReplaceZero(n: int): (r: int)
    ensures r != 0
    ensures n != 0 ==> r == n
  {
    if n == 0 then 1 else n
  }

  /** Raw score for a below-target row. The zero replacements keep both
      reciprocals defined; the target is positive on every watch-list row
      (Metrics.BerlindaRowFacts). */
  function LegacyBelowScore(s: Staged): (r: real)
    requires s.row.target > 0.0
    ensures r * s.row.target * ReplaceZero(s.days) as real * ReplaceZero(s.needed) as real
            == s.row.shortfall * (s.potentials.max - s.row.revenue)
    ensures s.days == 0 && s.potentials.max == s.row.revenue ==> r == 0.0
    ensures (s.row.shortfall >= 0.0 && s.days >= 0 && s.needed >= 0
             && s.potentials.max >= s.row.revenue) ==> r >= 0.0
  {
    var a := s.row.shortfall / s.row.target;
    var b := 1.0 / ReplaceZero(s.days) as real;
    var c := s.potentials.max - s.row.revenue;
    var d := 1.0 / ReplaceZero(s.needed) as real;
    NonNegativeProduct4(a, b, c, d);
    UndoQuotients(s.row.shortfall, s.row.target, ReplaceZero(s.days) as real, c, ReplaceZero(s.needed) as real);
    a * b * c * d
  }

  /** Where the dashboard scores a below-target row (days left, and the
      days needed fit in them), both revisions give the same raw score. */
  lemma BelowScoresAgree(s: Staged, row: Watchlist.WatchRow)
    requires s.row.target > 0.0 && s.days > 0 && 0 < s.needed <= s.days
    requires row.revenue == s.row.revenue && row.target == s.row.target && row.revenue < row.target
    ensures LegacyBelowScore(s) == Watchlist.RawScore(row, s.days, s.needed, s.potentials.max, s.row.shortfall)
  {
    assert ReplaceZero(s.days) == s.days && ReplaceZero(s.needed) == s.needed;
  }

  lemma NonNegativeProduct4(a: real, b: real, c: real, d: real)
    ensures a >= 0.0 && b >= 0.0 && c >= 0.0 && d >= 0.0 ==> a * b * c * d >= 0.0
  {
    if a >= 0.0 && b >= 0.0 && c >= 0.0 && d >= 0.0 {
      assert a * b >= 0.0;
      assert a * b * c >= 0.0;
    }
  }

  /** Raw risk score for an above-target row: days left over the distance
      to 0.99. The divisor is at least 0.01, so the score is at most 100
      per remaining day. */
  function LegacyAboveScore(days: int, ratio: real): (r: real)
    requires ratio >= 1.0
    ensures r * (ratio - 0.99) == days as real
    ensures days >= 0 ==> 0.0 <= r <= 100.0 * days as real
    ensures days > 0 ==> r > 0.0
  {
    var k := 1.0 / (ratio - 0.99);
    assert 0.0 < k <= 100.0 by {
      assert k * (ratio - 0.99) == 1.0;
    }
    ScaledBound(k, days);
    assert days as real * k * (ratio - 0.99) == days as real * (k * (ratio - 0.99));
    days as real * k
  }

  /** With days left, a row further above its target carries less risk:
      its raw score is strictly smaller. */
  lemma AboveScoreFallsAsRatioRises(days: int, r1: real, r2: real)
    requires days > 0 && 1.0 <= r1 < r2
    ensures LegacyAboveScore(days, r2) < LegacyAboveScore(days, r1)
  {
    var s1, s2 := LegacyAboveScore(days, r1), LegacyAboveScore(days, r2);
    assert s1 > 0.0 && s1 * (r1 - 0.99) == days as real && s2 * (r2 - 0.99) == days as real;
    MulStrictMonotone(r1 - 0.99, r2 - 0.99, s1);
    assert days as real < s1 * (r2 - 0.99);
    if s2 >= s1 {
      MulMonotone(s1, s2, r2 - 0.99);
      assert false;
    }
  }

  lemma ScaledBound(k: real, days: int)
    requires 0.0 < k <= 100.0
    ensures days >= 0 ==> 0.0 <= days as real * k <= 100.0 * days as real
    ensures days > 0 ==> days as real * k > 0.0
  {
    if days >= 0 {
      MulMonotone(k, 100.0, days as real);
    }
  }

  // ---------------------------------------------------------------------
  // Ascending average percent-rank, `rank(pct=True) * 100`

  function CountLess(raws: seq<real>, x: real): (n: nat)
    ensures n <= |raws|
  {
    if |raws| == 0 then 0
    else CountLess(raws[..|raws| - 1], x) + (if raws[|raws| - 1] < x then 1 else 0)
  }

  function CountEqual(raws: seq<real>, x: real): (n: nat)
    ensures n <= |raws|
  {
    if |raws| == 0 then 0
    else CountEqual(raws[..|raws| - 1], x) + (if raws[|raws| - 1] == x then 1 else 0)
  }

  /** Tied values share the average of the positions they occupy; the
      average position is divided by the group size. */
  function PercentRank(raws: seq<real>, x: real): real
  {
    if |raws| == 0 then 0.0
    else ((CountLess(raws, x) as real + (CountEqual(raws, x) + 1) as real / 2.0) / |raws| as real) * 100.0
  }

  lemma {:induction false} CountsFacts(raws: seq<real>, x: real)
    ensures CountLess(raws, x) + CountEqual(raws, x) <= |raws|
    ensures x in raws ==> CountEqual(raws, x) >= 1
  {
    if |raws| > 0 {
      var init := raws[..|raws| - 1];
      CountsFacts(init, x);
      if x in raws && x !in init {
        assert raws[|raws| - 1] == x by {
          assert raws == init + [raws[|raws| - 1]];
        }
      }
    }
  }

  lemma {:induction false} CountLessGrows(raws: seq<real>, x: real, y: real)
    requires x < y
    ensures CountLess(raws, x) + CountEqual(raws, x) <= CountLess(raws, y)
  {
    if |raws| > 0 {
      CountLessGrows(raws[..|raws| - 1], x, y);
    }
  }

  /** Every percent-rank of a member lies in (0, 100]. */
  lemma PercentRankInRange(raws: seq<real>, x: real)
    requires x in raws
    ensures 0.0 < PercentRank(raws, x) <= 100.0
  {
    CountsFacts(raws, x);
    var l, e, n := CountLess(raws, x) as real, CountEqual(raws, x) as real, |raws| as real;
    var pos := l + (e + 1.0) / 2.0;
    assert (CountEqual(raws, x) + 1) as real == e + 1.0;
    assert 0.0 < pos <= n;
    DivUnit(pos, n);
  }

  lemma DivUnit(a: real, n: real)
    requires 0.0 < a <= n
    ensures 0.0 < (a / n) * 100.0 <= 100.0
  {
    assert (a / n) * n == a;
  }

  /** A strictly larger raw score gets a strictly larger percent-rank. */
  lemma PercentRankStrictlyIncreasing(raws: seq<real>, x: real, y: real)
    requires x < y && y in raws
    ensures PercentRank(raws, x) < PercentRank(raws, y)
  {
    CountLessGrows(raws, x, y);
    CountsFacts(raws, y);
    var lx, ex := CountLess(raws, x) as real, CountEqual(raws, x) as real;
    var ly, ey := CountLess(raws, y) as real, CountEqual(raws, y) as real;
    var n := |raws| as real;
    var px, py := lx + (ex + 1.0) / 2.0, ly + (ey + 1.0) / 2.0;
    assert (CountEqual(raws, x) + 1) as real == ex + 1.0;
    assert (CountEqual(raws, y) + 1) as real == ey + 1.0;
    assert px < py;
    DivStrictMonotone(px, py, n);
    MulStrictMonotone(px / n, py / n, 100.0);
  }

  lemma DivStrictMonotone(a: real, b: real, n: real)
    requires a < b && n > 0.0
    ensures a / n < b / n
  {
    assert (a / n) * n == a && (b / n) * n == b;
  }

  /** The percent-rank of every raw score among all of them. */
  function PercentRanks(raws: seq<real>): (out: seq<real>)
    ensures |out| == |raws|
    ensures forall i :: 0 <= i < |raws| ==> out[i] == PercentRank(raws, raws[i])
    ensures forall i :: 0 <= i < |raws| ==> 0.0 < out[i] <= 100.0
    ensures forall i, j :: 0 <= i < |raws| && 0 <= j < |raws| ==>
              (raws[i] < raws[j] ==> out[i] < out[j]) && (raws[i] == raws[j] ==> out[i] == out[j])
  {
    forall i | 0 <= i < |raws| {
      PercentRankInRange(raws, raws[i]);
    }
    forall i, j | 0 <= i < |raws| && 0 <= j < |raws| && raws[i] < raws[j] {
      PercentRankStrictlyIncreasing(raws, raws[i], raws[j]);
    }
    seq(|raws|, i requires 0 <= i < |raws| => PercentRank(raws, raws[i]))
  }

  /** `classificar_prioridade_acima`: the dashboard's thresholds with risk
      labels. */
  function RiskBandOf(score: real): (b: RiskBand)
    ensures b == RiscoAlto <==> Watchlist.Band(score) == Watchlist.Critico
    ensures b == RiscoMedio <==> Watchlist.Band(score) == Watchlist.Alta
    ensures b == RiscoBaixo <==> Watchlist.Band(score) == Watchlist.Media
    ensures b == SemRisco <==> Watchlist.Band(score) == Watchlist.Baixa
  {
    if score >= 80.0 then RiscoAlto
    else if score >= 50.0 then RiscoMedio
    else if score >= 20.0 then RiscoBaixo
    else SemRisco
  }

  // ---------------------------------------------------------------------
  // The stage

  /** Watch-list rows as the metric stage produces them: a defined ratio
      and a positive target (see Metrics.BerlindaRowFacts). */
  predicate StageInput(rows: seq<Metrics.Enriched>)
  {
    forall e :: e in rows ==>
      e.ratio.Some? && e.target > 0.0 && (e.runDate.Some? ==> ValidDate(e.runDate.value))
  }

  /** `dropna(subset=['data_da_execucao'])`: the dated rows, each as often
      as it occurs, in their original order. */
  function Dated(rows: seq<Metrics.Enriched>): (out: seq<Metrics.Enriched>)
    ensures |out| <= |rows|
    ensures forall i :: 0 <= i < |out| ==> out[i].runDate.Some?
    ensures forall e :: e in out <==> e in rows && e.runDate.Some?
    ensures forall e :: multiset(out)[e] == if e.runDate.Some? then multiset(rows)[e] else 0
    ensures Subsequence(out, rows)
    ensures StageInput(rows) ==> StageInput(out)
  {
    var out := Filter(rows, IsDated);
    assert forall i :: 0 <= i < |out| ==> out[i] in out;
    out
  }

  predicate IsDated(e: Metrics.Enriched)
  {
    e.runDate.Some?
  }

  /** The reference date of the stage is the date of the first dated row
      of the watch list. */
  lemma FirstDatedRow(rows: seq<Metrics.Enriched>, i: nat)
    requires i < |rows| && rows[i].runDate.Some?
    requires forall j :: 0 <= j < i ==> rows[j].runDate.None?
    ensures Dated(rows) != [] && Dated(rows)[0] == rows[i]
  {
    FilterHead(rows, IsDated, i);
  }

  function StageRow(e: Metrics.Enriched, ref: Date): (s: Staged)
    requires ValidDate(ref) && e.ratio.Some?
    ensures s.row == e
    ensures s.days == Watchlist.AvailableDays(ref, e.daysAvailableRaw)
  {
    var days := Watchlist.AvailableDays(ref, e.daysAvailableRaw);
    Staged(e, days, LegacyDaysNeeded(e.shortfall, e.priceAvailable),
           LegacyPotentials(e.revenue, days, e.priceAvailable, e.occupancyRate))
  }

  /** The below-target mask: rounded ratio under 1.0. */
  predicate IsBelowStaged(s: Staged)
  {
    s.row.ratio.Some? && s.row.ratio.value < 1.0
  }

  /** The above-target mask: rounded ratio at least 1.0. */
  predicate IsAboveStaged(s: Staged)
  {
    s.row.ratio.Some? && s.row.ratio.value >= 1.0
  }

  /** The below-target side of the split: the rows with rounded ratio
      under 1.0, in their original order (see SidesAreFilters). */
  function Below(rows: seq<Staged>): (out: seq<Staged>)
    ensures |out| <= |rows|
    ensures forall i :: 0 <= i < |out| ==> out[i].row.ratio.Some? && out[i].row.ratio.value < 1.0
    ensures forall s :: s in out ==> s in rows
  {
    if |rows| == 0 then []
    else if IsBelowStaged(rows[0]) then [rows[0]] + Below(rows[1..])
    else Below(rows[1..])
  }

  /** The above-target side of the split: the rows with rounded ratio at
      least 1.0, in their original order (see SidesAreFilters). */
  function Above(rows: seq<Staged>): (out: seq<Staged>)
    ensures |out| <= |rows|
    ensures forall i :: 0 <= i < |out| ==> out[i].row.ratio.Some? && out[i].row.ratio.value >= 1.0
    ensures forall s :: s in out ==> s in rows
  {
    if |rows| == 0 then []
    else if IsAboveStaged(rows[0]) then [rows[0]] + Above(rows[1..])
    else Above(rows[1..])
  }

  /** Each side is the boolean-mask selection `df[mask]` of its side: the
      rows that pass, each as often as it occurs, in their original order. */
  lemma {:induction false} SidesAreFilters(rows: seq<Staged>)
    ensures Below(rows) == Filter(rows, IsBelowStaged) && Above(rows) == Filter(rows, IsAboveStaged)
    ensures Subsequence(Below(rows), rows) && Subsequence(Above(rows), rows)
    ensures forall s :: multiset(Below(rows))[s] == if IsBelowStaged(s) then multiset(rows)[s] else 0
    ensures forall s :: multiset(Above(rows))[s] == if IsAboveStaged(s) then multiset(rows)[s] else 0
  {
    if |rows| > 0 {
      SidesAreFilters(rows[1..]);
    }
  }

  /** The two sides partition the rows: together they hold every row
      exactly as often as the input does. */
  lemma {:induction false} SplitIsPartition(rows: seq<Staged>)
    requires forall i :: 0 <= i < |rows| ==> rows[i].row.ratio.Some?
    ensures multiset(Below(rows) + Above(rows)) == multiset(rows)
    ensures |Below(rows)| + |Above(rows)| == |rows|
  {
    if |rows| > 0 {
      SplitIsPartition(rows[1..]);
      assert rows == [rows[0]] + rows[1..];
      assert multiset(rows) == multiset{rows[0]} + multiset(rows[1..]);
    }
  }

  function BelowRaws(rows: seq<Staged>): (raws: seq<real>)
    requires forall i :: 0 <= i < |rows| ==> rows[i].row.target > 0.0
    ensures |raws| == |rows|
    ensures forall i :: 0 <= i < |rows| ==> raws[i] == LegacyBelowScore(rows[i])
  {
    seq(|rows|, i requires 0 <= i < |rows| => LegacyBelowScore(rows[i]))
  }

  function AboveRaws(rows: seq<Staged>): (raws: seq<real>)
    requires forall i :: 0 <= i < |rows| ==> rows[i].row.ratio.Some? && rows[i].row.ratio.value >= 1.0
    ensures |raws| == |rows|
    ensures forall i :: 0 <= i < |rows| ==> raws[i] == LegacyAboveScore(rows[i].days, rows[i].row.ratio.value)
  {
    seq(|rows|, i requires 0 <= i < |rows| => LegacyAboveScore(rows[i].days, rows[i].row.ratio.value))
  }

  function StatusOf(s: Staged): Watchlist.Status
    requires s.row.ratio.Some?
  {
    LegacyStatus(s.row.ratio.value, s.row.target, s.days, s.potentials.realistic)
  }

  /** Below-target rows ranked among themselves: each keeps its row and
      carries the below-target raw score, its score is the percent-rank of
      that raw score among the side's raw scores, and its label follows the
      dashboard thresholds on that score. */
  function RankBelow(rows: seq<Staged>): (out: seq<LegacyRanked>)
    requires forall i :: 0 <= i < |rows| ==> rows[i].row.ratio.Some? && rows[i].row.target > 0.0
    ensures |out| == |rows|
    ensures forall i :: 0 <= i < |rows| ==> out[i].staged == rows[i] && out[i].status == StatusOf(rows[i])
    ensures forall i :: 0 <= i < |rows| ==>
              out[i].tier == BelowTier(Watchlist.Band(out[i].normalised)) && 0.0 < out[i].normalised <= 100.0
    ensures Raws(out) == BelowRaws(rows) && PercentRanked(out)
    ensures RankOrdered(out)
    ensures (forall i :: 0 <= i < |rows| ==> IsBelowStaged(rows[i])) ==> Rankable(rows) && SideRows(rows, out)
  {
    var ranks := PercentRanks(BelowRaws(rows));
    var out := seq(|rows|, i requires 0 <= i < |rows| =>
      LegacyRanked(rows[i], LegacyBelowScore(rows[i]), ranks[i],
                   BelowTier(Watchlist.Band(ranks[i])), StatusOf(rows[i])));
    assert Raws(out) == BelowRaws(rows);
    out
  }

  /** Above-target rows ranked among themselves, with the risk labels. */
  function RankAbove(rows: seq<Staged>): (out: seq<LegacyRanked>)
    requires forall i :: 0 <= i < |rows| ==> rows[i].row.ratio.Some? && rows[i].row.ratio.value >= 1.0
    ensures |out| == |rows|
    ensures forall i :: 0 <= i < |rows| ==> out[i].staged == rows[i] && out[i].status == StatusOf(rows[i])
    ensures forall i :: 0 <= i < |rows| ==>
              out[i].tier == AboveTier(RiskBandOf(out[i].normalised)) && 0.0 < out[i].normalised <= 100.0
    ensures Raws(out) == AboveRaws(rows) && PercentRanked(out)
    ensures RankOrdered(out)
    ensures Rankable(rows) ==> SideRows(rows, out)
  {
    var ranks := PercentRanks(AboveRaws(rows));
    var out := seq(|rows|, i requires 0 <= i < |rows| =>
      LegacyRanked(rows[i], LegacyAboveScore(rows[i].days, rows[i].row.ratio.value), ranks[i],
                   AboveTier(RiskBandOf(ranks[i])), StatusOf(rows[i])));
    assert Raws(out) == AboveRaws(rows);
    out
  }

  /** The per-row stage against one reference date. */
  function StageAll(dated: seq<Metrics.Enriched>, ref: Date): (out: seq<Staged>)
    requires ValidDate(ref) && StageInput(dated)
    ensures |out| == |dated|
    ensures forall i :: 0 <= i < |dated| ==> out[i] == StageRow(dated[i], ref)
    ensures forall s :: s in out ==> s.row in dated && s.row.ratio.Some? && s.row.target > 0.0
  {
    var out := seq(|dated|, i requires 0 <= i < |dated| => StageRow(dated[i], ref));
    assert forall s :: s in out ==> exists i :: 0 <= i < |dated| && s == out[i];
    out
  }

  /** Raw score, label and rank of a ranked row, on the side of the split
      its rounded ratio puts it: each side is ranked among itself. */
  predicate RankedOnItsSide(r: LegacyRanked)
    requires r.staged.row.ratio.Some? && r.staged.row.target > 0.0
  {
    if r.staged.row.ratio.value < 1.0 then
      r.raw == LegacyBelowScore(r.staged) && r.tier == BelowTier(Watchlist.Band(r.normalised))
    else
      r.raw == LegacyAboveScore(r.staged.days, r.staged.row.ratio.value)
      && r.tier == AboveTier(RiskBandOf(r.normalised))
  }

  /** Two rows on the same side of the split. */
  predicate SameSide(a: LegacyRanked, b: LegacyRanked)
  {
    IsBelowRow(a) <==> IsBelowRow(b)
  }

  predicate Rankable(rows: seq<Staged>)
  {
    forall s :: s in rows ==> s.row.ratio.Some? && s.row.target > 0.0
  }

  /** The raw scores of ranked rows, in their order. */
  function Raws(out: seq<LegacyRanked>): (raws: seq<real>)
    ensures |raws| == |out| && forall i {:trigger raws[i]} :: 0 <= i < |out| ==> raws[i] == out[i].raw
  {
    seq(|out|, i requires 0 <= i < |out| => out[i].raw)
  }

  /** A ranked row on the below-target side. */
  predicate IsBelowRow(r: LegacyRanked)
  {
    IsBelowStaged(r.staged)
  }

  /** A ranked row on the above-target side. */
  predicate IsAboveRow(r: LegacyRanked)
  {
    IsAboveStaged(r.staged)
  }

  /** `out` ranks `rows` one for one, in their order: the same staged row,
      its status, the raw score and label of its side, and as its score
      the percent-rank of its raw score among the raw scores of `out`. */
  predicate SideRows(rows: seq<Staged>, out: seq<LegacyRanked>)
    requires Rankable(rows)
  {
    |out| == |rows|
    && (forall i :: 0 <= i < |rows| ==>
         out[i].staged == rows[i] && out[i].status == StatusOf(rows[i])
         && 0.0 < out[i].normalised <= 100.0)
    && ScoredOnItsSide(out)
    && PercentRanked(out)
  }

  /** Every row carries the raw score and label of its side. */
  predicate ScoredOnItsSide(out: seq<LegacyRanked>)
  {
    forall i {:trigger RankedOnItsSide(out[i])} ::
      0 <= i < |out| && out[i].staged.row.ratio.Some? && out[i].staged.row.target > 0.0 ==>
        RankedOnItsSide(out[i])
  }

  /** Concatenation keeps each row's side score and label. */
  lemma ScoredConcat(b: seq<LegacyRanked>, a: seq<LegacyRanked>)
    requires ScoredOnItsSide(b) && ScoredOnItsSide(a)
    ensures ScoredOnItsSide(b + a)
  {
    var out := b + a;
    forall i | 0 <= i < |out| && out[i].staged.row.ratio.Some? && out[i].staged.row.target > 0.0
      ensures RankedOnItsSide(out[i])
    {
      if i < |b| {
        assert out[i] == b[i] && RankedOnItsSide(b[i]);
      } else {
        assert out[i] == a[i - |b|] && RankedOnItsSide(a[i - |b|]);
      }
    }
  }

  /** Every score is the percent-rank of its row's raw score among the raw
      scores of `out`, `rank(pct=True) * 100` over that column. */
  predicate PercentRanked(out: seq<LegacyRanked>)
  {
    forall i {:trigger Raws(out)[i]} :: 0 <= i < |out| ==>
      out[i].normalised == PercentRank(Raws(out), Raws(out)[i])
  }

  /** The ranked output split back by side: first the below-target side
      of the staged rows, then the above-target side, each in its original
      order (the boolean masks and `pd.concat` keep order); every row
      carries the raw score and label of its side, and each side's scores
      are the percent-ranks of its raw scores among themselves. */
  predicate SidesRanked(staged: seq<Staged>, out: seq<LegacyRanked>)
  {
    var k := |Below(staged)|;
    |out| == k + |Above(staged)|
    && StagedRows(out[..k]) == Below(staged)
    && StagedRows(out[k..]) == Above(staged)
    && ScoredOnItsSide(out)
    && PercentRanked(out[..k])
    && PercentRanked(out[k..])
  }

  /** A larger raw score ranks strictly higher and equal raw scores tie. */
  predicate RankOrdered(out: seq<LegacyRanked>)
  {
    forall i, j :: 0 <= i < |out| && 0 <= j < |out| ==>
      (out[i].raw < out[j].raw ==> out[i].normalised < out[j].normalised)
      && (out[i].raw == out[j].raw ==> out[i].normalised == out[j].normalised)
  }

  /** The staged rows behind a ranked list, in its order. */
  function StagedRows(out: seq<LegacyRanked>): (r: seq<Staged>)
    ensures |r| == |out| && forall i :: 0 <= i < |out| ==> r[i] == out[i].staged
  {
    seq(|out|, i requires 0 <= i < |out| => out[i].staged)
  }

  /** The scoring stage of the preparation script: no dated row gives an
      empty watch list; otherwise the undated rows are dropped, every dated
      row is staged against the first dated row's date, and the result ranks
      those staged rows as RankedStage describes. */
  function ScoreStage(rows: seq<Metrics.Enriched>): (out: seq<LegacyRanked>)
    requires StageInput(rows)
    ensures |out| == |Dated(rows)|
    ensures Dated(rows) == [] ==> out == []
    ensures Dated(rows) != [] ==> RankedStage(StageAll(Dated(rows), Dated(rows)[0].runDate.value), out)
    ensures forall i :: 0 <= i < |out| ==> out[i].staged.row in rows && out[i].staged.row.runDate.Some?
  {
    var dated := Dated(rows);
    if |dated| == 0 then []
    else
      assert dated[0] in dated;
      var staged := StageAll(dated, dated[0].runDate.value);
      var out := RankStaged(staged);
      StagedComeFromRows(rows, dated, staged, out);
      out
  }

  /** Every ranked row goes back to a dated row of the input. */
  lemma StagedComeFromRows(rows: seq<Metrics.Enriched>, dated: seq<Metrics.Enriched>,
                           staged: seq<Staged>, out: seq<LegacyRanked>)
    requires forall e :: e in dated <==> e in rows && e.runDate.Some?
    requires forall s :: s in staged ==> s.row in dated
    requires forall i :: 0 <= i < |out| ==> out[i].staged in staged
    ensures forall i :: 0 <= i < |out| ==> out[i].staged.row in rows && out[i].staged.row.runDate.Some?
  {
  }

  /** `out` ranks the staged rows: every staged row exactly as often as
      the input holds it, each with its status and a score in (0, 100];
      the below-target rows first; within a side a larger raw score ranks
      strictly higher and equal raw scores tie; and, by SidesRanked, each
      side's rows in input order with their side's raw score, label and
      exact percent-rank. */
  predicate RankedStage(staged: seq<Staged>, out: seq<LegacyRanked>)
  {
    |out| == |staged|
    && multiset(StagedRows(out)) == multiset(staged)
    && (forall i :: 0 <= i < |out| ==>
          out[i].staged in staged && out[i].staged.row.ratio.Some? && out[i].staged.row.target > 0.0
          && out[i].status == StatusOf(out[i].staged) && 0.0 < out[i].normalised <= 100.0)
    && (forall i, j :: 0 <= i < j < |out| && IsBelowRow(out[j]) ==> IsBelowRow(out[i]))
    && (forall i, j :: 0 <= i < |out| && 0 <= j < |out| && SameSide(out[i], out[j]) ==>
          (out[i].raw < out[j].raw ==> out[i].normalised < out[j].normalised)
          && (out[i].raw == out[j].raw ==> out[i].normalised == out[j].normalised))
    && SidesRanked(staged, out)
  }

  /** Both sides of the split ranked and concatenated: the staged rows
      again, each once, below-target rows first, each side ranked among
      itself. */
  function RankStaged(staged: seq<Staged>): (out: seq<LegacyRanked>)
    requires Rankable(staged)
    ensures RankedStage(staged, out)
  {
    var below, above := Below(staged), Above(staged);
    assert forall i :: 0 <= i < |below| ==> below[i] in staged;
    assert forall i :: 0 <= i < |above| ==> above[i] in staged;
    var out := RankRows(below, above);
    ConcatRanked(staged, below, above, out);
    out
  }

  /** The two ranked sides, concatenated, rank the staged rows. */
  lemma ConcatRanked(staged: seq<Staged>, below: seq<Staged>, above: seq<Staged>, out: seq<LegacyRanked>)
    requires Rankable(staged)
    requires below == Below(staged) && above == Above(staged)
    requires JoinedSides(below, above, out)
    ensures RankedStage(staged, out)
  {
    ConcatKeepsStaged(staged, below, above, out);
    ConcatRows(below, above, out);
    ConcatOrder(below, above, out);
    ConcatSides(staged, below, above, out);
  }

  /** `out` is the ranked `below` rows followed by the ranked `above`
      rows: each side's rows in their order at their own slice, each slice
      ranked on its own as SideRows and RankOrdered say. */
  predicate JoinedSides(below: seq<Staged>, above: seq<Staged>, out: seq<LegacyRanked>)
  {
    |out| == |below| + |above|
    && (forall i :: 0 <= i < |below| ==> out[i].staged == below[i])
    && (forall i :: 0 <= i < |above| ==> out[|below| + i].staged == above[i])
    && Rankable(below) && SideRows(below, out[..|below|]) && RankOrdered(out[..|below|])
    && Rankable(above) && SideRows(above, out[|below|..]) && RankOrdered(out[|below|..])
  }

  /** The ranked below-target rows followed by the ranked above-target
      rows, each side keeping its order and ranked among itself. */
  function RankRows(below: seq<Staged>, above: seq<Staged>): (out: seq<LegacyRanked>)
    requires forall i :: 0 <= i < |below| ==>
               below[i].row.ratio.Some? && below[i].row.ratio.value < 1.0 && below[i].row.target > 0.0
    requires forall i :: 0 <= i < |above| ==>
               above[i].row.ratio.Some? && above[i].row.ratio.value >= 1.0 && above[i].row.target > 0.0
    ensures JoinedSides(below, above, out)
  {
    var b := RankBelow(below);
    var a := RankAbove(above);
    JoinSides(below, above, b, a);
    b + a
  }

  /** Two ranked sides side by side: each side is found again at its own
      slice of the concatenation. */
  lemma JoinSides(below: seq<Staged>, above: seq<Staged>, b: seq<LegacyRanked>, a: seq<LegacyRanked>)
    requires Rankable(below) && SideRows(below, b) && RankOrdered(b)
    requires Rankable(above) && SideRows(above, a) && RankOrdered(a)
    ensures JoinedSides(below, above, b + a)
  {
    assert (b + a)[..|below|] == b && (b + a)[|below|..] == a;
  }

  /** Ranking the two sides keeps every staged row exactly as often as the
      input holds it. */
  lemma ConcatKeepsStaged(staged: seq<Staged>, below: seq<Staged>, above: seq<Staged>, out: seq<LegacyRanked>)
    requires Rankable(staged)
    requires below == Below(staged) && above == Above(staged)
    requires |out| == |below| + |above|
    requires forall i :: 0 <= i < |below| ==> out[i].staged == below[i]
    requires forall i :: 0 <= i < |above| ==> out[|below| + i].staged == above[i]
    ensures |out| == |staged|
    ensures multiset(StagedRows(out)) == multiset(staged)
    ensures forall i :: 0 <= i < |out| ==> out[i].staged in staged
  {
    assert forall i :: 0 <= i < |staged| ==> staged[i] in staged;
    SplitIsPartition(staged);
    assert StagedRows(out) == below + above;
  }

  /** Row by row, the concatenation carries each side's staged row, status,
      score and label, and its index tells the side. */
  lemma ConcatRows(below: seq<Staged>, above: seq<Staged>, out: seq<LegacyRanked>)
    requires forall i :: 0 <= i < |below| ==>
               below[i].row.ratio.Some? && below[i].row.ratio.value < 1.0 && below[i].row.target > 0.0
    requires forall i :: 0 <= i < |above| ==>
               above[i].row.ratio.Some? && above[i].row.ratio.value >= 1.0 && above[i].row.target > 0.0
    requires |out| == |below| + |above|
    requires Rankable(below) && SideRows(below, out[..|below|])
    requires Rankable(above) && SideRows(above, out[|below|..])
    ensures forall i :: 0 <= i < |out| ==>
              out[i].staged.row.ratio.Some? && out[i].staged.row.target > 0.0
              && out[i].status == StatusOf(out[i].staged)
              && 0.0 < out[i].normalised <= 100.0
              && (i < |below| <==> IsBelowRow(out[i]))
  {
    forall i | 0 <= i < |out|
      ensures out[i].staged.row.ratio.Some? && out[i].staged.row.target > 0.0
      ensures out[i].status == StatusOf(out[i].staged)
      ensures 0.0 < out[i].normalised <= 100.0
      ensures i < |below| <==> IsBelowRow(out[i])
    {
      if i < |below| {
        assert out[i] == out[..|below|][i];
      } else {
        assert out[i] == out[|below|..][i - |below|];
      }
    }
  }

  /** Within each side of the concatenation, rank order follows raw order. */
  lemma ConcatOrder(below: seq<Staged>, above: seq<Staged>, out: seq<LegacyRanked>)
    requires forall i :: 0 <= i < |below| ==>
               below[i].row.ratio.Some? && below[i].row.ratio.value < 1.0 && below[i].row.target > 0.0
    requires forall i :: 0 <= i < |above| ==>
               above[i].row.ratio.Some? && above[i].row.ratio.value >= 1.0 && above[i].row.target > 0.0
    requires |out| == |below| + |above|
    requires Rankable(below) && SideRows(below, out[..|below|]) && RankOrdered(out[..|below|])
    requires Rankable(above) && SideRows(above, out[|below|..]) && RankOrdered(out[|below|..])
    ensures forall i :: 0 <= i < |out| ==> out[i].staged.row.ratio.Some?
    ensures forall i, j :: 0 <= i < |out| && 0 <= j < |out| && SameSide(out[i], out[j]) ==>
              (out[i].raw < out[j].raw ==> out[i].normalised < out[j].normalised)
              && (out[i].raw == out[j].raw ==> out[i].normalised == out[j].normalised)
  {
    ConcatRows(below, above, out);
    var k := |below|;
    forall i, j | 0 <= i < |out| && 0 <= j < |out| && SameSide(out[i], out[j])
      ensures out[i].raw < out[j].raw ==> out[i].normalised < out[j].normalised
      ensures out[i].raw == out[j].raw ==> out[i].normalised == out[j].normalised
    {
      if i < k {
        assert j < k;
        assert out[i] == out[..k][i] && out[j] == out[..k][j];
      } else {
        assert j >= k;
        assert out[i] == out[k..][i - k] && out[j] == out[k..][j - k];
      }
    }
  }

  /** Splitting the concatenation back by side gives each side's ranked
      rows, so each side's order, labels and percent-ranks carry over. */
  lemma ConcatSides(staged: seq<Staged>, below: seq<Staged>, above: seq<Staged>, out: seq<LegacyRanked>)
    requires below == Below(staged) && above == Above(staged)
    requires |out| == |below| + |above|
    requires Rankable(below) && SideRows(below, out[..|below|])
    requires Rankable(above) && SideRows(above, out[|below|..])
    ensures SidesRanked(staged, out)
  {
    var k := |below|;
    var b, a := out[..k], out[k..];
    assert StagedRows(b) == below;
    assert StagedRows(a) == above;
    assert out == b + a;
    ScoredConcat(b, a);
  }

  /** Selecting the below-target (or above-target) rows of the ranked
      output gives back exactly the input's own mask selection, in order. */
  lemma OutputSidesAreMasks(staged: seq<Staged>, out: seq<LegacyRanked>)
    requires SidesRanked(staged, out)
    ensures Filter(StagedRows(out), IsBelowStaged) == Filter(staged, IsBelowStaged)
    ensures Filter(StagedRows(out), IsAboveStaged) == Filter(staged, IsAboveStaged)
  {
    var k := |Below(staged)|;
    var b, a := out[..k], out[k..];
    assert out == b + a;
    assert StagedRows(out) == StagedRows(b) + StagedRows(a);
    SidesAreFilters(staged);
    MasksOfSides(staged, StagedRows(out));
  }

  /** The below side followed by the above side, masked again, falls apart
      into the two sides. */
  lemma MasksOfSides(staged: seq<Staged>, rows: seq<Staged>)
    requires rows == Below(staged) + Above(staged)
    ensures Filter(rows, IsBelowStaged) == Below(staged)
    ensures Filter(rows, IsAboveStaged) == Above(staged)
  {
    var b, a := Below(staged), Above(staged);
    FilterConcat(b, a, IsBelowStaged);
    FilterKeepsAll(b, IsBelowStaged);
    FilterKeepsNone(a, IsBelowStaged);
    FilterConcat(b, a, IsAboveStaged);
    FilterKeepsNone(b, IsAboveStaged);
    FilterKeepsAll(a, IsAboveStaged);
  }
}
