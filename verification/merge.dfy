/** The merge and column stage of the preparation script: left joins of the
    performance extract with the price, location and (optional) minimum-price
    extracts on the listing key, pandas' `_x`/`_y` suffixes for clashing
    column names, removal of suffixed execution-date columns, and the
    projection onto a fixed column order. Tables are positional: a row holds
    one cell per column, in column order. */
module Merge {
  import opened Numeric
  import opened Strings
  import opened Sequences

  datatype Cell = Missing | Text(s: string) | Number(x: real)

  datatype Table = Table(columns: seq<string>, rows: seq<seq<Cell>>)

  const Key: string := "listing"
  const RunDateColumn: string := "data_da_execucao"
  const SpecialPriceColumn: string := "n_dates_special_price"
  const MinPriceDaysColumn: string := "dias_pmin"

  /** The fixed output order of the enriched table. */
  const OrderedColumns: seq<string> := [
    "listing", "categoria", "carteira", "estado", "cidade", "Bairro",
    "dias_bloqueados", "dias_ativo", "faturamento_mes", "n_concorrentes", "meta",
    "mes_ano", "to_listings", "to_concorrentes", "dias_ocupados", "total_dias",
    "media_preco_ocupado", "media_preco_disponivel", "ocupacao_ainda_disponivel",
    "dias_pmin", "data_da_execucao"]

  predicate WellFormed(t: Table)
  {
    forall i :: 0 <= i < |t.rows| ==> |t.rows[i]| == |t.columns|
  }

  /** `DataFrame.empty`: no rows or no columns. */
  predicate IsEmpty(t: Table)
  {
    |t.rows| == 0 || |t.columns| == 0
  }

  function IndexOf(cols: seq<string>, c: string): (i: nat)
    requires c in cols
    ensures i < |cols| && cols[i] == c
    ensures forall j :: 0 <= j < i ==> cols[j] != c
  {
    if cols[0] == c then 0 else 1 + IndexOf(cols[1..], c)
  }

  function RemoveAt<T>(s: seq<T>, k: nat): (r: seq<T>)
    requires k < |s|
    ensures |r| == |s| - 1
    ensures forall i :: 0 <= i < k ==> r[i] == s[i]
    ensures forall i :: k <= i < |r| ==> r[i] == s[i + 1]
  {
    s[..k] + s[k + 1..]
  }

  // ---------------------------------------------------------------------
  // Renaming

  /** Non-key column names present on both sides of a join. */
  function Overlap(a: seq<string>, b: seq<string>): set<string>
  {
    set c | c in a && c in b && c != Key
  }

  function Suffixed(cols: seq<string>, clash: set<string>, suffix: string): (r: seq<string>)
    ensures |r| == |cols|
  {
    seq(|cols|, i requires 0 <= i < |cols| => if cols[i] in clash then cols[i] + suffix else cols[i])
  }

  /** The renames applied to the performance extract before merging. */
  const MetaRenames: seq<(string, string)> := [
    ("group_name", "categoria"), ("num_listing_blocked", "dias_bloqueados"),
    ("n_days_status", "dias_ativo"), ("listing_fat", "faturamento_mes"),
    ("n_competitors", "n_concorrentes"), ("meta_value", "meta"),
    ("year_month", "mes_ano"), ("to_competitors", "to_concorrentes"),
    ("days_occupied", "dias_ocupados"), ("total_days", "total_dias")]

  /** The new name of `c` under a rename mapping, or `c` itself. */
  function Renamed(pairs: seq<(string, string)>, c: string): (r: string)
    ensures (forall k :: 0 <= k < |pairs| ==> pairs[k].0 != c) ==> r == c
    ensures r == c || exists k :: 0 <= k < |pairs| && pairs[k] == (c, r)
  {
    if |pairs| == 0 then c
    else if pairs[0].0 == c then pairs[0].1
    else Renamed(pairs[1..], c)
  }

  /** `DataFrame.rename(columns=mapping)`: every column is renamed at once,
      cells untouched. */
  function RenameWith(t: Table, pairs: seq<(string, string)>): (r: Table)
    ensures r.rows == t.rows && |r.columns| == |t.columns|
    ensures forall i :: 0 <= i < |t.columns| ==> r.columns[i] == Renamed(pairs, t.columns[i])
  {
    Table(seq(|t.columns|, i requires 0 <= i < |t.columns| => Renamed(pairs, t.columns[i])), t.rows)
  }

  /** The listing key is not among the renamed names, so it survives. */
  lemma KeySurvivesMetaRename(t: Table)
    requires Key in t.columns
    ensures Key in RenameWith(t, MetaRenames).columns
  {
    var i := IndexOf(t.columns, Key);
    assert forall k :: 0 <= k < |MetaRenames| ==> MetaRenames[k].0 != Key;
    assert RenameWith(t, MetaRenames).columns[i] == Key;
  }

  // ---------------------------------------------------------------------
  // Left join

  /** The right-hand rows whose key cell equals `key`: all of them, and
      nothing else, in their order. */
  function Matches(rows: seq<seq<Cell>>, k: nat, key: Cell): (r: seq<seq<Cell>>)
    requires forall i :: 0 <= i < |rows| ==> k < |rows[i]|
    ensures |r| <= |rows|
    ensures forall j :: 0 <= j < |r| ==> k < |r[j]| && r[j][k] == key
    ensures forall x :: x in r ==> x in rows && x[k] == key
    ensures forall j :: 0 <= j < |rows| && rows[j][k] == key ==> rows[j] in r
    ensures Subsequence(r, rows)
  {
    if |rows| == 0 then []
    else if rows[0][k] == key then [rows[0]] + Matches(rows[1..], k, key)
    else Matches(rows[1..], k, key)
  }

  predicate UniqueKeys(rows: seq<seq<Cell>>, k: nat)
    requires forall i :: 0 <= i < |rows| ==> k < |rows[i]|
  {
    forall i, j :: 0 <= i < j < |rows| ==> rows[i][k] != rows[j][k]
  }

  lemma {:induction false} AtMostOneMatch(rows: seq<seq<Cell>>, k: nat, key: Cell)
    requires forall i :: 0 <= i < |rows| ==> k < |rows[i]|
    ensures UniqueKeys(rows, k) ==> |Matches(rows, k, key)| <= 1
  {
    if |rows| > 0 && UniqueKeys(rows, k) {
      var rest := rows[1..];
      AtMostOneMatch(rest, k, key);
      assert UniqueKeys(rest, k);
      if rows[0][k] == key {
        NoMatches(rest, k, key);
      }
    }
  }

  lemma NoMatches(rows: seq<seq<Cell>>, k: nat, key: Cell)
    requires forall i :: 0 <= i < |rows| ==> k < |rows[i]|
    requires forall i :: 0 <= i < |rows| ==> rows[i][k] != key
    ensures Matches(rows, k, key) == []
  {
  }

  function Nulls(n: nat): (r: seq<Cell>)
    ensures |r| == n
    ensures forall i :: 0 <= i < n ==> r[i] == Missing
  {
    seq(n, _ => Missing)
  }

  /** The cells of each row carrying `key`, without the key cell, in
      order. */
  function MatchingParts(rows: seq<seq<Cell>>, w: nat, kr: nat, key: Cell): (ps: seq<seq<Cell>>)
    requires kr < w && forall i :: 0 <= i < |rows| ==> |rows[i]| == w
    ensures forall j :: 0 <= j < |ps| ==> |ps[j]| == w - 1
  {
    if |rows| == 0 then []
    else if rows[0][kr] == key then [RemoveAt(rows[0], kr)] + MatchingParts(rows[1..], w, kr, key)
    else MatchingParts(rows[1..], w, kr, key)
  }

  /** What a left row with key `key` is extended by: the cells of each
      right row carrying that key, minus the key cell, in the right table's
      order; or a single run of missing cells when no right row carries
      it. */
  function RightParts(key: Cell, right: Table, kr: nat): (ps: seq<seq<Cell>>)
    requires WellFormed(right) && kr < |right.columns|
    ensures |ps| >= 1
    ensures forall j :: 0 <= j < |ps| ==> |ps[j]| == |right.columns| - 1
  {
    var ms := MatchingParts(right.rows, |right.columns|, kr, key);
    if ms == [] then [Nulls(|right.columns| - 1)] else ms
  }

  /** MatchingParts is Matches with each key cell removed. */
  lemma {:induction false} MatchingPartsAreMatches(rows: seq<seq<Cell>>, w: nat, kr: nat, key: Cell)
    requires kr < w && forall i :: 0 <= i < |rows| ==> |rows[i]| == w
    ensures var ms := Matches(rows, kr, key);
            var ps := MatchingParts(rows, w, kr, key);
            |ps| == |ms| && forall j :: 0 <= j < |ms| ==> ps[j] == RemoveAt(ms[j], kr)
  {
    if |rows| > 0 {
      var rest := rows[1..];
      MatchingPartsAreMatches(rest, w, kr, key);
      if rows[0][kr] == key {
        var ms, ps := Matches(rest, kr, key), MatchingParts(rest, w, kr, key);
        ConsParts(rows[0], ms, ps, kr);
        assert Matches(rows, kr, key) == [rows[0]] + ms;
        assert MatchingParts(rows, w, kr, key) == [RemoveAt(rows[0], kr)] + ps;
      } else {
        assert Matches(rows, kr, key) == Matches(rest, kr, key);
        assert MatchingParts(rows, w, kr, key) == MatchingParts(rest, w, kr, key);
      }
    }
  }

  lemma ConsParts(m: seq<Cell>, ms: seq<seq<Cell>>, ps: seq<seq<Cell>>, kr: nat)
    requires kr < |m| && |ps| == |ms|
    requires forall j :: 0 <= j < |ms| ==> kr < |ms[j]| && ps[j] == RemoveAt(ms[j], kr)
    ensures var all, parts := [m] + ms, [RemoveAt(m, kr)] + ps;
            |parts| == |all| && forall j :: 0 <= j < |all| ==> kr < |all[j]| && parts[j] == RemoveAt(all[j], kr)
  {
    var all, parts := [m] + ms, [RemoveAt(m, kr)] + ps;
    forall j | 0 <= j < |all|
      ensures kr < |all[j]| && parts[j] == RemoveAt(all[j], kr)
    {
      if j > 0 {
        assert all[j] == ms[j - 1] && parts[j] == ps[j - 1];
      }
    }
  }

  /** The parts are the matching right rows, each without its key, in
      order; with no matching row, one run of missing cells. */
  lemma PartsAreMatches(key: Cell, right: Table, kr: nat)
    requires WellFormed(right) && kr < |right.columns|
    ensures var ms := Matches(right.rows, kr, key);
            var ps := RightParts(key, right, kr);
            (ms == [] ==> ps == [Nulls(|right.columns| - 1)])
            && (ms != [] ==> |ps| == |ms| && forall j :: 0 <= j < |ms| ==> ps[j] == RemoveAt(ms[j], kr))
  {
    MatchingPartsAreMatches(right.rows, |right.columns|, kr, key);
  }

  /** With unique right keys every left row gets exactly one part. */
  lemma UniqueKeysOnePart(key: Cell, right: Table, kr: nat)
    requires WellFormed(right) && kr < |right.columns|
    requires UniqueKeys(right.rows, kr)
    ensures |RightParts(key, right, kr)| == 1
  {
    AtMostOneMatch(right.rows, kr, key);
    MatchingPartsAreMatches(right.rows, |right.columns|, kr, key);
  }

  /** A key no right row carries gets one run of missing cells. */
  lemma NoMatchPart(key: Cell, right: Table, kr: nat)
    requires WellFormed(right) && kr < |right.columns|
    requires forall m :: 0 <= m < |right.rows| ==> right.rows[m][kr] != key
    ensures RightParts(key, right, kr) == [Nulls(|right.columns| - 1)]
  {
    NoMatches(right.rows, kr, key);
    MatchingPartsAreMatches(right.rows, |right.columns|, kr, key);
  }

  /** Every right row carrying the key contributes a part. */
  lemma MatchIsAPart(key: Cell, right: Table, kr: nat, m: nat)
    requires WellFormed(right) && kr < |right.columns|
    requires m < |right.rows| && right.rows[m][kr] == key
    ensures RemoveAt(right.rows[m], kr) in RightParts(key, right, kr)
  {
    var ms := Matches(right.rows, kr, key);
    var ps := RightParts(key, right, kr);
    PartsAreMatches(key, right, kr);
    assert right.rows[m] in ms;
    var j :| 0 <= j < |ms| && ms[j] == right.rows[m];
    assert ps[j] == RemoveAt(right.rows[m], kr);
  }

  /** With unique right keys, the right row carrying a key is the one
      thing a left row with that key is extended by. */
  lemma UniqueMatchPart(key: Cell, right: Table, kr: nat, m: nat)
    requires WellFormed(right) && kr < |right.columns|
    requires UniqueKeys(right.rows, kr)
    requires m < |right.rows| && right.rows[m][kr] == key
    ensures RightParts(key, right, kr) == [RemoveAt(right.rows[m], kr)]
  {
    MatchIsAPart(key, right, kr, m);
    UniqueKeysOnePart(key, right, kr);
  }

  /** Each row's first `w` cells. */
  function Prefixes(rows: seq<seq<Cell>>, w: nat): (r: seq<seq<Cell>>)
    requires forall j :: 0 <= j < |rows| ==> w <= |rows[j]|
    ensures |r| == |rows| && forall j :: 0 <= j < |rows| ==> r[j] == rows[j][..w]
  {
    seq(|rows|, j requires 0 <= j < |rows| => rows[j][..w])
  }

  /** The output rows for one left row: the row followed by each of its
      right parts. */
  function JoinOne(l: seq<Cell>, kl: nat, right: Table, kr: nat): (r: seq<seq<Cell>>)
    requires kl < |l| && WellFormed(right) && kr < |right.columns|
    ensures |r| == |RightParts(l[kl], right, kr)|
    ensures forall j :: 0 <= j < |r| ==> r[j] == l + RightParts(l[kl], right, kr)[j]
  {
    var ps := RightParts(l[kl], right, kr);
    seq(|ps|, j requires 0 <= j < |ps| => l + ps[j])
  }

  /** Where the output rows of left row `i` begin: after one row per right
      part of every earlier left row. */
  function Offset(lrows: seq<seq<Cell>>, kl: nat, right: Table, kr: nat, i: nat): (o: nat)
    requires WellFormed(right) && kr < |right.columns|
    requires forall k :: 0 <= k < |lrows| ==> kl < |lrows[k]|
    requires i <= |lrows|
    ensures o >= i
  {
    if i == 0 then 0
    else |RightParts(lrows[0][kl], right, kr)| + Offset(lrows[1..], kl, right, kr, i - 1)
  }

  /** With unique right keys every left row has a block of one row, so row
      `i`'s block starts at `i`. */
  lemma {:induction false} UniqueKeysOffset(lrows: seq<seq<Cell>>, kl: nat, right: Table, kr: nat, i: nat)
    requires WellFormed(right) && kr < |right.columns|
    requires forall k :: 0 <= k < |lrows| ==> kl < |lrows[k]|
    requires i <= |lrows| && UniqueKeys(right.rows, kr)
    ensures Offset(lrows, kl, right, kr, i) == i
  {
    if i > 0 {
      UniqueKeysOnePart(lrows[0][kl], right, kr);
      UniqueKeysOffset(lrows[1..], kl, right, kr, i - 1);
    }
  }

  /** Each left row's block of output rows follows the previous one's, so
      the output keeps the left order. */
  lemma {:induction false} OffsetStep(lrows: seq<seq<Cell>>, kl: nat, right: Table, kr: nat, i: nat)
    requires WellFormed(right) && kr < |right.columns|
    requires forall k :: 0 <= k < |lrows| ==> kl < |lrows[k]|
    requires i < |lrows|
    ensures Offset(lrows, kl, right, kr, i + 1) == Offset(lrows, kl, right, kr, i) + |RightParts(lrows[i][kl], right, kr)|
    ensures Offset(lrows, kl, right, kr, i) < Offset(lrows, kl, right, kr, i + 1)
  {
    if i > 0 {
      OffsetStep(lrows[1..], kl, right, kr, i - 1);
      assert lrows[1..][i - 1] == lrows[i];
    }
  }

  /** From position `o` on, `r` holds the row `l` followed by each part of
      `ps` in turn. */
  predicate BlockAt(r: seq<seq<Cell>>, o: nat, l: seq<Cell>, ps: seq<seq<Cell>>)
  {
    o + |ps| <= |r| && forall p :: 0 <= p < |ps| ==> r[o + p] == l + ps[p]
  }

  lemma BlockInFront(head: seq<seq<Cell>>, tail: seq<seq<Cell>>, l: seq<Cell>, ps: seq<seq<Cell>>)
    requires BlockAt(head, 0, l, ps)
    ensures BlockAt(head + tail, 0, l, ps)
  {
    assert forall p :: 0 <= p < |ps| ==> (head + tail)[p] == head[p];
  }

  lemma BlockBehind(head: seq<seq<Cell>>, tail: seq<seq<Cell>>, o: nat, l: seq<Cell>, ps: seq<seq<Cell>>)
    requires BlockAt(tail, o, l, ps)
    ensures BlockAt(head + tail, |head| + o, l, ps)
  {
    forall p | 0 <= p < |ps|
      ensures (head + tail)[|head| + o + p] == l + ps[p]
    {
      assert tail[o + p] == l + ps[p];
    }
  }

  /** The left rows joined one after another: left row `i`'s block starts at
      its offset and holds the row followed by each of its right parts, in
      the right table's order. */
  function JoinRows(lrows: seq<seq<Cell>>, width: nat, kl: nat, right: Table, kr: nat): (r: seq<seq<Cell>>)
    requires kl < width && WellFormed(right) && kr < |right.columns|
    requires forall i :: 0 <= i < |lrows| ==> |lrows[i]| == width
    ensures |r| == Offset(lrows, kl, right, kr, |lrows|)
    ensures forall j :: 0 <= j < |r| ==> |r[j]| == width + |right.columns| - 1
    ensures forall i {:trigger Offset(lrows, kl, right, kr, i)} :: 0 <= i < |lrows| ==>
              BlockAt(r, Offset(lrows, kl, right, kr, i), lrows[i], RightParts(lrows[i][kl], right, kr))
  {
    if |lrows| == 0 then []
    else
      var head := JoinOne(lrows[0], kl, right, kr);
      var tail := JoinRows(lrows[1..], width, kl, right, kr);
      JoinedBlocks(lrows, width, kl, right, kr, head, tail);
      head + tail
  }

  /** The inductive step of JoinRows: the first row's block, then the
      others' shifted past it. */
  lemma JoinedBlocks(lrows: seq<seq<Cell>>, width: nat, kl: nat, right: Table, kr: nat,
                     head: seq<seq<Cell>>, tail: seq<seq<Cell>>)
    requires kl < width && WellFormed(right) && kr < |right.columns|
    requires |lrows| > 0 && forall i :: 0 <= i < |lrows| ==> |lrows[i]| == width
    requires |head| == |RightParts(lrows[0][kl], right, kr)|
    requires forall j :: 0 <= j < |head| ==> head[j] == lrows[0] + RightParts(lrows[0][kl], right, kr)[j]
    requires |tail| == Offset(lrows[1..], kl, right, kr, |lrows| - 1)
    requires forall j :: 0 <= j < |tail| ==> |tail[j]| == width + |right.columns| - 1
    requires forall i {:trigger Offset(lrows[1..], kl, right, kr, i)} :: 0 <= i < |lrows[1..]| ==>
               BlockAt(tail, Offset(lrows[1..], kl, right, kr, i), lrows[1..][i], RightParts(lrows[1..][i][kl], right, kr))
    ensures |head + tail| == Offset(lrows, kl, right, kr, |lrows|)
    ensures forall j :: 0 <= j < |head + tail| ==> |(head + tail)[j]| == width + |right.columns| - 1
    ensures forall i {:trigger Offset(lrows, kl, right, kr, i)} :: 0 <= i < |lrows| ==>
              BlockAt(head + tail, Offset(lrows, kl, right, kr, i), lrows[i], RightParts(lrows[i][kl], right, kr))
  {
    assert Offset(lrows, kl, right, kr, |lrows|) == |head| + Offset(lrows[1..], kl, right, kr, |lrows| - 1);
    forall j | 0 <= j < |head + tail|
      ensures |(head + tail)[j]| == width + |right.columns| - 1
    {
      if j >= |head| {
        assert (head + tail)[j] == tail[j - |head|];
      }
    }
    forall i | 0 <= i < |lrows|
      ensures BlockAt(head + tail, Offset(lrows, kl, right, kr, i), lrows[i], RightParts(lrows[i][kl], right, kr))
    {
      if i == 0 {
        assert BlockAt(head, 0, lrows[0], RightParts(lrows[0][kl], right, kr));
        BlockInFront(head, tail, lrows[0], RightParts(lrows[0][kl], right, kr));
      } else {
        var o := Offset(lrows[1..], kl, right, kr, i - 1);
        assert Offset(lrows, kl, right, kr, i) == |head| + o;
        assert lrows[1..][i - 1] == lrows[i];
        assert BlockAt(tail, o, lrows[i], RightParts(lrows[i][kl], right, kr));
        BlockBehind(head, tail, o, lrows[i], RightParts(lrows[i][kl], right, kr));
      }
    }
  }

  /** Every row of `r` is a row of `lrows` followed by one of that row's
      right parts. */
  predicate FromLeft(r: seq<seq<Cell>>, lrows: seq<seq<Cell>>, width: nat, kl: nat, right: Table, kr: nat)
    requires kl < width && WellFormed(right) && kr < |right.columns|
  {
    forall j :: 0 <= j < |r| ==>
      width <= |r[j]| && r[j][..width] in lrows && r[j][width..] in RightParts(r[j][kl], right, kr)
  }

  /** Every output row of JoinRows is a left row followed by one of that
      row's right parts. */
  lemma {:induction false} JoinRowsFromLeft(lrows: seq<seq<Cell>>, width: nat, kl: nat, right: Table, kr: nat)
    requires kl < width && WellFormed(right) && kr < |right.columns|
    requires forall i :: 0 <= i < |lrows| ==> |lrows[i]| == width
    ensures FromLeft(JoinRows(lrows, width, kl, right, kr), lrows, width, kl, right, kr)
  {
    if |lrows| > 0 {
      var head := JoinOne(lrows[0], kl, right, kr);
      var tail := JoinRows(lrows[1..], width, kl, right, kr);
      JoinRowsFromLeft(lrows[1..], width, kl, right, kr);
      HeadFromLeft(lrows, width, kl, right, kr, head);
      FromLeftConcat(lrows, width, kl, right, kr, head, tail);
    }
  }

  lemma HeadFromLeft(lrows: seq<seq<Cell>>, width: nat, kl: nat, right: Table, kr: nat, head: seq<seq<Cell>>)
    requires kl < width && WellFormed(right) && kr < |right.columns|
    requires |lrows| > 0 && |lrows[0]| == width
    requires |head| == |RightParts(lrows[0][kl], right, kr)|
    requires forall j :: 0 <= j < |head| ==> head[j] == lrows[0] + RightParts(lrows[0][kl], right, kr)[j]
    ensures FromLeft(head, lrows, width, kl, right, kr)
  {
    var ps := RightParts(lrows[0][kl], right, kr);
    forall j | 0 <= j < |head|
      ensures width <= |head[j]| && head[j][..width] in lrows && head[j][width..] in RightParts(head[j][kl], right, kr)
    {
      var row := lrows[0] + ps[j];
      assert row[..width] == lrows[0] && row[width..] == ps[j];
      assert row[kl] == lrows[0][kl];
    }
  }

  lemma FromLeftConcat(lrows: seq<seq<Cell>>, width: nat, kl: nat, right: Table, kr: nat,
                       head: seq<seq<Cell>>, tail: seq<seq<Cell>>)
    requires kl < width && WellFormed(right) && kr < |right.columns|
    requires |lrows| > 0
    requires FromLeft(head, lrows, width, kl, right, kr)
    requires FromLeft(tail, lrows[1..], width, kl, right, kr)
    ensures FromLeft(head + tail, lrows, width, kl, right, kr)
  {
    forall j | 0 <= j < |head + tail|
      ensures width <= |(head + tail)[j]| && (head + tail)[j][..width] in lrows
      ensures (head + tail)[j][width..] in RightParts((head + tail)[j][kl], right, kr)
    {
      if j < |head| {
        assert (head + tail)[j] == head[j];
      } else {
        var x := tail[j - |head|];
        assert (head + tail)[j] == x;
        var k :| 0 <= k < |lrows[1..]| && lrows[1..][k] == x[..width];
        assert lrows[k + 1] == x[..width];
      }
    }
  }

  /** The joined column names: the left names, then the right names
      without the key; names on both sides other than the key get `_x` on
      the left and `_y` on the right, and the key stays first where it was
      on the left. */
  function JoinedColumns(lc: seq<string>, rc: seq<string>): (cols: seq<string>)
    requires Key in lc && Key in rc
    ensures |cols| == |lc| + |rc| - 1
    ensures cols[..|lc|] == Suffixed(lc, Overlap(lc, rc), "_x")
    ensures cols[|lc|..] == Suffixed(RemoveAt(rc, IndexOf(rc, Key)), Overlap(lc, rc), "_y")
    ensures Key in cols && IndexOf(cols, Key) == IndexOf(lc, Key)
  {
    var clash := Overlap(lc, rc);
    var lcols := Suffixed(lc, clash, "_x");
    var rcols := Suffixed(RemoveAt(rc, IndexOf(rc, Key)), clash, "_y");
    SuffixKeepsKeyIndex(lc, clash, "_x");
    FirstIndexInPrefix(lcols, rcols, Key);
    assert (lcols + rcols)[..|lc|] == lcols && (lcols + rcols)[|lc|..] == rcols;
    lcols + rcols
  }

  /** `left.merge(right, on="listing", how="left")`: left row `i` becomes
      the block of output rows starting at its offset, one per right part
      of its key, and the blocks follow the left order. */
  function LeftJoin(left: Table, right: Table): (t: Table)
    requires WellFormed(left) && WellFormed(right)
    requires Key in left.columns && Key in right.columns
    ensures WellFormed(t)
    ensures t.columns == JoinedColumns(left.columns, right.columns)
    ensures |t.rows| == Offset(left.rows, IndexOf(left.columns, Key), right, IndexOf(right.columns, Key), |left.rows|)
    ensures forall i {:trigger Offset(left.rows, IndexOf(left.columns, Key), right, IndexOf(right.columns, Key), i)} ::
              0 <= i < |left.rows| ==>
              BlockAt(t.rows, Offset(left.rows, IndexOf(left.columns, Key), right, IndexOf(right.columns, Key), i),
                      left.rows[i], RightParts(left.rows[i][IndexOf(left.columns, Key)], right, IndexOf(right.columns, Key)))
  {
    var cols := JoinedColumns(left.columns, right.columns);
    var rows := JoinRows(left.rows, |left.columns|, IndexOf(left.columns, Key), right, IndexOf(right.columns, Key));
    Table(cols, rows)
  }

  /** Every output row of the join is a left row followed by one of that
      row's right parts. */
  lemma JoinRowsComeFromLeft(left: Table, right: Table)
    requires WellFormed(left) && WellFormed(right)
    requires Key in left.columns && Key in right.columns
    ensures FromLeft(LeftJoin(left, right).rows, left.rows, |left.columns|,
                     IndexOf(left.columns, Key), right, IndexOf(right.columns, Key))
  {
    JoinRowsFromLeft(left.rows, |left.columns|, IndexOf(left.columns, Key), right, IndexOf(right.columns, Key));
  }

  /** Every left row starts some output row; with unique right keys the
      join keeps exactly one row per left row, in the left order. */
  lemma JoinKeepsLeftRows(left: Table, right: Table)
    requires WellFormed(left) && WellFormed(right)
    requires Key in left.columns && Key in right.columns
    ensures var t := LeftJoin(left, right);
            |t.rows| >= |left.rows|
            && forall i :: 0 <= i < |left.rows| ==> left.rows[i] in Prefixes(t.rows, |left.columns|)
    ensures var t := LeftJoin(left, right);
            UniqueKeys(right.rows, IndexOf(right.columns, Key)) ==>
              |t.rows| == |left.rows| && forall i :: 0 <= i < |left.rows| ==> t.rows[i][..|left.columns|] == left.rows[i]
  {
    LeftRowsStartBlocks(left, right);
    if UniqueKeys(right.rows, IndexOf(right.columns, Key)) {
      UniqueKeysKeepOrder(left, right);
    }
  }

  /** Left row i starts the first row of its block. */
  lemma LeftRowsStartBlocks(left: Table, right: Table)
    requires WellFormed(left) && WellFormed(right)
    requires Key in left.columns && Key in right.columns
    ensures var t := LeftJoin(left, right);
            var kl, kr := IndexOf(left.columns, Key), IndexOf(right.columns, Key);
            forall i :: 0 <= i < |left.rows| ==>
              Offset(left.rows, kl, right, kr, i) < |t.rows|
              && t.rows[Offset(left.rows, kl, right, kr, i)][..|left.columns|] == left.rows[i]
    ensures var t := LeftJoin(left, right);
            |t.rows| >= |left.rows|
            && forall i :: 0 <= i < |left.rows| ==> left.rows[i] in Prefixes(t.rows, |left.columns|)
  {
    var t := LeftJoin(left, right);
    var kl, kr := IndexOf(left.columns, Key), IndexOf(right.columns, Key);
    var w := |left.columns|;
    forall i | 0 <= i < |left.rows|
      ensures Offset(left.rows, kl, right, kr, i) < |t.rows|
      ensures t.rows[Offset(left.rows, kl, right, kr, i)][..w] == left.rows[i]
      ensures left.rows[i] in Prefixes(t.rows, w)
    {
      LeftRowStartsBlock(left, right, i);
    }
  }

  lemma LeftRowStartsBlock(left: Table, right: Table, i: nat)
    requires WellFormed(left) && WellFormed(right)
    requires Key in left.columns && Key in right.columns
    requires i < |left.rows|
    ensures var t := LeftJoin(left, right);
            var o := Offset(left.rows, IndexOf(left.columns, Key), right, IndexOf(right.columns, Key), i);
            o < |t.rows| && t.rows[o][..|left.columns|] == left.rows[i]
            && left.rows[i] in Prefixes(t.rows, |left.columns|)
  {
    var t := LeftJoin(left, right);
    var kl, kr := IndexOf(left.columns, Key), IndexOf(right.columns, Key);
    var o := Offset(left.rows, kl, right, kr, i);
    var ps := RightParts(left.rows[i][kl], right, kr);
    assert BlockAt(t.rows, o, left.rows[i], ps);
    assert t.rows[o + 0] == left.rows[i] + ps[0];
    assert Prefixes(t.rows, |left.columns|)[o] == left.rows[i];
  }

  /** With unique right keys, block i is row i alone. */
  lemma UniqueKeysKeepOrder(left: Table, right: Table)
    requires WellFormed(left) && WellFormed(right)
    requires Key in left.columns && Key in right.columns
    requires UniqueKeys(right.rows, IndexOf(right.columns, Key))
    ensures var t := LeftJoin(left, right);
            |t.rows| == |left.rows| && forall i :: 0 <= i < |left.rows| ==> t.rows[i][..|left.columns|] == left.rows[i]
  {
    var kl, kr := IndexOf(left.columns, Key), IndexOf(right.columns, Key);
    LeftRowsStartBlocks(left, right);
    UniqueKeysOffset(left.rows, kl, right, kr, |left.rows|);
    forall i | 0 <= i < |left.rows|
      ensures Offset(left.rows, kl, right, kr, i) == i
    {
      UniqueKeysOffset(left.rows, kl, right, kr, i);
    }
  }

  /** A name found in a prefix is found there first. */
  lemma FirstIndexInPrefix(a: seq<string>, b: seq<string>, c: string)
    requires c in a
    ensures c in a + b && IndexOf(a + b, c) == IndexOf(a, c)
  {
    var i := IndexOf(a, c);
    assert (a + b)[i] == c;
    IndexOfIsFirst(a + b, c, i);
  }

  /** "listing" does not end in "_x" or "_y", so no suffixed name is the key. */
  lemma SuffixedIsNotKey(c: string, suffix: string)
    requires suffix == "_x" || suffix == "_y"
    ensures c + suffix != Key
  {
    var s := c + suffix;
    assert s[|s| - 1] == suffix[1];
    assert Key[|Key| - 1] == 'g';
  }

  /** Suffixing non-key names leaves the key first where it was. */
  lemma SuffixKeepsKeyIndex(cols: seq<string>, clash: set<string>, suffix: string)
    requires Key in cols && Key !in clash && (suffix == "_x" || suffix == "_y")
    ensures Key in Suffixed(cols, clash, suffix)
    ensures IndexOf(Suffixed(cols, clash, suffix), Key) == IndexOf(cols, Key)
  {
    var s := Suffixed(cols, clash, suffix);
    var k := IndexOf(cols, Key);
    assert s[k] == Key;
    forall j | 0 <= j < k
      ensures s[j] != Key
    {
      if cols[j] in clash {
        SuffixedIsNotKey(cols[j], suffix);
      }
    }
    IndexOfIsFirst(s, Key, k);
  }

  /** The first position holding a name is its index. */
  lemma IndexOfIsFirst(cols: seq<string>, c: string, k: nat)
    requires k < |cols| && cols[k] == c
    requires forall j :: 0 <= j < k ==> cols[j] != c
    ensures IndexOf(cols, c) == k
  {
    var i := IndexOf(cols, c);
    assert !(i < k);
  }

  /** With unique right keys, a left row whose key some right row carries
      is extended by exactly that right row's cells, minus the key. */
  lemma JoinFindsMatch(left: Table, right: Table, i: nat, m: nat)
    requires WellFormed(left) && WellFormed(right)
    requires Key in left.columns && Key in right.columns
    requires UniqueKeys(right.rows, IndexOf(right.columns, Key))
    requires i < |left.rows| && m < |right.rows|
    requires right.rows[m][IndexOf(right.columns, Key)] == left.rows[i][IndexOf(left.columns, Key)]
    ensures |LeftJoin(left, right).rows| == |left.rows|
    ensures LeftJoin(left, right).rows[i] == left.rows[i] + RemoveAt(right.rows[m], IndexOf(right.columns, Key))
  {
    var t := LeftJoin(left, right);
    var kl, kr := IndexOf(left.columns, Key), IndexOf(right.columns, Key);
    UniqueKeysOffset(left.rows, kl, right, kr, |left.rows|);
    UniqueKeysOffset(left.rows, kl, right, kr, i);
    UniqueMatchPart(left.rows[i][kl], right, kr, m);
    assert BlockAt(t.rows, Offset(left.rows, kl, right, kr, i), left.rows[i], RightParts(left.rows[i][kl], right, kr));
    assert t.rows[i + 0] == left.rows[i] + RightParts(left.rows[i][kl], right, kr)[0];
  }

  /** A left row whose key no right row carries gets a single output row,
      padded with missing cells, whatever the right keys. */
  lemma JoinWithoutMatch(left: Table, right: Table, i: nat)
    requires WellFormed(left) && WellFormed(right)
    requires Key in left.columns && Key in right.columns
    requires i < |left.rows|
    requires forall m :: 0 <= m < |right.rows| ==>
               right.rows[m][IndexOf(right.columns, Key)] != left.rows[i][IndexOf(left.columns, Key)]
    ensures var o := Offset(left.rows, IndexOf(left.columns, Key), right, IndexOf(right.columns, Key), i);
            o < |LeftJoin(left, right).rows|
            && LeftJoin(left, right).rows[o] == left.rows[i] + Nulls(|right.columns| - 1)
            && Offset(left.rows, IndexOf(left.columns, Key), right, IndexOf(right.columns, Key), i + 1) == o + 1
  {
    var t := LeftJoin(left, right);
    var kl, kr := IndexOf(left.columns, Key), IndexOf(right.columns, Key);
    var o := Offset(left.rows, kl, right, kr, i);
    NoMatchPart(left.rows[i][kl], right, kr);
    OffsetStep(left.rows, kl, right, kr, i);
    assert BlockAt(t.rows, o, left.rows[i], RightParts(left.rows[i][kl], right, kr));
    assert t.rows[o + 0] == left.rows[i] + RightParts(left.rows[i][kl], right, kr)[0];
  }

  // ---------------------------------------------------------------------
  // Column selection

  /** Each column of `r` holds, row by row, the cells of the first column
      of the same name in `t`. */
  predicate ReadsByName(r: Table, t: Table)
    requires WellFormed(r) && WellFormed(t) && |r.rows| == |t.rows|
  {
    forall i, j {:trigger r.rows[i][j]} :: 0 <= i < |t.rows| && 0 <= j < |r.columns| ==> ReadsCell(r, t, i, j)
  }

  /** Cell (i, j) of `r` is row i's cell in the first column of `t` named
      like column j of `r`. */
  predicate ReadsCell(r: Table, t: Table, i: nat, j: nat)
    requires WellFormed(r) && WellFormed(t) && |r.rows| == |t.rows|
    requires i < |t.rows| && j < |r.columns|
  {
    r.columns[j] in t.columns && r.rows[i][j] == t.rows[i][IndexOf(t.columns, r.columns[j])]
  }

  /** The first column of each name of `r` holds the cells of the first
      column of that name in `t`. */
  predicate KeepsByName(r: Table, t: Table)
    requires WellFormed(r) && WellFormed(t) && |r.rows| == |t.rows|
  {
    forall c, k :: c in r.columns && 0 <= k < |t.rows| ==>
      c in t.columns && r.rows[k][IndexOf(r.columns, c)] == t.rows[k][IndexOf(t.columns, c)]
  }

  function SelectColumns(t: Table, idx: seq<nat>): (r: Table)
    requires WellFormed(t)
    requires forall j :: 0 <= j < |idx| ==> idx[j] < |t.columns|
    ensures WellFormed(r) && |r.rows| == |t.rows| && |r.columns| == |idx|
    ensures forall j :: 0 <= j < |idx| ==> r.columns[j] == t.columns[idx[j]]
    ensures forall i, j :: 0 <= i < |t.rows| && 0 <= j < |idx| ==> r.rows[i][j] == t.rows[i][idx[j]]
  {
    Table(seq(|idx|, j requires 0 <= j < |idx| => t.columns[idx[j]]),
          seq(|t.rows|, i requires 0 <= i < |t.rows| =>
            seq(|idx|, j requires 0 <= j < |idx| => t.rows[i][idx[j]])))
  }

  /** A column the clean-up removes: it mentions the execution date
      without being that exact name. */
  predicate IsDuplicateDate(c: string)
  {
    Contains(c, RunDateColumn) && c != RunDateColumn
  }

  /** The positions whose flag is set, in increasing order. */
  function FlaggedIndices(keep: seq<bool>, from: nat): (idx: seq<nat>)
    requires from <= |keep|
    ensures forall j :: 0 <= j < |idx| ==> from <= idx[j] < |keep| && keep[idx[j]]
    ensures forall i :: from <= i < |keep| && keep[i] ==> i in idx
    ensures forall j, k :: 0 <= j < k < |idx| ==> idx[j] < idx[k]
    decreases |keep| - from
  {
    if from == |keep| then []
    else if keep[from] then [from] + FlaggedIndices(keep, from + 1)
    else FlaggedIndices(keep, from + 1)
  }

  /** `df.drop(columns=...)` seen from the other side: the flagged columns
      stay, in their order, with their cells. */
  function KeepColumns(t: Table, keep: seq<bool>): (r: Table)
    requires WellFormed(t) && |keep| == |t.columns|
    ensures WellFormed(r) && |r.rows| == |t.rows|
    ensures var idx := FlaggedIndices(keep, 0);
            |r.columns| == |idx|
            && (forall j :: 0 <= j < |idx| ==> r.columns[j] == t.columns[idx[j]])
            && forall k, j :: 0 <= k < |t.rows| && 0 <= j < |idx| ==> r.rows[k][j] == t.rows[k][idx[j]]
    ensures forall c :: c in r.columns <==> exists i :: 0 <= i < |t.columns| && t.columns[i] == c && keep[i]
  {
    var idx := FlaggedIndices(keep, 0);
    var r := SelectColumns(t, idx);
    assert forall i :: 0 <= i < |t.columns| && keep[i] ==> t.columns[i] in r.columns by {
      forall i | 0 <= i < |t.columns| && keep[i] ensures t.columns[i] in r.columns {
        var j :| 0 <= j < |idx| && idx[j] == i;
        assert r.columns[j] == t.columns[i];
      }
    }
    r
  }

  /** One flag per column: set unless the name is doomed. */
  function Survivors(cols: seq<string>, doomed: string -> bool): (keep: seq<bool>)
    ensures |keep| == |cols| && forall i :: 0 <= i < |cols| ==> keep[i] == !doomed(cols[i])
  {
    seq(|cols|, i requires 0 <= i < |cols| => !doomed(cols[i]))
  }

  /** `df.drop(columns=[c for c in df.columns if doomed(c)])`: the other
      columns stay, in their order, and the first column of each surviving
      name holds the cells of the first column of that name before. */
  function DropWhere(t: Table, doomed: string -> bool): (r: Table)
    requires WellFormed(t)
    ensures WellFormed(r) && |r.rows| == |t.rows|
    ensures forall c :: c in r.columns <==> c in t.columns && !doomed(c)
    ensures KeepsByName(r, t)
  {
    var keep := Survivors(t.columns, doomed);
    var r := KeepColumns(t, keep);
    forall c | c in r.columns
      ensures c in t.columns && FlaggedIndices(keep, 0)[IndexOf(r.columns, c)] == IndexOf(t.columns, c)
    {
      FirstSurvivorIsFirst(t.columns, keep, r.columns, c);
    }
    r
  }

  /** The first kept column of a name comes from the first column of that
      name: a name's columns are kept or dropped together. */
  lemma FirstSurvivorIsFirst(cols: seq<string>, keep: seq<bool>, kept: seq<string>, c: string)
    requires |keep| == |cols|
    requires forall i, j :: 0 <= i < |cols| && 0 <= j < |cols| && cols[i] == cols[j] ==> keep[i] == keep[j]
    requires |kept| == |FlaggedIndices(keep, 0)|
    requires forall j :: 0 <= j < |kept| ==> kept[j] == cols[FlaggedIndices(keep, 0)[j]]
    requires c in kept
    ensures c in cols && FlaggedIndices(keep, 0)[IndexOf(kept, c)] == IndexOf(cols, c)
  {
    var idx := FlaggedIndices(keep, 0);
    var q := IndexOf(kept, c);
    var p := idx[q];
    assert cols[p] == c;
    var p0 := IndexOf(cols, c);
    assert keep[p0] == keep[p];
    var q' :| 0 <= q' < |idx| && idx[q'] == p0;
    assert kept[q'] == c;
    IncreasingIsMonotone(idx, q, q');
  }

  lemma IncreasingIsMonotone(idx: seq<nat>, a: nat, b: nat)
    requires forall j, k :: 0 <= j < k < |idx| ==> idx[j] < idx[k]
    requires a <= b < |idx|
    ensures idx[a] <= idx[b]
  {
    if a < b {
      assert idx[a] < idx[b];
    }
  }

  /** Drops every column whose name contains "data_da_execucao" but is not
      exactly it; afterwards the only column mentioning it is itself. */
  function DropDuplicateDates(t: Table): (r: Table)
    requires WellFormed(t)
    ensures WellFormed(r) && |r.rows| == |t.rows|
    ensures forall c :: c in r.columns && Contains(c, RunDateColumn) ==> c == RunDateColumn
    ensures forall c :: c in r.columns <==> c in t.columns && !IsDuplicateDate(c)
    ensures KeepsByName(r, t)
  {
    DropWhere(t, IsDuplicateDate)
  }

  /** The names of `wanted` that are present, in `wanted`'s order. */
  function Present(wanted: seq<string>, cols: seq<string>): (r: seq<string>)
    ensures forall c :: c in r <==> c in wanted && c in cols
    ensures |r| <= |wanted|
    ensures Subsequence(r, wanted)
  {
    if |wanted| == 0 then []
    else if wanted[0] in cols then [wanted[0]] + Present(wanted[1..], cols)
    else Present(wanted[1..], cols)
  }

  /** Only membership of the listed names matters to the filter. */
  lemma {:induction false} PresentDependsOnListedOnly(wanted: seq<string>, a: seq<string>, b: seq<string>)
    requires forall c :: c in wanted ==> (c in a <==> c in b)
    ensures Present(wanted, a) == Present(wanted, b)
  {
    if |wanted| > 0 {
      PresentDependsOnListedOnly(wanted[1..], a, b);
    }
  }

  /** `df[[c for c in ordered if c in df.columns]]`: the output columns are
      exactly the present names of the list, in list order, each holding
      the cells of the first column of that name. */
  function Project(t: Table, wanted: seq<string>): (r: Table)
    requires WellFormed(t)
    ensures WellFormed(r) && |r.rows| == |t.rows|
    ensures r.columns == Present(wanted, t.columns)
    ensures ReadsByName(r, t)
  {
    var names := Present(wanted, t.columns);
    var idx := seq(|names|, j requires 0 <= j < |names| => IndexOf(t.columns, names[j]));
    var r := SelectColumns(t, idx);
    assert r.columns == names;
    assert forall i, j :: 0 <= i < |t.rows| && 0 <= j < |r.columns| ==> ReadsCell(r, t, i, j);
    r
  }

  // ---------------------------------------------------------------------
  // The whole stage

  predicate IsRunDate(c: string)
  {
    c == RunDateColumn
  }

  /** The minimum-price extract as loaded: its execution-date column is
      dropped so that it cannot clash in the merge; every other column
      keeps its cells. */
  function CleanMinPrice(t: Table): (r: Table)
    requires WellFormed(t)
    ensures WellFormed(r) && |r.rows| == |t.rows|
    ensures RunDateColumn !in r.columns
    ensures forall c :: c in r.columns <==> c in t.columns && c != RunDateColumn
    ensures KeepsByName(r, t)
  {
    DropWhere(t, IsRunDate)
  }

  predicate Joinable(t: Table)
  {
    WellFormed(t) && Key in t.columns
  }

  /** A rename that neither renames the listing key nor renames anything
      to it leaves the key column first where it was. */
  lemma KeySurvivesRename(t: Table, pairs: seq<(string, string)>)
    requires Key in t.columns
    requires forall k :: 0 <= k < |pairs| ==> pairs[k].0 != Key && pairs[k].1 != Key
    ensures Key in RenameWith(t, pairs).columns
    ensures IndexOf(RenameWith(t, pairs).columns, Key) == IndexOf(t.columns, Key)
  {
    var r := RenameWith(t, pairs).columns;
    var k := IndexOf(t.columns, Key);
    assert r[k] == Key;
    IndexOfIsFirst(r, Key, k);
  }

  /** The optional last merge: skipped when the minimum-price extract is
      absent or empty; otherwise the merge below with the cleaned
      extract. */
  function JoinMinPrice(m: Table, minPrice: Option<Table>): (r: Table)
    requires Joinable(m)
    requires minPrice.Some? ==> Joinable(minPrice.value)
    ensures Joinable(r) && |r.columns| >= |m.columns|
    ensures IndexOf(r.columns, Key) == IndexOf(m.columns, Key)
    ensures minPrice.None? || IsEmpty(minPrice.value) ==> r == m
    ensures minPrice.Some? && !IsEmpty(minPrice.value) ==>
              Joinable(CleanMinPrice(minPrice.value)) && r == MergeMinPrice(m, CleanMinPrice(minPrice.value))
  {
    if minPrice.Some? && !IsEmpty(minPrice.value) then
      CleanKeepsKey(minPrice.value);
      MergeMinPrice(m, CleanMinPrice(minPrice.value))
    else m
  }

  /** A left join with the cleaned extract, whose special-price count is
      then renamed to "dias_pmin": the rows are the join's rows, and a
      special-price count that only the extract has comes out under the
      new name. */
  function MergeMinPrice(m: Table, p: Table): (r: Table)
    requires Joinable(m) && Joinable(p)
    ensures Joinable(r) && |r.columns| >= |m.columns|
    ensures IndexOf(r.columns, Key) == IndexOf(m.columns, Key)
    ensures r.rows == LeftJoin(m, p).rows
    ensures r.columns == RenameWith(LeftJoin(m, p), [(SpecialPriceColumn, MinPriceDaysColumn)]).columns
    ensures SpecialPriceColumn in p.columns && SpecialPriceColumn !in m.columns ==> MinPriceDaysColumn in r.columns
  {
    var joined := LeftJoin(m, p);
    var renames := [(SpecialPriceColumn, MinPriceDaysColumn)];
    KeySurvivesRename(joined, renames);
    SpecialPriceRenamed(m.columns, p.columns, joined.columns);
    RenameWith(joined, renames)
  }

  lemma CleanKeepsKey(t: Table)
    requires Joinable(t)
    ensures Joinable(CleanMinPrice(t))
  {
    assert Key != RunDateColumn;
  }

  /** The minimum-price merge keeps every row as the start of an output
      row, exactly once and in order when the cleaned extract has unique
      listing keys. */
  lemma MinPriceKeepsRows(m: Table, minPrice: Option<Table>)
    requires Joinable(m)
    requires minPrice.Some? ==> Joinable(minPrice.value)
    ensures var r := JoinMinPrice(m, minPrice);
            |r.rows| >= |m.rows| && forall i :: 0 <= i < |m.rows| ==> m.rows[i] in Prefixes(r.rows, |m.columns|)
    ensures var r := JoinMinPrice(m, minPrice);
            UniqueRightKey(minPrice) ==>
              |r.rows| == |m.rows| && forall i :: 0 <= i < |m.rows| ==> r.rows[i][..|m.columns|] == m.rows[i]
  {
    if minPrice.Some? && !IsEmpty(minPrice.value) {
      CleanKeepsKey(minPrice.value);
      JoinKeepsLeftRows(m, CleanMinPrice(minPrice.value));
    } else {
      assert forall i :: 0 <= i < |m.rows| ==> Prefixes(m.rows, |m.columns|)[i] == m.rows[i];
    }
  }

  /** Unique listing keys in the cleaned minimum-price extract, when it
      takes part in the merge. */
  predicate UniqueRightKey(minPrice: Option<Table>)
    requires minPrice.Some? ==> Joinable(minPrice.value)
  {
    minPrice.Some? && !IsEmpty(minPrice.value) ==>
      var p := CleanMinPrice(minPrice.value);
      Key in p.columns && UniqueKeys(p.rows, IndexOf(p.columns, Key))
  }

  /** A special-price count that only the extract has keeps its name
      through the join and is then renamed to "dias_pmin". */
  lemma SpecialPriceRenamed(lc: seq<string>, rc: seq<string>, joined: seq<string>)
    requires Key in lc && Key in rc && joined == JoinedColumns(lc, rc)
    ensures SpecialPriceColumn in rc && SpecialPriceColumn !in lc ==>
              MinPriceDaysColumn in RenameWith(Table(joined, []), [(SpecialPriceColumn, MinPriceDaysColumn)]).columns
  {
    if SpecialPriceColumn in rc && SpecialPriceColumn !in lc {
      var kr := IndexOf(rc, Key);
      var s := IndexOf(rc, SpecialPriceColumn);
      var rest := RemoveAt(rc, kr);
      var q := if s < kr then s else s - 1;
      assert rest[q] == SpecialPriceColumn;
      assert SpecialPriceColumn !in Overlap(lc, rc);
      var w := |lc|;
      assert joined[w + q] == joined[w..][q] == SpecialPriceColumn;
      assert RenameWith(Table(joined, []), [(SpecialPriceColumn, MinPriceDaysColumn)]).columns[w + q] == MinPriceDaysColumn;
    }
  }

  /** The extracts joined in the script's order: the renamed performance
      extract, then prices, then location, then the minimum-price extract
      when it was loaded and is not empty. The listing column stays where
      the performance extract has it. */
  function JoinAll(meta: Table, prices: Table, location: Table, minPrice: Option<Table>): (m: Table)
    requires Joinable(meta) && Joinable(prices) && Joinable(location)
    requires minPrice.Some? ==> Joinable(minPrice.value)
    ensures Joinable(m) && |m.columns| >= |meta.columns|
    ensures IndexOf(m.columns, Key) == IndexOf(meta.columns, Key)
    ensures var m0 := RenameWith(meta, MetaRenames);
            Joinable(m0) && Joinable(LeftJoin(m0, prices))
            && m == JoinMinPrice(LeftJoin(LeftJoin(m0, prices), location), minPrice)
  {
    KeySurvivesRename(meta, MetaRenames);
    var m0 := RenameWith(meta, MetaRenames);
    var m1 := LeftJoin(m0, prices);
    var m2 := LeftJoin(m1, location);
    JoinMinPrice(m2, minPrice)
  }

  /** Every row of `a` starts some row of `b`, which is well formed and has
      at least as many rows and columns. */
  predicate StartsRowsOf(a: Table, b: Table)
  {
    WellFormed(b) && |a.columns| <= |b.columns| && |a.rows| <= |b.rows|
    && forall i :: 0 <= i < |a.rows| ==> a.rows[i] in Prefixes(b.rows, |a.columns|)
  }

  /** Row i of `b` starts with row i of `a`, and there are as many rows. */
  predicate StartsRowsInOrder(a: Table, b: Table)
  {
    WellFormed(b) && |a.columns| <= |b.columns| && |a.rows| == |b.rows|
    && forall i :: 0 <= i < |a.rows| ==> b.rows[i][..|a.columns|] == a.rows[i]
  }

  lemma StartsRowsOfTransitive(a: Table, b: Table, c: Table)
    requires WellFormed(b) && StartsRowsOf(a, b) && StartsRowsOf(b, c)
    ensures StartsRowsOf(a, c)
  {
    PrefixesCompose(a.rows, |a.columns|, b.rows, |b.columns|, c.rows);
  }

  lemma StartsRowsInOrderTransitive(a: Table, b: Table, c: Table)
    requires WellFormed(b) && StartsRowsInOrder(a, b) && StartsRowsInOrder(b, c)
    ensures StartsRowsInOrder(a, c)
  {
    PrefixesComposeInOrder(a.rows, |a.columns|, b.rows, |b.columns|, c.rows);
  }

  /** A rename keeps the rows as they are. */
  lemma RenameStartsRows(t: Table, pairs: seq<(string, string)>)
    requires WellFormed(t)
    ensures StartsRowsOf(t, RenameWith(t, pairs)) && StartsRowsInOrder(t, RenameWith(t, pairs))
  {
    assert forall i :: 0 <= i < |t.rows| ==> Prefixes(t.rows, |t.columns|)[i] == t.rows[i];
  }

  /** One left join, in the terms of the two predicates above. */
  lemma JoinStartsRows(left: Table, right: Table)
    requires Joinable(left) && Joinable(right)
    ensures StartsRowsOf(left, LeftJoin(left, right))
    ensures UniqueKeys(right.rows, IndexOf(right.columns, Key)) ==> StartsRowsInOrder(left, LeftJoin(left, right))
  {
    JoinKeepsLeftRows(left, right);
  }

  /** The minimum-price merge, in the same terms. */
  lemma MinPriceStartsRows(m: Table, minPrice: Option<Table>)
    requires Joinable(m)
    requires minPrice.Some? ==> Joinable(minPrice.value)
    ensures StartsRowsOf(m, JoinMinPrice(m, minPrice))
    ensures UniqueRightKey(minPrice) ==> StartsRowsInOrder(m, JoinMinPrice(m, minPrice))
  {
    MinPriceKeepsRows(m, minPrice);
  }

  /** Every performance row starts some row of the joined table. */
  lemma JoinAllKeepsRows(meta: Table, prices: Table, location: Table, minPrice: Option<Table>)
    requires Joinable(meta) && Joinable(prices) && Joinable(location)
    requires minPrice.Some? ==> Joinable(minPrice.value)
    ensures StartsRowsOf(meta, JoinAll(meta, prices, location, minPrice))
  {
    KeySurvivesRename(meta, MetaRenames);
    var m0 := RenameWith(meta, MetaRenames);
    var m1 := LeftJoin(m0, prices);
    var m2 := LeftJoin(m1, location);
    RenameStartsRows(meta, MetaRenames);
    JoinStartsRows(m0, prices);
    JoinStartsRows(m1, location);
    MinPriceStartsRows(m2, minPrice);
    StartsRowsOfTransitive(meta, m0, m1);
    StartsRowsOfTransitive(meta, m1, m2);
    StartsRowsOfTransitive(meta, m2, JoinMinPrice(m2, minPrice));
  }

  /** With unique listing keys on every right side, row i of the joined
      table starts with performance row i. */
  lemma JoinAllKeepsOrder(meta: Table, prices: Table, location: Table, minPrice: Option<Table>)
    requires Joinable(meta) && Joinable(prices) && Joinable(location)
    requires minPrice.Some? ==> Joinable(minPrice.value)
    requires UniqueRightKeys(prices, location, minPrice)
    ensures StartsRowsInOrder(meta, JoinAll(meta, prices, location, minPrice))
  {
    KeySurvivesRename(meta, MetaRenames);
    var m0 := RenameWith(meta, MetaRenames);
    var m1 := LeftJoin(m0, prices);
    var m2 := LeftJoin(m1, location);
    RenameStartsRows(meta, MetaRenames);
    JoinStartsRows(m0, prices);
    JoinStartsRows(m1, location);
    MinPriceStartsRows(m2, minPrice);
    StartsRowsInOrderTransitive(meta, m0, m1);
    StartsRowsInOrderTransitive(meta, m1, m2);
    StartsRowsInOrderTransitive(meta, m2, JoinMinPrice(m2, minPrice));
  }

  /** Unique listing keys on every right side of the merges. */
  predicate UniqueRightKeys(prices: Table, location: Table, minPrice: Option<Table>)
    requires Joinable(prices) && Joinable(location)
    requires minPrice.Some? ==> Joinable(minPrice.value)
  {
    UniqueKeys(prices.rows, IndexOf(prices.columns, Key))
    && UniqueKeys(location.rows, IndexOf(location.columns, Key))
    && UniqueRightKey(minPrice)
  }

  /** A row that starts some row, itself starting some row, starts that
      row too. */
  lemma PrefixesCompose(a: seq<seq<Cell>>, wa: nat, b: seq<seq<Cell>>, wb: nat, c: seq<seq<Cell>>)
    requires wa <= wb
    requires forall j :: 0 <= j < |b| ==> wb <= |b[j]|
    requires forall j :: 0 <= j < |c| ==> wb <= |c[j]|
    requires forall i :: 0 <= i < |a| ==> a[i] in Prefixes(b, wa)
    requires forall i :: 0 <= i < |b| ==> b[i] in Prefixes(c, wb)
    ensures forall i :: 0 <= i < |a| ==> a[i] in Prefixes(c, wa)
  {
    forall i | 0 <= i < |a|
      ensures a[i] in Prefixes(c, wa)
    {
      var j :| 0 <= j < |b| && Prefixes(b, wa)[j] == a[i];
      var k :| 0 <= k < |c| && Prefixes(c, wb)[k] == b[j];
      assert c[k][..wa] == c[k][..wb][..wa];
      assert Prefixes(c, wa)[k] == a[i];
    }
  }

  /** The same, row by row, when neither join duplicates rows. */
  lemma PrefixesComposeInOrder(a: seq<seq<Cell>>, wa: nat, b: seq<seq<Cell>>, wb: nat, c: seq<seq<Cell>>)
    requires wa <= wb && |a| == |b| == |c|
    requires forall i :: 0 <= i < |a| ==> |b[i]| >= wb && b[i][..wa] == a[i]
    requires forall i :: 0 <= i < |b| ==> |c[i]| >= wb && c[i][..wb] == b[i]
    ensures forall i :: 0 <= i < |a| ==> c[i][..wa] == a[i]
  {
    forall i | 0 <= i < |a|
      ensures c[i][..wa] == a[i]
    {
      assert c[i][..wa] == c[i][..wb][..wa];
    }
  }

  /** Duplicate date columns dropped, then the fixed column order: the
      output columns are the listed names left after the drop, in list
      order, each with the cells of the first column of that name. */
  function Finish(m: Table): (t: Table)
    requires Joinable(m)
    ensures WellFormed(t) && |t.rows| == |m.rows| && Key in t.columns
    ensures t.columns == Present(OrderedColumns, DropDuplicateDates(m).columns)
    ensures ReadsByName(t, m)
  {
    var d := DropDuplicateDates(m);
    var t := Project(d, OrderedColumns);
    KeyIsNotDuplicateDate();
    ProjectAfterDrop(m, d, t);
    t
  }

  lemma KeyIsNotDuplicateDate()
    ensures !IsDuplicateDate(Key)
  {
    if Contains(Key, RunDateColumn) {
      ContainsIsLonger(Key, RunDateColumn);
    }
  }

  /** After the clean-up the output names are the listed names the joined
      table has, other than suffixed execution dates, and the only one
      mentioning the execution date is that exact name. */
  lemma FinishColumns(m: Table)
    requires Joinable(m)
    ensures forall c :: c in Finish(m).columns <==> c in OrderedColumns && c in m.columns && !IsDuplicateDate(c)
    ensures forall c :: c in Finish(m).columns && Contains(c, RunDateColumn) ==> c == RunDateColumn
  {
  }

  /** Projecting after a drop that keeps cells by name reads each output
      column from the first column of that name before the drop. */
  lemma ProjectAfterDrop(m: Table, d: Table, t: Table)
    requires WellFormed(m) && WellFormed(d) && WellFormed(t)
    requires |d.rows| == |m.rows| && |t.rows| == |d.rows|
    requires KeepsByName(d, m) && ReadsByName(t, d)
    ensures ReadsByName(t, m)
  {
    forall i, j | 0 <= i < |m.rows| && 0 <= j < |t.columns|
      ensures ReadsCell(t, m, i, j)
    {
      ReadThroughDrop(m, d, t, i, j);
    }
  }

  lemma ReadThroughDrop(m: Table, d: Table, t: Table, i: nat, j: nat)
    requires WellFormed(m) && WellFormed(d) && WellFormed(t)
    requires |d.rows| == |m.rows| && |t.rows| == |d.rows|
    requires KeepsByName(d, m) && ReadsByName(t, d)
    requires i < |m.rows| && j < |t.columns|
    ensures ReadsCell(t, m, i, j)
  {
    var c := t.columns[j];
    assert t.rows[i][j] == t.rows[i][j];
    assert c in d.columns && t.rows[i][j] == d.rows[i][IndexOf(d.columns, c)];
    assert d.rows[i][IndexOf(d.columns, c)] == m.rows[i][IndexOf(m.columns, c)];
  }

  /** A string contains only strings no longer than itself. */
  lemma {:induction false} ContainsIsLonger(s: string, sub: string)
    requires Contains(s, sub)
    ensures |sub| <= |s|
  {
    if !StartsWith(s, sub) {
      ContainsIsLonger(s[1..], sub);
    }
  }

  /** The merge and column stage: the extracts joined in order, duplicate
      date columns dropped, then the fixed column order. The output columns
      are the listed names left after the drop, in list order, each with
      the cells of the joined table's first column of that name. */
  function MergeAll(meta: Table, prices: Table, location: Table, minPrice: Option<Table>): (t: Table)
    requires Joinable(meta) && Joinable(prices) && Joinable(location)
    requires minPrice.Some? ==> Joinable(minPrice.value)
    ensures WellFormed(t) && Key in t.columns
    ensures |t.rows| == |JoinAll(meta, prices, location, minPrice).rows|
    ensures t.columns == Present(OrderedColumns, DropDuplicateDates(JoinAll(meta, prices, location, minPrice)).columns)
    ensures ReadsByName(t, JoinAll(meta, prices, location, minPrice))
  {
    Finish(JoinAll(meta, prices, location, minPrice))
  }

  /** Only listed names come out, and no suffixed execution date. */
  lemma MergeColumns(meta: Table, prices: Table, location: Table, minPrice: Option<Table>)
    requires Joinable(meta) && Joinable(prices) && Joinable(location)
    requires minPrice.Some? ==> Joinable(minPrice.value)
    ensures forall c :: c in MergeAll(meta, prices, location, minPrice).columns ==> c in OrderedColumns
    ensures forall c :: c in MergeAll(meta, prices, location, minPrice).columns && Contains(c, RunDateColumn) ==>
              c == RunDateColumn
  {
    FinishColumns(JoinAll(meta, prices, location, minPrice));
  }

  /** No performance row is lost; with unique listing keys on every right
      side, output row i is performance row i's listing. */
  lemma MergeKeepsListings(meta: Table, prices: Table, location: Table, minPrice: Option<Table>)
    requires Joinable(meta) && Joinable(prices) && Joinable(location)
    requires minPrice.Some? ==> Joinable(minPrice.value)
    ensures |MergeAll(meta, prices, location, minPrice).rows| >= |meta.rows|
    ensures UniqueRightKeys(prices, location, minPrice) ==>
              var t := MergeAll(meta, prices, location, minPrice);
              |t.rows| == |meta.rows|
              && forall i :: 0 <= i < |meta.rows| ==>
                   t.rows[i][IndexOf(t.columns, Key)] == meta.rows[i][IndexOf(meta.columns, Key)]
  {
    var m := JoinAll(meta, prices, location, minPrice);
    var t := MergeAll(meta, prices, location, minPrice);
    JoinAllKeepsRows(meta, prices, location, minPrice);
    if UniqueRightKeys(prices, location, minPrice) {
      JoinAllKeepsOrder(meta, prices, location, minPrice);
      ListingCarried(meta, m, t);
    }
  }

  /** Through the joins and the projection, output row i keeps the listing
      of performance row i. */
  lemma ListingCarried(meta: Table, m: Table, t: Table)
    requires Joinable(meta) && Joinable(m) && |m.columns| >= |meta.columns|
    requires IndexOf(m.columns, Key) == IndexOf(meta.columns, Key)
    requires StartsRowsInOrder(meta, m)
    requires WellFormed(t) && |t.rows| == |m.rows| && Key in t.columns
    requires ReadsByName(t, m)
    ensures forall i :: 0 <= i < |meta.rows| ==>
              t.rows[i][IndexOf(t.columns, Key)] == meta.rows[i][IndexOf(meta.columns, Key)]
  {
    var k := IndexOf(meta.columns, Key);
    forall i | 0 <= i < |meta.rows|
      ensures t.rows[i][IndexOf(t.columns, Key)] == meta.rows[i][k]
    {
      assert t.rows[i][IndexOf(t.columns, Key)] == m.rows[i][k];
      assert m.rows[i][k] == m.rows[i][..|meta.columns|][k];
    }
  }
}
