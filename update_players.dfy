/**
 * The logic of the player-report batch job: choosing a season for each
 * watchlist player from a statistics provider (current year first, then the
 * previous one), and flattening the chosen season's statistics into one
 * output row per player under a fixed set of short column names.
 *
 * The provider call, the clock, and the CSV reading and writing are not
 * modelled: the provider is a function from (player id, season) to the
 * outcome of one call, and the current year is a parameter.
 */
module UpdatePlayers {
  import opened Wrappers
  import opened PyDict
  import opened PyStr

  // ---------------------------------------------------------------------
  // What the provider returns for one (player, season) query.
  // ---------------------------------------------------------------------

  /** A single statistic. Its value is never computed on, only copied. */
  datatype StatValue = IntValue(n: int) | TextValue(text: string)

  /** The flat `stat` mapping of one split, keyed by the provider's names. */
  type StatMap = map<string, StatValue>

  /** One split; `stat` is `None` when the split has no `stat` key. */
  datatype Split = Split(stat: Option<StatMap>)

  /** One entry of the response's `stats` list; `splits` is `None` when the key is missing or null. */
  datatype StatGroup = StatGroup(splits: Option<seq<Split>>)

  /** The response document; `stats` is `None` when the key is missing or null. */
  datatype Response = Response(stats: Option<seq<StatGroup>>)

  /** One provider call either raises or returns a (possibly `None`) response. */
  datatype Outcome = Raised | Returned(data: Option<Response>)

  /** The provider, queried with a player id and a season. */
  type Provider = (int, int) -> Outcome

  // ---------------------------------------------------------------------
  // STAT_KEYS: provider key -> output column, in declaration order.
  // ---------------------------------------------------------------------

  const StatKeys: seq<(string, string)> := [
    ("gamesPlayed", "g"),
    ("atBats", "ab"),
    ("runs", "r"),
    ("hits", "h"),
    ("doubles", "2b"),
    ("triples", "3b"),
    ("homeRuns", "hr"),
    ("rbi", "rbi"),
    ("baseOnBalls", "bb"),
    ("strikeOuts", "so"),
    ("avg", "avg"),
    ("obp", "obp"),
    ("slg", "slg"),
    ("ops", "ops")
  ]

  /** The columns every row starts with, before the statistics. */
  const FixedColumns: seq<string> := ["name", "mlb_id", "year"]

  /** The provider's keys, in table order. */
  function ProviderKeys(): seq<string>
  {
    seq(|StatKeys|, i requires 0 <= i < |StatKeys| => StatKeys[i].0)
  }

  /** The renamed output columns, in table order. */
  function OutputColumns(): seq<string>
  {
    seq(|StatKeys|, i requires 0 <= i < |StatKeys| => StatKeys[i].1)
  }

  /** The column order of every output row. */
  function Header(): seq<string>
  {
    FixedColumns + OutputColumns()
  }

  ghost predicate Distinct<T>(s: seq<T>)
  {
    forall i, j :: 0 <= i < j < |s| ==> s[i] != s[j]
  }

  /** The provider keys, as the key table lists them. */
  lemma ProviderKeysAsListed()
    ensures ProviderKeys() == ["gamesPlayed", "atBats", "runs", "hits", "doubles", "triples",
                               "homeRuns", "rbi", "baseOnBalls", "strikeOuts", "avg", "obp", "slg", "ops"]
  {
  }

  /** The rows' columns are those of the report's header line. */
  lemma HeaderIsReportHeader()
    ensures Header() == ["name", "mlb_id", "year", "g", "ab", "r", "h", "2b", "3b",
                         "hr", "rbi", "bb", "so", "avg", "obp", "slg", "ops"]
  {
  }

  /*
   * Distinctness of the names is shown through a cheap signature: the
   * length with the first and last characters already tells them apart.
   */

  function Signature(s: string): (int, char, char)
  {
    if s == [] then (0, ' ', ' ') else (|s|, s[0], s[|s| - 1])
  }

  ghost predicate SignaturesAre(names: seq<string>, sigs: seq<(int, char, char)>)
  {
    |sigs| == |names| && forall i :: 0 <= i < |names| ==> Signature(names[i]) == sigs[i]
  }

  lemma DistinctBySignature(names: seq<string>, sigs: seq<(int, char, char)>)
    requires SignaturesAre(names, sigs) && Distinct(sigs)
    ensures Distinct(names)
  {
    forall i, j | 0 <= i < j < |names| ensures names[i] != names[j] {
      assert Signature(names[i]) != Signature(names[j]);
    }
  }

  ghost const HeaderSignatures: seq<(int, char, char)> := [
    (4, 'n', 'e'), (6, 'm', 'd'), (4, 'y', 'r'), (1, 'g', 'g'), (2, 'a', 'b'), (1, 'r', 'r'),
    (1, 'h', 'h'), (2, '2', 'b'), (2, '3', 'b'), (2, 'h', 'r'), (3, 'r', 'i'), (2, 'b', 'b'),
    (2, 's', 'o'), (3, 'a', 'g'), (3, 'o', 'p'), (3, 's', 'g'), (3, 'o', 's')]

  ghost const ProviderKeySignatures: seq<(int, char, char)> := [
    (11, 'g', 'd'), (6, 'a', 's'), (4, 'r', 's'), (4, 'h', 's'), (7, 'd', 's'), (7, 't', 's'),
    (8, 'h', 's'), (3, 'r', 'i'), (11, 'b', 's'), (10, 's', 's'), (3, 'a', 'g'), (3, 'o', 'p'),
    (3, 's', 'g'), (3, 'o', 's')]

  lemma HeaderSignaturesHold()
    ensures SignaturesAre(Header(), HeaderSignatures)
  {
    HeaderIsReportHeader();
  }

  lemma HeaderSignaturesDistinct()
    ensures Distinct(HeaderSignatures)
  {
  }

  lemma ProviderKeySignaturesHold()
    ensures SignaturesAre(ProviderKeys(), ProviderKeySignatures)
  {
    ProviderKeysAsListed();
  }

  lemma ProviderKeySignaturesDistinct()
    ensures Distinct(ProviderKeySignatures)
  {
  }

  /**
   * There are 14 statistics; no two provider keys and no two output
   * columns coincide, and no output column is one of the fixed columns,
   * so no statistic overwrites another value of the row.
   */
  lemma StatKeysWellFormed()
    ensures |StatKeys| == 14
    ensures Distinct(ProviderKeys())
    ensures Distinct(Header())
  {
    HeaderSignaturesHold();
    HeaderSignaturesDistinct();
    DistinctBySignature(Header(), HeaderSignatures);
    ProviderKeySignaturesHold();
    ProviderKeySignaturesDistinct();
    DistinctBySignature(ProviderKeys(), ProviderKeySignatures);
  }

  // ---------------------------------------------------------------------
  // Season candidates and one defensive attempt.
  // ---------------------------------------------------------------------

  /** The seasons to try for current year `y`: `y` first, then the one before. */
  function SeasonCandidates(y: int): (r: seq<int>)
    ensures |r| == 2 && r[0] == y && r[1] < r[0]
    ensures forall c :: c in r <==> c == y || c == y - 1
  {
    [y, y - 1]
  }

  /** The `stats` list of a response; a `None` response counts as `{}`, a missing list as `[]`. */
  function StatsOf(data: Option<Response>): seq<StatGroup>
  {
    match data
    case None => []
    case Some(resp) => resp.stats.GetOr([])
  }

  /** The `splits` of the first `stats` entry, or `[]` when there is none. */
  function SplitsOf(stats: seq<StatGroup>): seq<Split>
  {
    if stats != [] then stats[0].splits.GetOr([]) else []
  }

  /** The `stat` mapping of a split, or `{}` when the split has none. */
  function StatOf(split: Split): StatMap
  {
    split.stat.GetOr(map[])
  }

  /** Every way in which an attempt yields no data for its season. */
  predicate NoData(o: Outcome)
  {
    || o.Raised?
    || o.data.None?
    || o.data.value.stats.None?
    || o.data.value.stats.value == []
    || o.data.value.stats.value[0].splits.None?
    || o.data.value.stats.value[0].splits.value == []
  }

  /**
   * What one attempt contributes: the `stat` mapping of the first split of
   * the first `stats` entry, or `None` when the attempt raised or any level
   * of the response is missing or empty.
   */
  function Attempt(o: Outcome): (r: Option<StatMap>)
    ensures r.None? <==> NoData(o)
    ensures r.Some? ==> r.value == StatOf(o.data.value.stats.value[0].splits.value[0])
  {
    match o
    case Raised => None
    case Returned(data) =>
      var splits := SplitsOf(StatsOf(data));
      if splits != [] then Some(StatOf(splits[0])) else None
  }

  /**
   * Success depends on the first split existing, not on its `stat`: a
   * first split without `stat` (or with an empty one) still succeeds, with
   * `{}`; later splits and later `stats` entries are never looked at.
   */
  lemma OnlyFirstSplitMatters(first: Split, moreSplits: seq<Split>, moreGroups: seq<StatGroup>)
    ensures Attempt(Returned(Some(Response(Some([StatGroup(Some([first] + moreSplits))] + moreGroups)))))
            == Some(if first.stat.Some? then first.stat.value else map[])
  {
  }

  // ---------------------------------------------------------------------
  // safe_player_season_stats
  // ---------------------------------------------------------------------

  /**
   * The first candidate season whose attempt yields data, with that data;
   * `(None, {})` when none does.
   */
  function SelectSeason(p: Provider, id: int, candidates: seq<int>): (r: (Option<int>, StatMap))
    ensures r.0.None? ==> r.1 == map[]
    ensures r.0.Some? ==> r.0.value in candidates && Attempt(p(id, r.0.value)) == Some(r.1)
  {
    if candidates == [] then (None, map[])
    else match Attempt(p(id, candidates[0]))
      case Some(stat) => (Some(candidates[0]), stat)
      case None => SelectSeason(p, id, candidates[1..])
  }

  /** No season is chosen exactly when every candidate's attempt yields no data. */
  lemma {:induction false} SelectSeasonNone(p: Provider, id: int, candidates: seq<int>)
    ensures SelectSeason(p, id, candidates).0.None?
            <==> forall c :: c in candidates ==> Attempt(p(id, c)).None?
  {
    if candidates != [] {
      SelectSeasonNone(p, id, candidates[1..]);
      assert forall c :: c in candidates <==> c == candidates[0] || c in candidates[1..];
    }
  }

  /** The first candidate with data wins, whatever the later candidates would give. */
  lemma {:induction false} SelectSeasonFirst(p: Provider, id: int, candidates: seq<int>, k: nat)
    requires k < |candidates|
    requires Attempt(p(id, candidates[k])).Some?
    requires forall j :: 0 <= j < k ==> Attempt(p(id, candidates[j])).None?
    ensures SelectSeason(p, id, candidates) == (Some(candidates[k]), Attempt(p(id, candidates[k])).value)
  {
    if k > 0 {
      assert Attempt(p(id, candidates[0])).None?;
      SelectSeasonFirst(p, id, candidates[1..], k - 1);
    }
  }

  /**
   * Only the candidates up to and including the first one with data are
   * consulted: two providers that agree on those give the same result.
   */
  lemma {:induction false} OnlyPrefixConsulted(p: Provider, q: Provider, id: int, candidates: seq<int>, k: nat)
    requires k < |candidates|
    requires Attempt(p(id, candidates[k])).Some?
    requires forall j :: 0 <= j <= k ==> p(id, candidates[j]) == q(id, candidates[j])
    ensures SelectSeason(p, id, candidates) == SelectSeason(q, id, candidates)
  {
    if k > 0 && Attempt(p(id, candidates[0])).None? {
      OnlyPrefixConsulted(p, q, id, candidates[1..], k - 1);
    }
  }

  /**
   * The two-season fallback: the current year when it has data; otherwise
   * the previous year when that has data; otherwise no season and `{}`.
   */
  lemma SeasonFallback(p: Provider, id: int, y: int)
    ensures var r := SelectSeason(p, id, SeasonCandidates(y));
            && (Attempt(p(id, y)).Some? ==> r == (Some(y), Attempt(p(id, y)).value))
            && (Attempt(p(id, y)).None? && Attempt(p(id, y - 1)).Some? ==>
                  r == (Some(y - 1), Attempt(p(id, y - 1)).value))
            && (Attempt(p(id, y)).None? && Attempt(p(id, y - 1)).None? ==> r == (None, map[]))
  {
    var candidates := SeasonCandidates(y);
    if Attempt(p(id, y)).Some? {
      SelectSeasonFirst(p, id, candidates, 0);
    } else if Attempt(p(id, y - 1)).Some? {
      SelectSeasonFirst(p, id, candidates, 1);
    } else {
      SelectSeasonNone(p, id, candidates);
    }
  }

  /**
   * `safe_player_season_stats`: try each candidate season in order; an
   * attempt that raises is skipped, the first attempt with a non-empty
   * `splits` list is returned, and `(None, {})` when none has one. Every
   * `Raised` outcome is absorbed; README's "Left out" names what the
   * `Provider` type does not express.
   */
  method SafePlayerSeasonStats(p: Provider, id: int, y: int) returns (season: Option<int>, stat: StatMap)
    ensures (season, stat) == SelectSeason(p, id, SeasonCandidates(y))
  {
    var candidates := SeasonCandidates(y);
    var i := 0;
    while i < |candidates|
      invariant 0 <= i <= |candidates|
      invariant SelectSeason(p, id, candidates[i..]) == SelectSeason(p, id, candidates)
    {
      var c := candidates[i];
      assert candidates[i..][0] == c && candidates[i..][1..] == candidates[i + 1..];
      match p(id, c) {
        case Raised =>
        case Returned(data) =>
          var stats := StatsOf(data);
          var splits := SplitsOf(stats);
          if splits != [] {
            return Some(c), StatOf(splits[0]);
          }
      }
      i := i + 1;
    }
    return None, map[];
  }

  // ---------------------------------------------------------------------
  // Output rows.
  // ---------------------------------------------------------------------

  /** One watchlist line: the display name as read, and the numeric id. */
  datatype Entry = Entry(name: string, mlbId: int)

  /**
   * A value of an output row; `Null` is Python's `None`. The fixed columns
   * use `Text` and `Int`, the statistics `Value`, so a cell records where it
   * came from. As Python values `Text(s)` and `Value(TextValue(s))` are the
   * same string, and `Int(n)` and `Value(IntValue(n))` the same int.
   */
  datatype Cell = Null | Text(text: string) | Int(n: int) | Value(v: StatValue)

  /** A row is a dict from column name to value, in insertion order. */
  type Row = Dict<string, Cell>

  function YearCell(season: Option<int>): Cell
  {
    match season
    case None => Null
    case Some(y) => Int(y)
  }

  /** `stat.get(k)`. */
  function StatCell(stat: StatMap, k: string): Cell
  {
    if k in stat then Value(stat[k]) else Null
  }

  function BaseRow(name: string, id: int, season: Option<int>): Row
  {
    [("name", Text(name)), ("mlb_id", Int(id)), ("year", YearCell(season))]
  }

  /** The statistic columns for the given part of the key table, in its order. */
  function StatColumns(stat: StatMap, keys: seq<(string, string)>): (cols: Row)
    ensures |cols| == |keys|
  {
    if keys == [] then []
    else StatColumns(stat, keys[..|keys| - 1]) + [(keys[|keys| - 1].1, StatCell(stat, keys[|keys| - 1].0))]
  }

  /** Column `i` of the statistic columns renames entry `i` of the key table. */
  lemma {:induction false} StatColumnsAt(stat: StatMap, keys: seq<(string, string)>, i: nat)
    requires i < |keys|
    ensures StatColumns(stat, keys)[i] == (keys[i].1, StatCell(stat, keys[i].0))
  {
    if i < |keys| - 1 {
      StatColumnsAt(stat, keys[..|keys| - 1], i);
    }
  }

  /** The row of a player: the fixed columns followed by the renamed statistics. */
  function ExpectedRow(name: string, id: int, season: Option<int>, stat: StatMap): Row
  {
    BaseRow(name, id, season) + StatColumns(stat, StatKeys)
  }

  /** Column `3 + i` of a row is the `i`-th renamed statistic. */
  lemma ExpectedRowAt(name: string, id: int, season: Option<int>, stat: StatMap, i: nat)
    requires i < |StatKeys|
    ensures |ExpectedRow(name, id, season, stat)| == 3 + |StatKeys|
    ensures ExpectedRow(name, id, season, stat)[3 + i] == (StatKeys[i].1, StatCell(stat, StatKeys[i].0))
  {
    StatColumnsAt(stat, StatKeys, i);
  }

  /** A row has exactly the header's columns, in the header's order, each once. */
  lemma ExpectedRowKeys(name: string, id: int, season: Option<int>, stat: StatMap)
    ensures Keys(ExpectedRow(name, id, season, stat)) == Header()
    ensures DistinctKeys(ExpectedRow(name, id, season, stat))
  {
    var row := ExpectedRow(name, id, season, stat);
    var ks := Keys(row);
    var h := Header();
    assert |ks| == |h| == 3 + |StatKeys|;
    forall i | 0 <= i < |ks| ensures ks[i] == h[i] {
      if i >= 3 {
        ExpectedRowAt(name, id, season, stat, i - 3);
      }
    }
    assert ks == h;
    StatKeysWellFormed();
    forall i, j | 0 <= i < j < |row| ensures row[i].0 != row[j].0 {
      assert ks[i] == h[i] && ks[j] == h[j];
    }
  }

  /**
   * `name`, `mlb_id` and `year` hold the inputs, and for every
   * `(k, outk)` of the key table the column `outk` holds `stat.get(k)`.
   */
  lemma ExpectedRowFields(name: string, id: int, season: Option<int>, stat: StatMap)
    ensures Get(ExpectedRow(name, id, season, stat), "name") == Some(Text(name))
    ensures Get(ExpectedRow(name, id, season, stat), "mlb_id") == Some(Int(id))
    ensures Get(ExpectedRow(name, id, season, stat), "year") == Some(YearCell(season))
    ensures forall i :: 0 <= i < |StatKeys| ==>
              Get(ExpectedRow(name, id, season, stat), StatKeys[i].1) == Some(StatCell(stat, StatKeys[i].0))
  {
    var row := ExpectedRow(name, id, season, stat);
    ExpectedRowKeys(name, id, season, stat);
    GetAt(row, 0);
    GetAt(row, 1);
    GetAt(row, 2);
    forall i | 0 <= i < |StatKeys|
      ensures Get(row, StatKeys[i].1) == Some(StatCell(stat, StatKeys[i].0))
    {
      ExpectedRowAt(name, id, season, stat, i);
      GetAt(row, 3 + i);
    }
  }

  /** The rows built after `j` statistics: the fixed columns and the first `j` renamed ones. */
  function PartialRow(name: string, id: int, season: Option<int>, stat: StatMap, j: nat): Row
    requires j <= |StatKeys|
  {
    BaseRow(name, id, season) + StatColumns(stat, StatKeys[..j])
  }

  /** The `j`-th output column is not yet a key of the partial row. */
  lemma NextColumnFresh(name: string, id: int, season: Option<int>, stat: StatMap, j: nat)
    requires j < |StatKeys|
    ensures StatKeys[j].1 !in Keys(PartialRow(name, id, season, stat, j))
  {
    var ks := Keys(PartialRow(name, id, season, stat, j));
    var h := Header();
    StatKeysWellFormed();
    assert |ks| == 3 + j;
    forall i | 0 <= i < |ks| ensures ks[i] == h[i] {
      if i >= 3 {
        StatColumnsAt(stat, StatKeys[..j], i - 3);
      }
    }
    assert h[3 + j] == StatKeys[j].1;
  }

  /** One more statistic extends the partial row by one column at the end. */
  lemma PartialRowStep(name: string, id: int, season: Option<int>, stat: StatMap, j: nat)
    requires j < |StatKeys|
    ensures PartialRow(name, id, season, stat, j + 1)
            == PartialRow(name, id, season, stat, j) + [(StatKeys[j].1, StatCell(stat, StatKeys[j].0))]
  {
    assert StatKeys[..j + 1][..j] == StatKeys[..j];
  }

  /**
   * The body of the watchlist loop for one player: start from
   * name, id and year, then assign each renamed statistic in turn.
   */
  method BuildRow(name: string, id: int, season: Option<int>, stat: StatMap) returns (row: Row)
    ensures row == ExpectedRow(name, id, season, stat)
  {
    row := BaseRow(name, id, season);
    for j := 0 to |StatKeys|
      invariant row == PartialRow(name, id, season, stat, j)
    {
      var (k, outk) := StatKeys[j];
      NextColumnFresh(name, id, season, stat, j);
      row := Put(row, outk, StatCell(stat, k));
      PartialRowStep(name, id, season, stat, j);
    }
    assert StatKeys[..|StatKeys|] == StatKeys;
  }

  /** The row `main` produces for one watchlist entry. */
  function PlayerRow(p: Provider, y: int, e: Entry): Row
  {
    var selected := SelectSeason(p, e.mlbId, SeasonCandidates(y));
    ExpectedRow(Strip(e.name), e.mlbId, selected.0, selected.1)
  }

  /** A row built from the season chosen for an entry is that entry's row. */
  lemma PlayerRowOf(p: Provider, y: int, e: Entry, season: Option<int>, stat: StatMap, row: Row)
    requires (season, stat) == SelectSeason(p, e.mlbId, SeasonCandidates(y))
    requires row == ExpectedRow(Strip(e.name), e.mlbId, season, stat)
    ensures row == PlayerRow(p, y, e)
  {
  }

  /** `[f(x) for x in xs]`, built front to back as the loop of `main` builds its rows. */
  function MapSeq<A, B>(f: A -> B, xs: seq<A>): (ys: seq<B>)
    ensures |ys| == |xs|
  {
    if xs == [] then [] else MapSeq(f, xs[..|xs| - 1]) + [f(xs[|xs| - 1])]
  }

  lemma {:induction false} MapSeqAt<A, B>(f: A -> B, xs: seq<A>, i: nat)
    requires i < |xs|
    ensures MapSeq(f, xs)[i] == f(xs[i])
  {
    if i < |xs| - 1 {
      assert xs[..|xs| - 1][i] == xs[i];
      MapSeqAt(f, xs[..|xs| - 1], i);
    }
  }

  /** The rows of a watchlist: one per entry, in the same order. */
  function PlayerRows(p: Provider, y: int, watchlist: seq<Entry>): (rows: seq<Row>)
    ensures |rows| == |watchlist|
  {
    MapSeq((e: Entry) => PlayerRow(p, y, e), watchlist)
  }

  /** Row `i` of a watchlist's rows is the row of entry `i`. */
  lemma PlayerRowsAt(p: Provider, y: int, watchlist: seq<Entry>, i: nat)
    requires i < |watchlist|
    ensures PlayerRows(p, y, watchlist)[i] == PlayerRow(p, y, watchlist[i])
  {
    MapSeqAt((e: Entry) => PlayerRow(p, y, e), watchlist, i);
  }

  /**
   * The loop of `main`: one row per watchlist entry, in input order, each
   * built from the stripped name, the id and the season chosen for it.
   */
  method BuildRows(p: Provider, y: int, watchlist: seq<Entry>) returns (rows: seq<Row>)
    ensures rows == PlayerRows(p, y, watchlist)
  {
    rows := [];
    for i := 0 to |watchlist|
      invariant rows == PlayerRows(p, y, watchlist[..i])
    {
      var name := Strip(watchlist[i].name);
      var id := watchlist[i].mlbId;
      var season, stat := SafePlayerSeasonStats(p, id, y);
      var row := BuildRow(name, id, season, stat);
      PlayerRowOf(p, y, watchlist[i], season, stat, row);
      assert watchlist[..i + 1][..i] == watchlist[..i];
      rows := rows + [row];
    }
    assert watchlist[..|watchlist|] == watchlist;
  }

  /** A player's row carries the stripped name and the id as read. */
  lemma PlayerRowIdentity(p: Provider, y: int, e: Entry)
    ensures Get(PlayerRow(p, y, e), "name") == Some(Text(Strip(e.name)))
    ensures Get(PlayerRow(p, y, e), "mlb_id") == Some(Int(e.mlbId))
    ensures Keys(PlayerRow(p, y, e)) == Header()
  {
    var selected := SelectSeason(p, e.mlbId, SeasonCandidates(y));
    ExpectedRowKeys(Strip(e.name), e.mlbId, selected.0, selected.1);
    ExpectedRowFields(Strip(e.name), e.mlbId, selected.0, selected.1);
  }

  /** With data for the current year, the row reports that year and its statistics. */
  lemma PlayerRowCurrentYear(p: Provider, y: int, e: Entry)
    requires Attempt(p(e.mlbId, y)).Some?
    ensures Get(PlayerRow(p, y, e), "year") == Some(Int(y))
    ensures forall i :: 0 <= i < |StatKeys| ==>
              Get(PlayerRow(p, y, e), StatKeys[i].1)
              == Some(StatCell(Attempt(p(e.mlbId, y)).value, StatKeys[i].0))
  {
    var stat := Attempt(p(e.mlbId, y)).value;
    assert PlayerRow(p, y, e) == ExpectedRow(Strip(e.name), e.mlbId, Some(y), stat);
    ExpectedRowFields(Strip(e.name), e.mlbId, Some(y), stat);
  }

  /**
   * With no data for the current year but data for the previous one, the
   * row reports the previous year and its statistics.
   */
  lemma PlayerRowPreviousYear(p: Provider, y: int, e: Entry)
    requires Attempt(p(e.mlbId, y)).None?
    requires Attempt(p(e.mlbId, y - 1)).Some?
    ensures Get(PlayerRow(p, y, e), "year") == Some(Int(y - 1))
    ensures forall i :: 0 <= i < |StatKeys| ==>
              Get(PlayerRow(p, y, e), StatKeys[i].1)
              == Some(StatCell(Attempt(p(e.mlbId, y - 1)).value, StatKeys[i].0))
  {
    var stat := Attempt(p(e.mlbId, y - 1)).value;
    SelectSeasonFirst(p, e.mlbId, SeasonCandidates(y), 1);
    assert PlayerRow(p, y, e) == ExpectedRow(Strip(e.name), e.mlbId, Some(y - 1), stat);
    ExpectedRowFields(Strip(e.name), e.mlbId, Some(y - 1), stat);
  }

  /** With no data for either year, the row's year and all 14 statistics are null. */
  lemma PlayerRowNoData(p: Provider, y: int, e: Entry)
    requires Attempt(p(e.mlbId, y)).None?
    requires Attempt(p(e.mlbId, y - 1)).None?
    ensures Get(PlayerRow(p, y, e), "year") == Some(Null)
    ensures forall i :: 0 <= i < |StatKeys| ==> Get(PlayerRow(p, y, e), StatKeys[i].1) == Some(Null)
  {
    SelectSeasonNone(p, e.mlbId, SeasonCandidates(y));
    assert PlayerRow(p, y, e) == ExpectedRow(Strip(e.name), e.mlbId, None, map[]);
    ExpectedRowFields(Strip(e.name), e.mlbId, None, map[]);
  }

  /** The statistics of a worked example. */
  function ExampleStat(): StatMap
  {
    map["atBats" := IntValue(10), "hits" := IntValue(3)]
  }

  lemma ExampleNameStrips()
    ensures Strip("Test Player") == "Test Player"
  {
    assert StripStart("Test Player") == "Test Player";
  }

  /** In the example only `atBats` and `hits` are reported: every other column reads null. */
  lemma ExampleOtherColumnsNull(i: nat)
    requires i < |StatKeys| && StatKeys[i].1 != "ab" && StatKeys[i].1 != "h"
    ensures StatCell(ExampleStat(), StatKeys[i].0) == Null
  {
    ProviderKeysAsListed();
    assert StatKeys[i].0 == ProviderKeys()[i];
  }

  /** The example's name and id columns. */
  lemma ExampleIdentityColumns(p: Provider, y: int)
    ensures Get(PlayerRow(p, y, Entry("Test Player", 123)), "name") == Some(Text("Test Player"))
    ensures Get(PlayerRow(p, y, Entry("Test Player", 123)), "mlb_id") == Some(Int(123))
  {
    ExampleNameStrips();
    PlayerRowIdentity(p, y, Entry("Test Player", 123));
  }

  /** Where the example's two statistics sit in the key table, and what they hold. */
  lemma ExampleKeyFacts()
    ensures StatKeys[1] == ("atBats", "ab") && StatKeys[3] == ("hits", "h")
    ensures StatCell(ExampleStat(), "atBats") == Value(IntValue(10))
    ensures StatCell(ExampleStat(), "hits") == Value(IntValue(3))
  {
  }

  /** The example's year, `ab` and `h` columns, once its attempt is known to yield `ExampleStat()`. */
  lemma ExampleReportedColumns(p: Provider, y: int)
    requires Attempt(p(123, y)) == Some(ExampleStat())
    ensures Get(PlayerRow(p, y, Entry("Test Player", 123)), "year") == Some(Int(y))
    ensures Get(PlayerRow(p, y, Entry("Test Player", 123)), "ab") == Some(Value(IntValue(10)))
    ensures Get(PlayerRow(p, y, Entry("Test Player", 123)), "h") == Some(Value(IntValue(3)))
  {
    var row := PlayerRow(p, y, Entry("Test Player", 123));
    PlayerRowCurrentYear(p, y, Entry("Test Player", 123));
    ExampleKeyFacts();
    assert Get(row, StatKeys[1].1) == Some(StatCell(ExampleStat(), StatKeys[1].0));
    assert Get(row, StatKeys[3].1) == Some(StatCell(ExampleStat(), StatKeys[3].0));
  }

  /** The example's other columns, once its attempt is known to yield `ExampleStat()`. */
  lemma ExampleNullColumns(p: Provider, y: int)
    requires Attempt(p(123, y)) == Some(ExampleStat())
    ensures forall i :: 0 <= i < |StatKeys| && StatKeys[i].1 != "ab" && StatKeys[i].1 != "h" ==>
              Get(PlayerRow(p, y, Entry("Test Player", 123)), StatKeys[i].1) == Some(Null)
  {
    var e := Entry("Test Player", 123);
    PlayerRowCurrentYear(p, y, e);
    forall i | 0 <= i < |StatKeys| && StatKeys[i].1 != "ab" && StatKeys[i].1 != "h"
      ensures Get(PlayerRow(p, y, e), StatKeys[i].1) == Some(Null)
    {
      ExampleOtherColumnsNull(i);
    }
  }

  /**
   * A worked example: "Test Player" with id 123,
   * for whom the provider returns one split `{"atBats": 10, "hits": 3}` for
   * the current year, gets that year, `ab` 10, `h` 3 and every other
   * statistic null.
   */
  lemma ExampleRow(p: Provider, y: int)
    requires p(123, y) == Returned(Some(Response(Some([StatGroup(Some([Split(Some(ExampleStat()))]))]))))
    ensures Get(PlayerRow(p, y, Entry("Test Player", 123)), "name") == Some(Text("Test Player"))
    ensures Get(PlayerRow(p, y, Entry("Test Player", 123)), "mlb_id") == Some(Int(123))
    ensures Get(PlayerRow(p, y, Entry("Test Player", 123)), "year") == Some(Int(y))
    ensures Get(PlayerRow(p, y, Entry("Test Player", 123)), "ab") == Some(Value(IntValue(10)))
    ensures Get(PlayerRow(p, y, Entry("Test Player", 123)), "h") == Some(Value(IntValue(3)))
    ensures forall i :: 0 <= i < |StatKeys| && StatKeys[i].1 != "ab" && StatKeys[i].1 != "h" ==>
              Get(PlayerRow(p, y, Entry("Test Player", 123)), StatKeys[i].1) == Some(Null)
  {
    assert Attempt(p(123, y)) == Some(ExampleStat());
    ExampleIdentityColumns(p, y);
    ExampleReportedColumns(p, y);
    ExampleNullColumns(p, y);
  }
}
