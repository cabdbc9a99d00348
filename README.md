# Player report: season fallback and row building

This project models the logic of the batch job `data/scripts/update_players.py`, which
builds the player report for a watchlist.

For each watchlist player, the job asks a statistics provider for that player's
season hitting statistics. It tries the current year first and falls back to the
previous year. It then writes one flat row per player: the fixed columns
`name,mlb_id,year`, followed by 14 statistics renamed through the key table
`STAT_KEYS`.

The model is written in Dafny, in four modules:

- `Wrappers` (`wrappers.dfy`): the `Option` type, which plays the role of Python's `None`.
- `PyDict` (`pydict.dfy`): the Python dict behaviour the rows rely on.
  - A dict is an insertion-ordered list of pairs.
  - `d[k] = v` replaces the value in place when `k` is already present, and appends `(k, v)` otherwise.
  - `d.get(k)` returns the value, or `None`.
- `PyStr` (`pystr.dfy`): `str.strip()`, using the exact set of code points that `str.isspace()` accepts.
- `UpdatePlayers` (`update_players.dfy`):
  - the provider's response, as nested datatypes;
  - the key table, as a sequence of pairs;
  - the season candidates and the defensive unpacking of one attempt;
  - `safe_player_season_stats`, as a loop method whose specification is a recursive function;
  - the row-building loops of `main`, as loop methods;
  - lemmas about all of these.

Modelling choices:

- **The provider** is a parameter `p: (int, int) -> Outcome`, taking a player id and a season.
  - Each call either `Raised` or `Returned` an optional `Response`.
  - A `Response` has an optional `stats` list of `StatGroup`s, each `StatGroup` has an optional `splits` list, and each `Split` has an optional `stat` mapping.
  - For `stats` and `splits`, `None` stands for a missing key and for an explicit null alike, because the code treats the two the same way: both are falsy.
- **The current year** is a parameter `y`, replacing the UTC clock. It is read once per run; the code reads the clock once per player (see "## Left out").
- **Stat values** are a closed type, `IntValue` or `TextValue`. Nothing computes with them; they are only copied. A JSON boolean, float, or nested value in `stat` has no constructor. A JSON null under a key is not needed: `stat.get(k)` gives `None` for a null-valued key and for a missing one alike, so the model represents a null-valued key by leaving it out of the mapping.
- **A row** is a `PyDict.Dict<string, Cell>`. A `Cell` is `Null`, `Text`, `Int` or a copied `Value`. Because the dict keeps insertion order, the model also fixes the report's column order.

Success is judged on `splits`, not on `stat`: a non-empty `splits` list wins even
when its first split has no `stat` or an empty one, and the season is then paired
with `{}` (lemma `UpdatePlayers.OnlyFirstSplitMatters`).

## Model

| member | source | states |
|---|---|---|
| `UpdatePlayers.StatKeysWellFormed` | data/scripts/update_players.py:10-25 | The table has 14 entries. Its provider keys are pairwise distinct. The row's columns (`name`, `mlb_id`, `year`, then the 14 renamed columns) are pairwise distinct, so no statistic overwrites another value of the row. |
| `UpdatePlayers.ProviderKeysAsListed` | data/scripts/update_players.py:10-25 | The provider keys are `gamesPlayed` … `ops`, in the order the table declares them. |
| `UpdatePlayers.HeaderIsReportHeader` | data/scripts/update_players.py:58-60 | A row's column order is `name,mlb_id,year,g,ab,r,h,2b,3b,hr,rbi,bb,so,avg,obp,slg,ops`: the three fixed columns first, then the table's output names in table order. |
| `UpdatePlayers.SeasonCandidates` | data/scripts/update_players.py:27-29 | There are exactly two candidates. The first is the current year `y`, and the second is the year before it. |
| `UpdatePlayers.Attempt` | data/scripts/update_players.py:36-40 | An attempt yields no data exactly when one of these holds: the call raised; the response is `None`; `stats` is missing or empty; or the first `stats` entry has missing or empty `splits`. Otherwise it yields the `stat` mapping of `splits[0]` of `stats[0]`, or `{}` when that split has no `stat`. |
| `UpdatePlayers.OnlyFirstSplitMatters` | data/scripts/update_players.py:37-40 | Only `stats[0]` and `splits[0]` are examined. A first split without `stat` still succeeds, with `{}`. Later splits and later `stats` entries never change the result. |
| `UpdatePlayers.SelectSeason` | data/scripts/update_players.py:34-43 | The chosen season is either `None` paired with `{}`, or one of the candidates paired with exactly what that candidate's attempt yielded. |
| `UpdatePlayers.SelectSeasonNone` | data/scripts/update_players.py:34-43 | No season is chosen if and only if every candidate's attempt yields no data. Raising counts as yielding no data. |
| `UpdatePlayers.SelectSeasonFirst` | data/scripts/update_players.py:34-40 | The first candidate whose attempt yields data wins, with that data, whatever later candidates would yield. |
| `UpdatePlayers.OnlyPrefixConsulted` | data/scripts/update_players.py:34-40 | Two providers that agree on the candidates up to and including the first successful one give the same result. So once the current year succeeds, the previous year is never consulted. |
| `UpdatePlayers.SeasonFallback` | data/scripts/update_players.py:27-43 | If the current year has data, the result is that year and its data. Otherwise, if the previous year has data, the result is the previous year and its data. Otherwise the result is `(None, {})`. |
| `UpdatePlayers.SafePlayerSeasonStats` | data/scripts/update_players.py:31-43 | The loop's result equals `SelectSeason` over `[y, y - 1]`, for every `Raised` or `Returned` outcome of each call: a `Raised` attempt moves on to the next candidate. |
| `PyDict.Put` | data/scripts/update_players.py:60 | `row[outk] = v` keeps the key order when `outk` is already present, and appends `(outk, v)` at the end otherwise. |
| `PyDict.Get` | data/scripts/update_players.py:60 | `d.get(k)` is `None` exactly when `k` is not a key, and otherwise a value stored under `k`. |
| `PyDict.GetPutSame` | data/scripts/update_players.py:60 | After `d[k] = v`, `d.get(k)` is `v`. |
| `PyDict.GetPutOther` | data/scripts/update_players.py:60 | After `d[k] = v`, every other key keeps its value. |
| `PyDict.PutDistinct` | data/scripts/update_players.py:60 | Assignment never produces a repeated key. |
| `UpdatePlayers.ExpectedRowKeys` | data/scripts/update_players.py:58-60 | A row's keys are exactly the report's header, in header order, each appearing once. |
| `UpdatePlayers.ExpectedRowFields` | data/scripts/update_players.py:58-60 | `name`, `mlb_id` and `year` hold the given name, id and season (null when there is no season). For every `(k, outk)` in the key table, column `outk` holds `stat.get(k)`: the value when present, null otherwise. |
| `UpdatePlayers.BuildRow` | data/scripts/update_players.py:58-60 | Building the row from the fixed columns and then assigning each renamed statistic in table order gives exactly the fixed columns followed by the 14 renamed columns. |
| `UpdatePlayers.BuildRows` | data/scripts/update_players.py:50-61 | The loop produces `PlayerRows` of the watchlist. Each row uses the stripped name, the id, and the season `safe_player_season_stats` chose for that entry. |
| `UpdatePlayers.PlayerRowsAt` | data/scripts/update_players.py:52-61 | There is one row per watchlist entry, in input order: row `i` is entry `i`'s row. |
| `UpdatePlayers.PlayerRowIdentity` | data/scripts/update_players.py:53-58 | A player's row has `name` equal to the stripped input name, `mlb_id` equal to the input id, and the header's columns. |
| `UpdatePlayers.PlayerRowCurrentYear` | data/scripts/update_players.py:56-60 | When the current year has data, the row's `year` is that year. Each statistic column holds that year's value for its provider key, or null. |
| `UpdatePlayers.PlayerRowPreviousYear` | data/scripts/update_players.py:56-60 | When only the previous year has data, the row's `year` is the previous year. Each statistic column holds that year's value for its provider key, or null. |
| `UpdatePlayers.PlayerRowNoData` | data/scripts/update_players.py:56-60 | When neither year has data, `year` and all 14 statistic columns are null, and the row is still produced. |
| `UpdatePlayers.ExampleRow` | data/scripts/update_players.py:52-61 | Worked example: the provider returns one split `{"atBats": 10, "hits": 3}` for player 123 in the current year. The row for `Test Player` then has that year, `ab` 10, `h` 3, and every other statistic null. |
| `PyStr.StripStartSpec` | data/scripts/update_players.py:53 | `lstrip` leaves a suffix, drops only whitespace, and stops at the first non-whitespace character. |
| `PyStr.StripEndSpec` | data/scripts/update_players.py:53 | `rstrip` leaves a prefix, drops only whitespace, and stops at the last non-whitespace character. |
| `PyStr.StripTrims` | data/scripts/update_players.py:53 | `strip` returns a contiguous piece of the name. Everything cut off on either side is whitespace, and the result neither starts nor ends with whitespace. |
| `PyStr.StripIdempotent` | data/scripts/update_players.py:53 | Stripping twice gives the same result as stripping once. |

## Left out

- The `statsapi.player_stat_data` call (line 36) is a foreign network library. It is replaced by the provider parameter, which is a pure function, so the model assumes the provider answers the same query the same way.
- `datetime.now(timezone.utc).year` (line 28) is clock input. The year is a parameter.
- `BuildRows`, `PlayerRows`: the model uses one year `y` for the whole watchlist. The source reads the clock once per player, through `get_season_candidates` (line 28), called from `safe_player_season_stats` (line 34) for each entry (line 56). A run that crosses New Year in UTC gives later entries the candidates `[y + 1, y]`, and the model does not capture that.
- `SafePlayerSeasonStats`: line 41 catches only `Exception`. A `BaseException` that is not an `Exception`, such as `KeyboardInterrupt` or `SystemExit`, escapes the loop and ends the job. A provider call that never returns hangs the job, because there is no timeout. The total `Provider` type, where every call ends in `Raised` or `Returned`, expresses neither case.
- The watchlist file check, `pd.read_csv`, `pd.DataFrame`, `mkdir` and `to_csv` (lines 46-49, 63-65) are file-system and library plumbing. The watchlist is a sequence of `Entry` values and the output a sequence of rows.
  - The missing-file `FileNotFoundError` is therefore outside the model.
  - So is pandas' conversion of `None` into an empty CSV cell. The model's rows are the dicts passed to `DataFrame`.
  - So is pandas' conversion of an integer column that holds a `None` into floats: in a report with a null year, `year` prints as `2025.0`, not `2025`.
- The `print` on success (line 66) is output only.
- `int(r["mlb_id"])` (line 54) can fail on a non-numeric id. The model takes the id as an integer already, and `str(r["name"])` as a string already, so conversions such as a missing name becoming `"nan"` are not modelled.
- Malformed provider shapes above `stat` are not representable in the datatypes. Examples are a `data`, `stats` entry or `splits` entry that is not a dict, or a `stats` or `splits` value that is not a list. In the code, such a shape typically raises inside the `try` (the `.get` or the `[0]` fails) and counts as "try the next season". The model covers that behaviour only through `Raised`.
- A `stat` value that is not a mapping (null, a list, a number, a string) is not modelled. Line 40 returns it as is, without raising, and line 60's `stat.get(k)` in `main` then raises outside any handler, so the job ends before line 65 writes the CSV. The model's `Split.stat` is either a mapping or absent.
- Floating-point, boolean and nested stat values are not modelled. `StatValue` has only integer and text constructors; nothing computes with the values, so the copying behaviour is the same for any value.
