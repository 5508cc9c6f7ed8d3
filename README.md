# Blib core in Dafny

A Dafny model of the core of the Blib PHP helper library and proofs about it:

- `BlibArray::changes($old, $new)` (`src/Blib/Arr/BlibArray.php`): the
  recursive difference of two nested arrays. It walks the old array, records
  for every scalar whose new value is loosely unequal the new value (null when
  the key is missing), records for every sub-array its non-empty recursive
  difference, and returns `[]` when either side is empty.
- `BlibSql::insert`, `BlibSql::update` (`src/Blib/Sql/BlibSql.php`): build an
  `INSERT` or `UPDATE` statement with named placeholders plus the
  placeholder-to-value map, after rejecting empty data, an empty or invalid
  table name and (for update) empty criteria.
- `BlibSql::forceDateToSql`: rewrites `DD/MM/YYYY`-style dates (optionally with
  a time) into SQL `YYYY-MM-DD[ HH:MM:SS]` form, completing a short date-time
  from a reference timestamp.

`src/Sql.php` declares the class `Blib\Sql`, a line-for-line copy of the three
`BlibSql` functions without their doc-comments (insert 7-39, update 41-84,
forceDateToSql 86-104 correspond to BlibSql.php 24-56, 77-120, 134-153). One
set of Dafny definitions models both; the table below cites either file, and
every statement made about a line range of one file holds for the matching
range of the other.

Modules:

- `Wrappers` — `Option` and `Result`.
- `PhpArrays` — PHP string-keyed ordered arrays as association lists
  (`Entries<V>`): `Keys` (`array_keys`), `Lookup` (`$t[$k]`), `Assign`
  (`$t[$k] = $v`: overwrite in place or append), `AssignAll` (a `foreach`
  writing `$t[$p . $key] = $value`), and the loop `AssignEach` that computes it.
- `PhpStrings` — `implode` (`Join`), `explode`, `substr`, `str_replace` of one
  character, `strpos` of one character, and `trim` with PHP's default character
  set.
- `BlibArray` — nested arrays (`Tree<S>`, a value being null, `false`, another
  scalar or a nested array), the specification function `DiffLevel`/`Diff`, and
  the imperative `Changes`/`Loop`/`Visit` proved equal to it.
- `BlibSql` — `InsertStatement`/`UpdateStatement` (the result or the exception
  as a `Result`), the methods `Insert`/`Update` with their `foreach` loops, and
  `ForceDateToSql` with its steps `Normalize`, `Pad`, `IsDayFirst`, `Reorder`.

PHP's loose comparison `==` is a parameter `looseEq` of the array model (the
source's `$v != $new[$k]` is `!looseEq(v, nv)`); the current date and time are
parameters `today` and `clock` of the date model.

The padding step of `forceDateToSql` takes the reference timestamp from the
field's own length on. For a ten-character `dd/mm/yyyy` that is exactly the
space and time of day; for a shorter day-first date such as `1/1/2023` the
padding starts inside the reference date, so the reference day's digits end up
after the year (`ShortDayFirstDatePadded`, `ShortDayFirstDateExample`). Such
inputs lie outside the `DD/MM/YYYY` format the function documents, and the
model keeps this behaviour as written.

## Model

| member | source | states |
|---|---|---|
| BlibArray.Changes | src/Blib/Arr/BlibArray.php:7-36 | the method's result is exactly the recursive difference `Diff` of old and new |
| BlibArray.Diff | src/Blib/Arr/BlibArray.php:29-35 | empty when the old or the new array is empty; otherwise the closure's full-level difference |
| BlibArray.DiffLevel | src/Blib/Arr/BlibArray.php:10-27 | the closure after visiting the first n entries; its properties are `DiffKeysFollowOld`, `DiffLevelLookup`, `DiffEntries`, `MissingSubtreeReadsNull` and `SelfDiff` |
| BlibArray.Change | src/Blib/Arr/BlibArray.php:16-24 | what one visit records; characterised by `StepScalar` and `StepNode` |
| BlibArray.NewAt | src/Blib/Arr/BlibArray.php:13-14 | the value the loop reads as `$new[$k]` after the `isset` guard (null when missing); `IssetGuard` shows the guard's write changes no such read |
| BlibArray.IsSet | src/Blib/Arr/BlibArray.php:13 | `isset($new[$k])`: present and not null; used by `Visit` and `IssetGuard` |
| BlibArray.Loop | src/Blib/Arr/BlibArray.php:10-27 | the closure's `foreach` over all of `$old` yields the level difference `DiffLevel` of the whole array |
| BlibArray.Visit | src/Blib/Arr/BlibArray.php:13-24 | one loop body extends the difference of the first i keys to the first i+1 and keeps every read of the local `$new` unchanged |
| BlibArray.IssetGuard | src/Blib/Arr/BlibArray.php:13-15 | writing null under a key that is not set changes no value read from `$new` |
| BlibArray.StepScalar | src/Blib/Arr/BlibArray.php:16-18 | a scalar old value adds the new value (null when missing) exactly when the two are loosely unequal |
| BlibArray.StepNode | src/Blib/Arr/BlibArray.php:19-24 | a sub-array adds its recursive difference exactly when that difference is non-empty |
| BlibArray.DiffKeysFollowOld | src/Blib/Arr/BlibArray.php:12-25 | the result's keys are old keys, in the old array's order, each at most once |
| BlibArray.DiffLevelLookup | src/Blib/Arr/BlibArray.php:12-25 | after the first n keys, reading the result at any earlier key gives that key's own change, not overwritten by later iterations |
| BlibArray.DiffEntries | src/Blib/Arr/BlibArray.php:16-24 | per old key: the scalar case holds the new value iff loosely unequal, the sub-array case holds the non-empty recursive difference; keys not in old are absent |
| BlibArray.MissingSubtreeReadsNull | src/Blib/Arr/BlibArray.php:13-20 | a sub-array whose new counterpart is missing or null reports only null leaves, one per scalar loosely unequal to null |
| BlibArray.SelfDiff | src/Blib/Arr/BlibArray.php:7-36 | comparing an array with itself yields no changes, for any reflexive loose equality |
| BlibArray.NestedExample | src/Blib/Arr/BlibArray.php:7-36 | `changes(['a'=>1,'b'=>['c'=>2,'d'=>3]], ['a'=>1,'b'=>['c'=>2,'d'=>4]])` is `['b'=>['d'=>4]]` |
| BlibSql.EmptyString | src/Blib/Sql/BlibSql.php:28 | `empty()` on a string: true for `""` and `"0"` (`TableNameQuirks`) |
| BlibSql.TableNameMatches | src/Blib/Sql/BlibSql.php:30 | the pattern `^[a-zA-Z0-9_]+$`, with `$` also matching before one final newline (`TableNameQuirks`) |
| BlibSql.InsertStatement | src/Blib/Sql/BlibSql.php:24-56 | each exception exactly under its condition, in the source's order; success exactly otherwise, with `INSERT INTO t (k1, k2) VALUES (:k1, :k2)` |
| BlibSql.Insert | src/Sql.php:7-39 | the method with its `foreach` returns exactly `InsertStatement` |
| BlibSql.InsertParameters | src/Blib/Sql/BlibSql.php:34-46 | the parameters are the data entries with `:` prefixed to each key, in order, keys distinct, each `:c` reads `data[c]` |
| BlibSql.InsertErrors | src/Sql.php:27-29 | the "Wrong placeholders" exception can never be thrown |
| BlibSql.TableNameQuirks | src/Blib/Sql/BlibSql.php:28-30 | `"0"` counts as empty; `"users\n"` passes the pattern; `"bad table"` and `"users\n\n"` fail it |
| BlibSql.InsertTableQuirks | src/Sql.php:11-14 | with non-empty data, table `"0"` throws the empty-name exception, `"users\n"` succeeds, the other two throw the invalid-name one |
| BlibSql.InsertExample | src/Blib/Sql/BlibSql.php:48-55 | `insert('users', ['name'=>'Bob','age'=>'30'])` gives the expected statement and `[':name'=>'Bob', ':age'=>'30']` |
| BlibSql.UpdateStatement | src/Blib/Sql/BlibSql.php:77-120 | each of the four exceptions exactly under its condition, in order; success exactly otherwise, with the SET and WHERE clauses joined by `, ` and ` AND ` |
| BlibSql.Update | src/Sql.php:41-84 | the method with its two `foreach` loops returns exactly `UpdateStatement` |
| BlibSql.UpdateErrors | src/Blib/Sql/BlibSql.php:108-110 | the "Placeholders wrong" exception can never be thrown |
| BlibSql.Clauses | src/Blib/Sql/BlibSql.php:92-98 | one `col` + infix + `col` per column, in order: `col = :col` for SET, `col = :where_col` for WHERE |
| BlibSql.UpdateParameters | src/Sql.php:64-70 | the SET placeholders come first in data order, all keys distinct, every key a SET or WHERE placeholder; each `:where_k` reads the criterion; each `:c` reads the data value unless overwritten; with no overwrite the entries are exactly the data entries then the criteria entries, each in its own order |
| BlibSql.UpdateParameterEntries | src/Blib/Sql/BlibSql.php:100-106 | with no data column named `where_` + a criterion, the parameters are the `:c` entries in data order followed by the `:where_k` entries in criteria order |
| BlibSql.OverwrittenByCriterion | src/Blib/Sql/BlibSql.php:102-105 | a data column's placeholder is overwritten by the second loop iff the column is `where_` followed by a criteria column |
| BlibSql.PlaceholderClash | src/Sql.php:66-69 | `:c` and `:where_k` are the same key iff `c` is `where_` + `k` |
| BlibSql.UpdateOverwriteExample | src/Blib/Sql/BlibSql.php:100-106 | data `['where_id'=>1]` with criteria `['id'=>2]` leaves only `[':where_id'=>2]` |
| BlibSql.ReferenceTime | src/Blib/Sql/BlibSql.php:143 | the completing timestamp is today's date followed by `" " + clock` when `presetNow` and by `" 00:00:00"` otherwise; 19 characters for well-formed inputs |
| BlibSql.Normalize | src/Blib/Sql/BlibSql.php:137-140 | same length; each `/` becomes `-` and each `T` a space, every other character kept |
| BlibSql.Pad | src/Blib/Sql/BlibSql.php:141-146 | keeps the field as prefix; for a short date-time field appends the timestamp's tail to reach 19 characters; otherwise leaves it unchanged |
| BlibSql.PadDate | src/Sql.php:92-97 | a 10-character date-time field gets a space and the reference time of day (the clock, or midnight) |
| BlibSql.PadTime | src/Blib/Sql/BlibSql.php:141-146 | a field of 11 + k characters, k < 8, gets the reference time of day from its position k on |
| BlibSql.PadEarly | src/Sql.php:92-97 | a field of k < 10 characters gets the reference date from position k on, a space and the time of day |
| BlibSql.IsDayFirst | src/Blib/Sql/BlibSql.php:147 | true iff a `-` occurs in the first four characters but not at position 0 |
| BlibSql.Reorder | src/Blib/Sql/BlibSql.php:147-151 | the `explode`, `substr` and concatenation of the day-first branch, missing tokens read as `""`; characterised by `ReorderPieces` |
| BlibSql.Token | src/Sql.php:99-101 | `$e[i]`, read as `""` past the end of the `explode` result; used by `Reorder` |
| BlibSql.ForceDateToSql | src/Blib/Sql/BlibSql.php:134-153 | normalise, pad, reorder a day-first field, trim: the result neither starts nor ends with a trimmed character |
| BlibSql.ReorderPieces | src/Blib/Sql/BlibSql.php:148-150 | for three `-`-free pieces d, m, y the reordered field is the first four characters of y, then m, then d, plus the trimmed rest of y for a date-time |
| BlibSql.YearFirstKept | src/Sql.php:88-103 | a field with no `-` or `/` in its first four characters is only normalised, padded and trimmed, never reordered |
| BlibSql.DayFirstDateReordered | src/Blib/Sql/BlibSql.php:137-152 | `d/m/yyyy` or `d-m-yyyy` (day of 1-3 characters) becomes `yyyy-m-d` |
| BlibSql.DayFirstDateTimeReordered | src/Sql.php:92-103 | `d/m/yyyy time` of at least 19 characters, as a date-time, becomes `yyyy-m-d time`, whatever the clock |
| BlibSql.DayFirstDatePadded | src/Blib/Sql/BlibSql.php:141-152 | a 10-character day-first date such as `dd/mm/yyyy`, as a date-time, becomes `yyyy-mm-dd ` + the clock when `presetNow`, + `00:00:00` otherwise |
| BlibSql.DayFirstDateTimePadded | src/Sql.php:92-103 | a day-first `dd/mm/yyyy t` with a partial time `t` becomes `yyyy-mm-dd t` + the rest of the reference time of day |
| BlibSql.ShortDayFirstDatePadded | src/Blib/Sql/BlibSql.php:141-151 | a day-first date shorter than 10 characters as a date-time gets the reference date's last characters, a space and the time of day after the year |
| BlibSql.ShortDayFirstDateExample | src/Sql.php:92-103 | `1/1/2023` as a date-time at 02:30:00 on 2023-12-31 becomes `2023-1-1 31 02:30:00` |
| BlibSql.CanonicalDateFixed | src/Blib/Sql/BlibSql.php:147-152 | an SQL date `yyyy-m-d` comes back unchanged |
| BlibSql.DayFirstIdempotent | src/Sql.php:86-104 | converting the output again changes nothing |
| BlibSql.IsoDateTimeKept | src/Blib/Sql/BlibSql.php:137-152 | `yyyy-m-dTtime` of at least 19 characters, as a date-time, becomes `yyyy-m-d time` |
| BlibSql.IsoDatePadded | src/Blib/Sql/BlibSql.php:141-146 | `yyyy-mm-dd` as a date-time becomes `yyyy-mm-dd ` + the reference time of day |
| BlibSql.IsoDateTimePadded | src/Sql.php:88-97 | `yyyy-mm-ddTt` with a partial time `t` becomes `yyyy-mm-dd t` + the rest of the reference time of day |
| BlibSql.DayFirstExample | src/Sql.php:88-103 | `31/12/2023` becomes `2023-12-31` |
| BlibSql.IsoDateTimeExample | src/Blib/Sql/BlibSql.php:134-153 | `2023-12-31T10:00:00` as a date-time becomes `2023-12-31 10:00:00` |
| PhpArrays.Keys | src/Blib/Sql/BlibSql.php:34 | `array_keys`: one key per entry, in order |
| PhpArrays.Prefixed | src/Blib/Sql/BlibSql.php:35-37 | the `array_map` adding `:` to each column: one prefixed key per key, in order |
| PhpArrays.AssignAll | src/Blib/Sql/BlibSql.php:39-42 | the `foreach` writing `$t[$p . $key] = $value`, as a fold of `Assign`; characterised by `AssignAllKeys`, `AssignAllLookup`, `AssignAllAppends` |
| PhpArrays.AssignEach | src/Blib/Sql/BlibSql.php:39-42 | the `foreach` writing `$t[$p . $key]` computes `AssignAll` |
| PhpArrays.AssignAllKeys | src/Blib/Sql/BlibSql.php:100-106 | the loop keeps the old keys as a prefix, adds exactly the prefixed source keys, and keeps keys distinct |
| PhpArrays.AssignAllLookup | src/Blib/Sql/BlibSql.php:104-106 | a written key reads its source value; every other key reads as before |
| PhpArrays.AssignAllAppends | src/Sql.php:68-70 | when no prefixed source key is already present, the loop appends the prefixed entries in source order |
| PhpArrays.AssignAllFresh | src/Sql.php:22-25 | into an empty array with distinct source keys the loop builds the prefixed entries in order |
| PhpArrays.Lookup | src/Blib/Arr/BlibArray.php:13 | a read finds nothing iff the key is absent, and otherwise a stored entry |
| PhpArrays.Assign | src/Blib/Arr/BlibArray.php:14 | a write overwrites the key in place, or appends `(k, v)` when the key is new, keeping every other entry and the order |
| PhpArrays.AssignLookup | src/Blib/Arr/BlibArray.php:17 | after a write the key reads the value written and every other key reads as before |
| PhpStrings.Join | src/Blib/Sql/BlibSql.php:51-52 | `implode`: the pieces with the separator between neighbours; `ExplodeJoin` and `JoinExplode` relate it to `explode` |
| PhpStrings.Explode | src/Blib/Sql/BlibSql.php:148 | `explode`: at least one piece, none containing the delimiter |
| PhpStrings.ExplodeJoin | src/Blib/Sql/BlibSql.php:148 | `explode` undoes `implode` of delimiter-free pieces |
| PhpStrings.JoinExplode | src/Sql.php:99 | `implode` undoes `explode` |
| PhpStrings.SubstrFrom | src/Blib/Sql/BlibSql.php:144 | `substr(s, start)`: the suffix from `start`, `""` once `start` reaches the end |
| PhpStrings.SubstrPrefix | src/Sql.php:98 | `substr(s, 0, n)`: the first `n` characters, or all of a shorter string |
| PhpStrings.ReplaceChar | src/Blib/Sql/BlibSql.php:137 | `str_replace` of one character: same length, each occurrence replaced, every other character kept |
| PhpStrings.StrPos | src/Sql.php:89 | `strpos`: none iff the character is absent, otherwise its first position |
| PhpStrings.Trim | src/Blib/Sql/BlibSql.php:152 | the result is a slice of the input, only trimmed characters lie outside it, and it neither starts nor ends with one |
| PhpStrings.TrimUntrimmed | src/Sql.php:103 | a string with no trimmed character at either end is left unchanged |

## Left out

- The wall clock: `date(...)` is the parameters `today` (the `Y-m-d` part) and `clock` (the `h:i:s` part); the 12-hour `h` format and time zones are not modelled.
- The PCRE engine: `preg_match('/^[a-zA-Z0-9_]+$/', ...)` is the predicate `TableNameMatches`, including `$` matching before one final newline.
- PHP loose comparison `==`, abstracted as the parameter `looseEq`; only `SelfDiff` requires anything of it (reflexivity).
- Inputs on which `changes` fails in PHP: an old non-empty sub-array whose new counterpart is a scalar other than null and `false` (`true`, a number or a string, into which `$new[$k] = null` cannot write). The precondition `Compatible` excludes them. `false` is accepted, as PHP 8 turns it into an array at that write (with a deprecation notice since 8.1), and is then read as empty.
- Integer keys and PHP's numeric-string key conversion: every array key is a string.
- The exception messages, `__FUNCTION__` and `compact`: an exception is the `Err` value of a `Failure`, the returned array the `Statement` datatype.
- Reading `$e[1]` or `$e[2]` past the end of `explode`'s result, which PHP reports with a warning and reads as null: modelled as reading `""` (`Token`).
- Bytes: strings are sequences of characters; `strlen` and `substr` count characters.
- PhpArrays.AssignAllLookup: states its lookups only for a source whose keys are distinct, which every PHP array satisfies.
- BlibArray.DiffEntries: states its lookups only for an old array whose keys are distinct, which every PHP array satisfies.
- BlibArray.DiffLevelLookup: states its lookups only for an old array whose keys are distinct, which every PHP array satisfies.
- BlibSql.InsertParameters: stated only for data whose keys are distinct, which every PHP array satisfies.
- BlibSql.UpdateParameters: stated only for data and criteria whose keys are distinct. A data column named `where_X` next to a criterion `X` shares its placeholder, and the criterion's value replaces the data value in place; the model follows the code, so the data value is only promised for columns that are not overwritten and the exact entry order only when nothing is overwritten (`OverwrittenByCriterion`, `UpdateOverwriteExample`).
- BlibSql.ReferenceTime: states length 19 only for a 10-character date and an 8-character clock, the shapes `date` produces.
- BlibSql.DayFirstDateTimeReordered: covers fields of at least 19 characters; shorter day-first date-times are covered by `DayFirstDatePadded`, `DayFirstDateTimePadded` and `ShortDayFirstDatePadded`.
- BlibSql.IsoDateTimeKept: covers fields of at least 19 characters; shorter ones are covered by `IsoDatePadded` and `IsoDateTimePadded`.
- Running the SQL: the model only builds the statement text and parameter map.
