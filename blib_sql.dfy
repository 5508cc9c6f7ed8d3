/**
 * `BlibSql` (and its copy `Sql`): INSERT and UPDATE statement templates with
 * named placeholders and their parameter arrays, and `forceDateToSql`, which
 * rewrites a day-first date into SQL's year-first form.
 */
module BlibSql {
  import opened Wrappers
  import opened PhpArrays
  import opened PhpStrings

  /** The exceptions the builders throw, one kind per message. */
  datatype Err = EmptyData | EmptyTable | InvalidTableName | EmptyCriteria | EmptyPlaceholders

  /** The array `compact('sql', 'parameters')`: the template and its placeholder bindings. */
  datatype Statement<V> = Statement(sql: string, parameters: Entries<V>)

  /** PHP's `empty()` on a string: true for "" and also for "0". */
  predicate EmptyString(s: string) {
    s == "" || s == "0"
  }

  predicate IsWordChar(ch: char) {
    ('a' <= ch <= 'z') || ('A' <= ch <= 'Z') || ('0' <= ch <= '9') || ch == '_'
  }

  predicate AllWordChars(s: string) {
    forall i :: 0 <= i < |s| ==> IsWordChar(s[i])
  }

  /**
   * `preg_match('/^[a-zA-Z0-9_]+$/', $t)`: one or more word characters to the
   * end, where PCRE's `$` also matches just before one final newline.
   */
  predicate TableNameMatches(t: string) {
    || (|t| > 0 && AllWordChars(t))
    || (|t| > 1 && t[|t| - 1] == '\n' && AllWordChars(t[..|t| - 1]))
  }

  /**
   * The `array_map` that turns each column into a condition `$field . $infix . $field`:
   * the SET clause uses the infix `" = :"`, the WHERE clause `" = :where_"`.
   */
  function Clauses(infix: string, cols: seq<string>): (r: seq<string>)
    ensures |r| == |cols|
    ensures forall i :: 0 <= i < |cols| ==> r[i] == cols[i] + infix + cols[i]
  {
    if cols == [] then [] else [cols[0] + infix + cols[0]] + Clauses(infix, cols[1..])
  }

  // ---------------------------------------------------------------------
  // insert
  // ---------------------------------------------------------------------

  /**
   * What `insert($table, $data)` returns or throws. The checks come in a fixed
   * order, and on success the template lists the columns and their
   * placeholders in the order of `data`.
   */
  function InsertStatement<V>(table: string, data: Entries<V>): (r: Result<Statement<V>, Err>)
    ensures r == Failure(EmptyData) <==> data == []
    ensures r == Failure(EmptyTable) <==> data != [] && EmptyString(table)
    ensures r == Failure(InvalidTableName) <==> data != [] && !EmptyString(table) && !TableNameMatches(table)
    ensures r.Success? <==> data != [] && !EmptyString(table) && TableNameMatches(table)
    ensures r.Success? ==> (r.value.sql ==
      "INSERT INTO " + table + " (" + Join(", ", Keys(data)) + ") VALUES (" + Join(", ", Prefixed(":", Keys(data))) + ")")
  {
    if data == [] then Failure(EmptyData)
    else if EmptyString(table) then Failure(EmptyTable)
    else if !TableNameMatches(table) then Failure(InvalidTableName)
    else
      var fields := Keys(data);
      var placeholders := Prefixed(":", fields);
      var parameters := AssignAll([], ":", data);
      if placeholders == [] then Failure(EmptyPlaceholders)
      else
        var sql := "INSERT INTO " + table + " (" + Join(", ", fields) + ") VALUES (" + Join(", ", placeholders) + ")";
        Success(Statement(sql, parameters))
  }

  /** `insert`, with its `foreach` filling `$parameters` one key at a time. */
  method Insert<V>(table: string, data: Entries<V>) returns (r: Result<Statement<V>, Err>)
    ensures r == InsertStatement(table, data)
  {
    if data == [] {
      return Failure(EmptyData);
    } else if EmptyString(table) {
      return Failure(EmptyTable);
    } else if !TableNameMatches(table) {
      return Failure(InvalidTableName);
    }
    var fields := Keys(data);
    var placeholders := Prefixed(":", fields);
    var parameters: Entries<V> := [];
    parameters := AssignEach(parameters, ":", data);
    if placeholders == [] {
      return Failure(EmptyPlaceholders);
    }
    var sql := "INSERT INTO " + table + " (" + Join(", ", fields) + ") VALUES (" + Join(", ", placeholders) + ")";
    r := Success(Statement(sql, parameters));
  }

  /**
   * On success, the parameters bind exactly the placeholders of the VALUES
   * list: `":" + c` holds `data[c]` for every column `c`, one entry per column,
   * in the order of `data`. So no placeholder is left unbound, and the check
   * for an empty placeholder list can never fail.
   */
  lemma InsertParameters<V>(table: string, data: Entries<V>)
    requires Distinct(Keys(data))
    requires InsertStatement(table, data).Success?
    ensures InsertStatement(table, data).value.parameters == PrefixEntries(":", data)
    ensures Keys(InsertStatement(table, data).value.parameters) == Prefixed(":", Keys(data))
    ensures Distinct(Keys(InsertStatement(table, data).value.parameters))
    ensures forall c :: Lookup(InsertStatement(table, data).value.parameters, ":" + c) == Lookup(data, c)
  {
    var params := InsertStatement(table, data).value.parameters;
    assert params == AssignAll([], ":", data);
    AssignAllFresh(":", data);
    AssignAllKeys([], ":", data);
    forall c ensures Lookup(params, ":" + c) == Lookup(data, c) {
      PrefixedLookup(":", data, c);
    }
  }

  /** Every failure `insert` can report is one of its three input checks. */
  lemma InsertErrors<V>(table: string, data: Entries<V>)
    ensures InsertStatement(table, data).Failure? ==>
      InsertStatement(table, data).error in {EmptyData, EmptyTable, InvalidTableName}
  {
  }

  // ---------------------------------------------------------------------
  // update
  // ---------------------------------------------------------------------

  /**
   * What `update($table, $data, $criteria)` returns or throws: the checks of
   * `insert`, then one for empty criteria; on success a SET clause per data
   * column and a WHERE condition per criteria column, in their given orders.
   */
  function UpdateStatement<V>(table: string, data: Entries<V>, criteria: Entries<V>): (r: Result<Statement<V>, Err>)
    ensures r == Failure(EmptyData) <==> data == []
    ensures r == Failure(EmptyTable) <==> data != [] && EmptyString(table)
    ensures r == Failure(InvalidTableName) <==> data != [] && !EmptyString(table) && !TableNameMatches(table)
    ensures r == Failure(EmptyCriteria) <==> data != [] && !EmptyString(table) && TableNameMatches(table) && criteria == []
    ensures r.Success? <==> data != [] && !EmptyString(table) && TableNameMatches(table) && criteria != []
    ensures r.Success? ==> (r.value.sql ==
      "UPDATE " + table + " SET " + Join(", ", Clauses(" = :", Keys(data))) + " WHERE " + Join(" AND ", Clauses(" = :where_", Keys(criteria))))
  {
    if data == [] then Failure(EmptyData)
    else if EmptyString(table) then Failure(EmptyTable)
    else if !TableNameMatches(table) then Failure(InvalidTableName)
    else if criteria == [] then Failure(EmptyCriteria)
    else
      var setPlaceholders := Clauses(" = :", Keys(data));
      var criteriaPlaceholders := Clauses(" = :where_", Keys(criteria));
      var parameters := AssignAll(AssignAll([], ":", data), ":where_", criteria);
      if setPlaceholders == [] || criteriaPlaceholders == [] then Failure(EmptyPlaceholders)
      else
        var sql := "UPDATE " + table + " SET " + Join(", ", setPlaceholders) + " WHERE " + Join(" AND ", criteriaPlaceholders);
        Success(Statement(sql, parameters))
  }

  /** `update`, with its two `foreach` loops filling `$parameters`. */
  method Update<V>(table: string, data: Entries<V>, criteria: Entries<V>) returns (r: Result<Statement<V>, Err>)
    ensures r == UpdateStatement(table, data, criteria)
  {
    if data == [] {
      return Failure(EmptyData);
    } else if EmptyString(table) {
      return Failure(EmptyTable);
    } else if !TableNameMatches(table) {
      return Failure(InvalidTableName);
    }
    if criteria == [] {
      return Failure(EmptyCriteria);
    }
    var setPlaceholders := Clauses(" = :", Keys(data));
    var criteriaPlaceholders := Clauses(" = :where_", Keys(criteria));
    var parameters: Entries<V> := [];
    parameters := AssignEach(parameters, ":", data);
    parameters := AssignEach(parameters, ":where_", criteria);
    if setPlaceholders == [] || criteriaPlaceholders == [] {
      return Failure(EmptyPlaceholders);
    }
    var sql := "UPDATE " + table + " SET " + Join(", ", setPlaceholders) + " WHERE " + Join(" AND ", criteriaPlaceholders);
    r := Success(Statement(sql, parameters));
  }

  /** Every failure `update` can report is one of its four input checks. */
  lemma UpdateErrors<V>(table: string, data: Entries<V>, criteria: Entries<V>)
    ensures UpdateStatement(table, data, criteria).Failure? ==>
      UpdateStatement(table, data, criteria).error in {EmptyData, EmptyTable, InvalidTableName, EmptyCriteria}
  {
  }

  /** The data column `c` is named `where_k` for a criteria column `k`. */
  predicate Overwritten<V>(c: string, criteria: Entries<V>) {
    |c| >= 6 && c[..6] == "where_" && c[6..] in Keys(criteria)
  }

  /** A SET placeholder and a WHERE placeholder coincide exactly when the column is `where_` + the criterion. */
  lemma PlaceholderClash(c: string, k: string)
    ensures ":" + c == ":where_" + k <==> c == "where_" + k
  {
    assert ":where_" + k == ":" + ("where_" + k);
    PrefixInjective(":", c, "where_" + k);
  }

  lemma OverwrittenByCriterion<V>(c: string, criteria: Entries<V>)
    ensures (exists i :: 0 <= i < |criteria| && ":" + c == ":where_" + criteria[i].0) <==> Overwritten(c, criteria)
  {
    if Overwritten(c, criteria) {
      var i :| 0 <= i < |criteria| && Keys(criteria)[i] == c[6..];
      assert c == "where_" + c[6..];
      PlaceholderClash(c, criteria[i].0);
    }
    forall i | 0 <= i < |criteria| && ":" + c == ":where_" + criteria[i].0 ensures Overwritten(c, criteria) {
      PlaceholderClash(c, criteria[i].0);
      assert c[6..] == criteria[i].0 == Keys(criteria)[i];
    }
  }

  /** The keys of the two loops' result: the SET placeholders first, then the new WHERE ones. */
  lemma UpdateParameterKeys<V>(data: Entries<V>, criteria: Entries<V>)
    requires Distinct(Keys(data))
    ensures var p := AssignAll(AssignAll([], ":", data), ":where_", criteria);
      && |Keys(p)| >= |data|
      && Keys(p)[..|data|] == Prefixed(":", Keys(data))
      && Distinct(Keys(p))
      && (forall x :: x in Keys(p) <==> x in Prefixed(":", Keys(data)) || x in Prefixed(":where_", Keys(criteria)))
  {
    var first := AssignAll([], ":", data);
    AssignAllFresh(":", data);
    AssignAllKeys([], ":", data);
    AssignAllKeys(first, ":where_", criteria);
  }

  /** After the two loops each `":where_" + k` holds the criterion's value. */
  lemma UpdateCriteriaLookup<V>(data: Entries<V>, criteria: Entries<V>, k: string)
    requires Distinct(Keys(criteria))
    requires k in Keys(criteria)
    ensures Lookup(AssignAll(AssignAll([], ":", data), ":where_", criteria), ":where_" + k) == Lookup(criteria, k)
  {
    var i :| 0 <= i < |criteria| && Keys(criteria)[i] == k;
    AssignAllLookup(AssignAll([], ":", data), ":where_", criteria, ":where_" + k);
    LookupAt(criteria, i);
  }

  /** A data column that no criterion overwrites is not among the WHERE placeholders. */
  lemma NotCriterionPlaceholder<V>(c: string, criteria: Entries<V>)
    requires !Overwritten(c, criteria)
    ensures ":" + c !in Prefixed(":where_", Keys(criteria))
  {
    OverwrittenByCriterion(c, criteria);
  }

  /** After the two loops each `":" + c` holds the data value, unless a criterion overwrote it. */
  lemma UpdateDataLookup<V>(data: Entries<V>, criteria: Entries<V>, c: string)
    requires Distinct(Keys(data)) && Distinct(Keys(criteria))
    requires c in Keys(data) && !Overwritten(c, criteria)
    ensures Lookup(AssignAll(AssignAll([], ":", data), ":where_", criteria), ":" + c) == Lookup(data, c)
  {
    NotCriterionPlaceholder(c, criteria);
    AssignAllLookup(AssignAll([], ":", data), ":where_", criteria, ":" + c);
    var i :| 0 <= i < |data| && Keys(data)[i] == c;
    AssignAllLookup([], ":", data, ":" + c);
    LookupAt(data, i);
  }

  /**
   * On success, the parameters hold the data entries first, in data order,
   * then the criteria entries not already present; their keys are exactly the
   * placeholders the template names. Every `":where_" + k` holds `criteria[k]`,
   * and every `":" + c` holds `data[c]` unless a criterion `k` with
   * `c == "where_" + k` overwrote it.
   */
  lemma UpdateParameters<V>(table: string, data: Entries<V>, criteria: Entries<V>)
    requires Distinct(Keys(data)) && Distinct(Keys(criteria))
    requires UpdateStatement(table, data, criteria).Success?
    ensures var p := UpdateStatement(table, data, criteria).value.parameters;
      && |Keys(p)| >= |data|
      && Keys(p)[..|data|] == Prefixed(":", Keys(data))
      && Distinct(Keys(p))
      && (forall x :: x in Keys(p) <==> x in Prefixed(":", Keys(data)) || x in Prefixed(":where_", Keys(criteria)))
      && (forall k :: k in Keys(criteria) ==> Lookup(p, ":where_" + k) == Lookup(criteria, k))
      && (forall c :: c in Keys(data) && !Overwritten(c, criteria) ==> Lookup(p, ":" + c) == Lookup(data, c))
      && ((forall c :: c in Keys(data) ==> !Overwritten(c, criteria)) ==>
            p == PrefixEntries(":", data) + PrefixEntries(":where_", criteria))
  {
    var p := UpdateStatement(table, data, criteria).value.parameters;
    assert p == AssignAll(AssignAll([], ":", data), ":where_", criteria);
    UpdateParameterKeys(data, criteria);
    forall k | k in Keys(criteria) ensures Lookup(p, ":where_" + k) == Lookup(criteria, k) {
      UpdateCriteriaLookup(data, criteria, k);
    }
    forall c | c in Keys(data) && !Overwritten(c, criteria) ensures Lookup(p, ":" + c) == Lookup(data, c) {
      UpdateDataLookup(data, criteria, c);
    }
    if forall c :: c in Keys(data) ==> !Overwritten(c, criteria) {
      UpdateParameterEntries(data, criteria);
    }
  }

  /**
   * When no data column is overwritten, the two loops only append: the data
   * entries under `":" + c` in data order, then the criteria entries under
   * `":where_" + k` in criteria order.
   */
  lemma UpdateParameterEntries<V>(data: Entries<V>, criteria: Entries<V>)
    requires Distinct(Keys(data)) && Distinct(Keys(criteria))
    requires forall c :: c in Keys(data) ==> !Overwritten(c, criteria)
    ensures AssignAll(AssignAll([], ":", data), ":where_", criteria)
      == PrefixEntries(":", data) + PrefixEntries(":where_", criteria)
  {
    var first := PrefixEntries(":", data);
    AssignAllFresh(":", data);
    forall i | 0 <= i < |criteria| ensures ":where_" + criteria[i].0 !in Keys(first) {
      forall j | 0 <= j < |data| ensures Keys(first)[j] != ":where_" + criteria[i].0 {
        assert Keys(data)[j] == data[j].0;
        OverwrittenByCriterion(data[j].0, criteria);
      }
    }
    AssignAllAppends(first, ":where_", criteria);
  }

  lemma UsersMatches()
    ensures !EmptyString("users") && TableNameMatches("users")
  {
    assert AllWordChars("users");
  }

  /** A data column `where_id` and a criterion `id` share one placeholder; the criterion's value wins. */
  lemma UpdateOverwriteExample()
    ensures UpdateStatement("users", [("where_id", 1)], [("id", 2)]).Success?
    ensures UpdateStatement("users", [("where_id", 1)], [("id", 2)]).value.parameters == [(":where_id", 2)]
  {
    var data := [("where_id", 1)];
    var criteria := [("id", 2)];
    UsersMatches();
    assert data[..0] == [] && criteria[..0] == [];
    assert ":" + "where_id" == ":where_id" == ":where_" + "id";
    var first := AssignAll([], ":", data);
    assert first == Assign([], ":where_id", 1) == [(":where_id", 1)];
    assert AssignAll(first, ":where_", criteria[..0]) == first;
    var p := AssignAll(first, ":where_", criteria);
    assert p == Assign(first, ":where_" + "id", 2);
    assert Keys(first) == [":where_id"];
    var q := Assign(first, ":where_id", 2);
    assert |q| == 1 && q[0] == (":where_id", 2);
    assert p == [(":where_id", 2)];
  }

  lemma InsertExampleFields()
    ensures Keys([("name", "Bob"), ("age", "30")]) == ["name", "age"]
    ensures Prefixed(":", ["name", "age"]) == [":name", ":age"]
  {
    var ph := Prefixed(":", ["name", "age"]);
    assert ":" + "name" == ":name" && ":" + "age" == ":age";
    assert |ph| == 2 && ph[0] == ":name" && ph[1] == ":age";
  }

  lemma InsertExampleKeys()
    ensures Distinct(Keys([("name", "Bob"), ("age", "30")]))
  {
    assert Keys([("name", "Bob"), ("age", "30")]) == ["name", "age"];
  }

  lemma InsertExampleEntries()
    ensures PrefixEntries(":", [("name", "Bob"), ("age", "30")]) == [(":name", "Bob"), (":age", "30")]
  {
    var pe := PrefixEntries(":", [("name", "Bob"), ("age", "30")]);
    assert ":" + "name" == ":name" && ":" + "age" == ":age";
    assert |pe| == 2 && pe[0] == (":name", "Bob") && pe[1] == (":age", "30");
  }

  lemma InsertExampleParameters()
    ensures AssignAll([], ":", [("name", "Bob"), ("age", "30")]) == [(":name", "Bob"), (":age", "30")]
  {
    InsertExampleKeys();
    AssignAllFresh(":", [("name", "Bob"), ("age", "30")]);
    InsertExampleEntries();
  }

  lemma JoinTwo(sep: string, a: string, b: string)
    ensures Join(sep, [a, b]) == a + sep + b
  {
    assert [a, b][1..] == [b];
  }

  lemma InsertExampleLiteral()
    ensures "INSERT INTO " + "users" + " (" + ("name" + ", " + "age") + ") VALUES (" + (":name" + ", " + ":age") + ")"
      == "INSERT INTO users (name, age) VALUES (:name, :age)"
  {
  }

  lemma InsertExampleText()
    ensures "INSERT INTO " + "users" + " (" + Join(", ", ["name", "age"]) + ") VALUES (" + Join(", ", [":name", ":age"]) + ")"
      == "INSERT INTO users (name, age) VALUES (:name, :age)"
  {
    JoinTwo(", ", "name", "age");
    JoinTwo(", ", ":name", ":age");
    InsertExampleLiteral();
  }

  /** `insert('users', ['name' => 'Bob', 'age' => 30])`. */
  lemma InsertExample()
    ensures InsertStatement("users", [("name", "Bob"), ("age", "30")])
      == Success(Statement("INSERT INTO users (name, age) VALUES (:name, :age)", [(":name", "Bob"), (":age", "30")]))
  {
    UsersMatches();
    InsertExampleFields();
    InsertExampleParameters();
    InsertExampleText();
  }

  /** The PHP quirks of the table checks: "0" counts as empty, and a final newline passes the pattern. */
  lemma TableNameQuirks()
    ensures EmptyString("0")
    ensures !EmptyString("users\n") && TableNameMatches("users\n")
    ensures !TableNameMatches("bad table")
    ensures !TableNameMatches("users\n\n")
  {
    assert "users\n"[..5] == "users";
    assert !IsWordChar("bad table"[3]);
    assert !IsWordChar("users\n\n"[5]);
  }

  /** What `insert` makes of those table names. */
  lemma InsertTableQuirks<V>(data: Entries<V>)
    requires data != []
    ensures InsertStatement("0", data) == Failure(EmptyTable)
    ensures InsertStatement("users\n", data).Success?
    ensures InsertStatement("bad table", data) == Failure(InvalidTableName)
    ensures InsertStatement("users\n\n", data) == Failure(InvalidTableName)
  {
    TableNameQuirks();
  }

  // ---------------------------------------------------------------------
  // forceDateToSql
  // ---------------------------------------------------------------------

  /**
   * The reference timestamp `$c`: `date("Y-m-d h:i:s")` when `presetNow`, else
   * `date("Y-m-d 00:00:00")`. The clock is a parameter: `today` is its
   * "Y-m-d" and `clock` its "h:i:s".
   */
  function ReferenceTime(presetNow: bool, today: string, clock: string): (c: string)
    ensures |today| == 10 && (presetNow ==> |clock| == 8) ==> |c| == 19
    ensures |c| >= |today| && c[..|today|] == today
    ensures c[|today|..] == if presetNow then " " + clock else " 00:00:00"
  {
    if presetNow then today + " " + clock else today + " 00:00:00"
  }

  /** The time of day the reference timestamp carries after its date and a space. */
  function TimeOfDay(presetNow: bool, clock: string): string {
    if presetNow then clock else "00:00:00"
  }

  /** Undefined keys of the `explode` result read as null, which PHP turns into "". */
  function Token(e: seq<string>, i: nat): string {
    if i < |e| then e[i] else ""
  }

  /** The first step: every `/` becomes `-` and every `T` a space. */
  function Normalize(field: string): (r: string)
    ensures |r| == |field|
    ensures forall i :: 0 <= i < |field| ==>
      r[i] == if field[i] == '/' then '-' else if field[i] == 'T' then ' ' else field[i]
  {
    var f := ReplaceChar(field, '/', '-');
    if StrPos(f, 'T').Some? then ReplaceChar(f, 'T', ' ') else f
  }

  /**
   * The second step: a date-time shorter than 19 characters is completed with
   * the tail of the reference timestamp `c`; the given characters are kept.
   */
  function Pad(f: string, c: string, isDateTime: bool): (r: string)
    ensures |r| >= |f| && r[..|f|] == f
    ensures isDateTime && |f| < 19 && |c| == 19 ==> |r| == 19 && r[|f|..] == c[|f|..]
    ensures !(isDateTime && |f| < 19) ==> r == f
  {
    if isDateTime && |f| < 19 then f + SubstrFrom(c, |f|) else f
  }

  /**
   * The test for a day-first date: `strpos` finds a `-` in the first four
   * characters at a truthy position. So the first `-` must be at position 1,
   * 2 or 3; a `-` at position 0 makes `strpos` return 0, which PHP reads as false.
   */
  function IsDayFirst(f: string): (r: bool)
    ensures r <==> f != [] && f[0] != '-' && '-' in SubstrPrefix(f, 4)
  {
    var p := StrPos(SubstrPrefix(f, 4), '-');
    p.Some? && p.value != 0
  }

  /** The third step: day, month and year-with-time re-emitted as year-month-day. */
  function Reorder(f: string, isDateTime: bool): string {
    var e := Explode('-', f);
    var dateTime := if isDateTime then " " + Trim(SubstrFrom(Token(e, 2), 4)) else "";
    SubstrPrefix(Token(e, 2), 4) + "-" + Token(e, 1) + "-" + Token(e, 0) + dateTime
  }

  /** `forceDateToSql($field, $presetNow, $isDateTime)` with the clock as a parameter. */
  function ForceDateToSql(field: string, presetNow: bool, isDateTime: bool, today: string, clock: string): (r: string)
    ensures r == [] || (!IsTrimmed(r[0]) && !IsTrimmed(r[|r| - 1]))
  {
    var f := Pad(Normalize(field), ReferenceTime(presetNow, today, clock), isDateTime);
    Trim(if IsDayFirst(f) then Reorder(f, isDateTime) else f)
  }

  // ---------------------------------------------------------------------
  // Properties of forceDateToSql
  // ---------------------------------------------------------------------

  /** No `-`, `/` or `T`: a piece the rewriting moves around but never changes. */
  predicate Plain(s: string) {
    '-' !in s && '/' !in s && 'T' !in s
  }

  lemma NormalizeAppend(a: string, b: string)
    ensures Normalize(a + b) == Normalize(a) + Normalize(b)
  {
    var l := Normalize(a + b);
    var r := Normalize(a) + Normalize(b);
    forall i | 0 <= i < |a + b| ensures l[i] == r[i] {
      if i < |a| {
        assert (a + b)[i] == a[i];
      } else {
        assert (a + b)[i] == b[i - |a|];
      }
    }
  }

  lemma NormalizePlain(a: string)
    requires Plain(a)
    ensures Normalize(a) == a
  {
  }

  lemma NormalizeChar(ch: char)
    ensures Normalize([ch]) == [if ch == '/' then '-' else if ch == 'T' then ' ' else ch]
  {
  }

  /** Three plain pieces separated by `/` or `-` normalise to the pieces joined by `-`. */
  lemma NormalizePlainJoin(xs: seq<string>, sep: char)
    requires |xs| == 3 && Plain(xs[0]) && Plain(xs[1]) && Plain(xs[2])
    requires sep == '/' || sep == '-'
    ensures Normalize(xs[0] + [sep] + xs[1] + [sep] + xs[2]) == Join("-", xs)
  {
    var a, b, c := xs[0], xs[1], xs[2];
    NormalizeAppend(a + [sep] + b + [sep], c);
    NormalizeAppend(a + [sep] + b, [sep]);
    NormalizeAppend(a + [sep], b);
    NormalizeAppend(a, [sep]);
    NormalizePlain(a);
    NormalizePlain(b);
    NormalizePlain(c);
    NormalizeChar(sep);
    assert xs == [a, b, c];
    JoinThree(a, b, c);
  }

  /** A first piece of one to three characters before a `-` marks a day-first date. */
  lemma DayFirstPrefix(d: string, rest: string)
    requires 1 <= |d| <= 3 && '-' !in d
    ensures IsDayFirst(d + "-" + rest)
  {
    var f := d + "-" + rest;
    assert f[0] == d[0];
    assert SubstrPrefix(f, 4)[|d|] == f[|d|] == '-';
  }

  /**
   * Reordering `d-m-y` gives the first four characters of `y`, then `m` and
   * `d`, and for a date-time the trimmed rest of `y` after a space.
   */
  lemma ReorderPieces(d: string, m: string, y: string, isDateTime: bool)
    requires '-' !in d && '-' !in m && '-' !in y
    ensures Reorder(Join("-", [d, m, y]), isDateTime)
      == SubstrPrefix(y, 4) + "-" + m + "-" + d + (if isDateTime then " " + Trim(SubstrFrom(y, 4)) else "")
  {
    ExplodeJoin('-', [d, m, y]);
  }

  lemma JoinThree(a: string, b: string, c: string)
    ensures Join("-", [a, b, c]) == a + "-" + b + "-" + c
  {
    assert [a, b, c][1..] == [b, c];
    assert [b, c][1..] == [c];
    assert Join("-", [b, c]) == b + "-" + c;
    assert a + "-" + (b + "-" + c) == a + "-" + b + "-" + c;
  }

  /**
   * A day-first date `d/m/y` (or `d-m-y`) with a day of one to three
   * characters and a four-character year becomes `y-m-d`.
   */
  lemma DayFirstDateReordered(d: string, m: string, y: string, sep: char, presetNow: bool, today: string, clock: string)
    requires Plain(d) && Plain(m) && Plain(y)
    requires sep == '/' || sep == '-'
    requires 1 <= |d| <= 3 && |y| == 4
    requires !IsTrimmed(y[0]) && !IsTrimmed(d[|d| - 1])
    ensures ForceDateToSql(d + [sep] + m + [sep] + y, presetNow, false, today, clock) == y + "-" + m + "-" + d
  {
    var field := d + [sep] + m + [sep] + y;
    var f := Join("-", [d, m, y]);
    var out := y + "-" + m + "-" + d;
    assert Normalize(field) == f by {
      NormalizePlainJoin([d, m, y], sep);
    }
    assert IsDayFirst(f) by {
      JoinThree(d, m, y);
      assert f == d + "-" + (m + "-" + y);
      DayFirstPrefix(d, m + "-" + y);
    }
    assert Reorder(f, false) == out by {
      ReorderPieces(d, m, y, false);
      assert SubstrPrefix(y, 4) == y;
    }
    DateUntrimmed(y, m, d);
    ForceDateSteps(field, presetNow, false, today, clock, f);
  }

  lemma DateUntrimmed(y: string, m: string, d: string)
    requires y != [] && !IsTrimmed(y[0])
    requires d != [] && !IsTrimmed(d[|d| - 1])
    ensures Trim(y + "-" + m + "-" + d) == y + "-" + m + "-" + d
  {
    var head := y + "-" + m + "-";
    var out := head + d;
    assert out[0] == y[0];
    assert out[|out| - 1] == d[|d| - 1];
    TrimUntrimmed(out);
  }

  /** The stages of `forceDateToSql`: normalise and pad, then reorder a day-first date, then trim. */
  lemma ForceDateSteps(field: string, presetNow: bool, isDateTime: bool, today: string, clock: string, f: string)
    requires f == Pad(Normalize(field), ReferenceTime(presetNow, today, clock), isDateTime)
    ensures ForceDateToSql(field, presetNow, isDateTime, today, clock) == Trim(if IsDayFirst(f) then Reorder(f, isDateTime) else f)
  {
  }

  lemma TrimAfterSpace(t: string)
    requires t != [] && !IsTrimmed(t[0]) && !IsTrimmed(t[|t| - 1])
    ensures Trim(" " + t) == t
  {
    assert (" " + t)[1..] == t;
  }

  lemma DayFirstDateTimeField(d: string, m: string, y: string, t: string)
    requires Plain(d) && Plain(m) && Plain(y) && Plain(t)
    requires 1 <= |d| <= 3 && |y| == 4 && |d| + |m| + |t| >= 12
    ensures var f := Join("-", [d, m, y + " " + t]);
      && Normalize(d + "/" + m + "/" + y + " " + t) == f
      && |f| >= 19
      && IsDayFirst(f)
  {
    var yt := y + " " + t;
    var f := Join("-", [d, m, yt]);
    assert Plain(yt);
    NormalizePlainJoin([d, m, yt], '/');
    assert d + "/" + m + "/" + y + " " + t == d + ['/'] + m + ['/'] + yt;
    JoinThree(d, m, yt);
    assert f == d + "-" + (m + "-" + yt);
    DayFirstPrefix(d, m + "-" + yt);
  }

  lemma DayFirstDateTimeOut(d: string, m: string, y: string, t: string)
    requires Plain(d) && Plain(m) && Plain(y) && Plain(t)
    requires |y| == 4
    requires t != [] && !IsTrimmed(t[0]) && !IsTrimmed(t[|t| - 1])
    ensures Reorder(Join("-", [d, m, y + " " + t]), true) == y + "-" + m + "-" + d + " " + t
  {
    var yt := y + " " + t;
    var a := SubstrPrefix(yt, 4);
    var b := Trim(SubstrFrom(yt, 4));
    assert a == y;
    assert b == t by {
      assert SubstrFrom(yt, 4) == " " + t;
      TrimAfterSpace(t);
    }
    assert Reorder(Join("-", [d, m, yt]), true) == a + "-" + m + "-" + d + " " + b by {
      assert Plain(yt);
      ReorderPieces(d, m, yt, true);
    }
  }

  lemma DateTimeUntrimmed(d: string, m: string, y: string, t: string)
    requires |y| == 4 && !IsTrimmed(y[0])
    requires t != [] && !IsTrimmed(t[|t| - 1])
    ensures Trim(y + "-" + m + "-" + d + " " + t) == y + "-" + m + "-" + d + " " + t
  {
    var out := y + "-" + m + "-" + d + " " + t;
    assert out[0] == y[0] && out[|out| - 1] == t[|t| - 1];
    TrimUntrimmed(out);
  }

  /**
   * A day-first date and time `d/m/y t` of at least 19 characters becomes
   * `y-m-d t` when read as a date-time, so no padding takes place.
   */
  lemma DayFirstDateTimeReordered(d: string, m: string, y: string, t: string, presetNow: bool, today: string, clock: string)
    requires Plain(d) && Plain(m) && Plain(y) && Plain(t)
    requires 1 <= |d| <= 3 && |y| == 4 && |d| + |m| + |t| >= 12
    requires !IsTrimmed(y[0]) && !IsTrimmed(d[0])
    requires t != [] && !IsTrimmed(t[0]) && !IsTrimmed(t[|t| - 1])
    ensures ForceDateToSql(d + "/" + m + "/" + y + " " + t, presetNow, true, today, clock) == y + "-" + m + "-" + d + " " + t
  {
    var yt := y + " " + t;
    var f := Join("-", [d, m, yt]);
    var field := d + "/" + m + "/" + y + " " + t;
    var out := y + "-" + m + "-" + d + " " + t;
    DayFirstDateTimeField(d, m, y, t);
    DayFirstDateTimeOut(d, m, y, t);
    DateTimeUntrimmed(d, m, y, t);
    ForceDateSteps(field, presetNow, true, today, clock, f);
  }

  /**
   * When none of the first four characters is `-` or `/`, the field is only
   * normalised, padded and trimmed: nothing is reordered.
   */
  lemma YearFirstKept(field: string, presetNow: bool, isDateTime: bool, today: string, clock: string)
    requires |field| >= 4
    requires forall i :: 0 <= i < 4 ==> field[i] != '-' && field[i] != '/'
    ensures ForceDateToSql(field, presetNow, isDateTime, today, clock)
      == Trim(Pad(Normalize(field), ReferenceTime(presetNow, today, clock), isDateTime))
  {
    var f := Pad(Normalize(field), ReferenceTime(presetNow, today, clock), isDateTime);
    assert f[..|field|] == Normalize(field);
    assert forall i :: 0 <= i < 4 ==> SubstrPrefix(f, 4)[i] == Normalize(field)[i];
  }

  /** The year-first output of the rewriting is left as it is by a second call. */
  lemma CanonicalDateFixed(y: string, m: string, d: string, presetNow: bool, today: string, clock: string)
    requires Plain(y) && Plain(m) && Plain(d)
    requires |y| == 4 && d != []
    requires !IsTrimmed(y[0]) && !IsTrimmed(d[|d| - 1])
    ensures ForceDateToSql(y + "-" + m + "-" + d, presetNow, false, today, clock) == y + "-" + m + "-" + d
  {
    var s := y + "-" + m + "-" + d;
    NormalizePlainJoin([y, m, d], '-');
    assert Join("-", [y, m, d]) == s by {
      assert Join("-", [m, d]) == m + "-" + d;
    }
    assert forall i :: 0 <= i < 4 ==> s[i] == y[i];
    YearFirstKept(s, presetNow, false, today, clock);
    DateUntrimmed(y, m, d);
  }

  /** Rewriting a day-first date twice gives what rewriting it once gives. */
  lemma DayFirstIdempotent(d: string, m: string, y: string, presetNow: bool, today: string, clock: string)
    requires Plain(d) && Plain(m) && Plain(y)
    requires 1 <= |d| <= 3 && |y| == 4
    requires !IsTrimmed(y[0]) && !IsTrimmed(d[|d| - 1])
    ensures var once := ForceDateToSql(d + "/" + m + "/" + y, presetNow, false, today, clock);
      ForceDateToSql(once, presetNow, false, today, clock) == once
  {
    DayFirstDateReordered(d, m, y, '/', presetNow, today, clock);
    CanonicalDateFixed(y, m, d, presetNow, today, clock);
  }

  /** `forceDateToSql('31/12/2023')` is "2023-12-31". */
  lemma DayFirstExample(presetNow: bool, today: string, clock: string)
    ensures ForceDateToSql("31/12/2023", presetNow, false, today, clock) == "2023-12-31"
  {
    assert Plain("31") && Plain("12") && Plain("2023");
    assert "31" + ['/'] + "12" + ['/'] + "2023" == "31/12/2023";
    assert "2023" + "-" + "12" + "-" + "31" == "2023-12-31";
    DayFirstDateReordered("31", "12", "2023", '/', presetNow, today, clock);
  }

  lemma NormalizeIso(y: string, m: string, d: string, t: string)
    requires Plain(y) && Plain(m) && Plain(d) && Plain(t)
    ensures Normalize(y + "-" + m + "-" + d + "T" + t) == y + "-" + m + "-" + d + " " + t
  {
    NormalizeAppend(y + "-" + m + "-" + d + "T", t);
    NormalizeAppend(y + "-" + m + "-" + d, "T");
    NormalizeAppend(y + "-" + m + "-", d);
    NormalizeAppend(y + "-" + m, "-");
    NormalizeAppend(y + "-", m);
    NormalizeAppend(y, "-");
    NormalizePlain(y);
    NormalizePlain(m);
    NormalizePlain(d);
    NormalizePlain(t);
    NormalizeChar('-');
    NormalizeChar('T');
  }

  /**
   * An ISO 8601 date-time `y-m-dTt` of at least 19 characters with a
   * four-character year is only normalised: the `T` becomes a space.
   */
  lemma IsoDateTimeKept(y: string, m: string, d: string, t: string, presetNow: bool, today: string, clock: string)
    requires Plain(y) && Plain(m) && Plain(d) && Plain(t)
    requires |y| == 4 && |m| + |d| + |t| >= 12
    requires !IsTrimmed(y[0]) && t != [] && !IsTrimmed(t[|t| - 1])
    ensures ForceDateToSql(y + "-" + m + "-" + d + "T" + t, presetNow, true, today, clock) == y + "-" + m + "-" + d + " " + t
  {
    var field := y + "-" + m + "-" + d + "T" + t;
    var out := y + "-" + m + "-" + d + " " + t;
    NormalizeIso(y, m, d, t);
    assert forall i :: 0 <= i < 4 ==> field[i] == y[i];
    assert Trim(out) == out by {
      assert out[0] == y[0] && out[|out| - 1] == t[|t| - 1];
      TrimUntrimmed(out);
    }
    YearFirstKept(field, presetNow, true, today, clock);
  }

  /** `forceDateToSql('2023-12-31T10:00:00', ..., true)` is "2023-12-31 10:00:00". */
  lemma IsoDateTimeExample(presetNow: bool, today: string, clock: string)
    ensures ForceDateToSql("2023-12-31T10:00:00", presetNow, true, today, clock) == "2023-12-31 10:00:00"
  {
    assert Plain("2023") && Plain("12") && Plain("31") && Plain("10:00:00");
    assert "2023" + "-" + "12" + "-" + "31" + "T" + "10:00:00" == "2023-12-31T10:00:00";
    assert "2023" + "-" + "12" + "-" + "31" + " " + "10:00:00" == "2023-12-31 10:00:00";
    IsoDateTimeKept("2023", "12", "31", "10:00:00", presetNow, today, clock);
  }

  // ---------------------------------------------------------------------
  // The padding path: a date-time shorter than 19 characters
  // ---------------------------------------------------------------------

  /** Dropping past the first part of a concatenation drops within the second. */
  lemma DropInSecond<T>(a: seq<T>, b: seq<T>, i: nat, j: nat)
    requires i == |a| + j && j <= |b|
    ensures (a + b)[i..] == b[j..]
  {
    assert forall x | 0 <= x < |b| - j :: (a + b)[i..][x] == b[j..][x];
  }

  /** Dropping within the first part of a concatenation keeps all of the second. */
  lemma DropInFirst<T>(a: seq<T>, b: seq<T>, i: nat)
    requires i <= |a|
    ensures (a + b)[i..] == a[i..] + b
  {
    assert forall x | 0 <= x < |a| + |b| - i :: (a + b)[i..][x] == (a[i..] + b)[x];
  }

  /** The reference timestamp is the date, a space and the time of day. */
  lemma ReferenceParts(presetNow: bool, today: string, clock: string)
    ensures ReferenceTime(presetNow, today, clock) == (today + " ") + TimeOfDay(presetNow, clock)
  {
  }

  /** A short date-time field is completed with the reference timestamp from its own length on. */
  lemma PadShort(n: string, c: string)
    requires |n| < 19 && |n| <= |c|
    ensures Pad(n, c, true) == n + c[|n|..]
  {
  }

  /** A 10-character field is completed with a space and the reference time of day. */
  lemma PadDate(n: string, presetNow: bool, today: string, clock: string)
    requires |today| == 10 && (presetNow ==> |clock| == 8) && |n| == 10
    ensures Pad(n, ReferenceTime(presetNow, today, clock), true) == n + (" " + TimeOfDay(presetNow, clock))
  {
    var w := TimeOfDay(presetNow, clock);
    var c := ReferenceTime(presetNow, today, clock);
    assert Pad(n, c, true) == n + c[10..] by {
      PadShort(n, c);
    }
    assert c[10..] == " " + w by {
      ReferenceParts(presetNow, today, clock);
      DropInFirst(today + " ", w, 10);
      DropInSecond(today, " ", 10, 0);
    }
  }

  /** A field of 11 + k characters, k < 8, picks up the reference time of day from position k on. */
  lemma PadTime(n: string, k: nat, presetNow: bool, today: string, clock: string)
    requires |today| == 10 && (presetNow ==> |clock| == 8)
    requires |n| == 11 + k && k < 8
    ensures Pad(n, ReferenceTime(presetNow, today, clock), true) == n + TimeOfDay(presetNow, clock)[k..]
  {
    var w := TimeOfDay(presetNow, clock);
    var c := ReferenceTime(presetNow, today, clock);
    assert Pad(n, c, true) == n + c[|n|..] by {
      PadShort(n, c);
    }
    assert c[|n|..] == w[k..] by {
      ReferenceParts(presetNow, today, clock);
      DropInSecond(today + " ", w, |n|, k);
    }
  }

  /** A field of k < 10 characters picks up the reference date from position k on, then the time. */
  lemma PadEarly(n: string, k: nat, presetNow: bool, today: string, clock: string)
    requires |today| == 10 && (presetNow ==> |clock| == 8)
    requires |n| == k && k < 10
    ensures Pad(n, ReferenceTime(presetNow, today, clock), true) == n + ((today[k..] + " ") + TimeOfDay(presetNow, clock))
  {
    var w := TimeOfDay(presetNow, clock);
    var c := ReferenceTime(presetNow, today, clock);
    assert Pad(n, c, true) == n + c[k..] by {
      PadShort(n, c);
    }
    assert c[k..] == (today[k..] + " ") + w by {
      ReferenceParts(presetNow, today, clock);
      DropInFirst(today + " ", w, k);
      DropInFirst(today, " ", k);
    }
  }

  /** `d/m/x` with plain pieces normalises to the pieces joined by `-`. */
  lemma NormalizeDayFirst(d: string, m: string, x: string)
    requires Plain(d) && Plain(m) && Plain(x)
    ensures Normalize(d + "/" + m + "/" + x) == Join("-", [d, m, x])
  {
    assert d + "/" + m + "/" + x == d + ['/'] + m + ['/'] + x;
    NormalizePlainJoin([d, m, x], '/');
  }

  /** A joined field whose first piece has one to three characters is day-first. */
  lemma DayFirstJoin(d: string, m: string, x: string)
    requires 1 <= |d| <= 3 && '-' !in d
    ensures IsDayFirst(Join("-", [d, m, x]))
  {
    JoinThree(d, m, x);
    var f := d + "-" + m + "-" + x;
    assert f[0] == d[0];
    assert SubstrPrefix(f, 4)[|d|] == f[|d|] == '-';
  }

  /** Reordering `d-m-yv` with a four-character year `y` puts the trimmed `v` after a space. */
  lemma ReorderYearTail(d: string, m: string, y: string, v: string)
    requires '-' !in d && '-' !in m && '-' !in y && '-' !in v && |y| == 4
    ensures Reorder(Join("-", [d, m, y + v]), true) == y + "-" + m + "-" + d + " " + Trim(v)
  {
    assert '-' !in y + v;
    ReorderPieces(d, m, y + v, true);
    assert SubstrPrefix(y + v, 4) == y;
    assert SubstrFrom(y + v, 4) == v;
  }

  /** Appending to a joined field appends to its last piece. */
  lemma JoinAppendLast(d: string, m: string, x: string, rest: string)
    ensures Join("-", [d, m, x]) + rest == Join("-", [d, m, x + rest])
  {
    JoinThree(d, m, x);
    JoinThree(d, m, x + rest);
  }

  /** A day-first field `d-m-y u` (after normalising and padding) ends up as `y-m-d u`. */
  lemma DayFirstTail(d: string, m: string, y: string, u: string, field: string, presetNow: bool, today: string, clock: string, f: string)
    requires Plain(d) && Plain(m) && Plain(y) && Plain(u)
    requires 1 <= |d| <= 3 && |y| == 4 && !IsTrimmed(y[0])
    requires u != [] && !IsTrimmed(u[0]) && !IsTrimmed(u[|u| - 1])
    requires f == Pad(Normalize(field), ReferenceTime(presetNow, today, clock), true)
    requires f == Join("-", [d, m, y + " " + u])
    ensures ForceDateToSql(field, presetNow, true, today, clock) == y + "-" + m + "-" + d + " " + u
  {
    assert IsDayFirst(f) by {
      DayFirstJoin(d, m, y + " " + u);
    }
    DayFirstDateTimeOut(d, m, y, u);
    DateTimeUntrimmed(d, m, y, u);
    ForceDateSteps(field, presetNow, true, today, clock, f);
  }

  /**
   * A day-first date `dd/mm/yyyy` read as a date-time is completed with the
   * reference time of day: the clock when `presetNow`, else midnight.
   */
  lemma DayFirstDatePadded(d: string, m: string, y: string, presetNow: bool, today: string, clock: string)
    requires Plain(d) && Plain(m) && Plain(y)
    requires 1 <= |d| <= 3 && |d| + |m| == 4 && |y| == 4 && !IsTrimmed(y[0])
    requires |today| == 10 && (presetNow ==> |clock| == 8)
    requires var w := TimeOfDay(presetNow, clock); Plain(w) && !IsTrimmed(w[0]) && !IsTrimmed(w[7])
    ensures ForceDateToSql(d + "/" + m + "/" + y, presetNow, true, today, clock)
      == y + "-" + m + "-" + d + " " + TimeOfDay(presetNow, clock)
  {
    var w := TimeOfDay(presetNow, clock);
    var field := d + "/" + m + "/" + y;
    var n := Join("-", [d, m, y]);
    NormalizeDayFirst(d, m, y);
    assert |n| == 10 by {
      JoinThree(d, m, y);
    }
    var f := Pad(n, ReferenceTime(presetNow, today, clock), true);
    assert f == n + (" " + w) by {
      PadDate(n, presetNow, today, clock);
    }
    assert f == Join("-", [d, m, y + " " + w]) by {
      JoinAppendLast(d, m, y, " " + w);
      assert y + (" " + w) == y + " " + w;
    }
    DayFirstTail(d, m, y, w, field, presetNow, today, clock, f);
  }

  /**
   * A day-first `dd/mm/yyyy t` with a partial time `t` read as a date-time:
   * the time is completed with the rest of the reference time of day.
   */
  lemma DayFirstDateTimePadded(d: string, m: string, y: string, t: string, presetNow: bool, today: string, clock: string)
    requires Plain(d) && Plain(m) && Plain(y) && Plain(t)
    requires 1 <= |d| <= 3 && |d| + |m| == 4 && |y| == 4 && |t| < 8 && !IsTrimmed(y[0])
    requires |today| == 10 && (presetNow ==> |clock| == 8)
    requires var u := t + TimeOfDay(presetNow, clock)[|t|..]; Plain(u) && !IsTrimmed(u[0]) && !IsTrimmed(u[7])
    ensures ForceDateToSql(d + "/" + m + "/" + y + " " + t, presetNow, true, today, clock)
      == y + "-" + m + "-" + d + " " + (t + TimeOfDay(presetNow, clock)[|t|..])
  {
    var rest := TimeOfDay(presetNow, clock)[|t|..];
    var u := t + rest;
    var yt := y + " " + t;
    var field := d + "/" + m + "/" + y + " " + t;
    var n := Join("-", [d, m, yt]);
    assert Normalize(field) == n by {
      assert field == d + "/" + m + "/" + yt;
      NormalizeDayFirst(d, m, yt);
    }
    assert |n| == 11 + |t| by {
      JoinThree(d, m, yt);
    }
    var f := Pad(n, ReferenceTime(presetNow, today, clock), true);
    assert f == n + rest by {
      PadTime(n, |t|, presetNow, today, clock);
    }
    assert f == Join("-", [d, m, y + " " + u]) by {
      JoinAppendLast(d, m, yt, rest);
      AppendAssoc(y + " ", t, rest);
    }
    DayFirstTail(d, m, y, u, field, presetNow, today, clock, f);
  }

  /** An ISO 8601 date `yyyy-mm-dd` read as a date-time is completed with the reference time of day. */
  lemma IsoDatePadded(y: string, m: string, d: string, presetNow: bool, today: string, clock: string)
    requires Plain(y) && Plain(m) && Plain(d)
    requires |y| == 4 && |m| + |d| == 4 && !IsTrimmed(y[0])
    requires |today| == 10 && (presetNow ==> |clock| == 8)
    requires var w := TimeOfDay(presetNow, clock); !IsTrimmed(w[7])
    ensures ForceDateToSql(y + "-" + m + "-" + d, presetNow, true, today, clock)
      == y + "-" + m + "-" + d + " " + TimeOfDay(presetNow, clock)
  {
    var field := y + "-" + m + "-" + d;
    IsoDatePadding(y, m, d, presetNow, today, clock);
    YearFirstDate(y, m, d, presetNow, true, today, clock);
    DateTimeUntrimmed(d, m, y, TimeOfDay(presetNow, clock));
  }

  /** A plain `yyyy-mm-dd` is not changed by normalising and, as a date-time, gets a space and the time of day. */
  lemma IsoDatePadding(y: string, m: string, d: string, presetNow: bool, today: string, clock: string)
    requires Plain(y) && Plain(m) && Plain(d)
    requires |y| == 4 && |m| + |d| == 4
    requires |today| == 10 && (presetNow ==> |clock| == 8)
    ensures Pad(Normalize(y + "-" + m + "-" + d), ReferenceTime(presetNow, today, clock), true)
      == y + "-" + m + "-" + d + " " + TimeOfDay(presetNow, clock)
  {
    var w := TimeOfDay(presetNow, clock);
    var field := y + "-" + m + "-" + d;
    assert Normalize(field) == field by {
      NormalizePlainJoin([y, m, d], '-');
      JoinThree(y, m, d);
    }
    PadDate(field, presetNow, today, clock);
    AppendAssoc(field, " ", w);
  }

  /** A field starting with a four-character year is never reordered. */
  lemma YearFirstDate(y: string, m: string, d: string, presetNow: bool, isDateTime: bool, today: string, clock: string)
    requires Plain(y) && |y| == 4
    ensures var field := y + "-" + m + "-" + d;
      ForceDateToSql(field, presetNow, isDateTime, today, clock)
        == Trim(Pad(Normalize(field), ReferenceTime(presetNow, today, clock), isDateTime))
  {
    var field := y + "-" + m + "-" + d;
    assert forall i :: 0 <= i < 4 ==> field[i] == y[i];
    YearFirstKept(field, presetNow, isDateTime, today, clock);
  }

  /** An ISO 8601 date-time `yyyy-mm-ddTt` with a partial time `t` is completed from the reference time of day. */
  lemma IsoDateTimePadded(y: string, m: string, d: string, t: string, presetNow: bool, today: string, clock: string)
    requires Plain(y) && Plain(m) && Plain(d) && Plain(t)
    requires |y| == 4 && |m| + |d| == 4 && |t| < 8 && !IsTrimmed(y[0])
    requires |today| == 10 && (presetNow ==> |clock| == 8)
    requires !IsTrimmed(TimeOfDay(presetNow, clock)[7])
    ensures ForceDateToSql(y + "-" + m + "-" + d + "T" + t, presetNow, true, today, clock)
      == y + "-" + m + "-" + d + " " + t + TimeOfDay(presetNow, clock)[|t|..]
  {
    var rest := TimeOfDay(presetNow, clock)[|t|..];
    var field := y + "-" + m + "-" + d + "T" + t;
    var n := y + "-" + m + "-" + d + " " + t;
    assert ForceDateToSql(field, presetNow, true, today, clock)
        == Trim(Pad(Normalize(field), ReferenceTime(presetNow, today, clock), true)) by {
      assert forall i :: 0 <= i < 4 ==> field[i] == y[i];
      YearFirstKept(field, presetNow, true, today, clock);
    }
    assert Normalize(field) == n by {
      NormalizeIso(y, m, d, t);
    }
    assert Pad(n, ReferenceTime(presetNow, today, clock), true) == n + rest by {
      PadTime(n, |t|, presetNow, today, clock);
    }
    assert Trim(n + rest) == n + rest by {
      assert n[0] == y[0];
      TrimCompleted(n, TimeOfDay(presetNow, clock), |t|);
    }
  }

  /** A field completed by the tail of an untrimmed time of day is left alone by the final trim. */
  lemma TrimCompleted(n: string, w: string, k: nat)
    requires |n| > 0 && !IsTrimmed(n[0])
    requires |w| == 8 && k < 8 && !IsTrimmed(w[7])
    ensures Trim(n + w[k..]) == n + w[k..]
  {
    var out := n + w[k..];
    assert out[0] == n[0];
    assert out[|out| - 1] == w[7];
    TrimUntrimmed(out);
  }

  /**
   * As written, a day-first date shorter than `dd/mm/yyyy` read as a date-time
   * is padded from the wrong position of the reference timestamp: the padding
   * starts inside its date, so the reference day's last characters end up in
   * the time part after the year.
   */
  lemma ShortDayFirstDatePadded(d: string, m: string, y: string, presetNow: bool, today: string, clock: string)
    requires Plain(d) && Plain(m) && Plain(y)
    requires 1 <= |d| && |d| + |m| < 4 && |y| == 4 && !IsTrimmed(y[0])
    requires |today| == 10 && (presetNow ==> |clock| == 8)
    requires var u := today[|d| + |m| + 6..] + " " + TimeOfDay(presetNow, clock);
      Plain(u) && !IsTrimmed(u[0]) && !IsTrimmed(u[|u| - 1])
    ensures ForceDateToSql(d + "/" + m + "/" + y, presetNow, true, today, clock)
      == y + "-" + m + "-" + d + " " + (today[|d| + |m| + 6..] + " " + TimeOfDay(presetNow, clock))
  {
    var u := today[|d| + |m| + 6..] + " " + TimeOfDay(presetNow, clock);
    var field := d + "/" + m + "/" + y;
    var f := Pad(Normalize(field), ReferenceTime(presetNow, today, clock), true);
    assert f == Join("-", [d, m, y + u]) by {
      ShortDayFirstPadding(d, m, y, presetNow, today, clock);
    }
    DayFirstYearTail(d, m, y, u, field, presetNow, today, clock, f);
  }

  /** Padding a short `d/m/y` appends the reference timestamp's tail to the year piece. */
  lemma ShortDayFirstPadding(d: string, m: string, y: string, presetNow: bool, today: string, clock: string)
    requires Plain(d) && Plain(m) && Plain(y)
    requires |d| + |m| < 4 && |y| == 4
    requires |today| == 10 && (presetNow ==> |clock| == 8)
    ensures Pad(Normalize(d + "/" + m + "/" + y), ReferenceTime(presetNow, today, clock), true)
      == Join("-", [d, m, y + (today[|d| + |m| + 6..] + " " + TimeOfDay(presetNow, clock))])
  {
    var u := today[|d| + |m| + 6..] + " " + TimeOfDay(presetNow, clock);
    var n := Join("-", [d, m, y]);
    assert Normalize(d + "/" + m + "/" + y) == n by {
      NormalizeDayFirst(d, m, y);
    }
    var k := |n|;
    assert k == |d| + |m| + 6 by {
      JoinThree(d, m, y);
    }
    assert Pad(n, ReferenceTime(presetNow, today, clock), true) == n + u by {
      PadEarly(n, k, presetNow, today, clock);
    }
    JoinAppendLast(d, m, y, u);
  }

  /** A day-first field `d-m-yv` (after normalising and padding) ends up as `y-m-d v` for an untrimmed `v`. */
  lemma DayFirstYearTail(d: string, m: string, y: string, v: string, field: string, presetNow: bool, today: string, clock: string, f: string)
    requires Plain(d) && Plain(m) && Plain(y) && Plain(v)
    requires 1 <= |d| <= 3 && |y| == 4 && !IsTrimmed(y[0])
    requires v != [] && !IsTrimmed(v[0]) && !IsTrimmed(v[|v| - 1])
    requires f == Pad(Normalize(field), ReferenceTime(presetNow, today, clock), true)
    requires f == Join("-", [d, m, y + v])
    ensures ForceDateToSql(field, presetNow, true, today, clock) == y + "-" + m + "-" + d + " " + v
  {
    assert IsDayFirst(f) by {
      DayFirstJoin(d, m, y + v);
    }
    assert Reorder(f, true) == y + "-" + m + "-" + d + " " + v by {
      ReorderYearTail(d, m, y, v);
      TrimUntrimmed(v);
    }
    assert Trim(y + "-" + m + "-" + d + " " + v) == y + "-" + m + "-" + d + " " + v by {
      DateTimeUntrimmed(d, m, y, v);
    }
    ForceDateSteps(field, presetNow, true, today, clock, f);
  }

  /** The padding `1/1/2023` receives from the reference 2023-12-31 02:30:00. */
  lemma ShortDayFirstDateTail()
    ensures var u := "2023-12-31"[|"1"| + |"1"| + 6..] + " " + TimeOfDay(true, "02:30:00");
      u == "31 02:30:00" && Plain(u) && !IsTrimmed(u[0]) && !IsTrimmed(u[|u| - 1])
  {
    var u := "31 02:30:00";
    assert "2023-12-31"[8..] + " " + TimeOfDay(true, "02:30:00") == u;
    assert forall i | 0 <= i < |u| :: u[i] != '-' && u[i] != '/' && u[i] != 'T';
  }

  /** `forceDateToSql('1/1/2023', true, true)` at 02:30:00 on 2023-12-31 is "2023-1-1 31 02:30:00". */
  lemma ShortDayFirstDateExample()
    ensures ForceDateToSql("1/1/2023", true, true, "2023-12-31", "02:30:00") == "2023-1-1 31 02:30:00"
  {
    ShortDayFirstDateTail();
    assert Plain("1") && Plain("2023");
    assert "1" + "/" + "1" + "/" + "2023" == "1/1/2023";
    assert "2023" + "-" + "1" + "-" + "1" + " " + "31 02:30:00" == "2023-1-1 31 02:30:00";
    ShortDayFirstDatePadded("1", "1", "2023", true, "2023-12-31", "02:30:00");
  }
}
