/** The statement builders of `Command` (src/Command.php): identifiers,
    LIMIT, and the text of INSERT, UPDATE, DELETE and SELECT statements.
    The `self::query(...)` dispatch that sends the text is not modelled. */
module Command {
  import opened Php
  import opened Tools
  import opened Patterns
  import opened WhereClause

  // ---------------------------------------------------------------------
  // tableName (lines 25-29)

  /** The two accepted shapes of `$table`: a name, or `[database, name]`. */
  datatype Table = Named(name: string) | Qualified(db: string, name: string)

  const Tick: char := '`'

  /** `tableName($table)`: backtick-quoted, database-qualified when a pair. */
  function TableName(t: Table): (r: string)
    ensures |r| >= 2 && r[0] == Tick && r[|r| - 1] == Tick
  {
    match t
    case Named(n) => "`" + n + "`"
    case Qualified(d, n) => "`" + d + "`.`" + n + "`"
  }

  /** Index of the first backtick in `s`, or `|s|` when there is none. */
  function FirstTick(s: string): (p: nat)
    ensures p <= |s|
    ensures forall k :: 0 <= k < p ==> s[k] != Tick
    ensures p < |s| ==> s[p] == Tick
    decreases |s|
  {
    if s == [] then 0
    else if s[0] == Tick then 0
    else 1 + FirstTick(s[1..])
  }

  predicate NoTicks(s: string) {
    forall k :: 0 <= k < |s| ==> s[k] != Tick
  }

  /** How a reader of the statement splits a rendered identifier again. */
  function ParseTableName(r: string): Option<Table> {
    if |r| < 2 || r[0] != Tick || r[|r| - 1] != Tick then None
    else
      var body := r[1..|r| - 1];
      var p := FirstTick(body);
      if p == |body| then Some(Named(body))
      else if p + 3 <= |body| && body[p..p + 3] == "`.`" then Some(Qualified(body[..p], body[p + 3..]))
      else None
  }

  lemma {:induction false} FirstTickOf(a: string, b: string)
    requires NoTicks(a)
    ensures FirstTick(a + "`" + b) == |a|
    decreases |a|
  {
    if a != [] {
      assert (a + "`" + b)[1..] == a[1..] + "`" + b;
      FirstTickOf(a[1..], b);
    }
  }

  lemma {:induction false} FirstTickNone(a: string)
    requires NoTicks(a)
    ensures FirstTick(a) == |a|
    decreases |a|
  {
    if a != [] {
      FirstTickNone(a[1..]);
    }
  }

  /** Identifiers without backticks are rendered unambiguously: the pair form
      and the single form read back as what was rendered. */
  lemma TableNameRoundTrip(t: Table)
    requires NoTicks(t.name) && (t.Qualified? ==> NoTicks(t.db))
    ensures ParseTableName(TableName(t)) == Some(t)
  {
    var r := TableName(t);
    var body := r[1..|r| - 1];
    match t
    case Named(n) =>
      assert body == n;
      FirstTickNone(n);
    case Qualified(d, n) =>
      assert body == d + "`" + (".`" + n);
      FirstTickOf(d, ".`" + n);
      assert body[|d|..|d| + 3] == "`.`";
      assert body[..|d|] == d;
      assert body[|d| + 3..] == n;
  }

  /** Hence two different tables never render alike. */
  lemma TableNameInjective(s: Table, t: Table)
    requires NoTicks(s.name) && (s.Qualified? ==> NoTicks(s.db))
    requires NoTicks(t.name) && (t.Qualified? ==> NoTicks(t.db))
    requires TableName(s) == TableName(t)
    ensures s == t
  {
    TableNameRoundTrip(s);
    TableNameRoundTrip(t);
  }

  // ---------------------------------------------------------------------
  // genLimit (lines 247-259)

  const LimitHead: string := "\n LIMIT "

  /** `$limit[n]` after the int-key filter, interpolated; a missing index
      interpolates as the empty string. */
  predicate PartPrintable(ik: seq<(Key, Value)>, n: int) {
    var o := Lookup(ik, IntKey(n));
    o.None? || IsScalar(o.value)
  }

  function LimitPart(ik: seq<(Key, Value)>, n: int): string
    requires PartPrintable(ik, n)
  {
    match Lookup(ik, IntKey(n))
    case None => ""
    case Some(v) => Text(v)
  }

  /** `$limit` after line 253: an int-key filtered array with exactly one
      entry is replaced by its element at index 0 (null when there is none);
      any other is kept. */
  function Collapsed(ik: seq<(Key, Value)>): (v: Value)
    ensures |ik| != 1 ==> v == Arr(ik)
  {
    if |ik| == 1 then
      match Lookup(ik, IntKey(0))
      case Some(x) => x
      case None => Null
    else Arr(ik)
  }

  /** Line 255's case: an array of two or more entries (counted with all its
      keys, as `count` does) whose indexes 0 and 1 interpolate. */
  predicate PairPrintable(v: Value) {
    v.Arr? && |v.entries| >= 2 && PartPrintable(v.entries, 0) && PartPrintable(v.entries, 1)
  }

  /** The inputs for which genLimit reaches a `return`: a falsy value, an int,
      or an array whose collapsed form is an int or an array of two or more
      entries with printable indexes 0 and 1 (so `[[a, b]]` counts, like
      `[a, b]`). On anything else the function falls off its end, which its
      `string` return type rejects. Since PHP 7.4's `count` of a scalar is 0
      or 1, only an array reaches line 255. */
  predicate LimitDefined(limit: Value) {
    || Falsy(limit)
    || limit.Int?
    || (limit.Arr? &&
        var v := Collapsed(IntKeyed(limit.entries));
        v.Int? || PairPrintable(v))
  }

  function GenLimit(limit: Value): (r: string)
    requires LimitDefined(limit)
    ensures r == "" <==> Falsy(limit)
    ensures r != "" ==> |r| >= |LimitHead| && r[..|LimitHead|] == LimitHead
  {
    if Falsy(limit) then ""
    else if limit.Int? then LimitHead + Decimal(limit.i)
    else
      var v := Collapsed(IntKeyed(limit.entries));
      if PairPrintable(v) then LimitHead + LimitPart(v.entries, 0) + " " + LimitPart(v.entries, 1)
      else LimitHead + Decimal(v.i)
  }

  /** A non-zero int limit reads back from the clause. */
  lemma LimitRoundTrip(n: int)
    requires n != 0
    ensures GenLimit(Int(n)) == LimitHead + Decimal(n)
    ensures ParseDecimal(GenLimit(Int(n))[|LimitHead|..]) == n
  {
    DecimalRoundTrip(n);
    assert GenLimit(Int(n))[|LimitHead|..] == Decimal(n);
  }

  /** `[n]` collapses to the int form; unlike the bare int 0, `[0]` is a
      non-empty array and so still yields `LIMIT 0`. */
  lemma LimitCollapse(n: int)
    ensures GenLimit(Arr([(IntKey(0), Int(n))])) == LimitHead + Decimal(n)
    ensures n != 0 ==> GenLimit(Arr([(IntKey(0), Int(n))])) == GenLimit(Int(n))
    ensures GenLimit(Int(0)) == ""
  {
    assert IntKeyed([(IntKey(0), Int(n))]) == [(IntKey(0), Int(n))];
  }

  /** Every array whose collapsed form is a printable pair renders its
      indexes 0 and 1, whatever other entries it holds. */
  lemma LimitAnyPair(es: seq<(Key, Value)>)
    requires PairPrintable(Collapsed(IntKeyed(es)))
    ensures LimitDefined(Arr(es))
    ensures var v := Collapsed(IntKeyed(es));
            GenLimit(Arr(es)) == LimitHead + LimitPart(v.entries, 0) + " " + LimitPart(v.entries, 1)
  {
  }

  /** An array holding ints under keys 0 and 1 gives `LIMIT a b`, in key
      order and not entry order, and whatever else it holds (`[a, b, c]`,
      `[1 => b, 0 => a]`). */
  lemma LimitOffsetCount(es: seq<(Key, Value)>, a: int, b: int)
    requires Lookup(es, IntKey(0)) == Some(Int(a)) && Lookup(es, IntKey(1)) == Some(Int(b))
    ensures LimitDefined(Arr(es))
    ensures GenLimit(Arr(es)) == LimitHead + Decimal(a) + " " + Decimal(b)
  {
    var ik := IntKeyed(es);
    IntKeyedLookup(es, 0);
    IntKeyedLookup(es, 1);
    assert (IntKey(0), Int(a)) in ik && (IntKey(1), Int(b)) in ik;
    assert |ik| >= 2;
    LimitAnyPair(es);
  }

  /** A pair wrapped in a one-element array collapses to the pair. */
  lemma LimitNestedPair(a: int, b: int)
    ensures GenLimit(Arr([(IntKey(0), Arr([(IntKey(0), Int(a)), (IntKey(1), Int(b))]))]))
            == GenLimit(Arr([(IntKey(0), Int(a)), (IntKey(1), Int(b))]))
            == LimitHead + Decimal(a) + " " + Decimal(b)
  {
    var es := [(IntKey(0), Int(a)), (IntKey(1), Int(b))];
    assert IntKeyed([(IntKey(0), Arr(es))]) == [(IntKey(0), Arr(es))];
    LimitPair(a, b);
    assert Lookup(es, IntKey(1)) == Some(Int(b));
  }

  /** `[offset, count]` gives `LIMIT offset count`. */
  lemma LimitPair(a: int, b: int)
    ensures GenLimit(Arr([(IntKey(0), Int(a)), (IntKey(1), Int(b))]))
            == LimitHead + Decimal(a) + " " + Decimal(b)
  {
    var es := [(IntKey(0), Int(a)), (IntKey(1), Int(b))];
    assert IntKeyed(es) == es;
    assert Lookup(es, IntKey(1)) == Some(Int(b));
  }

  // ---------------------------------------------------------------------
  // insert (lines 42-84)

  type Row = seq<(Key, Value)>

  /** `$inserts` after the `array_depth` test: a single row (depth below 2,
      wrapped as `[$inserts]`, so keyed from 0) or the array itself, whose
      entries are the rows in order and whose key 0 gives the columns. */
  datatype Inserts = OneRow(row: Row) | ManyRows(rows: seq<(Key, Value)>)

  /** What `array_values` and `array_keys` see of one entry: its entries,
      when it is an array. In PHP 7.4 they return null for anything else,
      and `foreach` over null runs zero times. */
  function Entries(v: Value): Row {
    if v.Arr? then v.entries else []
  }

  /** The rows the `foreach` of line 57 visits, in order. */
  function RowsOf(ins: Inserts): (rows: seq<Row>)
    ensures ins.OneRow? ==> rows == [ins.row]
    ensures ins.ManyRows? ==> |rows| == |ins.rows|
    ensures ins.ManyRows? ==> forall j :: 0 <= j < |rows| ==>
              (ins.rows[j].1.Arr? ==> rows[j] == ins.rows[j].1.entries)
              && (!ins.rows[j].1.Arr? ==> rows[j] == [])
  {
    match ins
    case OneRow(row) => [row]
    case ManyRows(rs) => seq(|rs|, j requires 0 <= j < |rs| => Entries(rs[j].1))
  }

  /** `$inserts[0]`, the row whose keys name the columns (lines 49 and 73):
      an undefined index, or a value that is not an array, gives no columns. */
  function FirstRow(ins: Inserts): (row: Row)
    ensures ins.OneRow? ==> row == ins.row
    ensures ins.ManyRows? && row != [] ==> (IntKey(0), Arr(row)) in ins.rows
    ensures ins.ManyRows? && Lookup(ins.rows, IntKey(0)).None? ==> row == []
  {
    match ins
    case OneRow(row) => row
    case ManyRows(rs) =>
      match Lookup(rs, IntKey(0))
      case Some(v) => Entries(v)
      case None => []
  }

  function FieldName(k: Key): string {
    "`" + KeyText(k) + "`"
  }

  /** The columns: the first row's keys, backtick-quoted, in order. */
  function FieldNames(row: Row): (r: seq<string>)
    ensures |r| == |row|
  {
    seq(|row|, j requires 0 <= j < |row| => FieldName(row[j].0))
  }

  /** Lines 47-53: the closure collecting the column list. */
  method FieldList(row: Row) returns (r: string)
    ensures r == Join(FieldNames(row), ", ")
  {
    var t: seq<string> := [];
    for i := 0 to |row|
      invariant t == FieldNames(row)[..i]
    {
      t := t + [FieldName(row[i].0)];
    }
    assert t == FieldNames(row);
    r := Join(t, ", ");
  }

  /** The quoted values of one row, in order; the first truthy non-scalar
      makes `quote` raise. */
  function Literals(row: Row): (r: Result<seq<string>>)
    ensures r.Ok? <==> forall j :: 0 <= j < |row| ==> Quote(row[j].1).Ok?
    ensures r.Ok? ==> |r.value| == |row|
    ensures r.Ok? ==> forall j :: 0 <= j < |row| ==> Quote(row[j].1) == Ok(r.value[j])
    decreases |row|
  {
    if row == [] then Ok([])
    else
      QuoteContract(row[0].1);
      match Quote(row[0].1)
      case Err(e) => Err(e)
      case Ok(x) =>
        match Literals(row[1..])
        case Err(e) => Err(e)
        case Ok(xs) => Ok([x] + xs)
  }

  /** One row as `( v1, v2, ... )`; it fails exactly when some value does. */
  function Tuple(row: Row): (r: Result<string>)
    ensures r.Ok? <==> forall j :: 0 <= j < |row| ==> Quote(row[j].1).Ok?
    ensures r.Ok? ==> |r.value| >= 4 && r.value[..2] == "( " && r.value[|r.value| - 2..] == " )"
  {
    match Literals(row)
    case Err(e) => Err(e)
    case Ok(xs) => Ok("( " + Join(xs, ", ") + " )")
  }

  /** Lines 58-64: the inner `foreach` quoting one row's values. */
  method RowTuple(row: Row) returns (r: Result<string>)
    ensures r == Tuple(row)
  {
    var tt: seq<string> := [];
    for i := 0 to |row|
      invariant |tt| == i
      invariant forall j :: 0 <= j < i ==> Quote(row[j].1) == Ok(tt[j])
    {
      var q := Quote(row[i].1);
      if q.Err? {
        QuoteContract(row[i].1);
        return Err(q.error);
      }
      tt := tt + [q.value];
    }
    var lits := Literals(row);
    assert lits.Ok?;
    assert forall j :: 0 <= j < |row| ==> lits.value[j] == tt[j];
    assert lits.value == tt;
    r := Ok("( " + Join(tt, ", ") + " )");
  }

  /** The tuples of all rows, in order. */
  function Tuples(rows: seq<Row>): (r: Result<seq<string>>)
    ensures r.Ok? <==> forall j :: 0 <= j < |rows| ==> Tuple(rows[j]).Ok?
    ensures r.Ok? ==> |r.value| == |rows|
    ensures r.Ok? ==> forall j :: 0 <= j < |rows| ==> Tuple(rows[j]) == Ok(r.value[j])
    decreases |rows|
  {
    if rows == [] then Ok([])
    else
      match Tuple(rows[0])
      case Err(e) => Err(e)
      case Ok(x) =>
        match Tuples(rows[1..])
        case Err(e) => Err(e)
        case Ok(xs) => Ok([x] + xs)
  }

  function ValuesText(rows: seq<Row>): Result<string> {
    match Tuples(rows)
    case Err(e) => Err(e)
    case Ok(ts) => Ok(Join(ts, ",\n "))
  }

  /** Lines 55-67: the outer `foreach` over the rows. */
  method ValuesList(rows: seq<Row>) returns (r: Result<string>)
    ensures r == ValuesText(rows)
  {
    var t: seq<string> := [];
    for i := 0 to |rows|
      invariant |t| == i
      invariant forall j :: 0 <= j < i ==> Tuple(rows[j]) == Ok(t[j])
    {
      var tuple := RowTuple(rows[i]);
      if tuple.Err? {
        return Err(tuple.error);
      }
      t := t + [tuple.value];
    }
    var tuples := Tuples(rows);
    assert tuples.Ok?;
    assert forall j :: 0 <= j < |rows| ==> tuples.value[j] == t[j];
    assert tuples.value == t;
    r := Ok(Join(t, ",\n "));
  }

  /** `` `f` = excluded.f`` for a column name `f`. */
  function Assignment(f: string): string {
    "`" + f + "` = excluded." + f
  }

  /** The columns of `row` that are not conflict indexes, as assignments, in
      column order. */
  function Assignments(row: Row, indexes: seq<string>): (r: seq<string>)
    ensures |r| <= |row|
    decreases |row|
  {
    if row == [] then []
    else
      var f := KeyText(row[0].0);
      (if f !in indexes then [Assignment(f)] else []) + Assignments(row[1..], indexes)
  }

  lemma {:induction false} AssignmentsAppend(a: Row, b: Row, indexes: seq<string>)
    ensures Assignments(a + b, indexes) == Assignments(a, indexes) + Assignments(b, indexes)
    decreases |a|
  {
    if a == [] {
      assert a + b == b;
    } else {
      assert (a + b)[1..] == a[1..] + b;
      AssignmentsAppend(a[1..], b, indexes);
    }
  }

  /** The upsert clause; only with a non-empty index list. */
  function Updates(row: Row, indexes: seq<string>): string {
    if indexes == [] then ""
    else "\n ON CONFLICT(" + Join(indexes, ", ") + ")\n DO UPDATE SET\n" + Join(Assignments(row, indexes), ",\n ")
  }

  /** Lines 69-79: the closure building the upsert clause. */
  method ConflictClause(row: Row, indexes: seq<string>) returns (r: string)
    ensures r == Updates(row, indexes)
  {
    if |indexes| == 0 {
      return "";
    }
    var t: seq<string> := [];
    for i := 0 to |row|
      invariant t == Assignments(row[..i], indexes)
    {
      var f := KeyText(row[i].0);
      assert row[..i + 1] == row[..i] + [row[i]];
      AssignmentsAppend(row[..i], [row[i]], indexes);
      if f !in indexes {
        t := t + [Assignment(f)];
      }
    }
    assert row[..|row|] == row;
    r := "\n ON CONFLICT(" + Join(indexes, ", ") + ")\n DO UPDATE SET\n" + Join(t, ",\n ");
  }

  function InsertStatement(table: Table, ins: Inserts, indexes: seq<string>): Result<string> {
    var first := FirstRow(ins);
    match ValuesText(RowsOf(ins))
    case Err(e) => Err(e)
    case Ok(values) =>
      Ok("INSERT\n INTO " + TableName(table) + "\n ( " + Join(FieldNames(first), ", ") + " )\n VALUES\n "
         + values + Updates(first, indexes) + ";")
  }

  /** `insert($table, $inserts, $indexes)`: the statement text it sends. */
  method Insert(table: Table, ins: Inserts, indexes: seq<string>) returns (r: Result<string>)
    ensures r == InsertStatement(table, ins, indexes)
  {
    var rows := RowsOf(ins);
    var first := FirstRow(ins);
    var fields := FieldList(first);
    var values := ValuesList(rows);
    var updates := ConflictClause(first, indexes);
    if values.Err? {
      return Err(values.error);
    }
    r := Ok("INSERT\n INTO " + TableName(table) + "\n ( " + fields + " )\n VALUES\n "
            + values.value + updates + ";");
  }

  /** The assignment text determines its column. */
  lemma AssignmentInjective(f: string, g: string)
    requires Assignment(f) == Assignment(g)
    ensures f == g
  {
    assert |Assignment(f)| == 2 * |f| + 14;
    assert Assignment(f)[1..|f| + 1] == f;
    assert Assignment(g)[1..|g| + 1] == g;
  }

  /** The upsert assigns exactly the first row's columns that are not
      conflict indexes. */
  lemma {:induction false} AssignmentsExact(row: Row, indexes: seq<string>, f: string)
    ensures Assignment(f) in Assignments(row, indexes)
            <==> (exists j :: 0 <= j < |row| && KeyText(row[j].0) == f) && f !in indexes
    decreases |row|
  {
    if row != [] {
      AssignmentsExact(row[1..], indexes, f);
      var g := KeyText(row[0].0);
      if Assignment(f) == Assignment(g) {
        AssignmentInjective(f, g);
      }
      if exists j :: 0 <= j < |row| && KeyText(row[j].0) == f {
        var j :| 0 <= j < |row| && KeyText(row[j].0) == f;
        if j > 0 {
          assert KeyText(row[1..][j - 1].0) == f;
        }
      }
      if exists j :: 0 <= j < |row[1..]| && KeyText(row[1..][j].0) == f {
        var j :| 0 <= j < |row[1..]| && KeyText(row[1..][j].0) == f;
        assert KeyText(row[j + 1].0) == f;
      }
    }
  }

  /** The upsert clause is present exactly when indexes are given. */
  lemma UpsertOnlyWithIndexes(row: Row, indexes: seq<string>)
    ensures Updates(row, indexes) == "" <==> indexes == []
    ensures indexes != [] ==>
      var head := "\n ON CONFLICT(" + Join(indexes, ", ") + ")\n DO UPDATE SET\n";
      Updates(row, indexes)[..|head|] == head
  {
  }

  /** An insert fails exactly when some value of some row is a truthy
      non-scalar, which `quote` refuses. */
  lemma InsertFailsIff(table: Table, ins: Inserts, indexes: seq<string>)
    ensures InsertStatement(table, ins, indexes).Err?
            <==> exists i, j :: 0 <= i < |RowsOf(ins)| && 0 <= j < |RowsOf(ins)[i]|
                                && !IsScalar(RowsOf(ins)[i][j].1) && !Falsy(RowsOf(ins)[i][j].1)
  {
    var rs: seq<Row> := RowsOf(ins);
    forall i: int, j: int | 0 <= i < |rs| && 0 <= j < |rs[i]| {
      QuoteContract(rs[i][j].1);
    }
    if exists i: int, j: int :: 0 <= i < |rs| && 0 <= j < |rs[i]| && !IsScalar(rs[i][j].1) && !Falsy(rs[i][j].1) {
      var i: int, j: int :| 0 <= i < |rs| && 0 <= j < |rs[i]| && !IsScalar(rs[i][j].1) && !Falsy(rs[i][j].1);
      assert Tuple(rs[i]).Err?;
    }
  }

  /** A list without an array under key 0 names no columns and assigns none
      on conflict: its statement has an empty column list and an upsert
      clause with nothing after `DO UPDATE SET`. */
  lemma NoFirstRow(table: Table, ins: Inserts, indexes: seq<string>)
    requires ins.ManyRows?
    requires Lookup(ins.rows, IntKey(0)).None? || !Lookup(ins.rows, IntKey(0)).value.Arr?
    ensures InsertStatement(table, ins, indexes).Ok? <==> ValuesText(RowsOf(ins)).Ok?
    ensures InsertStatement(table, ins, indexes).Ok? ==>
      InsertStatement(table, ins, indexes).value
      == "INSERT\n INTO " + TableName(table) + "\n (  )\n VALUES\n " + ValuesText(RowsOf(ins)).value
         + (if indexes == [] then "" else "\n ON CONFLICT(" + Join(indexes, ", ") + ")\n DO UPDATE SET\n") + ";"
  {
    var first := FirstRow(ins);
    assert first == [];
    var upsert := if indexes == [] then "" else "\n ON CONFLICT(" + Join(indexes, ", ") + ")\n DO UPDATE SET\n";
    assert Join(FieldNames(first), ", ") == "" by {
      assert FieldNames(first) == [];
    }
    assert Updates(first, indexes) == upsert by {
      assert Assignments(first, indexes) == [];
    }
    match ValuesText(RowsOf(ins))
    case Err(_) =>
    case Ok(values) =>
      var head := "INSERT\n INTO " + TableName(table);
      assert InsertStatement(table, ins, indexes)
             == Ok(head + "\n ( " + "" + " )\n VALUES\n " + values + upsert + ";");
      assert head + "\n ( " + "" + " )\n VALUES\n " == head + "\n (  )\n VALUES\n ";
  }

  /** The columns come from key 0, not from the first entry: with
      `[1 => a, 0 => b]` the rows are visited as a, b but named after b. */
  lemma ColumnsFromKeyZero(a: Row, b: Row)
    ensures FirstRow(ManyRows([(IntKey(1), Arr(a)), (IntKey(0), Arr(b))])) == b
    ensures RowsOf(ManyRows([(IntKey(1), Arr(a)), (IntKey(0), Arr(b))])) == [a, b]
  {
    var rs := [(IntKey(1), Arr(a)), (IntKey(0), Arr(b))];
    assert Lookup(rs, IntKey(0)) == Lookup(rs[1..], IntKey(0));
  }

  // ---------------------------------------------------------------------
  // update (lines 98-120)

  /** One `SET` assignment: a string ending in `<word>()` is taken as an SQL
      expression and inserted verbatim; everything else is quoted. A value
      that is not a string never takes the raw branch. */
  function SetEntry(k: Key, v: Value): Result<string> {
    var head := "`" + KeyText(k) + "` = ";
    if v.Str? && EndsWithCall(v.s) then Ok(head + v.s) else Prepend(head, Quote(v))
  }

  function SetEntries(pairs: Row): (r: Result<seq<string>>)
    ensures r.Ok? <==> forall j :: 0 <= j < |pairs| ==> SetEntry(pairs[j].0, pairs[j].1).Ok?
    ensures r.Ok? ==> |r.value| == |pairs|
    ensures r.Ok? ==> forall j :: 0 <= j < |pairs| ==> SetEntry(pairs[j].0, pairs[j].1) == Ok(r.value[j])
    decreases |pairs|
  {
    if pairs == [] then Ok([])
    else
      match SetEntry(pairs[0].0, pairs[0].1)
      case Err(e) => Err(e)
      case Ok(x) =>
        match SetEntries(pairs[1..])
        case Err(e) => Err(e)
        case Ok(xs) => Ok([x] + xs)
  }

  function SetsText(pairs: Row): Result<string> {
    match SetEntries(pairs)
    case Err(e) => Err(e)
    case Ok(xs) => Ok(Join(xs, ",\n  "))
  }

  /** Lines 104-115: the closure building the assignment list. */
  method SetList(pairs: Row) returns (r: Result<string>)
    ensures r == SetsText(pairs)
  {
    var t: seq<string> := [];
    for i := 0 to |pairs|
      invariant |t| == i
      invariant forall j :: 0 <= j < i ==> SetEntry(pairs[j].0, pairs[j].1) == Ok(t[j])
    {
      var key := pairs[i].0;
      var value := pairs[i].1;
      var head := "`" + KeyText(key) + "` = ";
      if value.Str? && EndsWithCall(value.s) {
        t := t + [head + value.s];
        continue;
      }
      var q := Quote(value);
      if q.Err? {
        QuoteContract(value);
        return Err(q.error);
      }
      t := t + [head + q.value];
    }
    var entries := SetEntries(pairs);
    assert entries.Ok?;
    assert forall j :: 0 <= j < |pairs| ==> entries.value[j] == t[j];
    assert entries.value == t;
    r := Ok(Join(t, ",\n  "));
  }

  /** `update($table, $pairs, $where, $limit)`: the statement text. The filter
      is rendered first, so its error wins over a value `quote` refuses. */
  function UpdateStatement(table: Table, pairs: Row, where: Value, limit: Value): Result<string>
    requires where.Arr? && LimitDefined(limit)
  {
    match Where(where, false)
    case Err(e) => Err(e)
    case Ok(w) =>
      match SetsText(pairs)
      case Err(e) => Err(e)
      case Ok(sets) => Ok("UPDATE " + TableName(table) + "\n SET\n  " + sets + w + GenLimit(limit) + ";")
  }

  method Update(table: Table, pairs: Row, where: Value, limit: Value) returns (r: Result<string>)
    requires where.Arr? && LimitDefined(limit)
    ensures r == UpdateStatement(table, pairs, where, limit)
  {
    var sqlWhere := GenWhere(where, false);
    if sqlWhere.Err? {
      return Err(sqlWhere.error);
    }
    var sqlLimit := GenLimit(limit);
    var sets := SetList(pairs);
    if sets.Err? {
      return Err(sets.error);
    }
    r := Ok("UPDATE " + TableName(table) + "\n SET\n  " + sets.value + sqlWhere.value + sqlLimit + ";");
  }

  /** The escape hatch: `now()` and the like go in verbatim. */
  lemma RawExpression(k: Key, s: string)
    requires EndsWithCall(s)
    ensures SetEntry(k, Str(s)) == Ok("`" + KeyText(k) + "` = " + s)
  {
  }

  /** Any other string is a quoted literal that reads back as the string, so
      it cannot inject SQL. */
  lemma QuotedAssignment(k: Key, s: string)
    requires !EndsWithCall(s)
    ensures var head := "`" + KeyText(k) + "` = ";
      && SetEntry(k, Str(s)).Ok?
      && var text := SetEntry(k, Str(s)).value;
      && |text| >= |head| + 2 && text[..|head|] == head
      && var lit := text[|head|..];
      && lit[0] == QuoteChar && lit[|lit| - 1] == QuoteChar
      && QuotesPaired(lit[1..|lit| - 1]) && Unescape(lit[1..|lit| - 1]) == s
  {
    QuoteContract(Str(s));
    var head := "`" + KeyText(k) + "` = ";
    var lit := Quote(Str(s)).value;
    assert (head + lit)[|head|..] == lit;
  }

  /** An update fails exactly when the filter fails, or else some value is a
      truthy non-scalar. */
  lemma UpdateFailsIff(table: Table, pairs: Row, where: Value, limit: Value)
    requires where.Arr? && LimitDefined(limit)
    ensures UpdateStatement(table, pairs, where, limit).Err?
            <==> || Where(where, false).Err?
                 || exists j :: 0 <= j < |pairs| && !IsScalar(pairs[j].1) && !Falsy(pairs[j].1)
  {
    forall j | 0 <= j < |pairs| {
      QuoteContract(pairs[j].1);
    }
  }

  // ---------------------------------------------------------------------
  // delete (lines 133-142)

  function DeleteStatement(table: Table, where: Value, limit: Value): Result<string>
    requires where.Arr? && LimitDefined(limit)
  {
    match Where(where, false)
    case Err(e) => Err(e)
    case Ok(w) => Ok("DELETE\n FROM " + TableName(table) + w + GenLimit(limit) + ";")
  }

  /** With no string key in the filter and no limit, a delete empties the
      whole table; otherwise the filter text follows the table name. */
  lemma DeleteFilter(table: Table, where: Value, limit: Value)
    requires where.Arr? && LimitDefined(limit)
    ensures StringKeyed(where.entries) == [] && Falsy(limit)
            ==> DeleteStatement(table, where, limit) == Ok("DELETE\n FROM " + TableName(table) + ";")
    ensures DeleteStatement(table, where, limit).Err? <==> Where(where, false).Err?
  {
    if StringKeyed(where.entries) == [] && Falsy(limit) {
      EmptyFilter(where, false);
      assert "DELETE\n FROM " + TableName(table) + "" + "" + ";" == "DELETE\n FROM " + TableName(table) + ";";
    }
  }

  // ---------------------------------------------------------------------
  // select (lines 157-191)

  /** Array elements are interpolated into the text, so they are scalars. */
  predicate Printable(v: Value) {
    v.Arr? ==> forall j :: 0 <= j < |v.entries| ==> IsScalar(v.entries[j].1)
  }

  /** Each element interpolated between backticks, in order. */
  function Backticked(es: seq<(Key, Value)>): seq<string>
    requires Printable(Arr(es))
  {
    seq(|es|, j requires 0 <= j < |es| => "`" + Text(es[j].1) + "`")
  }

  /** The column list: one name, a list of names, or `*` for anything else. */
  function SelectFields(fields: Value): string
    requires Printable(fields)
  {
    match fields
    case Str(s) => "`" + s + "`"
    case Arr(es) => Join(Backticked(es), ", ")
    case _ => "*"
  }

  /** One ORDER BY entry: `field[dir]` gives `` `field` dir``, anything else
      is a backticked name. */
  function OrderEntry(s: string): string {
    match Bracketed(s)
    case Some((field, dir)) => "`" + field + "` " + dir
    case None => "`" + s + "`"
  }

  function SelectOrder(order: Value): string
    requires Printable(order)
  {
    match order
    case Str(s) => "\n ORDER BY " + OrderEntry(s)
    case Arr(es) => "\n ORDER BY " + Join(seq(|es|, j requires 0 <= j < |es| => OrderEntry(Text(es[j].1))), ", ")
    case _ => ""
  }

  /** `select($table, $fields, $where, $order, $limit)`; `$where` is declared
      `array` with a null default. */
  function SelectStatement(table: Table, fields: Value, where: Value, order: Value, limit: Value): Result<string>
    requires Printable(fields) && Printable(order) && LimitDefined(limit)
    requires where.Null? || where.Arr?
  {
    match Where(where, false)
    case Err(e) => Err(e)
    case Ok(w) =>
      Ok("SELECT " + SelectFields(fields) + "\n FROM " + TableName(table) + w + SelectOrder(order)
         + GenLimit(limit) + ";")
  }

  /** An entry written as `field[dir]` renders as `` `field` dir``. */
  lemma OrderDirection(field: string, dir: string)
    requires field != [] && NoBrackets(field) && dir != [] && '\n' !in dir
    ensures OrderEntry(Annotated(field, dir)) == "`" + field + "` " + dir
  {
    AnnotatedRoundTrip(field, dir);
  }

  /** A bare field name renders as itself in backticks. */
  lemma OrderPlain(field: string)
    requires NoBrackets(field)
    ensures OrderEntry(field) == "`" + field + "`"
  {
  }

  /** A one-element field list is the same as the single name. */
  lemma OneFieldList(k: Key, name: string)
    ensures SelectFields(Arr([(k, Str(name))])) == SelectFields(Str(name))
  {
  }

  /** A list of names renders as the backticked names joined by `", "`. */
  lemma FieldListOfNames(es: seq<(Key, Value)>, names: seq<string>)
    requires |es| == |names|
    requires forall j :: 0 <= j < |es| ==> es[j].1 == Str(names[j])
    ensures SelectFields(Arr(es)) == Join(seq(|names|, j requires 0 <= j < |names| => "`" + names[j] + "`"), ", ")
  {
    var quoted := seq(|names|, j requires 0 <= j < |names| => "`" + names[j] + "`");
    assert Backticked(es) == quoted;
  }

  /** One more field appends `, ` and its backticked name to the list. */
  lemma FieldListSnoc(es: seq<(Key, Value)>, k: Key, name: string)
    requires es != [] && Printable(Arr(es))
    ensures Printable(Arr(es + [(k, Str(name))]))
    ensures SelectFields(Arr(es + [(k, Str(name))])) == SelectFields(Arr(es)) + ", " + ("`" + name + "`")
  {
    BacktickedSnoc(es, k, name);
    assert Backticked(es) != [] by {
      assert |Backticked(es)| == |es|;
    }
    JoinSnoc(Backticked(es), "`" + name + "`", ", ");
  }

  lemma BacktickedSnoc(es: seq<(Key, Value)>, k: Key, name: string)
    requires Printable(Arr(es))
    ensures Printable(Arr(es + [(k, Str(name))]))
    ensures Backticked(es + [(k, Str(name))]) == Backticked(es) + ["`" + name + "`"]
  {
    var es' := es + [(k, Str(name))];
    assert forall j :: 0 <= j < |es| ==> es'[j] == es[j];
    var after := Backticked(es');
    var before := Backticked(es) + ["`" + name + "`"];
    forall j | 0 <= j < |es'|
      ensures after[j] == before[j]
    {
      if j < |es| { assert es'[j] == es[j]; } else { assert es'[j].1 == Str(name); }
    }
  }

  /** The field `"*"` is a single name like any other, so it is backticked:
      the select asks for a column called `*`, not for every column. */
  lemma StarFieldIsQuoted(table: Table)
    ensures SelectStatement(table, Str("*"), Null, Null, Null) == Ok("SELECT `*`\n FROM " + TableName(table) + ";")
    ensures SelectFields(Str("*")) != SelectFields(Null)
  {
    SelectOnlyFields(table, Str("*"));
    assert SelectFields(Str("*")) == "`*`";
    assert "SELECT " + "`*`" + "\n FROM " == "SELECT `*`\n FROM ";
  }

  /** With nothing but a table, select reads every column of every row. */
  lemma SelectEverything(table: Table)
    ensures SelectStatement(table, Null, Null, Null, Null) == Ok("SELECT *\n FROM " + TableName(table) + ";")
  {
    SelectOnlyFields(table, Null);
    assert "SELECT " + "*" + "\n FROM " == "SELECT *\n FROM ";
  }

  /** Without filter, order or limit, a select is its field list and table. */
  lemma SelectOnlyFields(table: Table, fields: Value)
    requires Printable(fields)
    ensures SelectStatement(table, fields, Null, Null, Null)
            == Ok("SELECT " + SelectFields(fields) + "\n FROM " + TableName(table) + ";")
  {
    var head := "SELECT " + SelectFields(fields) + "\n FROM " + TableName(table);
    assert Where(Null, false) == Ok("");
    assert SelectOrder(Null) == "" && GenLimit(Null) == "";
    assert head + "" + "" + "" + ";" == head + ";";
  }
}
