/** The reshaping of query answers into columns (`turn_to_df`): one list per key of the
    first answer, filled answer by answer, key by key. */
module CodexViz {
  import opened Wrappers

  /** One answer: a dict from column name to value, in its insertion order. */
  type Row<V> = seq<(string, V)>

  /** The dict `df_map` with its columns in the order they were created. */
  datatype Frame<V> = Frame(columns: seq<string>, data: map<string, seq<V>>)

  /** The keys of an answer, in order. */
  function KeysOf<V>(row: Row<V>): (ks: seq<string>)
    ensures |ks| == |row|
    ensures forall j | 0 <= j < |row| :: ks[j] == row[j].0
  {
    seq(|row|, j requires 0 <= j < |row| => row[j].0)
  }

  /** A Python dict never repeats a key. */
  predicate DistinctKeys<V>(row: Row<V>) {
    forall j, k | 0 <= j < k < |row| :: row[j].0 != row[k].0
  }

  /** `df_map[col] = []` for every column, in order. */
  function EmptyColumns<V>(cols: seq<string>): (m: map<string, seq<V>>)
    ensures m.Keys == set c | c in cols
    ensures forall c | c in m :: m[c] == []
  {
    if cols == [] then map[]
    else EmptyColumns<V>(cols[..|cols| - 1])[cols[|cols| - 1] := []]
  }

  /** `df_map[col].append(answer[col])` for the first `j` keys of one answer; a key
      that is not a column raises KeyError. */
  function AppendRow<V>(m: map<string, seq<V>>, row: Row<V>, j: nat): Result<map<string, seq<V>>>
    requires j <= |row|
  {
    if j == 0 then Ok(m)
    else
      var m' :- AppendRow(m, row, j - 1);
      var (k, v) := row[j - 1];
      if k in m' then Ok(m'[k := m'[k] + [v]]) else Err(KeyError(k))
  }

  /** The first `i` answers appended in turn. */
  function AppendRows<V>(m: map<string, seq<V>>, answers: seq<Row<V>>, i: nat): Result<map<string, seq<V>>>
    requires i <= |answers|
  {
    if i == 0 then Ok(m)
    else
      var m' :- AppendRows(m, answers, i - 1);
      AppendRow(m', answers[i - 1], |answers[i - 1]|)
  }

  /** What `turn_to_df` builds before handing it to pandas: None for no answers,
      otherwise the columns of the first answer filled from every answer. */
  function DfMap<V>(answers: seq<Row<V>>): Result<Option<Frame<V>>> {
    if |answers| == 0 then Ok(None)
    else
      var cols := KeysOf(answers[0]);
      var m :- AppendRows(EmptyColumns<V>(cols), answers, |answers|);
      Ok(Some(Frame(cols, m)))
  }

  /** A failure part-way stays the failure of the whole run. */
  lemma {:induction false} AppendRowsErrStays<V>(m: map<string, seq<V>>, answers: seq<Row<V>>, i: nat, n: nat)
    requires i <= n <= |answers|
    requires AppendRows(m, answers, i).Err?
    ensures AppendRows(m, answers, n) == AppendRows(m, answers, i)
  {
    if n > i {
      AppendRowsErrStays(m, answers, i, n - 1);
    }
  }

  lemma {:induction false} AppendRowErrStays<V>(m: map<string, seq<V>>, row: Row<V>, j: nat, n: nat)
    requires j <= n <= |row|
    requires AppendRow(m, row, j).Err?
    ensures AppendRow(m, row, n) == AppendRow(m, row, j)
  {
    if n > j {
      AppendRowErrStays(m, row, j, n - 1);
    }
  }

  /** `turn_to_df`: creates the empty columns, then appends every value of every answer
      to the column of its key. */
  method TurnToDf<V>(answers: seq<Row<V>>) returns (r: Result<Option<Frame<V>>>)
    ensures r == DfMap(answers)
  {
    if |answers| == 0 {
      return Ok(None);
    }
    var cols := KeysOf(answers[0]);
    var dfMap: map<string, seq<V>> := map[];
    var c := 0;
    while c < |cols|
      invariant 0 <= c <= |cols|
      invariant dfMap == EmptyColumns<V>(cols[..c])
    {
      assert cols[..c + 1][..c] == cols[..c];
      dfMap := dfMap[cols[c] := []];
      c := c + 1;
    }
    assert cols[..c] == cols;
    ghost var init := dfMap;
    var i := 0;
    while i < |answers|
      invariant 0 <= i <= |answers|
      invariant AppendRows(init, answers, i) == Ok(dfMap)
    {
      var answer := answers[i];
      ghost var start := dfMap;
      var j := 0;
      while j < |answer|
        invariant 0 <= j <= |answer|
        invariant AppendRow(start, answer, j) == Ok(dfMap)
      {
        var col := answer[j].0;
        if col !in dfMap {
          assert AppendRow(start, answer, j + 1) == Err(KeyError(col));
          AppendRowErrStays(start, answer, j + 1, |answer|);
          assert AppendRows(init, answers, i + 1) == Err(KeyError(col));
          AppendRowsErrStays(init, answers, i + 1, |answers|);
          return Err(KeyError(col));
        }
        dfMap := dfMap[col := dfMap[col] + [answer[j].1]];
        j := j + 1;
      }
      i := i + 1;
    }
    r := Ok(Some(Frame(cols, dfMap)));
  }
}

module CodexVizProps {
  import opened Wrappers
  import opened CodexViz

  /** No answers, no frame. */
  lemma NoAnswersNoFrame<V>()
    ensures DfMap<V>([]) == Ok(None)
  {
  }

  /** The values a row holds under key `c`, in order (at most one for a dict). */
  function Hits<V>(row: Row<V>, c: string): seq<V> {
    if row == [] then []
    else Hits(row[..|row| - 1], c) + (if row[|row| - 1].0 == c then [row[|row| - 1].1] else [])
  }

  /** Everything the answers hold under key `c`, answer after answer. */
  function ColumnOf<V>(answers: seq<Row<V>>, c: string): seq<V> {
    if answers == [] then []
    else ColumnOf(answers[..|answers| - 1], c) + Hits(answers[|answers| - 1], c)
  }

  /** Appending keeps the set of columns and extends each column by the row's values for it. */
  lemma {:induction false} AppendRowSpec<V>(m: map<string, seq<V>>, row: Row<V>, j: nat)
    requires j <= |row|
    requires AppendRow(m, row, j).Ok?
    ensures AppendRow(m, row, j).value.Keys == m.Keys
    ensures forall c | c in m :: AppendRow(m, row, j).value[c] == m[c] + Hits(row[..j], c)
  {
    if j > 0 {
      AppendRowSpec(m, row, j - 1);
      assert row[..j][..j - 1] == row[..j - 1];
    } else {
      assert forall c | c in m :: Hits(row[..0], c) == [];
    }
  }

  lemma {:induction false} AppendRowsSpec<V>(m: map<string, seq<V>>, answers: seq<Row<V>>, i: nat)
    requires i <= |answers|
    requires AppendRows(m, answers, i).Ok?
    ensures AppendRows(m, answers, i).value.Keys == m.Keys
    ensures forall c | c in m :: AppendRows(m, answers, i).value[c] == m[c] + ColumnOf(answers[..i], c)
  {
    if i > 0 {
      AppendRowsSpec(m, answers, i - 1);
      var m' := AppendRows(m, answers, i - 1).value;
      var row := answers[i - 1];
      AppendRowSpec(m', row, |row|);
      assert row[..|row|] == row;
      assert answers[..i][..i - 1] == answers[..i - 1];
      forall c | c in m
        ensures AppendRows(m, answers, i).value[c] == m[c] + ColumnOf(answers[..i], c)
      {
        assert ColumnOf(answers[..i], c) == ColumnOf(answers[..i - 1], c) + Hits(row, c);
      }
    }
  }

  /** The columns are the keys of the first answer, in its order, and column `c` holds
      every value the answers have under `c`, answer after answer. */
  lemma FrameColumns<V>(answers: seq<Row<V>>)
    requires |answers| > 0 && DfMap(answers).Ok?
    ensures DfMap(answers).value.Some?
    ensures var f := DfMap(answers).value.value;
      && f.columns == KeysOf(answers[0])
      && f.data.Keys == set c | c in f.columns
      && forall c | c in f.data :: f.data[c] == ColumnOf(answers, c)
  {
    var cols := KeysOf(answers[0]);
    AppendRowsSpec(EmptyColumns<V>(cols), answers, |answers|);
    assert answers[..|answers|] == answers;
  }

  /** Appending succeeds exactly when every key of the row is already a column. */
  lemma {:induction false} AppendRowOk<V>(m: map<string, seq<V>>, row: Row<V>, j: nat)
    requires j <= |row|
    ensures AppendRow(m, row, j).Ok? <==> forall k | 0 <= k < j :: row[k].0 in m
    ensures AppendRow(m, row, j).Err? ==>
      AppendRow(m, row, j).error.KeyError? && AppendRow(m, row, j).error.key !in m
  {
    if j > 0 {
      AppendRowOk(m, row, j - 1);
      if AppendRow(m, row, j - 1).Ok? {
        AppendRowSpec(m, row, j - 1);
      }
    }
  }

  lemma {:induction false} AppendRowsOk<V>(m: map<string, seq<V>>, answers: seq<Row<V>>, i: nat)
    requires i <= |answers|
    ensures AppendRows(m, answers, i).Ok? <==>
      forall a, k | 0 <= a < i && 0 <= k < |answers[a]| :: answers[a][k].0 in m
    ensures AppendRows(m, answers, i).Err? ==>
      AppendRows(m, answers, i).error.KeyError? && AppendRows(m, answers, i).error.key !in m
  {
    if i > 0 {
      AppendRowsOk(m, answers, i - 1);
      if AppendRows(m, answers, i - 1).Ok? {
        var m' := AppendRows(m, answers, i - 1).value;
        AppendRowsSpec(m, answers, i - 1);
        AppendRowOk(m', answers[i - 1], |answers[i - 1]|);
      }
    }
  }

  /** `turn_to_df` fails exactly when some answer has a key the first answer lacks, and
      the failure is a KeyError on such a key. */
  lemma UnknownKeyFails<V>(answers: seq<Row<V>>)
    requires |answers| > 0
    ensures DfMap(answers).Err? <==>
      exists a, k | 0 <= a < |answers| && 0 <= k < |answers[a]| :: answers[a][k].0 !in KeysOf(answers[0])
    ensures DfMap(answers).Err? ==>
      DfMap(answers).error.KeyError? && DfMap(answers).error.key !in KeysOf(answers[0])
  {
    var cols := KeysOf(answers[0]);
    var m := EmptyColumns<V>(cols);
    AppendRowsOk(m, answers, |answers|);
  }

  /** With distinct keys a row holds one value under each of its keys and none under others. */
  lemma {:induction false} HitsOfDict<V>(row: Row<V>, c: string)
    requires DistinctKeys(row)
    ensures c !in KeysOf(row) ==> Hits(row, c) == []
    ensures c in KeysOf(row) ==> |Hits(row, c)| == 1
  {
    if row != [] {
      var init := row[..|row| - 1];
      assert DistinctKeys(init);
      HitsOfDict(init, c);
      assert forall k | 0 <= k < |init| :: KeysOf(init)[k] == KeysOf(row)[k];
      if row[|row| - 1].0 == c {
        assert c !in KeysOf(init);
      } else if c in KeysOf(row) {
        var k :| 0 <= k < |row| && KeysOf(row)[k] == c;
        assert KeysOf(init)[k] == c;
      }
    }
  }

  /** Column entry `a` of answers with one value each is the value answer `a` holds. */
  lemma {:induction false} ColumnOfUniform<V>(answers: seq<Row<V>>, c: string)
    requires forall a | 0 <= a < |answers| :: |Hits(answers[a], c)| == 1
    ensures |ColumnOf(answers, c)| == |answers|
    ensures forall a | 0 <= a < |answers| :: Hits(answers[a], c) == [ColumnOf(answers, c)[a]]
  {
    if answers != [] {
      var init := answers[..|answers| - 1];
      var last := answers[|answers| - 1];
      forall a | 0 <= a < |init|
        ensures |Hits(init[a], c)| == 1
      {
        assert init[a] == answers[a];
      }
      ColumnOfUniform(init, c);
      var prefix := ColumnOf(init, c);
      var col := ColumnOf(answers, c);
      assert col == prefix + Hits(last, c);
      forall a | 0 <= a < |answers|
        ensures Hits(answers[a], c) == [col[a]]
      {
        if a < |init| {
          assert init[a] == answers[a];
          assert col[a] == prefix[a];
        } else {
          assert col[a] == Hits(last, c)[0];
        }
      }
    }
  }

  /** Column `c` is no longer than the answers, and shorter when some answer lacks `c`. */
  lemma {:induction false} ColumnOfLength<V>(answers: seq<Row<V>>, c: string)
    requires forall a | 0 <= a < |answers| :: DistinctKeys(answers[a])
    ensures |ColumnOf(answers, c)| <= |answers|
    ensures (exists a | 0 <= a < |answers| :: c !in KeysOf(answers[a])) ==> |ColumnOf(answers, c)| < |answers|
  {
    if answers != [] {
      var init := answers[..|answers| - 1];
      var last := answers[|answers| - 1];
      ColumnOfLength(init, c);
      HitsOfDict(last, c);
      if exists a | 0 <= a < |answers| :: c !in KeysOf(answers[a]) {
        var a :| 0 <= a < |answers| && c !in KeysOf(answers[a]);
        if a < |init| {
          assert init[a] == answers[a];
        }
      }
    }
  }

  /** Two answers with the same keys, in any order. */
  ghost predicate SameKeys<V>(row: Row<V>, other: Row<V>) {
    forall c :: c in KeysOf(row) <==> c in KeysOf(other)
  }

  /** When every answer has exactly the keys of the first, every column has one entry
      per answer, and entry `a` of column `c` is the value of `c` in answer `a`. */
  lemma UniformAnswers<V>(answers: seq<Row<V>>)
    requires |answers| > 0
    requires forall a | 0 <= a < |answers| :: DistinctKeys(answers[a])
    requires forall a | 0 <= a < |answers| :: SameKeys(answers[a], answers[0])
    ensures DfMap(answers).Ok? && DfMap(answers).value.Some?
    ensures var f := DfMap(answers).value.value;
      forall c | c in f.data ::
        && |f.data[c]| == |answers|
        && forall a | 0 <= a < |answers| :: Hits(answers[a], c) == [f.data[c][a]]
  {
    var cols := KeysOf(answers[0]);
    forall a, k | 0 <= a < |answers| && 0 <= k < |answers[a]|
      ensures answers[a][k].0 in cols
    {
      assert KeysOf(answers[a])[k] == answers[a][k].0;
      assert SameKeys(answers[a], answers[0]);
    }
    UnknownKeyFails(answers);
    FrameColumns(answers);
    var f := DfMap(answers).value.value;
    forall c | c in f.data
      ensures |f.data[c]| == |answers|
      ensures forall a | 0 <= a < |answers| :: Hits(answers[a], c) == [f.data[c][a]]
    {
      forall a | 0 <= a < |answers|
        ensures |Hits(answers[a], c)| == 1
      {
        assert SameKeys(answers[a], answers[0]);
        assert c in KeysOf(answers[a]);
        HitsOfDict(answers[a], c);
      }
      ColumnOfUniform(answers, c);
    }
  }

  /** An answer missing a column's key leaves that column shorter than the answers. */
  lemma MissingKeyShortensColumn<V>(answers: seq<Row<V>>, c: string, a: nat)
    requires |answers| > 0 && DfMap(answers).Ok?
    requires forall b | 0 <= b < |answers| :: DistinctKeys(answers[b])
    requires c in KeysOf(answers[0])
    requires a < |answers| && c !in KeysOf(answers[a])
    ensures var f := DfMap(answers).value.value;
      c in f.data && |f.data[c]| < |answers|
  {
    FrameColumns(answers);
    ColumnOfLength(answers, c);
  }
}
