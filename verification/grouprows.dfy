/** The template functions group_rows and group_map_rows. */
module GroupRows {
  import opened Wrappers
  import opened Sorting

  // ---------- buckets ----------

  /** The non-empty buckets below n, in order. */
  ghost function Groups<T>(rows: seq<T>, key: T -> int, n: nat): seq<seq<T>> {
    if n == 0 then []
    else
      var bucket := WithKey(rows, key, n - 1);
      if bucket == [] then Groups(rows, key, n - 1) else Groups(rows, key, n - 1) + [bucket]
  }

  ghost function Flatten<T>(groups: seq<seq<T>>): seq<T> {
    if groups == [] then [] else Flatten(groups[..|groups| - 1]) + groups[|groups| - 1]
  }

  lemma {:induction false} WithKeyConcat<T>(s: seq<T>, t: seq<T>, key: T -> int, k: int)
    ensures WithKey(s + t, key, k) == WithKey(s, key, k) + WithKey(t, key, k)
  {
    if t == [] {
      assert s + t == s;
    } else {
      var front, last := t[..|t| - 1], t[|t| - 1];
      WithKeyConcat(s, front, key, k);
      assert s + t == (s + front) + [last] && t == front + [last];
      WithKeyAppend(s + front, last, key, k);
      WithKeyAppend(front, last, key, k);
    }
  }

  lemma {:induction false} WithKeyConstant<T>(s: seq<T>, key: T -> int, k: int)
    ensures forall i :: 0 <= i < |WithKey(s, key, k)| ==> key(WithKey(s, key, k)[i]) == k
  {
    if s != [] {
      WithKeyConstant(s[..|s| - 1], key, k);
    }
  }

  lemma {:induction false} WithKeyTwice<T>(s: seq<T>, key: T -> int, k: int, l: int)
    ensures WithKey(WithKey(s, key, k), key, l) == if k == l then WithKey(s, key, k) else []
  {
    if s != [] {
      var front, last := s[..|s| - 1], s[|s| - 1];
      WithKeyTwice(front, key, k, l);
      WithKeyAppend(WithKey(front, key, k), last, key, l);
      assert WithKey(front, key, k) + [] == WithKey(front, key, k);
    }
  }

  ghost predicate KeysBelow<T>(s: seq<T>, key: T -> int, n: int) {
    forall i :: 0 <= i < |s| ==> key(s[i]) < n
  }

  lemma SortedConcat<T>(s: seq<T>, t: seq<T>, key: T -> int, k: int)
    requires Sorted(s, key) && KeysBelow(s, key, k)
    requires forall i :: 0 <= i < |t| ==> key(t[i]) == k
    ensures Sorted(s + t, key) && KeysBelow(s + t, key, k + 1)
  {
  }

  /** The rows of the buckets below n, bucket after bucket. */
  ghost function Flat<T>(rows: seq<T>, key: T -> int, n: nat): seq<T> {
    if n == 0 then [] else Flat(rows, key, n - 1) + WithKey(rows, key, n - 1)
  }

  lemma {:induction false} FlattenIsFlat<T>(rows: seq<T>, key: T -> int, n: nat)
    ensures Flatten(Groups(rows, key, n)) == Flat(rows, key, n)
    decreases n
  {
    if n > 0 {
      FlattenIsFlat(rows, key, n - 1);
      var before, bucket := Groups(rows, key, n - 1), WithKey(rows, key, n - 1);
      if bucket == [] {
        assert Flatten(before) + bucket == Flatten(before);
      } else {
        assert (before + [bucket])[..|before|] == before;
      }
    }
  }

  lemma BucketSorted<T>(rows: seq<T>, key: T -> int, front: seq<T>, k: int)
    requires Sorted(front, key) && KeysBelow(front, key, k)
    ensures Sorted(front + WithKey(rows, key, k), key) && KeysBelow(front + WithKey(rows, key, k), key, k + 1)
  {
    WithKeyConstant(rows, key, k);
    SortedConcat(front, WithKey(rows, key, k), key, k);
  }

  lemma BucketWithKey<T>(rows: seq<T>, key: T -> int, front: seq<T>, b: int, k: int)
    ensures WithKey(front + WithKey(rows, key, b), key, k) ==
      WithKey(front, key, k) + if k == b then WithKey(rows, key, k) else []
  {
    WithKeyConcat(front, WithKey(rows, key, b), key, k);
    WithKeyTwice(rows, key, b, k);
  }

  lemma {:induction false} FlatSorted<T>(rows: seq<T>, key: T -> int, n: nat)
    ensures Sorted(Flat(rows, key, n), key) && KeysBelow(Flat(rows, key, n), key, n)
    decreases n
  {
    if n > 0 {
      FlatSorted(rows, key, n - 1);
      BucketSorted(rows, key, Flat(rows, key, n - 1), n - 1);
    }
  }

  /** What the buckets below n keep of the rows with key k: all, in order, or nothing. */
  ghost predicate Keeps<T>(flat: seq<T>, rows: seq<T>, key: T -> int, n: nat, k: int) {
    WithKey(flat, key, k) == if 0 <= k < n then WithKey(rows, key, k) else []
  }

  lemma KeepsNext<T>(front: seq<T>, rows: seq<T>, key: T -> int, n: nat, k: int)
    requires Keeps(front, rows, key, n, k)
    ensures Keeps(front + WithKey(rows, key, n), rows, key, n + 1, k)
  {
    BucketWithKey(rows, key, front, n, k);
    assert k == n ==> WithKey(front, key, k) == [];
  }

  lemma {:induction false} FlatKeeps<T>(rows: seq<T>, key: T -> int, n: nat, k: int)
    ensures Keeps(Flat(rows, key, n), rows, key, n, k)
    decreases n
  {
    if n > 0 {
      FlatKeeps(rows, key, n - 1, k);
      KeepsNext(Flat(rows, key, n - 1), rows, key, n - 1, k);
    }
  }

  /** The keys below n that occur, in increasing order. */
  ghost function GroupKeys<T>(rows: seq<T>, key: T -> int, n: nat): (ks: seq<int>)
    ensures forall i :: 0 <= i < |ks| ==> 0 <= ks[i] < n
    ensures forall i, j :: 0 <= i < j < |ks| ==> ks[i] < ks[j]
  {
    if n == 0 then []
    else if WithKey(rows, key, n - 1) == [] then GroupKeys(rows, key, n - 1)
    else GroupKeys(rows, key, n - 1) + [n - 1]
  }

  lemma {:induction false} GroupsByKey<T>(rows: seq<T>, key: T -> int, n: nat)
    ensures |Groups(rows, key, n)| == |GroupKeys(rows, key, n)|
    ensures forall g :: 0 <= g < |Groups(rows, key, n)| ==>
      Groups(rows, key, n)[g] == WithKey(rows, key, GroupKeys(rows, key, n)[g])
    ensures forall g :: 0 <= g < |Groups(rows, key, n)| ==> Groups(rows, key, n)[g] != []
    decreases n
  {
    if n > 0 {
      GroupsByKey(rows, key, n - 1);
    }
  }

  /** Each group is non-empty and has one key, and the keys increase strictly from group to group. */
  lemma GroupsIncrease<T>(rows: seq<T>, key: T -> int, n: nat)
    ensures var groups, ks := Groups(rows, key, n), GroupKeys(rows, key, n);
      && |groups| == |ks|
      && (forall g :: 0 <= g < |groups| ==> groups[g] != [])
      && (forall g, i :: 0 <= g < |groups| && 0 <= i < |groups[g]| ==> key(groups[g][i]) == ks[g])
      && (forall g, h :: 0 <= g < h < |groups| ==> ks[g] < ks[h])
  {
    GroupsByKey(rows, key, n);
    var groups, ks := Groups(rows, key, n), GroupKeys(rows, key, n);
    forall g, i | 0 <= g < |groups| && 0 <= i < |groups[g]| ensures key(groups[g][i]) == ks[g] {
      WithKeyConstant(rows, key, ks[g]);
    }
  }

  /** A value of a row; only int64 and string columns can group. */
  datatype Cell = Int(i: int) | Text(s: string) | Other

  type Row = map<string, Cell>

  const BUCKETS: nat := 1000

  // ---------- group_rows ----------

  /** An index of 0 or less is an error, and so is the panic of one beyond the last bucket. */
  predicate CanGroup(row: Row, column: string) {
    column in row && row[column].Int? && 0 < row[column].i < BUCKETS
  }

  function KeyOf(column: string): Row -> int {
    (row: Row) => if column in row && row[column].Int? then row[column].i else 0
  }

  ghost predicate AllGroup(rows: seq<Row>, column: string) {
    forall i :: 0 <= i < |rows| ==> CanGroup(rows[i], column)
  }

  /** In terms of the rows: the groups in the order of the column, each with its rows as they stood. */
  ghost predicate GroupedBy(groups: seq<seq<Row>>, rows: seq<Row>, column: string, p: seq<int>) {
    var flat := Flatten(groups);
    && (forall i :: 0 <= i < |rows| ==> column in rows[i] && rows[i][column].Int?)
    && |p| == |rows| == |flat| && (forall k :: 0 <= k < |p| ==> 0 <= p[k] < |rows| && flat[k] == rows[p[k]])
    && (forall k, l :: 0 <= k < l < |p| ==>
          || rows[p[k]][column].i < rows[p[l]][column].i
          || (rows[p[k]][column].i == rows[p[l]][column].i && p[k] < p[l]))
    && (forall g :: 0 <= g < |groups| ==> groups[g] != [])
    && (forall g, k :: 0 <= g < |groups| && 0 <= k < |groups[g]| ==> column in groups[g][k] && groups[g][k][column].Int?)
    && (forall g, k, l :: 0 <= g < |groups| && 0 <= k < l < |groups[g]| ==>
          groups[g][k][column].i == groups[g][l][column].i)
    && (forall g, h, k, l :: 0 <= g < h < |groups| && 0 <= k < |groups[g]| && 0 <= l < |groups[h]| ==>
          groups[g][k][column].i < groups[h][l][column].i)
  }

  lemma {:induction false} WithKeyMembers<T>(s: seq<T>, key: T -> int, k: int)
    ensures forall i :: 0 <= i < |WithKey(s, key, k)| ==> WithKey(s, key, k)[i] in s
  {
    if s != [] {
      WithKeyMembers(s[..|s| - 1], key, k);
    }
  }

  lemma GroupMembers(rows: seq<Row>, column: string)
    requires AllGroup(rows, column)
    ensures var groups := Groups(rows, KeyOf(column), BUCKETS);
      forall g, k :: 0 <= g < |groups| && 0 <= k < |groups[g]| ==> CanGroup(groups[g][k], column)
  {
    var key := KeyOf(column);
    var groups, ks := Groups(rows, key, BUCKETS), GroupKeys(rows, key, BUCKETS);
    GroupsByKey(rows, key, BUCKETS);
    forall g, k | 0 <= g < |groups| && 0 <= k < |groups[g]| ensures CanGroup(groups[g][k], column) {
      WithKeyMembers(rows, key, ks[g]);
      assert WithKey(rows, key, ks[g])[k] in rows;
    }
  }

  lemma GroupsMean(rows: seq<Row>, column: string) returns (p: seq<int>)
    requires AllGroup(rows, column)
    ensures GroupedBy(Groups(rows, KeyOf(column), BUCKETS), rows, column, p)
  {
    var key := KeyOf(column);
    GroupRowsSorts(rows, column);
    p := SortPositions(rows, key);
    GroupsIncrease(rows, key, BUCKETS);
    GroupMembers(rows, column);
    assert forall i :: 0 <= i < |rows| ==> CanGroup(rows[i], column) && key(rows[i]) == rows[i][column].i;
    var groups: seq<seq<Row>> := Groups(rows, key, BUCKETS);
    assert forall g, k :: 0 <= g < |groups| && 0 <= k < |groups[g]| ==>
      CanGroup(groups[g][k], column) && key(groups[g][k]) == groups[g][k][column].i;
  }

  method GroupRows(column: string, rows: seq<Row>) returns (groups: Option<seq<seq<Row>>>)
    ensures groups.Some? <==>
      forall i :: 0 <= i < |rows| ==> column in rows[i] && rows[i][column].Int? && 1 <= rows[i][column].i <= 999
    ensures groups.Some? ==> exists p :: GroupedBy(groups.value, rows, column, p)
    ensures groups.Some? ==> groups.value == Groups(rows, KeyOf(column), BUCKETS)
  {
    var key := KeyOf(column);
    var grouped := new seq<Row>[BUCKETS](_ => []);
    for i := 0 to |rows|
      invariant AllGroup(rows[..i], column)
      invariant forall k :: 0 <= k < BUCKETS ==> grouped[k] == WithKey(rows[..i], key, k)
    {
      var row := rows[i];
      if !CanGroup(row, column) {
        assert !(column in rows[i] && rows[i][column].Int? && 1 <= rows[i][column].i <= 999);
        return None;
      }
      assert rows[..i + 1] == rows[..i] + [row];
      forall k ensures WithKey(rows[..i + 1], key, k) == WithKey(rows[..i], key, k) + if key(row) == k then [row] else [] {
        WithKeyAppend(rows[..i], row, key, k);
      }
      grouped[row[column].i] := grouped[row[column].i] + [row];
    }
    assert rows[..|rows|] == rows;
    var g: seq<seq<Row>> := [];
    for k := 0 to BUCKETS
      invariant g == Groups(rows, key, k)
    {
      if |grouped[k]| > 0 {
        g := g + [grouped[k]];
      }
    }
    ghost var p := GroupsMean(rows, column);
    return Some(g);
  }

  lemma {:induction false} NoOtherKeys(rows: seq<Row>, column: string, k: int)
    requires AllGroup(rows, column) && !(0 <= k < BUCKETS)
    ensures WithKey(rows, KeyOf(column), k) == []
  {
    if rows != [] {
      NoOtherKeys(rows[..|rows| - 1], column, k);
    }
  }

  /** group_rows is a stable sort: flattened, the groups are the rows sorted by the column, equal ones in order. */
  lemma GroupRowsSorts(rows: seq<Row>, column: string)
    requires AllGroup(rows, column)
    ensures Flatten(Groups(rows, KeyOf(column), BUCKETS)) == Sort(rows, KeyOf(column))
  {
    var key := KeyOf(column);
    var flat := Flat(rows, key, BUCKETS);
    FlattenIsFlat(rows, key, BUCKETS);
    FlatSorted(rows, key, BUCKETS);
    SortSorted(rows, key);
    forall k ensures WithKey(flat, key, k) == WithKey(Sort(rows, key), key, k) {
      SortStable(rows, key, k);
      FlatKeeps(rows, key, BUCKETS, k);
      if !(0 <= k < BUCKETS) {
        NoOtherKeys(rows, column, k);
      }
    }
    SortUnique(flat, Sort(rows, key), key);
  }

  // ---------- group_map_rows ----------

  predicate HasText(row: Row, column: string, text: string) {
    column in row && row[column] == Text(text)
  }

  /** The rows with this text in the column, in order. */
  ghost function WithText(rows: seq<Row>, column: string, text: string): seq<Row> {
    if rows == [] then []
    else
      var front, last := WithText(rows[..|rows| - 1], column, text), rows[|rows| - 1];
      if HasText(last, column, text) then front + [last] else front
  }

  ghost predicate AtPositions(group: seq<Row>, f: seq<nat>, rows: seq<Row>) {
    && |f| == |group|
    && (forall k, l :: 0 <= k < l < |f| ==> f[k] < f[l])
    && (forall k :: 0 <= k < |f| ==> f[k] < |rows| && group[k] == rows[f[k]])
  }

  lemma NextPosition(group: seq<Row>, f: seq<nat>, rows: seq<Row>, row: Row)
    requires AtPositions(group, f, rows)
    ensures AtPositions(group, f, rows + [row])
    ensures AtPositions(group + [row], f + [|rows|], rows + [row])
  {
  }

  /** The rows with a text are those at the positions that hold it, in order. */
  lemma {:induction false} TextPositions(rows: seq<Row>, column: string, text: string) returns (f: seq<nat>)
    ensures AtPositions(WithText(rows, column, text), f, rows)
    ensures forall i: nat :: i in f <==> i < |rows| && column in rows[i] && rows[i][column] == Text(text)
  {
    if rows == [] {
      f := [];
    } else {
      var n := |rows| - 1;
      var front := TextPositions(rows[..n], column, text);
      assert rows == rows[..n] + [rows[n]];
      NextPosition(WithText(rows[..n], column, text), front, rows[..n], rows[n]);
      f := if HasText(rows[n], column, text) then front + [n] else front;
    }
  }

  /** One group per text that occurs, each holding its rows in order. */
  method GroupMapRows(column: string, rows: seq<Row>) returns (groups: Option<map<string, seq<Row>>>)
    ensures groups.Some? <==> forall i :: 0 <= i < |rows| ==> column in rows[i] && rows[i][column].Text?
    ensures groups.Some? ==>
      forall t :: (t in groups.value <==> WithText(rows, column, t) != []) &&
                  (t in groups.value ==> groups.value[t] == WithText(rows, column, t))
  {
    var grouped: map<string, seq<Row>> := map[];
    for i := 0 to |rows|
      invariant forall j :: 0 <= j < i ==> column in rows[j] && rows[j][column].Text?
      invariant forall t :: t in grouped <==> WithText(rows[..i], column, t) != []
      invariant forall t :: t in grouped ==> grouped[t] == WithText(rows[..i], column, t)
    {
      var row := rows[i];
      if column !in row || !row[column].Text? {
        return None;
      }
      assert rows[..i + 1][..i] == rows[..i];
      var text := row[column].s;
      grouped := grouped[text := (if text in grouped then grouped[text] else []) + [row]];
    }
    assert rows[..|rows|] == rows;
    return Some(grouped);
  }
}
