/** The whole-table steps of the heatmap, as functions over sequences of
    rows: `groupby([...]).agg({'minutes': 'sum'}).reset_index()`,
    `itertools.product` and `pd.merge(..., how='left')`. */
module Tables {

  datatype Option<T> = None | Some(value: T)

  /** A (weekday, hour) key. */
  datatype Key = Key(day: int, hour: int)

  /** A keyed row with a minutes column: a contribution once its Weekday and
      Hour columns exist, or one row of a grouped sum. */
  datatype Entry = Entry(key: Key, minutes: real)

  /** A row of the merged table: its key and the value columns merged onto it so far
      (`NaN` is `None`). */
  datatype Row = Row(key: Key, cols: seq<Option<real>>)

  /** Lexicographic order on keys, the order `groupby` sorts its groups in. */
  predicate KeyLess(a: Key, b: Key)
  {
    a.day < b.day || (a.day == b.day && a.hour < b.hour)
  }

  /** Strictly increasing keys; in particular no key occurs twice. */
  predicate SortedKeys(rows: seq<Entry>)
  {
    forall i, j :: 0 <= i < j < |rows| ==> KeyLess(rows[i].key, rows[j].key)
  }

  predicate HasKey(rows: seq<Entry>, k: Key)
  {
    exists i :: 0 <= i < |rows| && rows[i].key == k
  }

  /** The reference meaning of a group's sum: the minutes of every row with key `k`. */
  function SumMatching(rows: seq<Entry>, k: Key): real
  {
    if rows == [] then 0.0
    else (if rows[0].key == k then rows[0].minutes else 0.0) + SumMatching(rows[1..], k)
  }

  /** Adds one row to sorted groups: into its own group when that exists, else as a new
      group at its sorted place. */
  function AddTo(groups: seq<Entry>, e: Entry): seq<Entry>
  {
    if groups == [] then [e]
    else if groups[0].key == e.key then [Entry(e.key, groups[0].minutes + e.minutes)] + groups[1..]
    else if KeyLess(e.key, groups[0].key) then [e] + groups
    else [groups[0]] + AddTo(groups[1..], e)
  }

  /** `groupby(['Weekday', 'Hour']).agg({'minutes': 'sum'}).reset_index()`, rows taken in order. */
  function GroupBySum(rows: seq<Entry>): seq<Entry>
  {
    if rows == [] then [] else AddTo(GroupBySum(rows[..|rows| - 1]), rows[|rows| - 1])
  }

  /** The right rows whose key is `k`, in order: what a left row with key `k` is joined with. */
  function Matches(right: seq<Entry>, k: Key): seq<Entry>
  {
    if right == [] then []
    else (if right[0].key == k then [right[0]] else []) + Matches(right[1..], k)
  }

  /** `pd.merge(left, right, how='left')` on the key: every left row is repeated once per
      matching right row with that row's minutes appended, or kept once with `NaN`
      appended when nothing matches. */
  function MergeLeft(left: seq<Row>, right: seq<Entry>): seq<Row>
  {
    if left == [] then []
    else
      var m := Matches(right, left[0].key);
      (if m == [] then [Row(left[0].key, left[0].cols + [None])]
       else seq(|m|, j requires 0 <= j < |m| => Row(left[0].key, left[0].cols + [Some(m[j].minutes)])))
      + MergeLeft(left[1..], right)
  }

  /** The value a left join on unique keys gives key `k`: the group's sum, or nothing. */
  function Cell(right: seq<Entry>, k: Key): Option<real>
  {
    if HasKey(right, k) then Some(SumMatching(right, k)) else None
  }

  /** `list(itertools.product(xs, ys))`: first component major, second minor. */
  function Product(xs: seq<int>, ys: seq<int>): seq<Key>
  {
    if xs == [] then []
    else seq(|ys|, j requires 0 <= j < |ys| => Key(xs[0], ys[j])) + Product(xs[1..], ys)
  }

  /** `list(range(n))`. */
  function Range(n: nat): seq<int>
  {
    seq(n, i => i)
  }

  lemma {:induction false} SumMatchingConcat(a: seq<Entry>, b: seq<Entry>, k: Key)
    ensures SumMatching(a + b, k) == SumMatching(a, k) + SumMatching(b, k)
  {
    if a == [] {
      assert a + b == b;
    } else {
      assert (a + b)[0] == a[0];
      assert (a + b)[1..] == a[1..] + b;
      SumMatchingConcat(a[1..], b, k);
    }
  }

  lemma HasKeyConcat(a: seq<Entry>, b: seq<Entry>, k: Key)
    ensures HasKey(a + b, k) <==> HasKey(a, k) || HasKey(b, k)
  {
    if HasKey(a + b, k) {
      var i :| 0 <= i < |a + b| && (a + b)[i].key == k;
      if i >= |a| { assert b[i - |a|].key == k; }
    }
    if HasKey(a, k) {
      var i :| 0 <= i < |a| && a[i].key == k;
      assert (a + b)[i].key == k;
    }
    if HasKey(b, k) {
      var i :| 0 <= i < |b| && b[i].key == k;
      assert (a + b)[|a| + i].key == k;
    }
  }

  lemma HasKeySingleton(e: Entry, k: Key)
    ensures HasKey([e], k) <==> k == e.key
  {
    assert [e][0] == e;
  }

  /** Summation does not depend on the order of the rows: swapping two neighbouring blocks,
      anywhere in the table, changes no group. */
  lemma CellConcatSwap(p: seq<Entry>, a: seq<Entry>, b: seq<Entry>, q: seq<Entry>, k: Key)
    ensures Cell(p + a + b + q, k) == Cell(p + b + a + q, k)
  {
    SumMatchingConcat(p + a + b, q, k);
    SumMatchingConcat(p + a, b, k);
    SumMatchingConcat(p, a, k);
    SumMatchingConcat(p + b + a, q, k);
    SumMatchingConcat(p + b, a, k);
    SumMatchingConcat(p, b, k);
    HasKeyConcat(p + a + b, q, k);
    HasKeyConcat(p + a, b, k);
    HasKeyConcat(p, a, k);
    HasKeyConcat(p + b + a, q, k);
    HasKeyConcat(p + b, a, k);
    HasKeyConcat(p, b, k);
  }

  lemma {:induction false} AbsentKey(rows: seq<Entry>, k: Key)
    requires !HasKey(rows, k)
    ensures SumMatching(rows, k) == 0.0 && Matches(rows, k) == []
  {
    if rows != [] {
      assert rows[0].key != k;
      forall i | 0 <= i < |rows[1..]| ensures rows[1..][i].key != k {
        assert rows[1..][i] == rows[i + 1];
      }
      AbsentKey(rows[1..], k);
    }
  }

  /** The value of a key in two blocks of rows together: both sums added, whichever
      block has the key, or nothing when neither has it. */
  function CombineCells(x: Option<real>, y: Option<real>): Option<real>
  {
    if x.None? then y else if y.None? then x else Some(x.value + y.value)
  }

  /** A key's value in two blocks is determined by its value in each. */
  lemma CellConcat(a: seq<Entry>, b: seq<Entry>, k: Key)
    ensures Cell(a + b, k) == CombineCells(Cell(a, k), Cell(b, k))
  {
    SumMatchingConcat(a, b, k);
    HasKeyConcat(a, b, k);
    if !HasKey(a, k) { AbsentKey(a, k); }
    if !HasKey(b, k) { AbsentKey(b, k); }
  }

  /** Adding a row adds its key and no other. */
  lemma {:induction false} AddToKeys(groups: seq<Entry>, e: Entry, k: Key)
    ensures HasKey(AddTo(groups, e), k) <==> HasKey(groups, k) || k == e.key
  {
    var r := AddTo(groups, e);
    HasKeySingleton(e, k);
    if groups == [] {
    } else if groups[0].key == e.key {
      var tail := groups[1..];
      assert r == [r[0]] + tail && groups == [groups[0]] + tail;
      HasKeyConcat([r[0]], tail, k);
      HasKeyConcat([groups[0]], tail, k);
      HasKeySingleton(r[0], k);
      HasKeySingleton(groups[0], k);
    } else if KeyLess(e.key, groups[0].key) {
      assert r == [e] + groups;
      HasKeyConcat([e], groups, k);
    } else {
      var tail := groups[1..];
      AddToKeys(tail, e, k);
      assert r == [groups[0]] + AddTo(tail, e) && groups == [groups[0]] + tail;
      HasKeyConcat([groups[0]], AddTo(tail, e), k);
      HasKeyConcat([groups[0]], tail, k);
    }
  }

  /** Adding a row adds its minutes to its own group and to no other. */
  lemma {:induction false} AddToSums(groups: seq<Entry>, e: Entry, k: Key)
    ensures SumMatching(AddTo(groups, e), k) == SumMatching(groups, k) + (if k == e.key then e.minutes else 0.0)
  {
    var r := AddTo(groups, e);
    if groups == [] {
      assert r[1..] == [];
    } else if groups[0].key == e.key {
      assert r[1..] == groups[1..];
    } else if KeyLess(e.key, groups[0].key) {
      assert r[1..] == groups;
    } else {
      AddToSums(groups[1..], e, k);
      assert r[1..] == AddTo(groups[1..], e);
    }
  }

  /** Adding a row to sorted groups keeps them sorted. */
  lemma {:induction false} AddToSorted(groups: seq<Entry>, e: Entry)
    requires SortedKeys(groups)
    ensures SortedKeys(AddTo(groups, e))
  {
    var r := AddTo(groups, e);
    if groups == [] {
    } else if groups[0].key == e.key {
      assert forall i :: 0 <= i < |r| ==> r[i].key == groups[i].key;
    } else if KeyLess(e.key, groups[0].key) {
      assert r == [e] + groups;
      forall i, j | 0 <= i < j < |r| ensures KeyLess(r[i].key, r[j].key) {
        assert r[j] == groups[j - 1];
        if i > 0 { assert r[i] == groups[i - 1]; }
        else { assert j - 1 == 0 || KeyLess(groups[0].key, groups[j - 1].key); }
      }
    } else {
      var tail := groups[1..];
      var rest := AddTo(tail, e);
      AddToSorted(tail, e);
      assert forall t :: 0 <= t < |tail| ==> tail[t] == groups[t + 1];
      AddToAbove(tail, e, groups[0].key);
      assert r == [groups[0]] + rest;
      forall i, j | 0 <= i < j < |r| ensures KeyLess(r[i].key, r[j].key) {
        assert r[j] == rest[j - 1];
        if i > 0 { assert r[i] == rest[i - 1]; }
      }
    }
  }

  /** Inserting a key above a bound into a table whose keys are all above it keeps them all above it. */
  lemma AddToAbove(groups: seq<Entry>, e: Entry, b: Key)
    requires forall t :: 0 <= t < |groups| ==> KeyLess(b, groups[t].key)
    requires KeyLess(b, e.key)
    ensures forall t :: 0 <= t < |AddTo(groups, e)| ==> KeyLess(b, AddTo(groups, e)[t].key)
  {
    var r := AddTo(groups, e);
    forall t | 0 <= t < |r| ensures KeyLess(b, r[t].key) {
      var k := r[t].key;
      assert HasKey(r, k);
      AddToKeys(groups, e, k);
      if k != e.key {
        var u :| 0 <= u < |groups| && groups[u].key == k;
      }
    }
  }

  /** The grouped table: keys sorted and unique, exactly the keys that occur
      in the rows, each group holding the sum of its rows' minutes. */
  lemma {:induction false} GroupBySumSpec(rows: seq<Entry>)
    ensures SortedKeys(GroupBySum(rows))
    ensures forall k :: HasKey(GroupBySum(rows), k) <==> HasKey(rows, k)
    ensures forall k :: SumMatching(GroupBySum(rows), k) == SumMatching(rows, k)
  {
    if rows != [] {
      var init, last := rows[..|rows| - 1], rows[|rows| - 1];
      assert rows == init + [last];
      GroupBySumSpec(init);
      AddToSorted(GroupBySum(init), last);
      forall k ensures HasKey(GroupBySum(rows), k) <==> HasKey(rows, k) {
        AddToKeys(GroupBySum(init), last, k);
        HasKeyConcat(init, [last], k);
        assert HasKey([last], k) <==> k == last.key;
      }
      forall k ensures SumMatching(GroupBySum(rows), k) == SumMatching(rows, k) {
        AddToSums(GroupBySum(init), last, k);
        SumMatchingConcat(init, [last], k);
      }
    }
  }

  /** On unique keys, a row's key finds at most that one row. */
  lemma {:induction false} MatchesUnique(right: seq<Entry>, k: Key)
    requires SortedKeys(right)
    ensures Matches(right, k) == if HasKey(right, k) then [Entry(k, SumMatching(right, k))] else []
  {
    if right == [] {
    } else if right[0].key == k {
      var tail := right[1..];
      forall t | 0 <= t < |tail| ensures tail[t].key != k {
        assert tail[t] == right[t + 1] && KeyLess(right[0].key, right[t + 1].key);
      }
      AbsentKey(tail, k);
      assert HasKey(right, k);
    } else {
      var tail := right[1..];
      assert SortedKeys(tail);
      MatchesUnique(tail, k);
      assert right == [right[0]] + tail;
      HasKeyConcat([right[0]], tail, k);
    }
  }

  /** What a left join finds in the grouped table for a key is what the key's rows add up to. */
  lemma GroupBySumCell(rows: seq<Entry>)
    ensures SortedKeys(GroupBySum(rows))
    ensures forall k :: Cell(GroupBySum(rows), k) == Cell(rows, k)
  {
    GroupBySumSpec(rows);
  }

  /** With unique right keys the left merge keeps the left table's rows, count and
      order, adding to each the value of its key's group or `NaN`. */
  lemma {:induction false} MergeLeftUnique(left: seq<Row>, right: seq<Entry>)
    requires SortedKeys(right)
    ensures |MergeLeft(left, right)| == |left|
    ensures forall i :: 0 <= i < |left| ==>
      MergeLeft(left, right)[i] == Row(left[i].key, left[i].cols + [Cell(right, left[i].key)])
  {
    if left != [] {
      MatchesUnique(right, left[0].key);
      MergeLeftUnique(left[1..], right);
      var head := Row(left[0].key, left[0].cols + [Cell(right, left[0].key)]);
      assert MergeLeft(left, right) == [head] + MergeLeft(left[1..], right);
    }
  }

  lemma {:induction false} ProductLength(xs: seq<int>, ys: seq<int>)
    ensures |Product(xs, ys)| == |xs| * |ys|
  {
    if xs != [] {
      ProductLength(xs[1..], ys);
      assert |xs| * |ys| == |ys| + (|xs| - 1) * |ys|;
    }
  }

  /** Position `i * |ys| + j` of the product holds `(xs[i], ys[j])`. */
  lemma {:induction false} ProductAt(xs: seq<int>, ys: seq<int>, i: nat, j: nat)
    requires i < |xs| && j < |ys|
    ensures i * |ys| + j < |Product(xs, ys)|
    ensures Product(xs, ys)[i * |ys| + j] == Key(xs[i], ys[j])
  {
    var head := seq(|ys|, j' requires 0 <= j' < |ys| => Key(xs[0], ys[j']));
    var tail := Product(xs[1..], ys);
    assert Product(xs, ys) == head + tail;
    if i == 0 {
      assert i * |ys| + j == j;
    } else {
      ProductAt(xs[1..], ys, i - 1, j);
      assert i * |ys| + j == |ys| + ((i - 1) * |ys| + j);
      assert xs[1..][i - 1] == xs[i];
    }
  }
}
