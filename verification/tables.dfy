/** The dictionaries the two `plot_blocks.py` scripts fill from CSV rows,
    and the plotted series read from them.

    `results[key] = value` applied row by row leaves, for each key, the value
    of the last row with that key; `plot_blocks.py` of the block experiment
    nests this under the policy name. */
module Tables {

  /** `for k, v in rows: results[k] = v`, starting from `{}`. */
  function LastWins<K, V>(rows: seq<(K, V)>): (m: map<K, V>)
    ensures m.Keys == set i | 0 <= i < |rows| :: rows[i].0
    decreases |rows|
  {
    if |rows| == 0 then map[]
    else
      var last := rows[|rows| - 1];
      LastWins(rows[..|rows| - 1])[last.0 := last.1]
  }

  /** Row `i` is the last one with its key. */
  predicate IsLastFor<K(==), V>(rows: seq<(K, V)>, i: int)
  {
    0 <= i < |rows| && forall j :: i < j < |rows| ==> rows[j].0 != rows[i].0
  }

  /** Every key is bound to the value of its last row. */
  lemma {:induction false} LastWinsValue<K, V>(rows: seq<(K, V)>, i: int)
    requires IsLastFor(rows, i)
    ensures LastWins(rows)[rows[i].0] == rows[i].1
    decreases |rows|
  {
    if i < |rows| - 1 {
      var front := rows[..|rows| - 1];
      assert IsLastFor(front, i);
      LastWinsValue(front, i);
    }
  }

  /** The loop of `plot`: `results.setdefault(policy, {})[block_size] = value`
      row by row. */
  function Nested<P, K, V>(rows: seq<(P, K, V)>): (m: map<P, map<K, V>>)
    ensures m.Keys == set i | 0 <= i < |rows| :: rows[i].0
    decreases |rows|
  {
    if |rows| == 0 then map[]
    else
      var prior := Nested(rows[..|rows| - 1]);
      var last := rows[|rows| - 1];
      var inner := if last.0 in prior then prior[last.0] else map[];
      prior[last.0 := inner[last.1 := last.2]]
  }

  /** The `(block_size, value)` rows of one policy, in order. */
  function RowsOf<P(==), K, V>(rows: seq<(P, K, V)>, p: P): (sel: seq<(K, V)>)
    ensures |sel| <= |rows|
    decreases |rows|
  {
    if |rows| == 0 then []
    else
      var last := rows[|rows| - 1];
      RowsOf(rows[..|rows| - 1], p) + (if last.0 == p then [(last.1, last.2)] else [])
  }

  /** The nested table is, policy by policy, the flat last-wins table of that
      policy's rows. */
  lemma {:induction false} NestedIsLastWinsPerPolicy<P, K, V>(rows: seq<(P, K, V)>, p: P)
    requires p in Nested(rows)
    ensures Nested(rows)[p] == LastWins(RowsOf(rows, p))
    decreases |rows|
  {
    var front := rows[..|rows| - 1];
    var last := rows[|rows| - 1];
    var prior := Nested(front);
    if last.0 == p {
      var inner := if p in prior then prior[p] else map[];
      assert Nested(rows)[p] == inner[last.1 := last.2];
      var sel := RowsOf(rows, p);
      assert sel == RowsOf(front, p) + [(last.1, last.2)];
      assert sel[..|sel| - 1] == RowsOf(front, p);
      assert LastWins(sel) == LastWins(RowsOf(front, p))[last.1 := last.2];
      if p in prior {
        NestedIsLastWinsPerPolicy(front, p);
      } else {
        NoRowsOf(front, p);
      }
    } else {
      assert Nested(rows)[p] == prior[p];
      assert RowsOf(rows, p) == RowsOf(front, p) + [];
      assert RowsOf(front, p) + [] == RowsOf(front, p);
      NestedIsLastWinsPerPolicy(front, p);
    }
  }

  lemma {:induction false} NoRowsOf<P, K, V>(rows: seq<(P, K, V)>, p: P)
    requires p !in Nested(rows)
    ensures RowsOf(rows, p) == []
    decreases |rows|
  {
    if |rows| > 0 {
      var last := rows[|rows| - 1];
      assert last.0 != p;
      NoRowsOf(rows[..|rows| - 1], p);
    }
  }

  /** `s` lists its elements in strictly increasing order. */
  predicate StrictlyIncreasing(s: seq<int>)
  {
    forall i, j :: 0 <= i < j < |s| ==> s[i] < s[j]
  }

  /** `xs` with `x` added in its place (nothing changes if `x` is there). */
  function Insert(x: int, xs: seq<int>): (r: seq<int>)
    requires StrictlyIncreasing(xs)
    ensures StrictlyIncreasing(r)
    ensures forall y :: y in r <==> y == x || y in xs
    decreases |xs|
  {
    if |xs| == 0 then [x]
    else if x < xs[0] then [x] + xs
    else if x == xs[0] then xs
    else
      var rest := Insert(x, xs[1..]);
      assert forall j :: 0 <= j < |rest| ==> xs[0] < rest[j] by {
        forall j | 0 <= j < |rest|
          ensures xs[0] < rest[j]
        {
          assert rest[j] in rest;
          if rest[j] != x {
            var k :| 0 <= k < |xs[1..]| && xs[1..][k] == rest[j];
            assert xs[k + 1] == rest[j];
          }
        }
      }
      [xs[0]] + rest
  }

  /** The distinct values of `keys` in increasing order: `sorted` of the
      keys of a dictionary filled with them. */
  function SortedDistinct(keys: seq<int>): (xs: seq<int>)
    ensures StrictlyIncreasing(xs)
    ensures forall y :: y in xs <==> y in keys
    decreases |keys|
  {
    if |keys| == 0 then []
    else Insert(keys[|keys| - 1], SortedDistinct(keys[..|keys| - 1]))
  }

  /** The points of one line. */
  datatype Series<V> = Series(xs: seq<int>, ys: seq<V>)

  function Keys<V>(rows: seq<(int, V)>): (ks: seq<int>)
    ensures |ks| == |rows| && forall i :: 0 <= i < |rows| ==> ks[i] == rows[i].0
  {
    seq(|rows|, i requires 0 <= i < |rows| => rows[i].0)
  }

  /** `block_sizes = sorted(data.keys()); values = [data[b] for b in
      block_sizes]` for the table `data` that `rows` fill. */
  function SeriesOf<V>(rows: seq<(int, V)>): (s: Series<V>)
    ensures StrictlyIncreasing(s.xs) && |s.xs| == |s.ys|
    ensures forall x :: x in s.xs <==> x in LastWins(rows)
    ensures forall k :: 0 <= k < |s.xs| ==> s.xs[k] in LastWins(rows) && s.ys[k] == LastWins(rows)[s.xs[k]]
  {
    var data := LastWins(rows);
    var xs := SortedDistinct(Keys(rows));
    assert forall x :: x in xs <==> x in data by {
      forall x
        ensures x in xs <==> x in data
      {
        if x in data {
          var i :| 0 <= i < |rows| && rows[i].0 == x;
          assert Keys(rows)[i] == x;
        }
      }
    }
    Series(xs, seq(|xs|, k requires 0 <= k < |xs| => data[xs[k]]))
  }

  /** Each row that is the last for its block size is a point of the line,
      and no other value for that size is. */
  lemma LastRowIsPlotted<V>(rows: seq<(int, V)>, i: int)
    requires IsLastFor(rows, i)
    ensures exists k :: 0 <= k < |SeriesOf(rows).xs| && SeriesOf(rows).xs[k] == rows[i].0 && SeriesOf(rows).ys[k] == rows[i].1
  {
    LastWinsValue(rows, i);
    var s := SeriesOf(rows);
    assert rows[i].0 in LastWins(rows);
    var k :| 0 <= k < |s.xs| && s.xs[k] == rows[i].0;
  }

  /** One line of the block-experiment plot: the series of policy `p`, read
      from the nested table. */
  function PolicySeries<P(==), V>(rows: seq<(P, int, V)>, p: P): (s: Series<V>)
    requires p in Nested(rows)
    ensures StrictlyIncreasing(s.xs) && |s.xs| == |s.ys|
    ensures forall x :: x in s.xs <==> x in Nested(rows)[p]
    ensures forall k :: 0 <= k < |s.xs| ==> s.xs[k] in Nested(rows)[p] && s.ys[k] == Nested(rows)[p][s.xs[k]]
  {
    NestedIsLastWinsPerPolicy(rows, p);
    SeriesOf(RowsOf(rows, p))
  }
}
