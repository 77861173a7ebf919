/** The block-size plot of the batch experiment (`results/batch/block/
    plot_blocks.py`): one `(create, write, read)` timing triple per block
    size, plotted one component at a time under the component's name. */
module BatchPlot {
  import opened Wrappers
  import Tables

  /** Python's `seq[i]` on a sequence of length `len`: negative indices count
      from the end; anything else raises `IndexError` (`None`). */
  function PyIndex(len: nat, i: int): (k: Option<nat>)
    ensures k.Some? <==> -(len as int) <= i < len
    ensures k.Some? ==> k.value < len && (k.value == i || k.value == len + i)
  {
    if 0 <= i < len then Some(i)
    else if -(len as int) <= i < 0 then Some(len + i)
    else None
  }

  const MetricNames: seq<string> := ["Create", "Write", "Read"]

  /** `metric_str(metric)`: `["Create", "Write", "Read"][metric]`. */
  function MetricStr(metric: int): (name: Option<string>)
    ensures name.Some? <==> -3 <= metric < 3
    ensures name == Some("Create") <==> metric == 0 || metric == -3
    ensures name == Some("Write") <==> metric == 1 || metric == -2
    ensures name == Some("Read") <==> metric == 2 || metric == -1
  {
    match PyIndex(3, metric)
    case None => None
    case Some(k) => Some(MetricNames[k])
  }

  /** `timing[metric]` of a `(create, write, read)` tuple. */
  function Component<V>(timing: (V, V, V), metric: int): (v: Option<V>)
    ensures v.Some? <==> -3 <= metric < 3
  {
    match PyIndex(3, metric)
    case None => None
    case Some(k) => Some(if k == 0 then timing.0 else if k == 1 then timing.1 else timing.2)
  }

  /** The title names the column that is plotted: both index the same
      position, and fail together. */
  lemma LabelNamesColumn<V>(timing: (V, V, V), metric: int)
    ensures MetricStr(metric).Some? <==> Component(timing, metric).Some?
    ensures MetricStr(metric) == Some("Create") ==> Component(timing, metric) == Some(timing.0)
    ensures MetricStr(metric) == Some("Write") ==> Component(timing, metric) == Some(timing.1)
    ensures MetricStr(metric) == Some("Read") ==> Component(timing, metric) == Some(timing.2)
  {
  }

  /** `plot(results, metric)` without the drawing: x-values the sorted block
      sizes of the table `build_df` fills from `rows`, y-values component
      `metric` of each triple; `None` where indexing raises (the label
      lookup `metric_str(metric)` raises even when there are no rows). */
  function PlotSeries<V>(rows: seq<(int, (V, V, V))>, metric: int): (s: Option<Tables.Series<V>>)
    ensures s.Some? <==> -3 <= metric < 3
    ensures s.Some? ==> s.value.xs == Tables.SeriesOf(rows).xs && |s.value.ys| == |s.value.xs|
    ensures s.Some? ==> forall k :: 0 <= k < |s.value.xs| ==>
      Some(s.value.ys[k]) == Component(Tables.LastWins(rows)[s.value.xs[k]], metric)
  {
    var table := Tables.SeriesOf(rows);
    if !(-3 <= metric < 3) then None
    else
      Some(Tables.Series(table.xs, seq(|table.ys|, k requires 0 <= k < |table.ys| => Component(table.ys[k], metric).value)))
  }
}
