/** `format_bytes`, defined identically in both `plot_blocks.py` scripts: an
    integer block size as a tick label in whole MB, KB or bytes, rounded
    down.  (Given a float, Python prints the quotient as a float, "4.0 KB";
    floats are not modelled.) */
module ByteFormat {
  import opened Wrappers
  import Decimal

  const KiB: int := 1024
  const MiB: int := 1024 * 1024

  /** `tick` ends with `suffix`. */
  predicate EndsWith(tick: string, suffix: string)
  {
    |suffix| <= |tick| && tick[|tick| - |suffix|..] == suffix
  }

  /** `format_bytes(x)`: the unit shown is the largest of MB, KB and B that is
      not above `x`.  Python's `//` floors; the divisors are positive, so it
      is Dafny's `/`. */
  function FormatBytes(x: int): (tick: string)
    ensures EndsWith(tick, " MB") <==> x >= MiB
    ensures EndsWith(tick, " KB") <==> KiB <= x < MiB
    ensures EndsWith(tick, " B") <==> x < KiB
  {
    if x >= MiB then Decimal.IntToString(x / MiB) + " MB"
    else if x >= KiB then Decimal.IntToString(x / KiB) + " KB"
    else
      var tick := Decimal.IntToString(x) + " B";
      assert tick[|tick| - 2] == ' ';
      tick
  }

  /** A label read back: the number shown and the size of its unit. */
  datatype Reading = Reading(count: int, unit: int)

  /** Reads a label of the form `<integer> MB`, `<integer> KB` or
      `<integer> B`. */
  function ParseLabel(tick: string): (r: Option<Reading>)
    ensures r.Some? ==> r.value.unit in {1, KiB, MiB}
  {
    if |tick| >= 3 && tick[|tick| - 3..] == " MB" then
      match Decimal.ParseInt(tick[..|tick| - 3])
      case Some(n) => Some(Reading(n, MiB))
      case None => None
    else if |tick| >= 3 && tick[|tick| - 3..] == " KB" then
      match Decimal.ParseInt(tick[..|tick| - 3])
      case Some(n) => Some(Reading(n, KiB))
      case None => None
    else if |tick| >= 2 && tick[|tick| - 2..] == " B" then
      match Decimal.ParseInt(tick[..|tick| - 2])
      case Some(n) => Some(Reading(n, 1))
      case None => None
    else None
  }

  /** A label names the largest unit not above the size and the number of
      whole units in it: reading it back gives `count * unit <= x <
      (count + 1) * unit`, exactly `x` below 1 KB. */
  lemma FormatThenParse(x: int)
    ensures ParseLabel(FormatBytes(x)).Some?
    ensures var r := ParseLabel(FormatBytes(x)).value;
      && r.unit == (if x >= MiB then MiB else if x >= KiB then KiB else 1)
      && r.count * r.unit <= x < (r.count + 1) * r.unit
  {
    var tick := FormatBytes(x);
    if x >= MiB {
      var digits := Decimal.IntToString(x / MiB);
      assert tick[|tick| - 3..] == " MB" && tick[..|tick| - 3] == digits;
      Decimal.IntRoundTrip(x / MiB);
    } else if x >= KiB {
      var digits := Decimal.IntToString(x / KiB);
      assert tick[|tick| - 3..] == " KB" && tick[..|tick| - 3] == digits;
      Decimal.IntRoundTrip(x / KiB);
    } else {
      var digits := Decimal.IntToString(x);
      assert tick[|tick| - 3..] != " MB" by {
        assert tick[|tick| - 2] == ' ';
      }
      assert tick[|tick| - 3..] != " KB" by {
        assert tick[|tick| - 2] == ' ';
      }
      assert tick[|tick| - 2..] == " B" && tick[..|tick| - 2] == digits;
      Decimal.IntRoundTrip(x);
    }
  }

  /** Sizes between two units are rounded down: 1536 bytes is "1 KB". */
  lemma RoundsDown()
    ensures FormatBytes(1536) == "1 KB"
    ensures FormatBytes(3 * MiB + 1) == "3 MB"
  {
    assert 1536 / KiB == 1 && (3 * MiB + 1) / MiB == 3;
    assert Decimal.IntToString(1) == "1" && Decimal.IntToString(3) == "3";
  }
}
