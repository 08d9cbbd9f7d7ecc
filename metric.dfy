/**
 * The client's demo metric: `computeDemoMetric` sums quantity times price
 * over the preview rows, and the sum is carried as a fixed-point integer
 * with two decimals (`Math.round(metric * 100)`, scale 100) before it is
 * encrypted; the auditor's display divides the decrypted integer back.
 */
module Metric {
  import opened Wrappers
  import opened Records

  const FixedScale := 100

  /** `Number(r.quantity || 0) * Number(r.price || 0)`: a row always carries numbers, so `|| 0` changes nothing. */
  function LineTotal(r: Row): real {
    r.quantity * r.price
  }

  /** Every row has a non-negative quantity and price. */
  predicate NonNegativeRows(rows: seq<Row>) {
    forall k :: 0 <= k < |rows| ==> rows[k].quantity >= 0.0 && rows[k].price >= 0.0
  }

  /** The sum of the line totals of `rows`; it is never negative when no quantity or price is. */
  function Total(rows: seq<Row>): (t: real)
    ensures NonNegativeRows(rows) ==> t >= 0.0
  {
    if rows == [] then 0.0 else Total(rows[..|rows| - 1]) + LineTotal(rows[|rows| - 1])
  }

  /** What `computeDemoMetric(data)` returns: 0 without data, else the total of its preview. */
  function DemoMetric(data: Option<Extracted>): (m: real)
    ensures data.None? ==> m == 0.0
    ensures data.Some? ==> (NonNegativeRows(data.value.preview) ==> m >= 0.0)
  {
    match data
    case None => 0.0
    case Some(d) => Total(d.preview)
  }

  /** `computeDemoMetric(data)`: the loop accumulating `sum`. */
  method ComputeDemoMetric(data: Option<Extracted>) returns (sum: real)
    ensures sum == DemoMetric(data)
  {
    if data.None? {
      return 0.0;
    }
    var preview := data.value.preview;
    sum := 0.0;
    var i := 0;
    while i < |preview|
      invariant 0 <= i <= |preview|
      invariant sum == Total(preview[..i])
    {
      assert preview[..i + 1][..i] == preview[..i];
      var r := preview[i];
      sum := sum + r.quantity * r.price;
      i := i + 1;
    }
    assert preview[..i] == preview;
  }

  /** The total is additive over concatenation. */
  lemma {:induction false} TotalAppend(a: seq<Row>, b: seq<Row>)
    ensures Total(a + b) == Total(a) + Total(b)
    decreases |b|
  {
    if b == [] {
      assert a + b == a;
    } else {
      var c := a + b;
      assert c[..|c| - 1] == a + b[..|b| - 1];
      TotalAppend(a, b[..|b| - 1]);
    }
  }

  /** The total does not depend on the order of the rows: swapping two neighbours keeps it. */
  lemma {:induction false} TotalSwap(a: seq<Row>, x: Row, y: Row, b: seq<Row>)
    ensures Total(a + [x, y] + b) == Total(a + [y, x] + b)
  {
    TotalAppend(a + [x, y], b);
    TotalAppend(a + [y, x], b);
    TotalAppend(a, [x, y]);
    TotalAppend(a, [y, x]);
    assert [x, y][..1] == [x] && [y, x][..1] == [y];
  }

  /** Only the first 200 rows reach the metric: the rest of the rows are cut off by the preview. */
  lemma {:induction false} OnlyPreviewCounts(rows: seq<Row>)
    requires |rows| > 200
    ensures Total(Preview(rows)) == Total(rows) - Total(rows[200..])
  {
    assert rows == rows[..200] + rows[200..];
    TotalAppend(rows[..200], rows[200..]);
  }

  /** `Math.round(metric * 100)`: JavaScript rounds halves up, that is `floor(x + 1/2)`. */
  function ScaleMetric(metric: real): (k: int)
    ensures metric >= 0.0 ==> k >= 0
  {
    (metric * FixedScale as real + 0.5).Floor
  }

  /** The scaled metric is the integer nearest to a hundred times the metric, halves going up. */
  lemma {:induction false} ScaleMetricNearest(metric: real)
    ensures var k := ScaleMetric(metric);
      k as real - 0.5 <= metric * 100.0 < k as real + 0.5
  {
  }

  /** Only that integer is within a half, halves going up: the scaled metric is determined by the bound. */
  lemma {:induction false} ScaleMetricUnique(metric: real, k: int)
    requires k as real - 0.5 <= metric * 100.0 < k as real + 0.5
    ensures ScaleMetric(metric) == k
  {
  }

  /** A metric in whole cents is scaled exactly. */
  lemma {:induction false} ScaleMetricOfCents(cents: int)
    ensures ScaleMetric(cents as real / 100.0) == cents
  {
    ScaleMetricUnique(cents as real / 100.0, cents);
  }

  /** `Number(j.plaintext) / (j.scale || 100)`: the displayed aggregate. */
  function Unscale(plaintext: real, scale: real): (v: real)
    ensures v * (if scale == 0.0 then 100.0 else scale) == plaintext
  {
    plaintext / (if scale == 0.0 then 100.0 else scale)
  }

  /** A missing or zero scale falls back to 100. */
  lemma {:induction false} UnscaleDefaultScale(plaintext: real)
    ensures Unscale(plaintext, 0.0) == Unscale(plaintext, FixedScale as real) == plaintext / 100.0
  {
  }

  /** Scaling and unscaling by 100 loses at most half a cent. */
  lemma {:induction false} UnscaleScale(metric: real)
    ensures var d := Unscale(ScaleMetric(metric) as real, FixedScale as real) - metric;
      -0.005 < d <= 0.005
  {
    var k := ScaleMetric(metric);
    ScaleMetricNearest(metric);
    assert Unscale(k as real, FixedScale as real) == k as real / 100.0;
    var e := k as real - metric * 100.0;
    assert -0.5 < e <= 0.5;
    assert k as real / 100.0 - metric == e / 100.0;
    assert -0.005 < e / 100.0 <= 0.005;
  }
}
