// The colour scale both heatmaps share: the largest count, floored at 1,
// and five colour steps from Math.round(v / max * 4).

module HeatColor {
  import opened Rounding

  /** `Math.max(1, ...values)`, also written `Math.max(...values, 1)`. */
  function MaxWithFloor(values: seq<nat>): (m: nat)
    ensures m >= 1
    ensures forall i :: 0 <= i < |values| ==> values[i] <= m
    ensures m == 1 || m in values
  {
    if values == [] then 1
    else
      var rest := MaxWithFloor(values[..|values| - 1]);
      var last := values[|values| - 1];
      if last > rest then last else rest
  }

  /** `Math.round((v / max) * 4)` for the value v = num / den: the colour step. */
  function Bucket(num: nat, den: nat, max: nat): (t: nat)
    requires den > 0 && max > 0 && num <= den * max
    ensures t <= 4
    ensures num == 0 ==> t == 0
    ensures num == den * max ==> t == 4
  {
    RoundDivMonotone(0, 4 * num, den * max);
    RoundDivMonotone(4 * num, 4 * (den * max), den * max);
    RoundDivExact(0, den * max);
    RoundDivExact(4, den * max);
    assert 4 * (den * max) == 4 * (den * max);
    RoundDiv(4 * num, den * max)
  }

  /** A larger count never gets a lighter colour. */
  lemma BucketMonotone(a: nat, b: nat, den: nat, max: nat)
    requires den > 0 && max > 0 && a <= b <= den * max
    ensures Bucket(a, den, max) <= Bucket(b, den, max)
  {
    RoundDivMonotone(4 * a, 4 * b, den * max);
  }

  /** The lightest step is exactly the counts below an eighth of the scale, and the
      darkest exactly those at seven eighths of it or more. */
  lemma BucketThresholds(num: nat, den: nat, max: nat)
    requires den > 0 && max > 0 && num <= den * max
    ensures Bucket(num, den, max) == 0 <==> 8 * num < den * max
    ensures Bucket(num, den, max) == 4 <==> 7 * (den * max) <= 8 * num
  {
    var b, t := den * max, Bucket(num, den, max);
    assert b * (2 * t - 1) <= 8 * num < b * (2 * t + 1);
    if t >= 1 {
      MulMonotone(b, 1, 2 * t - 1);
    }
    if t <= 3 {
      MulMonotone(b, 2 * t + 1, 7);
    }
    if 7 * b <= 8 * num {
      assert b * (2 * 4 - 1) <= 2 * (4 * num) < b * (2 * 4 + 1);
      RoundDivUnique(4 * num, b, 4);
    }
  }

  /** The legend cell i draws `color(max * i / 4)`, which is step i. */
  lemma LegendBuckets(max: nat, i: nat)
    requires max > 0 && i <= 4
    ensures max * i <= 4 * max
    ensures Bucket(max * i, 4, max) == i
  {
    assert 4 * (max * i) == i * (4 * max);
    RoundDivExact(i, 4 * max);
  }

  // ---------------------------------------------------------------------------
  // The data record of a heatmap: full-date to count

  /** `Object.keys(data)`: the keys of the object, in some order. */
  ghost predicate KeysOf(keys: seq<string>, data: map<string, nat>)
  {
    forall k :: k in keys <==> k in data
  }

  /** `Object.values(data)`, in the order of `keys`. */
  function Values(data: map<string, nat>, keys: seq<string>): (vs: seq<nat>)
    requires KeysOf(keys, data)
    ensures |vs| == |keys| && forall i :: 0 <= i < |keys| ==> vs[i] == data[keys[i]]
  {
    seq(|keys|, i requires 0 <= i < |keys| => data[keys[i]])
  }

  /** `data[d] ?? 0`: a day missing from the data counts 0. */
  function CellValue(data: map<string, nat>, d: string): nat
  {
    if d in data then data[d] else 0
  }

  /** The colour step of a cell: `color(data[d] ?? 0)` against the largest value. */
  function CellColor(data: map<string, nat>, keys: seq<string>, d: string): (t: nat)
    requires KeysOf(keys, data)
    ensures t <= 4
    ensures d !in data || data[d] == 0 ==> t == 0
    ensures d in data && data[d] == MaxWithFloor(Values(data, keys)) ==> t == 4
  {
    ValueWithinMax(data, keys, d);
    Bucket(CellValue(data, d), 1, MaxWithFloor(Values(data, keys)))
  }

  /** No cell counts more than the largest value. */
  lemma ValueWithinMax(data: map<string, nat>, keys: seq<string>, d: string)
    requires KeysOf(keys, data)
    ensures CellValue(data, d) <= MaxWithFloor(Values(data, keys))
  {
    if d in data {
      var i :| 0 <= i < |keys| && keys[i] == d;
      assert Values(data, keys)[i] == data[d];
    }
  }

}
