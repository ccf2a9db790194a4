/**
 * Node and label sizing for the keyword map (scripts/visualize/vosmapper/utils.py).
 * `bucket_size` has a byte-for-byte twin in
 * scripts/visualize/vosmapper/plot_static.py, which uses this one.
 */
module VosUtils {
  import opened Builtins

  /** The band a frequency falls in: 50 below 3, 200 below 15, 900 from 15 on. */
  function Band(freq: int): real {
    if freq < 3 then 50.0 else if freq < 15 then 200.0 else 900.0
  }

  /**
   * `bucket_size(freq, scale)`: the band's base size times the scale, with
   * the fraction dropped; for a non-negative scale the size lies between 0
   * and 900 times the scale.
   */
  function BucketSize(freq: int, scale: real): (r: int)
    ensures scale >= 0.0 ==> 0 <= r && r as real <= Band(freq) * scale < r as real + 1.0
    ensures scale >= 0.0 ==> r as real <= 900.0 * scale
    ensures scale < 0.0 ==> r <= 0
  {
    if freq < 3 then Trunc(50.0 * scale)
    else if freq < 15 then Trunc(200.0 * scale)
    else Trunc(900.0 * scale)
  }

  /** `int()` of a non-negative real never decreases as its argument grows. */
  lemma TruncMonotone(x: real, y: real)
    requires 0.0 <= x <= y
    ensures Trunc(x) <= Trunc(y)
  {
  }

  /** A more frequent term never gets a smaller node, for a non-negative scale. */
  lemma BucketSizeMonotone(f1: int, f2: int, scale: real)
    requires f1 <= f2 && scale >= 0.0
    ensures BucketSize(f1, scale) <= BucketSize(f2, scale)
  {
    TruncMonotone(50.0 * scale, 200.0 * scale);
    TruncMonotone(200.0 * scale, 900.0 * scale);
    TruncMonotone(50.0 * scale, 900.0 * scale);
  }

  /** The three bands at the default scale 0.8: sizes 40, 160 and 720. */
  lemma DefaultBuckets(freq: int)
    ensures freq < 3 ==> BucketSize(freq, 0.8) == 40
    ensures 3 <= freq < 15 ==> BucketSize(freq, 0.8) == 160
    ensures 15 <= freq ==> BucketSize(freq, 0.8) == 720
  {
    assert 50.0 * 0.8 == 40.0 && 200.0 * 0.8 == 160.0 && 900.0 * 0.8 == 720.0;
  }

  /** `int(size / 60)`, true division then truncation toward zero. */
  function SizeOver60(size: int): int {
    Trunc(size as real / 60.0)
  }

  /** For a non-negative size this is floor division by 60. */
  lemma SizeOver60IsDivision(size: int)
    ensures size >= 0 ==> SizeOver60(size) == size / 60
  {
    var q := size / 60;
    if size >= 0 {
      assert q as real <= size as real / 60.0 < q as real + 1.0;
    }
  }

  /** `font_size_from_node_size`: `int(size / 60)` clamped to [6, 16]. */
  function FontSize(size: int): (f: int)
    ensures 6 <= f <= 16
    ensures 360 <= size < 1020 ==> f == size / 60
  {
    SizeOver60IsDivision(size);
    Max(6, Min(16, SizeOver60(size)))
  }

  function Min(a: int, b: int): int { if a <= b then a else b }
  function Max(a: int, b: int): int { if a >= b then a else b }
}
