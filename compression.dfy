/**
 * The compressor's settings: the JPEG quality and raster resolution chosen
 * from the compression-level label, and the size reduction it reports.
 */
module Compression {

  /** JPEG quality (1-100) and rasterisation resolution in dots per inch. */
  datatype Profile = Profile(quality: int, dpi: int)

  /** Whether `sub` occurs in `s` as a contiguous piece (Python's `in` on strings). */
  predicate Contains(s: string, sub: string)
    decreases |s|
  {
    if |sub| > |s| then false
    else s[..|sub|] == sub || (|s| > 0 && Contains(s[1..], sub))
  }

  /** `sub` occurs in `s` starting at position i. */
  predicate OccursAt(s: string, sub: string, i: int) {
    0 <= i && i + |sub| <= |s| && s[i..i + |sub|] == sub
  }

  /** `Contains` agrees with the definition by position. */
  lemma {:induction false} ContainsIff(s: string, sub: string)
    ensures Contains(s, sub) <==> exists i :: OccursAt(s, sub, i)
    decreases |s|
  {
    if |sub| <= |s| && |s| > 0 {
      ContainsIff(s[1..], sub);
      if Contains(s[1..], sub) {
        var i :| OccursAt(s[1..], sub, i);
        assert OccursAt(s, sub, i + 1);
      }
      if s[..|sub|] != sub && exists i :: OccursAt(s, sub, i) {
        var i :| OccursAt(s, sub, i);
        assert i > 0;
        assert OccursAt(s[1..], sub, i - 1);
      }
      if s[..|sub|] == sub {
        assert OccursAt(s, sub, 0);
      }
    } else if |sub| <= |s| {
      assert OccursAt(s, sub, 0);
    }
  }

  /** A text cannot contain a piece whose first character it lacks. */
  lemma {:induction false} MissingFirstChar(s: string, sub: string)
    requires |sub| > 0 && sub[0] !in s
    ensures !Contains(s, sub)
    decreases |s|
  {
    if |sub| <= |s| {
      assert s[..|sub|][0] == s[0];
      MissingFirstChar(s[1..], sub);
    }
  }

  /** The profile for a compression-level label; the first matching test wins. */
  function ProfileFor(choice: string): (p: Profile)
    ensures 1 <= p.quality <= 100 && 0 < p.dpi
  {
    if Contains(choice, "High Quality") then Profile(90, 150)
    else if Contains(choice, "Balanced") then Profile(70, 120)
    else Profile(50, 100)
  }

  /** A text that starts with `sub` contains it. */
  lemma PrefixContains(s: string, sub: string)
    requires |sub| <= |s| && s[..|sub|] == sub
    ensures Contains(s, sub)
  {
  }

  /** The first radio option selects the high-quality profile. */
  lemma HighQualityOption(high: string)
    requires high == "High Quality (Low Compression)"
    ensures ProfileFor(high) == Profile(90, 150)
  {
    assert high[..12] == "High Quality";
    PrefixContains(high, "High Quality");
  }

  /** The second radio option, the default, selects the balanced profile. */
  lemma BalancedOption(balanced: string)
    requires balanced == "Balanced (Recommended)"
    ensures ProfileFor(balanced) == Profile(70, 120)
  {
    assert !Contains(balanced, "High Quality") by {
      assert 'H' !in balanced;
      MissingFirstChar(balanced, "High Quality");
    }
    assert Contains(balanced, "Balanced") by {
      assert balanced[..8] == "Balanced";
      PrefixContains(balanced, "Balanced");
    }
  }

  /** The third radio option selects the smallest-size profile. */
  lemma SmallestOption(smallest: string)
    requires smallest == "Smallest Size (Aggressive Compression)"
    ensures ProfileFor(smallest) == Profile(50, 100)
  {
    SmallestLacks(smallest, 'H');
    MissingFirstChar(smallest, "High Quality");
    SmallestLacks(smallest, 'B');
    MissingFirstChar(smallest, "Balanced");
  }

  lemma SmallestLacks(smallest: string, c: char)
    requires smallest == "Smallest Size (Aggressive Compression)"
    requires c == 'H' || c == 'B'
    ensures c !in smallest
  {
  }

  /**
   * The three radio options get three profiles, each strictly lower in
   * quality and resolution than the one above it.
   */
  lemma RadioOptionsOrdered(high: string, balanced: string, smallest: string)
    requires high == "High Quality (Low Compression)"
    requires balanced == "Balanced (Recommended)"
    requires smallest == "Smallest Size (Aggressive Compression)"
    ensures ProfileFor(smallest).quality < ProfileFor(balanced).quality < ProfileFor(high).quality
    ensures ProfileFor(smallest).dpi < ProfileFor(balanced).dpi < ProfileFor(high).dpi
  {
    HighQualityOption(high);
    BalancedOption(balanced);
    SmallestOption(smallest);
  }

  /**
   * The reported reduction in percent; an empty original reports 0 rather
   * than dividing by zero.
   */
  function Reduction(original: nat, compressed: nat): (r: real)
    ensures original == 0 ==> r == 0.0
    ensures r <= 100.0
    ensures 0.0 <= r <==> compressed <= original || original == 0
    ensures original > 0 && compressed == 0 ==> r == 100.0
    ensures original > 0 && compressed == original ==> r == 0.0
  {
    if original > 0 then ((original - compressed) as real / original as real) * 100.0 else 0.0
  }
}
