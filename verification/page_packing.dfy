/** Greedy packing of tag-value pairs into pages: app-sdk/src/ux.rs. */
module PagePacking {
  import opened MachineInts

  /** `TagValue`: the UTF-8 bytes of both strings. */
  datatype TagValue = TagValue(tag: bytes, value: bytes)

  /** `PageLayoutMetrics` of a device. */
  datatype Metrics = Metrics(tagCharsPerLine: nat, tagLineHeight: nat, valueCharsPerLine: nat, valueLineHeight: nat,
                             pairPadding: nat, contentHeight: u32)
  {
    predicate Valid() {
      tagCharsPerLine > 0 && valueCharsPerLine > 0
    }
  }

  function Lines(length: nat, charsPerLine: nat): nat
    requires charsPerLine > 0
  {
    var lines := (length + charsPerLine - 1) / charsPerLine;
    if lines < 1 then 1 else lines
  }

  /** The least number of lines, at least one, that holds all the bytes. */
  lemma LinesIsLeast(length: nat, charsPerLine: nat, n: nat)
    requires charsPerLine > 0 && n > 0
    ensures n >= Lines(length, charsPerLine) <==> n * charsPerLine >= length
  {
    var full := length + charsPerLine - 1;
    var lines := full / charsPerLine;
    assert full == lines * charsPerLine + full % charsPerLine;
    if n >= lines {
      assert (n - lines) * charsPerLine >= 0;
    } else {
      MulOrder(n, lines, charsPerLine);
    }
  }

  /** `estimate_pair_height` */
  function EstimatePairHeight(m: Metrics, pair: TagValue): nat
    requires m.Valid()
  {
    Lines(|pair.tag|, m.tagCharsPerLine) * m.tagLineHeight
    + Lines(|pair.value|, m.valueCharsPerLine) * m.valueLineHeight + m.pairPadding
  }

  /** The height of a pair: the least numbers of lines for its tag and its value, and the padding. */
  lemma PairHeight(m: Metrics, pair: TagValue) returns (tagLines: nat, valueLines: nat)
    requires m.Valid()
    ensures EstimatePairHeight(m, pair) == tagLines * m.tagLineHeight + valueLines * m.valueLineHeight + m.pairPadding
    ensures forall n: nat :: 0 < n ==> (n >= tagLines <==> n * m.tagCharsPerLine >= |pair.tag|)
    ensures forall n: nat :: 0 < n ==> (n >= valueLines <==> n * m.valueCharsPerLine >= |pair.value|)
    ensures tagLines > 0 && valueLines > 0
  {
    tagLines, valueLines := Lines(|pair.tag|, m.tagCharsPerLine), Lines(|pair.value|, m.valueCharsPerLine);
    forall n: nat | 0 < n ensures n >= tagLines <==> n * m.tagCharsPerLine >= |pair.tag| {
      LinesIsLeast(|pair.tag|, m.tagCharsPerLine, n);
    }
    forall n: nat | 0 < n ensures n >= valueLines <==> n * m.valueCharsPerLine >= |pair.value| {
      LinesIsLeast(|pair.value|, m.valueCharsPerLine, n);
    }
  }

  /** What `estimate_pair_height` gives for every pair. */
  function Heights(m: Metrics, pairs: seq<TagValue>): (heights: seq<nat>)
    requires m.Valid()
    ensures |heights| == |pairs| && forall i :: 0 <= i < |pairs| ==> heights[i] == EstimatePairHeight(m, pairs[i])
  {
    seq(|pairs|, i requires 0 <= i < |pairs| => EstimatePairHeight(m, pairs[i]))
  }

  // ---------------------------------------------------------------------------------------
  // Pages
  // ---------------------------------------------------------------------------------------

  /** The sum of the heights from `lo` to `hi`, without `hi`. */
  function Sum(h: seq<nat>, lo: nat, hi: nat): nat
    requires lo <= hi <= |h|
    decreases hi - lo
  {
    if lo == hi then 0 else Sum(h, lo, hi - 1) + h[hi - 1]
  }

  datatype Range = Range(start: nat, end: nat)

  /** A page holds one pair, or pairs that fit. */
  predicate PageOk(h: seq<nat>, limit: nat, page: Range) {
    page.start < page.end <= |h| && (page.end == page.start + 1 || Sum(h, page.start, page.end) <= limit)
  }

  /** Where the first `k` pages end. */
  function End(ranges: seq<Range>, k: nat): nat
    requires k <= |ranges|
  {
    if k == 0 then 0 else ranges[k - 1].end
  }

  /** Page `k` is a good page, and starts where the page before it ends. */
  ghost predicate PageAt(h: seq<nat>, limit: nat, ranges: seq<Range>, k: nat) {
    k < |ranges| && PageOk(h, limit, ranges[k]) && ranges[k].start == End(ranges, k)
  }

  /** The pages follow one another from the first pair on, and each is a good page. */
  ghost predicate Pages(h: seq<nat>, limit: nat, ranges: seq<Range>) {
    forall k :: 0 <= k < |ranges| ==> PageAt(h, limit, ranges, k)
  }

  /** The pages hold all the pairs in their order. */
  ghost predicate IsPacking(h: seq<nat>, limit: nat, ranges: seq<Range>) {
    Pages(h, limit, ranges) && End(ranges, |ranges|) == |h|
  }

  /** The page has no room for the pair after it. */
  predicate PageFull(h: seq<nat>, limit: nat, page: Range)
    requires page.start <= page.end <= |h|
  {
    page.end < |h| ==> Sum(h, page.start, page.end + 1) > limit
  }

  ghost predicate Full(h: seq<nat>, limit: nat, ranges: seq<Range>) {
    forall k :: 0 <= k < |ranges| ==> PageOk(h, limit, ranges[k]) && PageFull(h, limit, ranges[k])
  }

  lemma OnePageMore(h: seq<nat>, limit: nat, ranges: seq<Range>, page: Range)
    requires Pages(h, limit, ranges) && Full(h, limit, ranges)
    requires PageOk(h, limit, page) && PageFull(h, limit, page) && page.start == End(ranges, |ranges|)
    ensures Pages(h, limit, ranges + [page]) && Full(h, limit, ranges + [page])
  {
    var longer := ranges + [page];
    forall k | 0 <= k < |longer| ensures PageAt(h, limit, longer, k) {
      if k < |ranges| {
        assert PageAt(h, limit, ranges, k);
      }
    }
  }

  lemma {:induction false} SumMonotone(h: seq<nat>, a: nat, lo: nat, hi: nat, b: nat)
    requires a <= lo <= hi <= b <= |h|
    ensures Sum(h, lo, hi) <= Sum(h, a, b)
    decreases b - a
  {
    if hi < b {
      SumMonotone(h, a, lo, hi, b - 1);
    } else if lo < hi {
      SumMonotone(h, a, lo, hi - 1, b - 1);
    }
  }

  /** `compute_pair_page_ranges`, for heights whose sum is a `u32`. */
  method ComputePairPageRanges(m: Metrics, pairs: seq<TagValue>) returns (ranges: seq<Range>)
    requires m.Valid() && Sum(Heights(m, pairs), 0, |pairs|) < TWO_32
    ensures IsPacking(Heights(m, pairs), m.contentHeight, ranges) && Full(Heights(m, pairs), m.contentHeight, ranges)
  {
    ghost var h := Heights(m, pairs);
    ranges := [];
    var start := 0;
    while start < |pairs|
      invariant start == End(ranges, |ranges|) <= |pairs|
      invariant Pages(h, m.contentHeight, ranges) && Full(h, m.contentHeight, ranges)
    {
      var end := ComputePage(m, pairs, start);
      OnePageMore(h, m.contentHeight, ranges, Range(start, end));
      ranges := ranges + [Range(start, end)];
      start := end;
    }
  }

  /** The inner loop of `compute_pair_page_ranges`. */
  method ComputePage(m: Metrics, pairs: seq<TagValue>, start: nat) returns (end: nat)
    requires m.Valid() && Sum(Heights(m, pairs), 0, |pairs|) < TWO_32 && start < |pairs|
    ensures PageOk(Heights(m, pairs), m.contentHeight, Range(start, end))
    ensures PageFull(Heights(m, pairs), m.contentHeight, Range(start, end))
  {
    ghost var h := Heights(m, pairs);
    end := start + 1;
    SumMonotone(h, 0, start, end, |pairs|);
    assert Sum(h, start, end) == h[start] by {
      assert Sum(h, start, start) == 0;
    }
    var height: u32 := EstimatePairHeight(m, pairs[start]);
    while end < |pairs|
      invariant start < end <= |pairs| && height == Sum(h, start, end)
      invariant PageOk(h, m.contentHeight, Range(start, end))
    {
      SumMonotone(h, 0, start, end + 1, |pairs|);
      var nextHeight := EstimatePairHeight(m, pairs[end]);
      assert Sum(h, start, end + 1) == height + nextHeight;
      if height + nextHeight > m.contentHeight {
        break;
      }
      height := height + nextHeight;
      end := end + 1;
    }
  }

  // ---------------------------------------------------------------------------------------
  // The greedy packing is optimal
  // ---------------------------------------------------------------------------------------

  /** A page that starts no later than a full page ends no later. */
  lemma EndsNoLater(h: seq<nat>, limit: nat, full: Range, other: Range)
    requires PageOk(h, limit, full) && PageFull(h, limit, full) && PageOk(h, limit, other) && other.start <= full.start
    ensures other.end <= full.end
  {
    if full.end < other.end {
      SumMonotone(h, other.start, full.start, full.end + 1, other.end);
    }
  }

  /** The greedy pages are always at least as far as those of any other packing. */
  lemma {:induction false} GreedyStaysAhead(h: seq<nat>, limit: nat, greedy: seq<Range>, other: seq<Range>, k: nat)
    requires Pages(h, limit, greedy) && Full(h, limit, greedy) && Pages(h, limit, other)
    requires k <= |greedy| && k <= |other|
    ensures End(other, k) <= End(greedy, k)
  {
    if k > 0 {
      GreedyStaysAhead(h, limit, greedy, other, k - 1);
      assert PageAt(h, limit, greedy, k - 1) && PageAt(h, limit, other, k - 1);
      EndsNoLater(h, limit, greedy[k - 1], other[k - 1]);
    }
  }

  lemma StartsBeforeEnd(h: seq<nat>, limit: nat, ranges: seq<Range>, k: nat)
    requires Pages(h, limit, ranges) && k < |ranges|
    ensures End(ranges, k) < |h|
  {
    assert PageAt(h, limit, ranges, k);
  }

  /** No packing that obeys the same rule has fewer pages than the greedy one. */
  lemma GreedyIsOptimal(h: seq<nat>, limit: nat, greedy: seq<Range>, other: seq<Range>)
    requires IsPacking(h, limit, greedy) && Full(h, limit, greedy) && IsPacking(h, limit, other)
    ensures |greedy| <= |other|
  {
    if |other| < |greedy| {
      StartsBeforeEnd(h, limit, greedy, |other|);
      GreedyStaysAhead(h, limit, greedy, other, |other|);
    }
  }
}
