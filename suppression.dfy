/**
 * Greedy non-maximum suppression over the flat list of detections.
 *
 * The candidates are sorted by score, highest first, and the loop then
 * repeatedly takes the LAST element of that list: the box kept at each step
 * is the lowest-scored box still remaining. Every remaining box whose overlap
 * with the kept box reaches the threshold is discarded. The overlap measure
 * (intersection over union) is a parameter of the model.
 */
module Suppression {

  /** The corners of an axis-aligned box. */
  datatype Rect = Rect(x0: real, y0: real, x1: real, y1: real)

  /** A detection in original-image coordinates with the classifier's score. */
  datatype Box = Box(x0: real, y0: real, x1: real, y1: real, score: real) {
    /** The first four fields, which are all the overlap measure sees. */
    function Corners(): Rect {
      Rect(x0, y0, x1, y1)
    }
  }

  /** The overlap measure between two boxes (intersection over union). */
  type Overlap = (Rect, Rect) -> real

  predicate NonIncreasing(s: seq<Box>) {
    forall i, j :: 0 <= i < j < |s| ==> s[i].score >= s[j].score
  }

  predicate NonDecreasing(s: seq<Box>) {
    forall i, j :: 0 <= i < j < |s| ==> s[i].score <= s[j].score
  }

  /** No two boxes at different positions of `s` overlap by `threshold` or more, in either order. */
  predicate LowOverlap(s: seq<Box>, threshold: real, overlap: Overlap) {
    forall i, j :: 0 <= i < |s| && 0 <= j < |s| && i != j ==>
      overlap(s[i].Corners(), s[j].Corners()) < threshold
  }

  /** Every box overlaps each box after it by less than `threshold`. */
  predicate PairwiseBelow(s: seq<Box>, threshold: real, overlap: Overlap) {
    forall i, j :: 0 <= i < j < |s| ==> overlap(s[i].Corners(), s[j].Corners()) < threshold
  }

  /**
   * Inserts `b` into a list sorted by decreasing score, in front of every
   * element whose score is not above b's (so equal scores keep their order).
   */
  function Insert(b: Box, s: seq<Box>): (r: seq<Box>)
    requires NonIncreasing(s)
    ensures NonIncreasing(r)
    ensures multiset(r) == multiset(s) + multiset{b}
    ensures r[0] == b || (s != [] && r[0] == s[0])
  {
    if s == [] || b.score >= s[0].score then
      PrependNonIncreasing(b, s);
      [b] + s
    else
      var t := Insert(b, s[1..]);
      assert s == [s[0]] + s[1..];
      PrependNonIncreasing(s[0], t);
      [s[0]] + t
  }

  /** A box scoring at least the head of a list sorted by decreasing score extends it in front. */
  lemma PrependNonIncreasing(b: Box, s: seq<Box>)
    requires NonIncreasing(s)
    requires s == [] || b.score >= s[0].score
    ensures NonIncreasing([b] + s)
  {
    var r := [b] + s;
    forall i, j | 0 <= i < j < |r|
      ensures r[i].score >= r[j].score
    {
      if i == 0 && j > 1 {
        assert r[j] == s[j - 1];
      }
    }
  }

  /** A stable sort by decreasing score. */
  function SortByScoreDesc(s: seq<Box>): (r: seq<Box>)
    ensures NonIncreasing(r)
    ensures multiset(r) == multiset(s)
  {
    if s == [] then []
    else
      assert s == [s[0]] + s[1..];
      Insert(s[0], SortByScoreDesc(s[1..]))
  }

  /** The boxes of `s`, in order, whose overlap with `chosen` is below `threshold`. */
  function Survivors(chosen: Box, s: seq<Box>, threshold: real, overlap: Overlap): (r: seq<Box>)
    ensures |r| <= |s|
    ensures multiset(r) <= multiset(s)
    ensures forall b :: b in r <==> b in s && overlap(chosen.Corners(), b.Corners()) < threshold
    ensures NonIncreasing(s) ==> NonIncreasing(r)
  {
    if s == [] then []
    else
      var rest := Survivors(chosen, s[1..], threshold, overlap);
      assert s == [s[0]] + s[1..];
      if overlap(chosen.Corners(), s[0].Corners()) < threshold then
        assert NonIncreasing(s) ==> NonIncreasing([s[0]] + rest) by {
          if NonIncreasing(s) {
            forall x | x in rest
              ensures x.score <= s[0].score
            {
              var k :| 0 <= k < |s[1..]| && s[1..][k] == x;
              assert s[k + 1] == x;
            }
          }
        }
        [s[0]] + rest
      else rest
  }

  /**
   * The filter keeps every copy of each box whose overlap with `chosen` is
   * below `threshold` and drops every copy of any other box.
   */
  lemma {:induction false} SurvivorsCount(chosen: Box, s: seq<Box>, threshold: real, overlap: Overlap, b: Box)
    ensures multiset(Survivors(chosen, s, threshold, overlap))[b]
         == if overlap(chosen.Corners(), b.Corners()) < threshold then multiset(s)[b] else 0
  {
    if s != [] {
      assert s == [s[0]] + s[1..];
      SurvivorsCount(chosen, s[1..], threshold, overlap, b);
    }
  }

  /**
   * The suppression loop on a list already sorted: pop the last box, keep
   * it, drop every remaining box that overlaps it by `threshold` or more,
   * and repeat until nothing remains.
   */
  function Greedy(remaining: seq<Box>, threshold: real, overlap: Overlap): (kept: seq<Box>)
    ensures multiset(kept) <= multiset(remaining)
    ensures |remaining| > 0 ==> |kept| > 0 && kept[0] == remaining[|remaining| - 1]
    decreases |remaining|
  {
    if |remaining| == 0 then []
    else
      var chosen := remaining[|remaining| - 1];
      var rest := remaining[..|remaining| - 1];
      assert remaining == rest + [chosen];
      [chosen] + Greedy(Survivors(chosen, rest, threshold, overlap), threshold, overlap)
  }

  /** One round of the loop: the last box is kept and the loop goes on with its survivors. */
  lemma GreedyStep(remaining: seq<Box>, threshold: real, overlap: Overlap)
    requires remaining != []
    ensures Greedy(remaining, threshold, overlap)
         == [remaining[|remaining| - 1]]
          + Greedy(Survivors(remaining[|remaining| - 1], remaining[..|remaining| - 1], threshold, overlap), threshold, overlap)
  {
  }

  /** What the loop returns from a state: the boxes kept so far, then those it will still keep. */
  function Outcome(kept: seq<Box>, remaining: seq<Box>, threshold: real, overlap: Overlap): (r: seq<Box>)
    ensures remaining == [] ==> r == kept
  {
    kept + Greedy(remaining, threshold, overlap)
  }

  /** Moving the popped box to the kept list leaves the outcome unchanged. */
  lemma PopStep(kept: seq<Box>, remaining: seq<Box>, threshold: real, overlap: Overlap)
    requires remaining != []
    ensures var chosen := remaining[|remaining| - 1];
      Outcome(kept + [chosen], Survivors(chosen, remaining[..|remaining| - 1], threshold, overlap), threshold, overlap)
      == Outcome(kept, remaining, threshold, overlap)
  {
    GreedyStep(remaining, threshold, overlap);
  }

  /**
   * Non-maximum suppression of a list of detections, as a function. The box
   * kept first is one with the lowest score of the whole input.
   */
  function Suppressed(faces: seq<Box>, threshold: real, overlap: Overlap): (r: seq<Box>)
    ensures faces != [] ==> r != [] && r[0] in faces && forall b :: b in faces ==> r[0].score <= b.score
  {
    var sorted := SortByScoreDesc(faces);
    assert faces != [] ==> sorted != [] && sorted[|sorted| - 1] in faces
                           && forall b :: b in faces ==> sorted[|sorted| - 1].score <= b.score by {
      if faces != [] {
        assert faces[0] in multiset(sorted);
        LastIsLowest(sorted);
        assert sorted[|sorted| - 1] in multiset(faces);
        forall b | b in faces
          ensures sorted[|sorted| - 1].score <= b.score
        {
          assert b in multiset(sorted);
        }
      }
    }
    Greedy(sorted, threshold, overlap)
  }

  /** The last-to-first order of a list. */
  function Reverse(s: seq<Box>): (r: seq<Box>)
    ensures |r| == |s|
    ensures multiset(r) == multiset(s)
  {
    if s == [] then []
    else
      assert s == s[..|s| - 1] + [s[|s| - 1]];
      [s[|s| - 1]] + Reverse(s[..|s| - 1])
  }

  /**
   * Non-maximum suppression: sort by decreasing score, then run the
   * pop-and-filter loop.
   */
  method NonMaxSupp(faces: seq<Box>, threshold: real, overlap: Overlap) returns (kept: seq<Box>)
    ensures kept == Suppressed(faces, threshold, overlap)
    ensures multiset(kept) <= multiset(faces)
    ensures faces != [] ==> kept != []
    ensures PairwiseBelow(kept, threshold, overlap)
    ensures NonDecreasing(kept)
  {
    var sorted := SortByScoreDesc(faces);
    kept := PopAndFilter(sorted, threshold, overlap);
    SuppressedProperties(faces, threshold, overlap);
  }

  /**
   * The suppression loop: pop the last box, keep it, filter the rest
   * against it, until the list of candidates is empty.
   */
  method PopAndFilter(sorted: seq<Box>, threshold: real, overlap: Overlap) returns (kept: seq<Box>)
    ensures kept == Greedy(sorted, threshold, overlap)
  {
    var remaining := sorted;
    kept := [];
    assert Outcome(kept, remaining, threshold, overlap) == Greedy(sorted, threshold, overlap);
    while remaining != []
      invariant Outcome(kept, remaining, threshold, overlap) == Greedy(sorted, threshold, overlap)
      decreases |remaining|
    {
      PopStep(kept, remaining, threshold, overlap);
      var chosen := remaining[|remaining| - 1];
      remaining := remaining[..|remaining| - 1];
      remaining := Survivors(chosen, remaining, threshold, overlap);
      kept := kept + [chosen];
    }
  }

  /** The kept boxes: a sub-multiset of the input, pairwise below the threshold, by increasing score. */
  lemma SuppressedProperties(faces: seq<Box>, threshold: real, overlap: Overlap)
    ensures multiset(Suppressed(faces, threshold, overlap)) <= multiset(faces)
    ensures faces != [] ==> Suppressed(faces, threshold, overlap) != []
    ensures PairwiseBelow(Suppressed(faces, threshold, overlap), threshold, overlap)
    ensures NonDecreasing(Suppressed(faces, threshold, overlap))
  {
    var sorted := SortByScoreDesc(faces);
    if faces != [] {
      assert faces[0] in multiset(sorted);
    }
    GreedyPairwise(sorted, threshold, overlap);
    GreedyLowestFirst(sorted, threshold, overlap);
  }

  /** Every box kept after another overlaps it by less than the threshold. */
  lemma {:induction false} GreedyPairwise(remaining: seq<Box>, threshold: real, overlap: Overlap)
    ensures PairwiseBelow(Greedy(remaining, threshold, overlap), threshold, overlap)
    decreases |remaining|
  {
    if |remaining| > 0 {
      var chosen := remaining[|remaining| - 1];
      var next := Survivors(chosen, remaining[..|remaining| - 1], threshold, overlap);
      var tail := Greedy(next, threshold, overlap);
      GreedyStep(remaining, threshold, overlap);
      GreedyPairwise(next, threshold, overlap);
      forall j | 0 <= j < |tail|
        ensures overlap(chosen.Corners(), tail[j].Corners()) < threshold
      {
        GreedyMember(next, threshold, overlap, tail[j]);
      }
      PrependPairwise(chosen, tail, threshold, overlap);
    }
  }

  /** A box that overlaps each box of a pairwise-below list by less than the threshold extends it in front. */
  lemma PrependPairwise(b: Box, s: seq<Box>, threshold: real, overlap: Overlap)
    requires PairwiseBelow(s, threshold, overlap)
    requires forall j :: 0 <= j < |s| ==> overlap(b.Corners(), s[j].Corners()) < threshold
    ensures PairwiseBelow([b] + s, threshold, overlap)
  {
    var r := [b] + s;
    forall i, j | 0 <= i < j < |r|
      ensures overlap(r[i].Corners(), r[j].Corners()) < threshold
    {
      assert r[j] == s[j - 1];
      if i > 0 {
        assert r[i] == s[i - 1];
      }
    }
  }

  /**
   * On a list sorted by decreasing score, the box kept first has the lowest
   * score of all, and the kept boxes come out by non-decreasing score.
   */
  lemma {:induction false} GreedyLowestFirst(remaining: seq<Box>, threshold: real, overlap: Overlap)
    requires NonIncreasing(remaining)
    ensures var kept := Greedy(remaining, threshold, overlap);
      |kept| > 0 ==> forall b :: b in remaining ==> kept[0].score <= b.score
    ensures NonDecreasing(Greedy(remaining, threshold, overlap))
    decreases |remaining|
  {
    if |remaining| > 0 {
      var chosen := remaining[|remaining| - 1];
      var rest := remaining[..|remaining| - 1];
      var next := Survivors(chosen, rest, threshold, overlap);
      var tail := Greedy(next, threshold, overlap);
      GreedyStep(remaining, threshold, overlap);
      LastIsLowest(remaining);
      GreedyLowestFirst(next, threshold, overlap);
      forall j | 0 <= j < |tail|
        ensures chosen.score <= tail[j].score
      {
        GreedyMember(next, threshold, overlap, tail[j]);
      }
      PrependNonDecreasing(chosen, tail);
    }
  }

  /** In a list sorted by decreasing score, the last box scores lowest, and the rest stays sorted. */
  lemma LastIsLowest(s: seq<Box>)
    requires s != [] && NonIncreasing(s)
    ensures forall b :: b in s ==> s[|s| - 1].score <= b.score
    ensures forall b :: b in s[..|s| - 1] ==> s[|s| - 1].score <= b.score
    ensures NonIncreasing(s[..|s| - 1])
  {
    forall b | b in s
      ensures s[|s| - 1].score <= b.score
    {
      var k :| 0 <= k < |s| && s[k] == b;
    }
  }

  /** Every kept box comes from the list the loop started with. */
  lemma GreedyMember(remaining: seq<Box>, threshold: real, overlap: Overlap, x: Box)
    requires x in Greedy(remaining, threshold, overlap)
    ensures x in remaining
  {
    assert x in multiset(Greedy(remaining, threshold, overlap));
  }

  /** A box scored no higher than any box of a non-decreasing list extends it in front. */
  lemma PrependNonDecreasing(b: Box, s: seq<Box>)
    requires NonDecreasing(s)
    requires forall j :: 0 <= j < |s| ==> b.score <= s[j].score
    ensures NonDecreasing([b] + s)
  {
    var r := [b] + s;
    forall i, j | 0 <= i < j < |r|
      ensures r[i].score <= r[j].score
    {
      assert r[j] == s[j - 1];
      if i > 0 {
        assert r[i] == s[i - 1];
      }
    }
  }

  /**
   * A box that is not kept was discarded: some kept box overlaps it by the
   * threshold or more.
   */
  lemma {:induction false} GreedyCovers(remaining: seq<Box>, threshold: real, overlap: Overlap, b: Box)
    requires b in remaining
    ensures var kept := Greedy(remaining, threshold, overlap);
      b in kept || exists c :: c in kept && overlap(c.Corners(), b.Corners()) >= threshold
    decreases |remaining|
  {
    var kept := Greedy(remaining, threshold, overlap);
    var chosen := remaining[|remaining| - 1];
    var rest := remaining[..|remaining| - 1];
    var next := Survivors(chosen, rest, threshold, overlap);
    var tail := Greedy(next, threshold, overlap);
    GreedyStep(remaining, threshold, overlap);
    if b != chosen {
      InitMember(remaining, b);
      if b in next {
        GreedyCovers(next, threshold, overlap, b);
        if b !in tail {
          var c :| c in tail && overlap(c.Corners(), b.Corners()) >= threshold;
          assert c in kept;
        }
      } else {
        assert chosen in kept && overlap(chosen.Corners(), b.Corners()) >= threshold;
      }
    }
  }

  /** A member of a list other than its last element belongs to the list without its last element. */
  lemma InitMember(s: seq<Box>, b: Box)
    requires b in s && b != s[|s| - 1]
    ensures b in s[..|s| - 1]
  {
    var k :| 0 <= k < |s| && s[k] == b;
    assert s[..|s| - 1][k] == b;
  }

  /** Filtering a list none of whose boxes overlap `chosen` changes nothing. */
  lemma {:induction false} SurvivorsKeepAll(chosen: Box, s: seq<Box>, threshold: real, overlap: Overlap)
    requires forall b :: b in s ==> overlap(chosen.Corners(), b.Corners()) < threshold
    ensures Survivors(chosen, s, threshold, overlap) == s
  {
    if s != [] {
      assert s == [s[0]] + s[1..];
      SurvivorsKeepAll(chosen, s[1..], threshold, overlap);
    }
  }

  /** On a list with no overlap at or above the threshold, the loop keeps every box, last first. */
  lemma {:induction false} GreedyKeepsLowOverlap(s: seq<Box>, threshold: real, overlap: Overlap)
    requires LowOverlap(s, threshold, overlap)
    ensures Greedy(s, threshold, overlap) == Reverse(s)
    decreases |s|
  {
    if s != [] {
      var n := |s| - 1;
      var rest := s[..n];
      LowOverlapDropLast(s, threshold, overlap);
      SurvivorsKeepAll(s[n], rest, threshold, overlap);
      GreedyStep(s, threshold, overlap);
      GreedyKeepsLowOverlap(rest, threshold, overlap);
    }
  }

  /** Without its last box, a list free of overlaps stays so, and the last box overlaps none of the others. */
  lemma LowOverlapDropLast(s: seq<Box>, threshold: real, overlap: Overlap)
    requires s != []
    requires LowOverlap(s, threshold, overlap)
    ensures LowOverlap(s[..|s| - 1], threshold, overlap)
    ensures forall b :: b in s[..|s| - 1] ==> overlap(s[|s| - 1].Corners(), b.Corners()) < threshold
  {
    var n := |s| - 1;
    var rest := s[..n];
    forall b | b in rest
      ensures overlap(s[n].Corners(), b.Corners()) < threshold
    {
      var k :| 0 <= k < n && rest[k] == b;
    }
  }

  /** Inserting a box that overlaps no element keeps a list free of overlaps. */
  lemma {:induction false} InsertLowOverlap(b: Box, s: seq<Box>, threshold: real, overlap: Overlap)
    requires NonIncreasing(s)
    requires LowOverlap(s, threshold, overlap)
    requires forall x :: x in s ==>
      overlap(b.Corners(), x.Corners()) < threshold && overlap(x.Corners(), b.Corners()) < threshold
    ensures LowOverlap(Insert(b, s), threshold, overlap)
  {
    if s == [] || b.score >= s[0].score {
      PrependLowOverlap(b, s, threshold, overlap);
    } else {
      var tail := s[1..];
      assert LowOverlap(tail, threshold, overlap);
      InsertLowOverlap(b, tail, threshold, overlap);
      var t := Insert(b, tail);
      forall x | x in t
        ensures overlap(s[0].Corners(), x.Corners()) < threshold && overlap(x.Corners(), s[0].Corners()) < threshold
      {
        InsertMember(b, tail, x);
        if x != b {
          TailMember(s, x);
        }
      }
      PrependLowOverlap(s[0], t, threshold, overlap);
    }
  }

  /** An element of an insertion is the inserted box or an element of the list. */
  lemma InsertMember(b: Box, s: seq<Box>, x: Box)
    requires NonIncreasing(s)
    requires x in Insert(b, s)
    ensures x == b || x in s
  {
    assert x in multiset(Insert(b, s));
    if x != b {
      assert x in multiset(s);
    }
  }

  /** An element of the tail sits at a position other than the head. */
  lemma TailMember(s: seq<Box>, x: Box)
    requires s != [] && x in s[1..]
    ensures exists k :: 0 < k < |s| && s[k] == x
  {
    var k :| 0 <= k < |s[1..]| && s[1..][k] == x;
    assert s[k + 1] == x;
  }

  /** A box that overlaps no element of a list free of overlaps extends it in front. */
  lemma PrependLowOverlap(b: Box, s: seq<Box>, threshold: real, overlap: Overlap)
    requires LowOverlap(s, threshold, overlap)
    requires forall x :: x in s ==>
      overlap(b.Corners(), x.Corners()) < threshold && overlap(x.Corners(), b.Corners()) < threshold
    ensures LowOverlap([b] + s, threshold, overlap)
  {
    var r := [b] + s;
    forall i, j | 0 <= i < |r| && 0 <= j < |r| && i != j
      ensures overlap(r[i].Corners(), r[j].Corners()) < threshold
    {
      if i == 0 {
        assert r[j] == s[j - 1];
      } else if j == 0 {
        assert r[i] == s[i - 1];
      } else {
        assert r[i] == s[i - 1] && r[j] == s[j - 1];
      }
    }
  }

  /** Sorting keeps a list free of overlaps. */
  lemma {:induction false} SortLowOverlap(s: seq<Box>, threshold: real, overlap: Overlap)
    requires LowOverlap(s, threshold, overlap)
    ensures LowOverlap(SortByScoreDesc(s), threshold, overlap)
  {
    if s != [] {
      var tail := s[1..];
      assert LowOverlap(tail, threshold, overlap);
      SortLowOverlap(tail, threshold, overlap);
      var sorted := SortByScoreDesc(tail);
      forall x | x in sorted
        ensures overlap(s[0].Corners(), x.Corners()) < threshold && overlap(x.Corners(), s[0].Corners()) < threshold
      {
        assert x in multiset(tail);
        var k :| 0 <= k < |tail| && tail[k] == x;
        assert s[k + 1] == x;
      }
      InsertLowOverlap(s[0], sorted, threshold, overlap);
    }
  }

  /**
   * With a symmetric overlap measure, suppressing the result of a suppression
   * again discards nothing: the same boxes come back, each as often.
   */
  lemma SuppressionIdempotent(faces: seq<Box>, threshold: real, overlap: Overlap)
    requires forall a, b :: overlap(a, b) == overlap(b, a)
    ensures var kept := Suppressed(faces, threshold, overlap);
      multiset(Suppressed(kept, threshold, overlap)) == multiset(kept)
  {
    var kept := Suppressed(faces, threshold, overlap);
    SuppressedProperties(faces, threshold, overlap);
    assert LowOverlap(kept, threshold, overlap) by {
      forall i, j | 0 <= i < |kept| && 0 <= j < |kept| && i != j
        ensures overlap(kept[i].Corners(), kept[j].Corners()) < threshold
      {
        if j < i {
          assert overlap(kept[j].Corners(), kept[i].Corners()) < threshold;
        }
      }
    }
    SortLowOverlap(kept, threshold, overlap);
    GreedyKeepsLowOverlap(SortByScoreDesc(kept), threshold, overlap);
  }

  /** Two boxes already in decreasing score order stay as they are. */
  lemma SortTwo(high: Box, low: Box)
    requires high.score > low.score
    ensures SortByScoreDesc([high, low]) == [high, low]
  {
    assert [high, low][1..] == [low];
    assert [low][1..] == [];
    assert SortByScoreDesc([low]) == [low];
  }

  /** Filtering a single box keeps it exactly when it overlaps the chosen one by less than the threshold. */
  lemma SurvivorsSingle(chosen: Box, b: Box, threshold: real, overlap: Overlap)
    ensures Survivors(chosen, [b], threshold, overlap)
         == if overlap(chosen.Corners(), b.Corners()) < threshold then [b] else []
  {
    assert [b][1..] == [];
  }

  /** A single box is always kept. */
  lemma GreedySingle(b: Box, threshold: real, overlap: Overlap)
    ensures Greedy([b], threshold, overlap) == [b]
  {
    GreedyStep([b], threshold, overlap);
    assert [b][..0] == [];
  }

  /**
   * Two boxes with different scores: the lower-scored one is always kept, and
   * the higher-scored one survives only when the kept box overlaps it by less
   * than the threshold.
   */
  lemma TwoBoxes(high: Box, low: Box, threshold: real, overlap: Overlap)
    requires high.score > low.score
    ensures Suppressed([high, low], threshold, overlap)
         == if overlap(low.Corners(), high.Corners()) >= threshold then [low] else [low, high]
  {
    SortTwo(high, low);
    GreedyStep([high, low], threshold, overlap);
    assert [high, low][..1] == [high];
    SurvivorsSingle(low, high, threshold, overlap);
    GreedySingle(high, threshold, overlap);
  }
}
