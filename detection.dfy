/**
 * The detection collector: for every pyramid level and every window of the
 * scan, ask the classifier for the positive-class probability of each
 * full-size window, keep the windows that reach the probability threshold,
 * rewrite every kept window in place into a box in original-image
 * coordinates, flatten the per-level lists and suppress overlapping boxes.
 */
module Detection {
  import opened Pyramid
  import opened SlidingWindow
  import opened Suppression

  /**
   * The classifier followed by the softmax: the positive-class probability
   * of the window at offset (x, y) of pyramid level `level`.
   */
  type Classifier = (nat, nat, nat) -> real

  /** One invocation of the classifier: the level and the window offset. */
  datatype Call = Call(level: nat, x: nat, y: nat)

  /**
   * An element of a level's list of detections: a raw candidate in level
   * coordinates until the rescaling pass turns it into a box.
   */
  datatype Entry = Raw(x: nat, y: nat, p: real) | Scaled(box: Box)

  /** A pyramid level's scale factor and its list of detections. */
  datatype Group = Group(factor: real, faces: seq<Entry>)

  /** The error the pipeline can raise itself. */
  datatype Error = ZeroDivision

  datatype Result<T> = Ok(value: T) | Err(error: Error)

  /**
   * The raw candidates of one level, in scan order: the full-size windows
   * whose probability reaches `threshold`.
   */
  function Candidates(level: nat, windows: seq<Window>, winW: nat, winH: nat, threshold: real,
                      classify: Classifier): (r: seq<Entry>)
    ensures |r| <= |windows|
    ensures forall i :: 0 <= i < |r| ==> r[i].Raw? && r[i].p >= threshold
    decreases |windows|
  {
    if windows == [] then []
    else
      var w := windows[|windows| - 1];
      var init := Candidates(level, windows[..|windows| - 1], winW, winH, threshold, classify);
      if IsFull(w, winW, winH) && classify(level, w.x, w.y) >= threshold
      then init + [Raw(w.x, w.y, classify(level, w.x, w.y))]
      else init
  }

  /** Every pyramid level has a positive height once the original has one. */
  lemma LevelHeights(orig: Size, scale: real)
    requires scale > 1.0 && orig.height > 0
    ensures forall j :: 0 <= j < |Levels(orig, scale, DefaultMinSize)| ==>
      Levels(orig, scale, DefaultMinSize)[j].height > 0
  {
    var levels := Levels(orig, scale, DefaultMinSize);
    forall j | 0 <= j < |levels|
      ensures levels[j].height > 0
    {
      if j > 0 {
        assert Fits(levels[j], DefaultMinSize);
      }
    }
  }

  /** The per-level lists of raw candidates, each tagged with its level's scale factor. */
  function RawGroups(orig: Size, scale: real, step: nat, winW: nat, winH: nat, threshold: real,
                     classify: Classifier): (r: seq<Group>)
    requires scale > 1.0 && step > 0 && orig.height > 0
    ensures |r| == |Levels(orig, scale, DefaultMinSize)|
  {
    var levels := Levels(orig, scale, DefaultMinSize);
    LevelHeights(orig, scale);
    seq(|levels|, j requires 0 <= j < |levels| =>
      Group(Factor(orig, levels[j]),
            Candidates(j, Windows(levels[j], step, winW, winH), winW, winH, threshold, classify)))
  }

  /** Every entry of every group is still a raw candidate. */
  predicate AllRaw(groups: seq<Group>) {
    forall j, i :: 0 <= j < |groups| && 0 <= i < |groups[j].faces| ==> groups[j].faces[i].Raw?
  }

  /**
   * The box of a raw candidate at a level with scale factor `f`: both
   * corners of the window multiplied by `f`, the probability kept.
   */
  function ScaleEntry(e: Entry, f: real, winW: nat, winH: nat): (r: Entry)
    requires e.Raw?
    ensures r.Scaled? && r.box.score == e.p
    ensures r.box.x1 - r.box.x0 == winW as real * f && r.box.y1 - r.box.y0 == winH as real * f
    ensures f == 1.0 ==> r.box == Box(e.x as real, e.y as real, (e.x + winW) as real, (e.y + winH) as real, e.p)
  {
    Scaled(Box(e.x as real * f, e.y as real * f, (e.x + winW) as real * f, (e.y + winH) as real * f, e.p))
  }

  /**
   * Every group with each of its raw candidates replaced by its box: the
   * groups, their factors and their lengths stay, every entry becomes a box
   * and keeps its probability as the score.
   */
  function Rescaled(groups: seq<Group>, winW: nat, winH: nat): (r: seq<Group>)
    requires AllRaw(groups)
    ensures |r| == |groups|
    ensures forall j :: 0 <= j < |r| ==> r[j].factor == groups[j].factor && |r[j].faces| == |groups[j].faces|
    ensures forall j, i :: 0 <= j < |r| && 0 <= i < |r[j].faces| ==>
      r[j].faces[i].Scaled? && r[j].faces[i].box.score == groups[j].faces[i].p
  {
    seq(|groups|, j requires 0 <= j < |groups| =>
      Group(groups[j].factor,
            seq(|groups[j].faces|, i requires 0 <= i < |groups[j].faces| =>
              ScaleEntry(groups[j].faces[i], groups[j].factor, winW, winH))))
  }

  /** The detections of all groups, one group after the other, each in its own order. */
  function Concat(groups: seq<Group>): (r: seq<Entry>)
    ensures forall e :: e in r ==> exists j :: 0 <= j < |groups| && e in groups[j].faces
  {
    if groups == [] then []
    else
      var init := groups[..|groups| - 1];
      var last := groups[|groups| - 1];
      assert forall j :: 0 <= j < |init| ==> init[j] == groups[j];
      Concat(init) + last.faces
  }

  /** The boxes of a list of rescaled entries. */
  function Boxes(es: seq<Entry>): (r: seq<Box>)
    requires forall e :: e in es ==> e.Scaled?
    ensures |r| == |es|
    ensures forall k :: 0 <= k < |es| ==> r[k] == es[k].box
  {
    seq(|es|, k requires 0 <= k < |es| => es[k].box)
  }

  /** The classifier calls of one level's scan: one per full-size window, in scan order. */
  function LevelCalls(level: nat, windows: seq<Window>, winW: nat, winH: nat): (r: seq<Call>)
    ensures |r| <= |windows|
    ensures forall c :: c in r ==> c.level == level
    decreases |windows|
  {
    if windows == [] then []
    else
      var w := windows[|windows| - 1];
      var init := LevelCalls(level, windows[..|windows| - 1], winW, winH);
      if IsFull(w, winW, winH) then init + [Call(level, w.x, w.y)] else init
  }

  /** The classifier calls of the scans of the first `n` levels, level after level. */
  function ScanCalls(levels: seq<Size>, n: nat, step: nat, winW: nat, winH: nat): seq<Call>
    requires step > 0 && n <= |levels|
  {
    if n == 0 then []
    else ScanCalls(levels, n - 1, step, winW, winH) + LevelCalls(n - 1, Windows(levels[n - 1], step, winW, winH), winW, winH)
  }

  /**
   * Scans one level: the classifier is asked about each full-size window
   * only, and a window is recorded as a raw candidate when its probability
   * reaches `threshold`.
   */
  method ScanLevel(j: nat, level: Size, step: nat, winW: nat, winH: nat, threshold: real,
                   classify: Classifier)
    returns (detected: seq<Entry>, calls: seq<Call>)
    requires step > 0
    ensures detected == Candidates(j, Windows(level, step, winW, winH), winW, winH, threshold, classify)
    ensures calls == LevelCalls(j, Windows(level, step, winW, winH), winW, winH)
    ensures forall c :: c in calls ==> c.level == j && c.x + winW <= level.width && c.y + winH <= level.height
  {
    detected := [];
    calls := [];
    var windows := Windows(level, step, winW, winH);
    for k := 0 to |windows|
      invariant detected == Candidates(j, windows[..k], winW, winH, threshold, classify)
      invariant calls == LevelCalls(j, windows[..k], winW, winH)
      invariant forall c :: c in calls ==> c.level == j && c.x + winW <= level.width && c.y + winH <= level.height
    {
      var w := windows[k];
      ScanStep(j, windows, k, winW, winH, threshold, classify);
      if w.height != winH || w.width != winW {
        continue;
      }
      WindowInside(level, step, winW, winH, k);
      var p := classify(j, w.x, w.y);
      calls := calls + [Call(j, w.x, w.y)];
      if p >= threshold {
        detected := detected + [Raw(w.x, w.y, p)];
      }
    }
    assert windows[..|windows|] == windows;
  }

  /** Extending the scanned prefix by one window extends the candidates and the calls by at most that window. */
  lemma ScanStep(j: nat, windows: seq<Window>, k: nat, winW: nat, winH: nat, threshold: real,
                 classify: Classifier)
    requires k < |windows|
    ensures var w := windows[k];
      Candidates(j, windows[..k + 1], winW, winH, threshold, classify)
      == if IsFull(w, winW, winH) && classify(j, w.x, w.y) >= threshold
         then Candidates(j, windows[..k], winW, winH, threshold, classify) + [Raw(w.x, w.y, classify(j, w.x, w.y))]
         else Candidates(j, windows[..k], winW, winH, threshold, classify)
    ensures var w := windows[k];
      LevelCalls(j, windows[..k + 1], winW, winH)
      == if IsFull(w, winW, winH)
         then LevelCalls(j, windows[..k], winW, winH) + [Call(j, w.x, w.y)]
         else LevelCalls(j, windows[..k], winW, winH)
  {
    var prefix := windows[..k + 1];
    assert prefix[..k] == windows[..k];
    assert prefix[k] == windows[k];
  }

  /**
   * Scans every level of the pyramid, in order, and tags each level's raw
   * candidates with the level's scale factor.
   */
  method CollectCandidates(orig: Size, scale: real, step: nat, winW: nat, winH: nat, threshold: real,
                           classify: Classifier)
    returns (groups: seq<Group>, calls: seq<Call>)
    requires scale > 1.0 && step > 0 && orig.height > 0
    ensures groups == RawGroups(orig, scale, step, winW, winH, threshold, classify)
    ensures var levels := Levels(orig, scale, DefaultMinSize);
      calls == ScanCalls(levels, |levels|, step, winW, winH)
    ensures forall c :: c in calls ==>
      var levels := Levels(orig, scale, DefaultMinSize);
      c.level < |levels| && c.x + winW <= levels[c.level].width && c.y + winH <= levels[c.level].height
  {
    var levels := Levels(orig, scale, DefaultMinSize);
    groups := [];
    calls := [];
    for j := 0 to |levels|
      invariant groups == RawGroups(orig, scale, step, winW, winH, threshold, classify)[..j]
      invariant calls == ScanCalls(levels, j, step, winW, winH)
      invariant CallsInside(calls, levels, winW, winH)
    {
      var level := levels[j];
      RawGroupsStep(orig, scale, step, winW, winH, threshold, classify, j);
      var factor := Factor(orig, level);
      var detected, levelCalls := ScanLevel(j, level, step, winW, winH, threshold, classify);
      CallsInsideAppend(calls, levelCalls, levels, j, winW, winH);
      calls := calls + levelCalls;
      groups := groups + [Group(factor, detected)];
    }
  }

  /** Every classifier call lies at an existing level, with the window inside that level. */
  predicate CallsInside(calls: seq<Call>, levels: seq<Size>, winW: nat, winH: nat) {
    forall c :: c in calls ==>
      c.level < |levels| && c.x + winW <= levels[c.level].width && c.y + winH <= levels[c.level].height
  }

  /** Appending the calls made on one level keeps every call inside its level. */
  lemma CallsInsideAppend(calls: seq<Call>, more: seq<Call>, levels: seq<Size>, j: nat, winW: nat, winH: nat)
    requires CallsInside(calls, levels, winW, winH)
    requires j < |levels|
    requires forall c :: c in more ==> c.level == j && c.x + winW <= levels[j].width && c.y + winH <= levels[j].height
    ensures CallsInside(calls + more, levels, winW, winH)
  {
  }

  /** The groups for the first j + 1 levels extend those for the first j levels by level j's group. */
  lemma RawGroupsStep(orig: Size, scale: real, step: nat, winW: nat, winH: nat, threshold: real,
                      classify: Classifier, j: nat)
    requires scale > 1.0 && step > 0 && orig.height > 0
    requires j < |Levels(orig, scale, DefaultMinSize)|
    ensures Levels(orig, scale, DefaultMinSize)[j].height > 0
    ensures var r := RawGroups(orig, scale, step, winW, winH, threshold, classify);
      r[..j + 1] == r[..j] + [r[j]]
    ensures var levels := Levels(orig, scale, DefaultMinSize);
      RawGroups(orig, scale, step, winW, winH, threshold, classify)[j]
      == Group(Factor(orig, levels[j]), Candidates(j, Windows(levels[j], step, winW, winH), winW, winH, threshold, classify))
  {
    LevelHeights(orig, scale);
    var r := RawGroups(orig, scale, step, winW, winH, threshold, classify);
    assert r[..j + 1] == r[..j] + [r[j]];
  }

  /**
   * Rewrites, level by level and entry by entry, every raw candidate into
   * its box in original-image coordinates. The number of groups, their
   * factors, their lengths and the probabilities are unchanged.
   */
  method RescaleGroups(groups: seq<Group>, winW: nat, winH: nat) returns (out: seq<Group>)
    requires AllRaw(groups)
    ensures out == Rescaled(groups, winW, winH)
    ensures |out| == |groups|
    ensures forall j :: 0 <= j < |out| ==>
      out[j].factor == groups[j].factor && |out[j].faces| == |groups[j].faces|
    ensures forall j, i :: 0 <= j < |out| && 0 <= i < |out[j].faces| ==>
      var e, f := groups[j].faces[i], groups[j].factor;
      out[j].faces[i] == Scaled(Box(e.x as real * f, e.y as real * f,
                                    (e.x + winW) as real * f, (e.y + winH) as real * f, e.p))
  {
    out := groups;
    PartialStart(groups, winW, winH);
    for j := 0 to |groups|
      invariant out == Partial(groups, winW, winH, j, 0)
    {
      for i := 0 to |out[j].faces|
        invariant out == Partial(groups, winW, winH, j, i)
      {
        PartialStep(groups, winW, winH, j, i);
        var e := out[j].faces[i];
        var f := out[j].factor;
        out := out[j := Group(f, out[j].faces[i := ScaleEntry(e, f, winW, winH)])];
      }
      PartialNext(groups, winW, winH, j);
    }
    PartialEnd(groups, winW, winH);
  }

  /** Group `g` with its first `i` entries replaced by their boxes. */
  function RescaledPrefix(g: Group, i: nat, winW: nat, winH: nat): Group
    requires forall n :: 0 <= n < |g.faces| ==> g.faces[n].Raw?
  {
    Group(g.factor, seq(|g.faces|, n requires 0 <= n < |g.faces| =>
      if n < i then ScaleEntry(g.faces[n], g.factor, winW, winH) else g.faces[n]))
  }

  /**
   * The state of the in-place rescaling after the groups before `j` and the
   * first `i` entries of group `j` have been rewritten.
   */
  function Partial(groups: seq<Group>, winW: nat, winH: nat, j: nat, i: nat): (r: seq<Group>)
    requires AllRaw(groups)
    ensures |r| == |groups|
    ensures forall m :: 0 <= m < |r| ==> r[m].factor == groups[m].factor && |r[m].faces| == |groups[m].faces|
  {
    seq(|groups|, m requires 0 <= m < |groups| =>
      if m < j then RescaledPrefix(groups[m], |groups[m].faces|, winW, winH)
      else if m == j then RescaledPrefix(groups[m], i, winW, winH)
      else groups[m])
  }

  lemma PrefixNone(g: Group, winW: nat, winH: nat)
    requires forall n :: 0 <= n < |g.faces| ==> g.faces[n].Raw?
    ensures RescaledPrefix(g, 0, winW, winH) == g
  {
    assert RescaledPrefix(g, 0, winW, winH).faces == g.faces;
  }

  /** Before the first step, nothing has been rewritten. */
  lemma PartialStart(groups: seq<Group>, winW: nat, winH: nat)
    requires AllRaw(groups)
    ensures Partial(groups, winW, winH, 0, 0) == groups
  {
    var p := Partial(groups, winW, winH, 0, 0);
    forall m | 0 <= m < |groups|
      ensures p[m] == groups[m]
    {
      if m == 0 {
        PrefixNone(groups[m], winW, winH);
      }
    }
  }

  /** Rewriting entry `i` of a group whose first `i` entries are rewritten extends the rewritten prefix. */
  lemma PrefixStep(g: Group, i: nat, winW: nat, winH: nat)
    requires forall n :: 0 <= n < |g.faces| ==> g.faces[n].Raw?
    requires i < |g.faces|
    ensures RescaledPrefix(g, i, winW, winH).faces[i] == g.faces[i]
    ensures RescaledPrefix(g, i, winW, winH).faces[i := ScaleEntry(g.faces[i], g.factor, winW, winH)]
         == RescaledPrefix(g, i + 1, winW, winH).faces
  {
    var before, after := RescaledPrefix(g, i, winW, winH).faces, RescaledPrefix(g, i + 1, winW, winH).faces;
    var updated := before[i := ScaleEntry(g.faces[i], g.factor, winW, winH)];
    forall n | 0 <= n < |updated|
      ensures updated[n] == after[n]
    {
    }
  }

  /** Rewriting entry `i` of group `j` in place advances the state by one entry. */
  lemma PartialStep(groups: seq<Group>, winW: nat, winH: nat, j: nat, i: nat)
    requires AllRaw(groups)
    requires j < |groups| && i < |groups[j].faces|
    ensures Partial(groups, winW, winH, j, i)[j].faces[i] == groups[j].faces[i]
    ensures var p := Partial(groups, winW, winH, j, i);
      p[j := Group(p[j].factor, p[j].faces[i := ScaleEntry(groups[j].faces[i], groups[j].factor, winW, winH)])]
      == Partial(groups, winW, winH, j, i + 1)
  {
    var p, q := Partial(groups, winW, winH, j, i), Partial(groups, winW, winH, j, i + 1);
    assert p[j] == RescaledPrefix(groups[j], i, winW, winH);
    assert q[j] == RescaledPrefix(groups[j], i + 1, winW, winH);
    PrefixStep(groups[j], i, winW, winH);
    var stepped := p[j := Group(p[j].factor, p[j].faces[i := ScaleEntry(groups[j].faces[i], groups[j].factor, winW, winH)])];
    forall m | 0 <= m < |q|
      ensures stepped[m] == q[m]
    {
    }
  }

  /** Finishing group `j` is the same state as starting group `j + 1`. */
  lemma PartialNext(groups: seq<Group>, winW: nat, winH: nat, j: nat)
    requires AllRaw(groups)
    requires j < |groups|
    ensures Partial(groups, winW, winH, j, |groups[j].faces|) == Partial(groups, winW, winH, j + 1, 0)
  {
    var p, q := Partial(groups, winW, winH, j, |groups[j].faces|), Partial(groups, winW, winH, j + 1, 0);
    forall m | 0 <= m < |groups|
      ensures p[m] == q[m]
    {
      if m == j + 1 {
        PrefixNone(groups[m], winW, winH);
      }
    }
  }

  /** After the last group, every entry has been rewritten. */
  lemma PartialEnd(groups: seq<Group>, winW: nat, winH: nat)
    requires AllRaw(groups)
    ensures Partial(groups, winW, winH, |groups|, 0) == Rescaled(groups, winW, winH)
  {
    var p, r := Partial(groups, winW, winH, |groups|, 0), Rescaled(groups, winW, winH);
    forall m | 0 <= m < |groups|
      ensures p[m] == r[m]
    {
      assert p[m].faces == r[m].faces;
    }
  }

  /** Flattens the per-level lists into one list, skipping the empty ones. */
  method CleanFaces(groups: seq<Group>) returns (faces: seq<Entry>)
    ensures faces == Concat(groups)
  {
    faces := [];
    for j := 0 to |groups|
      invariant faces == Concat(groups[..j])
    {
      assert groups[..j + 1][..j] == groups[..j];
      if |groups[j].faces| == 0 {
        continue;
      }
      for i := 0 to |groups[j].faces|
        invariant faces == Concat(groups[..j]) + groups[j].faces[..i]
      {
        faces := faces + [groups[j].faces[i]];
      }
      assert groups[j].faces[..|groups[j].faces|] == groups[j].faces;
    }
    assert groups[..|groups|] == groups;
  }

  /** The boxes of all groups after rescaling, flattened in level order. */
  function GroupBoxes(groups: seq<Group>, winW: nat, winH: nat): seq<Box>
    requires AllRaw(groups)
  {
    RescaledAllScaled(groups, winW, winH);
    Boxes(Concat(Rescaled(groups, winW, winH)))
  }

  /**
   * The boxes handed to suppression: every level's candidates, rescaled and
   * flattened. Each of them scores at least the probability threshold.
   */
  function AllBoxes(orig: Size, scale: real, winW: nat, winH: nat, step: nat, probThreshold: real,
                    classify: Classifier): (r: seq<Box>)
    requires scale > 1.0 && step > 0 && orig.height > 0
    ensures forall b :: b in r ==> b.score >= probThreshold
  {
    var raw := RawGroups(orig, scale, step, winW, winH, probThreshold, classify);
    RawGroupsAllRaw(orig, scale, step, winW, winH, probThreshold, classify);
    var boxes := GroupBoxes(raw, winW, winH);
    assert forall b :: b in boxes ==> b.score >= probThreshold by {
      forall b | b in boxes
        ensures b.score >= probThreshold
      {
        var j, i := GroupBoxesOrigin(raw, winW, winH, b);
        RawGroupsStep(orig, scale, step, winW, winH, probThreshold, classify, j);
      }
    }
    boxes
  }

  /**
   * The whole pipeline as a function: collect, rescale, flatten, suppress.
   * The result is drawn from the collected boxes and no two of its boxes
   * overlap by the suppression threshold or more.
   */
  function Detections(orig: Size, scale: real, winW: nat, winH: nat, step: nat, probThreshold: real,
                      iouThreshold: real, classify: Classifier, overlap: Overlap): (r: seq<Box>)
    requires scale > 1.0 && step > 0 && orig.height > 0
    ensures multiset(r) <= multiset(AllBoxes(orig, scale, winW, winH, step, probThreshold, classify))
    ensures PairwiseBelow(r, iouThreshold, overlap)
  {
    var boxes := AllBoxes(orig, scale, winW, winH, step, probThreshold, classify);
    SuppressedProperties(boxes, iouThreshold, overlap);
    Suppressed(boxes, iouThreshold, overlap)
  }

  /**
   * The detection pipeline: fails with a division by zero on an image of
   * height zero (the scale factor of the first level), and otherwise returns
   * the suppressed boxes of all levels. The classifier is called once per
   * full-size window of every level, in scan order, and every call is on a
   * window that lies entirely inside its level.
   */
  method PyramidSlidingWindowDetection(orig: Size, scale: real, winW: nat, winH: nat, step: nat,
                                       probThreshold: real, iouThreshold: real,
                                       classify: Classifier, overlap: Overlap)
    returns (result: Result<seq<Box>>, calls: seq<Call>)
    requires scale > 1.0 && step > 0
    ensures result.Err? <==> orig.height == 0
    ensures result.Err? ==> calls == []
    ensures result.Ok? ==>
      result.value == Detections(orig, scale, winW, winH, step, probThreshold, iouThreshold, classify, overlap)
    ensures result.Ok? ==> PairwiseBelow(result.value, iouThreshold, overlap)
    ensures result.Ok? ==>
      var levels := Levels(orig, scale, DefaultMinSize);
      calls == ScanCalls(levels, |levels|, step, winW, winH)
    ensures forall c :: c in calls ==>
      var levels := Levels(orig, scale, DefaultMinSize);
      c.level < |levels| && c.x + winW <= levels[c.level].width && c.y + winH <= levels[c.level].height
  {
    if orig.height == 0 {
      return Err(ZeroDivision), [];
    }
    var groups;
    groups, calls := CollectCandidates(orig, scale, step, winW, winH, probThreshold, classify);
    RawGroupsAllRaw(orig, scale, step, winW, winH, probThreshold, classify);
    var raw := groups;
    groups := RescaleGroups(groups, winW, winH);
    var faces := CleanFaces(groups);
    RescaledAllScaled(raw, winW, winH);
    var kept := NonMaxSupp(Boxes(faces), iouThreshold, overlap);
    result := Ok(kept);
  }

  /** The collector records raw candidates only. */
  lemma RawGroupsAllRaw(orig: Size, scale: real, step: nat, winW: nat, winH: nat, threshold: real,
                        classify: Classifier)
    requires scale > 1.0 && step > 0 && orig.height > 0
    ensures AllRaw(RawGroups(orig, scale, step, winW, winH, threshold, classify))
  {
  }

  /** After rescaling, every entry of the flattened list is a box. */
  lemma RescaledAllScaled(groups: seq<Group>, winW: nat, winH: nat)
    requires AllRaw(groups)
    ensures forall e :: e in Concat(Rescaled(groups, winW, winH)) ==> e.Scaled?
  {
  }

  /**
   * The first group is the original image's, with factor 1, and the scale
   * factor strictly increases from one group to any later one.
   */
  lemma GroupFactorsIncrease(orig: Size, scale: real, step: nat, winW: nat, winH: nat, threshold: real,
                             classify: Classifier, i: nat, j: nat)
    requires scale > 1.0 && step > 0 && orig.height > 0
    requires i < j < |RawGroups(orig, scale, step, winW, winH, threshold, classify)|
    ensures var groups := RawGroups(orig, scale, step, winW, winH, threshold, classify);
      groups[0].factor == 1.0 && groups[i].factor < groups[j].factor
  {
    FactorsIncrease(orig, scale, DefaultMinSize, i, j);
  }

  /**
   * At the original level the rescaled box of a candidate (x, y, p) is
   * (x, y, x + winW, y + winH, p).
   */
  lemma OriginalLevelBoxes(orig: Size, scale: real, step: nat, winW: nat, winH: nat, threshold: real,
                           classify: Classifier, i: nat)
    requires scale > 1.0 && step > 0 && orig.height > 0
    requires i < |RawGroups(orig, scale, step, winW, winH, threshold, classify)[0].faces|
    ensures var groups := RawGroups(orig, scale, step, winW, winH, threshold, classify);
      var e := groups[0].faces[i];
      && e.Raw?
      && AllRaw(groups)
      && Rescaled(groups, winW, winH)[0].faces[i]
         == Scaled(Box(e.x as real, e.y as real, (e.x + winW) as real, (e.y + winH) as real, e.p))
  {
    var groups := RawGroups(orig, scale, step, winW, winH, threshold, classify);
    RawGroupsAllRaw(orig, scale, step, winW, winH, threshold, classify);
    assert groups[0].factor == 1.0;
  }

  /**
   * A raw candidate is recorded exactly when it comes from a full-size
   * window of the scan whose probability reaches the threshold.
   */
  lemma {:induction false} CandidatesExactly(level: nat, windows: seq<Window>, winW: nat, winH: nat,
                                             threshold: real, classify: Classifier, e: Entry)
    ensures e in Candidates(level, windows, winW, winH, threshold, classify) <==>
      exists w :: w in windows && IsFull(w, winW, winH) && classify(level, w.x, w.y) >= threshold
               && e == Raw(w.x, w.y, classify(level, w.x, w.y))
    decreases |windows|
  {
    if windows != [] {
      var last := windows[|windows| - 1];
      var init := windows[..|windows| - 1];
      assert windows == init + [last];
      CandidatesExactly(level, init, winW, winH, threshold, classify, e);
    }
  }

  /**
   * The classifier is called on a window of a level's scan exactly when the
   * window has the full window size.
   */
  lemma {:induction false} LevelCallsExactly(level: nat, windows: seq<Window>, winW: nat, winH: nat, c: Call)
    ensures c in LevelCalls(level, windows, winW, winH) <==>
      exists w :: w in windows && IsFull(w, winW, winH) && c == Call(level, w.x, w.y)
    decreases |windows|
  {
    if windows != [] {
      var last := windows[|windows| - 1];
      var init := windows[..|windows| - 1];
      assert windows == init + [last];
      LevelCallsExactly(level, init, winW, winH, c);
    }
  }

  /**
   * Over the scans of the first `n` levels, the classifier is called at
   * (level, x, y) exactly when the level is one of them and the scan of that
   * level has a full-size window at (x, y).
   */
  lemma {:induction false} ScanCallsExactly(levels: seq<Size>, n: nat, step: nat, winW: nat, winH: nat, c: Call)
    requires step > 0 && n <= |levels|
    ensures c in ScanCalls(levels, n, step, winW, winH) <==>
      c.level < n
      && exists w :: w in Windows(levels[c.level], step, winW, winH) && IsFull(w, winW, winH) && w.x == c.x && w.y == c.y
  {
    if n > 0 {
      ScanCallsExactly(levels, n - 1, step, winW, winH, c);
      LevelCallsExactly(n - 1, Windows(levels[n - 1], step, winW, winH), winW, winH, c);
    }
  }

  /** Concatenation distributes over appending lists of groups. */
  lemma {:induction false} ConcatAppend(a: seq<Group>, b: seq<Group>)
    ensures Concat(a + b) == Concat(a) + Concat(b)
    decreases |b|
  {
    if b == [] {
      assert a + b == a;
    } else {
      var init, last := b[..|b| - 1], b[|b| - 1];
      assert (a + b)[..|a + b| - 1] == a + init;
      assert (a + b)[|a + b| - 1] == last;
      assert Concat(a + b) == Concat(a + init) + last.faces;
      assert Concat(b) == Concat(init) + last.faces;
      ConcatAppend(a, init);
      assert Concat(a) + Concat(init) + last.faces == Concat(a) + (Concat(init) + last.faces);
    }
  }

  /** The number of detections over all groups, counted from the first group on. */
  function FaceCount(groups: seq<Group>): nat {
    if groups == [] then 0 else |groups[0].faces| + FaceCount(groups[1..])
  }

  /** The groups that hold at least one detection, in order. */
  function NonEmpty(groups: seq<Group>): (r: seq<Group>)
    ensures |r| <= |groups|
    ensures forall j :: 0 <= j < |r| ==> r[j].faces != []
  {
    if groups == [] then []
    else if groups[0].faces == [] then NonEmpty(groups[1..])
    else [groups[0]] + NonEmpty(groups[1..])
  }

  /**
   * The flattened list holds as many detections as all groups together,
   * and groups without detections contribute nothing to it.
   */
  lemma {:induction false} ConcatCountAndEmpty(groups: seq<Group>)
    ensures |Concat(groups)| == FaceCount(groups)
    ensures Concat(NonEmpty(groups)) == Concat(groups)
  {
    if groups != [] {
      assert groups == [groups[0]] + groups[1..];
      ConcatAppend([groups[0]], groups[1..]);
      ConcatCountAndEmpty(groups[1..]);
      assert Concat([groups[0]]) == Concat([]) + groups[0].faces;
      if groups[0].faces != [] {
        ConcatAppend([groups[0]], NonEmpty(groups[1..]));
      }
    }
  }

  /** Every detection of every group appears in the flattened list. */
  lemma {:induction false} ConcatHas(groups: seq<Group>, j: nat, e: Entry)
    requires j < |groups| && e in groups[j].faces
    ensures e in Concat(groups)
    decreases |groups|
  {
    if j < |groups| - 1 {
      ConcatHas(groups[..|groups| - 1], j, e);
    }
  }

  /** Every flattened box is the rescaled box of some entry of some group. */
  lemma GroupBoxesOrigin(groups: seq<Group>, winW: nat, winH: nat, b: Box) returns (j: nat, i: nat)
    requires AllRaw(groups)
    requires b in GroupBoxes(groups, winW, winH)
    ensures j < |groups| && i < |groups[j].faces|
    ensures b == ScaleEntry(groups[j].faces[i], groups[j].factor, winW, winH).box
  {
    var resc := Rescaled(groups, winW, winH);
    var flat := Concat(resc);
    RescaledAllScaled(groups, winW, winH);
    var boxes := Boxes(flat);
    var k :| 0 <= k < |boxes| && boxes[k] == b;
    assert flat[k] in Concat(resc);
    j :| 0 <= j < |resc| && flat[k] in resc[j].faces;
    i :| 0 <= i < |resc[j].faces| && resc[j].faces[i] == flat[k];
  }

  /** The rescaled box of every entry of every group is among the flattened boxes. */
  lemma GroupBoxesHas(groups: seq<Group>, winW: nat, winH: nat, j: nat, i: nat)
    requires AllRaw(groups)
    requires j < |groups| && i < |groups[j].faces|
    ensures ScaleEntry(groups[j].faces[i], groups[j].factor, winW, winH).box in GroupBoxes(groups, winW, winH)
  {
    var resc := Rescaled(groups, winW, winH);
    var flat := Concat(resc);
    RescaledAllScaled(groups, winW, winH);
    var scaled := resc[j].faces[i];
    ConcatHas(resc, j, scaled);
    var k :| 0 <= k < |flat| && flat[k] == scaled;
    assert Boxes(flat)[k] == scaled.box;
  }

  /**
   * Every box collected before suppression is the box of a full-size window
   * at some level whose probability reaches the threshold.
   */
  lemma AllBoxesSound(orig: Size, scale: real, winW: nat, winH: nat, step: nat, probThreshold: real,
                      classify: Classifier, b: Box)
    returns (j: nat, w: Window)
    requires scale > 1.0 && step > 0 && orig.height > 0
    requires b in AllBoxes(orig, scale, winW, winH, step, probThreshold, classify)
    ensures j < |Levels(orig, scale, DefaultMinSize)| && Levels(orig, scale, DefaultMinSize)[j].height > 0
    ensures w in Windows(Levels(orig, scale, DefaultMinSize)[j], step, winW, winH)
    ensures IsFull(w, winW, winH) && classify(j, w.x, w.y) >= probThreshold
    ensures b == ScaleEntry(Raw(w.x, w.y, classify(j, w.x, w.y)),
                            Factor(orig, Levels(orig, scale, DefaultMinSize)[j]), winW, winH).box
  {
    var levels := Levels(orig, scale, DefaultMinSize);
    LevelHeights(orig, scale);
    var raw := RawGroups(orig, scale, step, winW, winH, probThreshold, classify);
    RawGroupsAllRaw(orig, scale, step, winW, winH, probThreshold, classify);
    var i;
    j, i := GroupBoxesOrigin(raw, winW, winH, b);
    var e := raw[j].faces[i];
    assert e in raw[j].faces;
    CandidatesExactly(j, Windows(levels[j], step, winW, winH), winW, winH, probThreshold, classify, e);
    w :| w in Windows(levels[j], step, winW, winH) && IsFull(w, winW, winH)
         && classify(j, w.x, w.y) >= probThreshold && e == Raw(w.x, w.y, classify(j, w.x, w.y));
  }

  /**
   * The box of every full-size window whose probability reaches the
   * threshold is collected before suppression.
   */
  lemma AllBoxesComplete(orig: Size, scale: real, winW: nat, winH: nat, step: nat, probThreshold: real,
                         classify: Classifier, j: nat, w: Window)
    requires scale > 1.0 && step > 0 && orig.height > 0
    requires j < |Levels(orig, scale, DefaultMinSize)|
    requires w in Windows(Levels(orig, scale, DefaultMinSize)[j], step, winW, winH)
    requires IsFull(w, winW, winH) && classify(j, w.x, w.y) >= probThreshold
    ensures Levels(orig, scale, DefaultMinSize)[j].height > 0
    ensures ScaleEntry(Raw(w.x, w.y, classify(j, w.x, w.y)),
                       Factor(orig, Levels(orig, scale, DefaultMinSize)[j]), winW, winH).box
            in AllBoxes(orig, scale, winW, winH, step, probThreshold, classify)
  {
    var levels := Levels(orig, scale, DefaultMinSize);
    LevelHeights(orig, scale);
    var raw := RawGroups(orig, scale, step, winW, winH, probThreshold, classify);
    RawGroupsAllRaw(orig, scale, step, winW, winH, probThreshold, classify);
    var e := Raw(w.x, w.y, classify(j, w.x, w.y));
    CandidatesExactly(j, Windows(levels[j], step, winW, winH), winW, winH, probThreshold, classify, e);
    assert e in raw[j].faces;
    var i :| 0 <= i < |raw[j].faces| && raw[j].faces[i] == e;
    GroupBoxesHas(raw, winW, winH, j, i);
  }

  /**
   * Every box the pipeline returns is the box of a full-size window at some
   * level whose probability reaches the threshold: both corners of the
   * window multiplied by the level's scale factor.
   */
  lemma DetectionsSound(orig: Size, scale: real, winW: nat, winH: nat, step: nat, probThreshold: real,
                        iouThreshold: real, classify: Classifier, overlap: Overlap, b: Box)
    returns (j: nat, w: Window)
    requires scale > 1.0 && step > 0 && orig.height > 0
    requires b in Detections(orig, scale, winW, winH, step, probThreshold, iouThreshold, classify, overlap)
    ensures j < |Levels(orig, scale, DefaultMinSize)| && Levels(orig, scale, DefaultMinSize)[j].height > 0
    ensures w in Windows(Levels(orig, scale, DefaultMinSize)[j], step, winW, winH)
    ensures IsFull(w, winW, winH) && classify(j, w.x, w.y) >= probThreshold
    ensures b == ScaleEntry(Raw(w.x, w.y, classify(j, w.x, w.y)),
                            Factor(orig, Levels(orig, scale, DefaultMinSize)[j]), winW, winH).box
  {
    var boxes := AllBoxes(orig, scale, winW, winH, step, probThreshold, classify);
    SuppressedProperties(boxes, iouThreshold, overlap);
    assert b in multiset(boxes);
    j, w := AllBoxesSound(orig, scale, winW, winH, step, probThreshold, classify, b);
  }

  /**
   * No window is lost silently: the box of every full-size window whose
   * probability reaches the threshold is returned, or a returned box
   * overlaps it by the suppression threshold or more.
   */
  lemma DetectionsComplete(orig: Size, scale: real, winW: nat, winH: nat, step: nat, probThreshold: real,
                           iouThreshold: real, classify: Classifier, overlap: Overlap, j: nat, w: Window)
    requires scale > 1.0 && step > 0 && orig.height > 0
    requires j < |Levels(orig, scale, DefaultMinSize)|
    requires w in Windows(Levels(orig, scale, DefaultMinSize)[j], step, winW, winH)
    requires IsFull(w, winW, winH) && classify(j, w.x, w.y) >= probThreshold
    ensures Levels(orig, scale, DefaultMinSize)[j].height > 0
    ensures var b := ScaleEntry(Raw(w.x, w.y, classify(j, w.x, w.y)),
                                Factor(orig, Levels(orig, scale, DefaultMinSize)[j]), winW, winH).box;
      var out := Detections(orig, scale, winW, winH, step, probThreshold, iouThreshold, classify, overlap);
      b in out || exists c :: c in out && overlap(c.Corners(), b.Corners()) >= iouThreshold
  {
    AllBoxesComplete(orig, scale, winW, winH, step, probThreshold, classify, j, w);
    var b := ScaleEntry(Raw(w.x, w.y, classify(j, w.x, w.y)),
                        Factor(orig, Levels(orig, scale, DefaultMinSize)[j]), winW, winH).box;
    var sorted := SortByScoreDesc(AllBoxes(orig, scale, winW, winH, step, probThreshold, classify));
    assert b in multiset(sorted);
    GreedyCovers(sorted, iouThreshold, overlap, b);
  }
}
