/**
 * The integer rules of `DPMDetector` that sit on top of the latent-SVM
 * part detector: which detections' part boxes are kept, how a player's body
 * parts are stored, and how the torso is inferred from the two torso parts.
 */
module DpmDetector {
  import opened Shapes

  /** Lines 329-332: `b` when `a < b`, otherwise `a`. */
  function Max(a: int, b: int): (m: int)
    ensures m >= a && m >= b
    ensures m == a || m == b
  {
    if a < b then b else a
  }

  /** The smaller of two ints. */
  function Min(a: int, b: int): (m: int)
    ensures m <= a && m <= b
    ensures m == a || m == b
  {
    if a < b then a else b
  }

  /** C++ `x / 2` on `int`: the quotient truncated toward zero. */
  function Half(x: int): (h: int)
    ensures x >= 0 ==> 0 <= x - 2 * h <= 1
    ensures x < 0 ==> -1 <= x - 2 * h <= 0
  {
    if x >= 0 then x / 2 else -((-x) / 2)
  }

  /** The truncated mean of two ints lies between them. */
  lemma HalfOfSumBetween(a: int, b: int)
    ensures Min(a, b) <= Half(a + b) <= Max(a, b)
  {
  }

  /** The truncated mean of a value with itself is that value. */
  lemma HalfOfDouble(a: int)
    ensures Half(a + a) == a
  {
  }

  /**
   * Lines 343-351: the torso box inferred from the two torso parts. Its
   * origin is the truncated mean of the parts' origins and its far corner the
   * truncated mean of their far corners, so both lie between the parts'.
   */
  function TorsoRect(t1: Rect, t2: Rect): (m: Rect)
    ensures Min(t1.x, t2.x) <= m.x <= Max(t1.x, t2.x)
    ensures Min(t1.y, t2.y) <= m.y <= Max(t1.y, t2.y)
    ensures Min(t1.x + t1.width, t2.x + t2.width) <= m.x + m.width <= Max(t1.x + t1.width, t2.x + t2.width)
    ensures Min(t1.y + t1.height, t2.y + t2.height) <= m.y + m.height <= Max(t1.y + t1.height, t2.y + t2.height)
  {
    HalfOfSumBetween(t1.x, t2.x);
    HalfOfSumBetween(t1.y, t2.y);
    HalfOfSumBetween(t1.x + t1.width, t2.x + t2.width);
    HalfOfSumBetween(t1.y + t1.height, t2.y + t2.height);
    var x := Half(t1.x + t2.x);
    var y := Half(t1.y + t2.y);
    var oppoX := Half((t1.x + t1.width) + (t2.x + t2.width));
    var oppoY := Half((t1.y + t1.height) + (t2.y + t2.height));
    Rect(x, y, oppoX - x, oppoY - y)
  }

  /** Two equal torso parts give that very rectangle as the torso. */
  lemma TorsoOfEqualParts(t: Rect)
    ensures TorsoRect(t, t) == t
  {
    HalfOfDouble(t.x);
    HalfOfDouble(t.y);
    HalfOfDouble(t.x + t.width);
    HalfOfDouble(t.y + t.height);
  }

  /** The torso does not depend on the order of the two parts. */
  lemma TorsoSymmetric(t1: Rect, t2: Rect)
    ensures TorsoRect(t1, t2) == TorsoRect(t2, t1)
  {
  }

  /** The `std::invalid_argument` conditions of the detector. */
  datatype Failure = NullPlayer | NotEnoughBodyParts

  /** How a call ends: normally, or by throwing `std::invalid_argument`. */
  datatype Outcome = Done | Thrown(failure: Failure)

  /**
   * Lines 352-354: the features once the torso is inferred: its rectangle,
   * and the crops of the player's image and mask at that rectangle.
   */
  function WithTorso(f: Features): (g: Features)
    requires |f.bodyParts| >= 3
    ensures g.bodyParts == f.bodyParts
    ensures g.torso.Some? && g.torso.value == Crop(PlayerImage, g.torsoPos)
    ensures g.torsoMask.Some? && g.torsoMask.value == Crop(PlayerMask, g.torsoPos)
    ensures g.torsoPos == TorsoRect(f.bodyParts[1], f.bodyParts[2])
  {
    var mean := TorsoRect(f.bodyParts[1], f.bodyParts[2]);
    f.(torso := Some(Crop(PlayerImage, mean)), torsoMask := Some(Crop(PlayerMask, mean)), torsoPos := mean)
  }

  /**
   * Lines 334-355: a null player and a player with fewer than three body
   * parts are rejected without any change; otherwise only the torso
   * features are written.
   */
  method ExtractTorsoForPlayer(player: Player?) returns (outcome: Outcome)
    modifies player
    ensures player == null ==> outcome == Thrown(NullPlayer)
    ensures player != null && |old(player.features.bodyParts)| < 3 ==>
              outcome == Thrown(NotEnoughBodyParts) && unchanged(player)
    ensures player != null && |old(player.features.bodyParts)| >= 3 ==>
              && outcome == Done
              && player.features == WithTorso(old(player.features))
              && player.maskImage == old(player.maskImage) && player.pos == old(player.pos)
              && player.originalImage == old(player.originalImage) && player.frameIndex == old(player.frameIndex)
  {
    if player == null {
      return Thrown(NullPlayer);
    } else if |player.features.bodyParts| < 3 {
      return Thrown(NotEnoughBodyParts);
    }
    var torso1 := player.features.bodyParts[1];
    var torso2 := player.features.bodyParts[2];
    var mean := TorsoRect(torso1, torso2);
    player.features := player.features.(torso := Some(Crop(PlayerImage, mean)));
    player.features := player.features.(torsoMask := Some(Crop(PlayerMask, mean)));
    player.features := player.features.(torsoPos := mean);
    outcome := Done;
  }

  /**
   * Lines 30-41: the detected parts (the result of running the part detector
   * on the player's image, given here as `detected`) are stored, and the
   * torso is inferred whenever at least one part was found. With one or two
   * parts the torso rule throws, after the parts have been stored.
   */
  method ExtractBodyParts(player: Player?, detected: seq<Rect>) returns (outcome: Outcome)
    modifies player
    ensures player == null ==> outcome == Thrown(NullPlayer)
    ensures player != null ==>
              && player.features.bodyParts == detected
              && player.maskImage == old(player.maskImage) && player.pos == old(player.pos)
              && player.originalImage == old(player.originalImage) && player.frameIndex == old(player.frameIndex)
    ensures player != null && |detected| == 0 ==>
              outcome == Done && player.features == old(player.features).(bodyParts := detected)
    ensures player != null && 0 < |detected| < 3 ==>
              outcome == Thrown(NotEnoughBodyParts) && player.features == old(player.features).(bodyParts := detected)
    ensures player != null && |detected| >= 3 ==>
              outcome == Done && player.features == WithTorso(old(player.features).(bodyParts := detected))
  {
    if player == null {
      return Thrown(NullPlayer);
    }
    player.features := player.features.(bodyParts := detected);
    outcome := Done;
    if |player.features.bodyParts| > 0 {
      outcome := ExtractTorsoForPlayer(player);
    }
  }

  /** Lines 100-104 over the first detections: the greatest level, and 0 when every level is below it. */
  function MaxLevel(levels: seq<int>): (m: int)
    ensures m >= 0
    ensures forall i :: 0 <= i < |levels| ==> levels[i] <= m
    ensures m == 0 || exists i :: 0 <= i < |levels| && levels[i] == m
  {
    if levels == [] then 0 else Max(MaxLevel(levels[..|levels| - 1]), levels[|levels| - 1])
  }

  /**
   * Lines 105-110 over the first detections: the best score among those at
   * `level`, and -2 when every such score is at most -2.
   */
  function BestScore(levels: seq<int>, scores: seq<real>, level: int): (s: real)
    requires |scores| == |levels|
    ensures s >= -2.0
    ensures forall i :: 0 <= i < |levels| && levels[i] == level ==> scores[i] <= s
    ensures s == -2.0 || exists i :: 0 <= i < |levels| && levels[i] == level && scores[i] == s
  {
    if levels == [] then -2.0
    else
      var n := |levels| - 1;
      var best := BestScore(levels[..n], scores[..n], level);
      if levels[n] == level && scores[n] > best then scores[n] else best
  }

  /**
   * Lines 119-120: detection `i` is at the greatest level and reaches the best
   * score there. That is, its level is at least 0 and no level is above it,
   * and its score is at least -2 and no score at its level is above it.
   */
  predicate Selected(levels: seq<int>, scores: seq<real>, i: int)
    requires |scores| == |levels| && 0 <= i < |levels|
    ensures Selected(levels, scores, i) <==>
              && 0 <= levels[i] && (forall j :: 0 <= j < |levels| ==> levels[j] <= levels[i])
              && -2.0 <= scores[i] && (forall j :: 0 <= j < |levels| && levels[j] == levels[i] ==> scores[j] <= scores[i])
  {
    levels[i] == MaxLevel(levels) && scores[i] == BestScore(levels, scores, MaxLevel(levels))
  }

  /**
   * `cv::Rect(pt1, pt2)`: the rectangle with the two points at opposite
   * corners, whatever their order, so its width and height are never negative.
   */
  function RectFromCorners(p: Point, q: Point): (r: Rect)
    ensures r.width >= 0 && r.height >= 0
    ensures (r.x == p.x && r.x + r.width == q.x) || (r.x == q.x && r.x + r.width == p.x)
    ensures (r.y == p.y && r.y + r.height == q.y) || (r.y == q.y && r.y + r.height == p.y)
  {
    var x := Min(p.x, q.x);
    var y := Min(p.y, q.y);
    Rect(x, y, Max(p.x, q.x) - x, Max(p.y, q.y) - y)
  }

  /** The corners may be given in either order. */
  lemma RectFromCornersSymmetric(p: Point, q: Point)
    ensures RectFromCorners(p, q) == RectFromCorners(q, p)
  {
  }

  /** The part boxes of one detection: part `j` spans its position and its opposite corner. */
  function PartBoxes(displacement: seq<Point>, opposite: seq<Point>, n: nat): (r: seq<Rect>)
    requires |displacement| >= n && |opposite| >= n
    ensures |r| == n
    ensures forall j :: 0 <= j < n ==> r[j] == RectFromCorners(displacement[j], opposite[j])
  {
    seq(n, j requires 0 <= j < n => RectFromCorners(displacement[j], opposite[j]))
  }

  /** The detections are consistent: one level, score, `n` positions and `n` opposite corners each. */
  predicate Detections(levels: seq<int>, scores: seq<real>, displacement: seq<seq<Point>>,
                       opposite: seq<seq<Point>>, n: nat)
  {
    && |scores| == |levels| && |displacement| == |levels| && |opposite| == |levels|
    && forall i :: 0 <= i < |levels| ==> |displacement[i]| >= n && |opposite[i]| >= n
  }

  /**
   * Lines 112-125 over the first `upTo` detections: the part boxes of the
   * selected ones, in order, so the boxes of earlier detections come first.
   */
  function BestPartBoxes(levels: seq<int>, scores: seq<real>, displacement: seq<seq<Point>>,
                         opposite: seq<seq<Point>>, n: nat, upTo: nat): (r: seq<Rect>)
    requires Detections(levels, scores, displacement, opposite, n) && upTo <= |levels|
    ensures forall u :: 0 <= u <= upTo ==> BestPartBoxes(levels, scores, displacement, opposite, n, u) <= r
  {
    if upTo == 0 then []
    else
      var i := upTo - 1;
      BestPartBoxes(levels, scores, displacement, opposite, n, i)
        + if Selected(levels, scores, i) then PartBoxes(displacement[i], opposite[i], n) else []
  }

  /** The number of selected detections among the first `upTo`. */
  function CountSelected(levels: seq<int>, scores: seq<real>, upTo: nat): nat
    requires |scores| == |levels| && upTo <= |levels|
  {
    if upTo == 0 then 0
    else CountSelected(levels, scores, upTo - 1) + if Selected(levels, scores, upTo - 1) then 1 else 0
  }

  /** Each selected detection contributes exactly `n` boxes. */
  lemma {:induction false} BestPartBoxesCount(levels: seq<int>, scores: seq<real>, displacement: seq<seq<Point>>,
                                              opposite: seq<seq<Point>>, n: nat, upTo: nat)
    requires Detections(levels, scores, displacement, opposite, n) && upTo <= |levels|
    ensures |BestPartBoxes(levels, scores, displacement, opposite, n, upTo)| == n * CountSelected(levels, scores, upTo)
  {
    if upTo > 0 {
      var i := upTo - 1;
      BestPartBoxesCount(levels, scores, displacement, opposite, n, i);
      var before := BestPartBoxes(levels, scores, displacement, opposite, n, i);
      var c := CountSelected(levels, scores, i);
      if Selected(levels, scores, i) {
        var boxes := PartBoxes(displacement[i], opposite[i], n);
        assert BestPartBoxes(levels, scores, displacement, opposite, n, upTo) == before + boxes;
        assert CountSelected(levels, scores, upTo) == c + 1;
        MultiplyStep(n, c);
      } else {
        assert BestPartBoxes(levels, scores, displacement, opposite, n, upTo) == before;
        assert CountSelected(levels, scores, upTo) == c;
      }
    }
  }

  /** One more selected detection adds `n` boxes. */
  lemma MultiplyStep(n: nat, c: nat)
    ensures n * (c + 1) == n * c + n
  {
  }

  /** Every box kept spans a part of a selected detection. */
  lemma {:induction false} BestPartBoxesFromSelected(levels: seq<int>, scores: seq<real>, displacement: seq<seq<Point>>,
                                                     opposite: seq<seq<Point>>, n: nat, upTo: nat)
    requires Detections(levels, scores, displacement, opposite, n) && upTo <= |levels|
    ensures forall r :: r in BestPartBoxes(levels, scores, displacement, opposite, n, upTo) ==>
              exists i, j :: 0 <= i < upTo && 0 <= j < n && Selected(levels, scores, i)
                             && r == RectFromCorners(displacement[i][j], opposite[i][j])
  {
    if upTo > 0 {
      var i := upTo - 1;
      BestPartBoxesFromSelected(levels, scores, displacement, opposite, n, i);
      var before := BestPartBoxes(levels, scores, displacement, opposite, n, i);
      forall r | r in BestPartBoxes(levels, scores, displacement, opposite, n, upTo)
        ensures exists i', j :: 0 <= i' < upTo && 0 <= j < n && Selected(levels, scores, i')
                                && r == RectFromCorners(displacement[i'][j], opposite[i'][j])
      {
        if r !in before {
          var boxes := PartBoxes(displacement[i], opposite[i], n);
          assert Selected(levels, scores, i) && r in boxes;
          var j :| 0 <= j < n && boxes[j] == r;
        }
      }
    }
  }

  /**
   * When some detection at the greatest level scores above -2, at least one
   * detection is selected, so its parts are kept.
   */
  lemma SomeDetectionSelected(levels: seq<int>, scores: seq<real>, k: int)
    requires |scores| == |levels| && 0 <= k < |levels|
    requires levels[k] == MaxLevel(levels) && scores[k] > -2.0
    ensures CountSelected(levels, scores, |levels|) >= 1
  {
    var best := BestScore(levels, scores, MaxLevel(levels));
    var i :| 0 <= i < |levels| && levels[i] == MaxLevel(levels) && scores[i] == best;
    assert Selected(levels, scores, i);
    CountSelectedPositive(levels, scores, |levels|, i);
  }

  /** A selected detection among the first `upTo` makes the count positive. */
  lemma {:induction false} CountSelectedPositive(levels: seq<int>, scores: seq<real>, upTo: nat, i: int)
    requires |scores| == |levels| && upTo <= |levels| && 0 <= i < upTo
    requires Selected(levels, scores, i)
    ensures CountSelected(levels, scores, upTo) >= 1
    decreases upTo
  {
    if i < upTo - 1 {
      CountSelectedPositive(levels, scores, upTo - 1, i);
    }
  }

  /**
   * The level floor of 0 hides detections at negative levels: when every
   * level is negative, no detection is selected and no box is kept.
   */
  lemma {:induction false} NegativeLevelsSelectNothing(levels: seq<int>, scores: seq<real>, upTo: nat)
    requires |scores| == |levels| && upTo <= |levels|
    requires forall i :: 0 <= i < |levels| ==> levels[i] < 0
    ensures CountSelected(levels, scores, upTo) == 0
  {
    if upTo > 0 {
      NegativeLevelsSelectNothing(levels, scores, upTo - 1);
      assert !Selected(levels, scores, upTo - 1);
    }
  }

  /** Extending the detections seen by one keeps `MaxLevel` the fold of `Max`. */
  lemma MaxLevelStep(levels: seq<int>, i: int)
    requires 0 <= i < |levels|
    ensures MaxLevel(levels[..i + 1]) == Max(MaxLevel(levels[..i]), levels[i])
  {
    assert levels[..i + 1][..i] == levels[..i];
  }

  /** Extending the detections seen by one updates the best score as lines 106-109 do. */
  lemma BestScoreStep(levels: seq<int>, scores: seq<real>, level: int, i: int)
    requires |scores| == |levels| && 0 <= i < |levels|
    ensures BestScore(levels[..i + 1], scores[..i + 1], level) ==
              var best := BestScore(levels[..i], scores[..i], level);
              if levels[i] == level && scores[i] > best then scores[i] else best
  {
    assert levels[..i + 1][..i] == levels[..i];
    assert scores[..i + 1][..i] == scores[..i];
  }

  /** Lines 100-104: the greatest level of the detections, floored at 0. */
  method FindMaxLevel(levels: seq<int>) returns (maxLevel: int)
    ensures maxLevel == MaxLevel(levels)
  {
    maxLevel := 0;
    var i := 0;
    while i < |levels|
      invariant 0 <= i <= |levels|
      invariant maxLevel == MaxLevel(levels[..i])
    {
      MaxLevelStep(levels, i);
      if levels[i] > maxLevel {
        maxLevel := levels[i];
      }
      i := i + 1;
    }
    assert levels[..i] == levels;
  }

  /** Lines 105-110: the best score among the detections at `level`, floored at -2. */
  method FindBestScore(levels: seq<int>, scores: seq<real>, level: int) returns (best: real)
    requires |scores| == |levels|
    ensures best == BestScore(levels, scores, level)
  {
    best := -2.0;
    var i := 0;
    while i < |levels|
      invariant 0 <= i <= |levels|
      invariant best == BestScore(levels[..i], scores[..i], level)
    {
      BestScoreStep(levels, scores, level, i);
      if levels[i] == level && scores[i] > best {
        best := scores[i];
      }
      i := i + 1;
    }
    assert levels[..i] == levels && scores[..i] == scores;
  }

  /**
   * Lines 87-128: the part boxes of the detections at the greatest level
   * whose score is the best there are appended to `parts`, `n` per
   * detection, in detection and part order. The opposite corner of each part
   * (computed by the detector's geometry) is given in `opposite`.
   */
  method DetectBestPartBoxes(parts: seq<Rect>, n: nat, displacement: seq<seq<Point>>, opposite: seq<seq<Point>>,
                             levels: seq<int>, scores: seq<real>)
    returns (parts': seq<Rect>)
    requires Detections(levels, scores, displacement, opposite, n)
    ensures parts' == parts + BestPartBoxes(levels, scores, displacement, opposite, n, |levels|)
  {
    var maxLevel := FindMaxLevel(levels);
    var maxScoreForLevel := FindBestScore(levels, scores, maxLevel);
    parts' := parts;
    var i := 0;
    while i < |levels|
      invariant 0 <= i <= |levels|
      invariant parts' == parts + BestPartBoxes(levels, scores, displacement, opposite, n, i)
    {
      var selected := levels[i] == maxLevel && scores[i] == maxScoreForLevel;
      parts' := AppendPartBoxes(parts', displacement[i], opposite[i], n, selected);
      i := i + 1;
    }
  }

  /**
   * Lines 113-124 for one detection: when it is `selected`, the boxes of its
   * `n` parts are appended in part order; otherwise nothing is.
   */
  method AppendPartBoxes(parts: seq<Rect>, displacement: seq<Point>, opposite: seq<Point>, n: nat, selected: bool)
    returns (parts': seq<Rect>)
    requires |displacement| >= n && |opposite| >= n
    ensures parts' == parts + if selected then PartBoxes(displacement, opposite, n) else []
  {
    ghost var boxes := PartBoxes(displacement, opposite, n);
    parts' := parts;
    var j := 0;
    while j < n
      invariant 0 <= j <= n
      invariant parts' == parts + if selected then boxes[..j] else []
    {
      if selected {
        var r := RectFromCorners(displacement[j], opposite[j]);
        assert boxes[..j + 1] == boxes[..j] + [r];
        parts' := parts' + [r];
      }
      j := j + 1;
    }
    assert boxes[..n] == boxes;
  }
}
