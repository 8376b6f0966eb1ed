/** The detection sampler: a frame counter lets every sixth frame reach the
    detector, a confidence floor rises with the layer number, and the box
    with the highest confidence above the floor, of a known class, is the
    defect reported. The detector itself is outside the model: its boxes
    are an input. */
module AiModel {
  import opened Text

  /** A detection as the AI thread hands it to the main loop. */
  datatype Defect = Defect(kind: string, confidence: real, bbox: seq<real>)

  /** One box of the detector's output. */
  datatype Box = Box(classId: int, confidence: real, bbox: seq<real>)

  /** The detector call: the boxes it found, or an exception. */
  datatype Inference = Boxes(boxes: seq<Box>) | InferenceFailed

  /** What analyze_live ends in: no defect (None), a defect, or an exception
      it lets out (a class missing from the model's name table). */
  datatype Analysis = NoDefect | Found(defect: Defect) | Raised

  // ---------------------------------------------------------------------
  // Frame skipping

  /** Only a call whose new frame count is a multiple of six reaches the
      detector. */
  predicate Sampled(frameCount: int) { frameCount % 6 == 0 }

  /** Of six calls in a row exactly one is sampled. */
  lemma OneInSix(count: int)
    ensures exists k :: count < k <= count + 6 && Sampled(k)
    ensures forall k, k' :: count < k <= count + 6 && count < k' <= count + 6 && Sampled(k) && Sampled(k') ==> k == k'
  {
    var k := count + 6 - count % 6;
    assert Sampled(k) by {
      assert k == 6 * (count / 6 + 1);
    }
    forall k1, k2 | count < k1 <= count + 6 && count < k2 <= count + 6 && Sampled(k1) && Sampled(k2)
      ensures k1 == k2
    {
      SampledApart(k1, k2);
    }
  }

  /** Two sampled counts less than six apart are the same. */
  lemma SampledApart(a: int, b: int)
    requires Sampled(a) && Sampled(b) && -6 < a - b < 6
    ensures a == b
  {
    var qa, qb := a / 6, b / 6;
    assert a == 6 * qa && b == 6 * qb;
    assert a - b == 6 * (qa - qb);
  }

  // ---------------------------------------------------------------------
  // The confidence floor

  /** get_threshold: the floor a box's confidence must exceed at a layer. */
  function Threshold(layer: int): real {
    if layer < 10 then 0.70 else if layer < 50 then 0.75 else 0.80
  }

  /** Later layers are never judged more sensitively. */
  lemma ThresholdMonotone(a: int, b: int)
    requires a <= b
    ensures Threshold(a) <= Threshold(b)
  {
  }

  // ---------------------------------------------------------------------
  // Class names

  /** map_class_to_defect: the model's own name for the class when it has a
      name table; without one, 'anomaly' for class 0 (COCO's 'person') and
      'unknown' for every other class. None: the table lacks the class and
      the lookup raises KeyError. */
  function ClassName(names: Option<map<int, string>>, classId: int): Option<string> {
    match names
    case Some(table) => if classId in table then Some(table[classId]) else None
    case None => if classId == 0 then Some("anomaly") else Some("unknown")
  }

  /** With a name table the lookup succeeds exactly for the classes in it
      and gives the table's name; without one it always succeeds and only
      class 0 is a defect. */
  lemma ClassNameCases(names: Option<map<int, string>>, classId: int)
    ensures names.Some? ==> (ClassName(names, classId).Some? <==> classId in names.value)
    ensures names.Some? && classId in names.value ==> ClassName(names, classId) == Some(names.value[classId])
    ensures names.None? ==> ClassName(names, classId).Some?
    ensures names.None? ==> (ClassName(names, classId).value != "unknown" <==> classId == 0)
  {
    assert "anomaly" != "unknown" by { assert "anomaly"[0] != "unknown"[0]; }
  }

  // ---------------------------------------------------------------------
  // Choosing the defect

  /** A box the loop keeps: above the floor, with a known name. */
  predicate Qualifies(b: Box, floor: real, names: Option<map<int, string>>) {
    b.confidence > floor && ClassName(names, b.classId).Some? && ClassName(names, b.classId).value != "unknown"
  }

  /** A box that ends the loop with an exception: above the floor, with no
      name. */
  predicate Raises(b: Box, floor: real, names: Option<map<int, string>>) {
    b.confidence > floor && ClassName(names, b.classId).None?
  }

  /** The defect a qualifying box describes. */
  function DefectOf(b: Box, names: Option<map<int, string>>): Defect
    requires ClassName(names, b.classId).Some?
  {
    Defect(ClassName(names, b.classId).value, b.confidence, b.bbox)
  }

  /** The box loop of analyze_live, from the defect kept so far: a box
      replaces it when it qualifies and its confidence is strictly higher. */
  function Pick(boxes: seq<Box>, floor: real, names: Option<map<int, string>>, best: Option<Defect>): Analysis
    decreases |boxes|
  {
    if boxes == [] then (if best.Some? then Found(best.value) else NoDefect)
    else
      var b := boxes[0];
      if !(b.confidence > floor) then Pick(boxes[1..], floor, names, best)
      else match ClassName(names, b.classId)
        case None => Raised
        case Some(kind) =>
          if kind == "unknown" then Pick(boxes[1..], floor, names, best)
          else
            var kept := if best.None? || b.confidence > best.value.confidence then Some(Defect(kind, b.confidence, b.bbox)) else best;
            Pick(boxes[1..], floor, names, kept)
  }

  /** One step of the box loop at position i. */
  lemma PickStep(boxes: seq<Box>, i: nat, floor: real, names: Option<map<int, string>>, best: Option<Defect>)
    requires i < |boxes|
    ensures Pick(boxes[i..], floor, names, best)
         == var b := boxes[i];
            if !(b.confidence > floor) then Pick(boxes[i + 1..], floor, names, best)
            else match ClassName(names, b.classId)
              case None => Raised
              case Some(kind) =>
                if kind == "unknown" then Pick(boxes[i + 1..], floor, names, best)
                else Pick(boxes[i + 1..], floor, names,
                          if best.None? || b.confidence > best.value.confidence then Some(Defect(kind, b.confidence, b.bbox)) else best)
  {
    assert boxes[i..][0] == boxes[i];
    assert boxes[i..][1..] == boxes[i + 1..];
  }

  /** The loop raises exactly when some box above the floor has no name. */
  lemma {:induction false} PickRaises(boxes: seq<Box>, floor: real, names: Option<map<int, string>>, best: Option<Defect>)
    ensures Pick(boxes, floor, names, best) == Raised <==> exists i :: 0 <= i < |boxes| && Raises(boxes[i], floor, names)
    decreases |boxes|
  {
    if boxes != [] {
      var b := boxes[0];
      var kept := if ClassName(names, b.classId).Some? && (best.None? || b.confidence > best.value.confidence)
                  then Some(Defect(ClassName(names, b.classId).value, b.confidence, b.bbox)) else best;
      PickRaises(boxes[1..], floor, names, best);
      PickRaises(boxes[1..], floor, names, kept);
      if exists i :: 0 <= i < |boxes| && Raises(boxes[i], floor, names) {
        var i :| 0 <= i < |boxes| && Raises(boxes[i], floor, names);
        if i > 0 { assert Raises(boxes[1..][i - 1], floor, names); }
      }
      if exists i :: 0 <= i < |boxes[1..]| && Raises(boxes[1..][i], floor, names) {
        var i :| 0 <= i < |boxes[1..]| && Raises(boxes[1..][i], floor, names);
        assert Raises(boxes[i + 1], floor, names);
      }
    }
  }

  /** No qualifying box has a confidence above c. */
  predicate NoneAbove(boxes: seq<Box>, floor: real, names: Option<map<int, string>>, c: real) {
    forall i :: 0 <= i < |boxes| && Qualifies(boxes[i], floor, names) ==> boxes[i].confidence <= c
  }

  /** d is the defect of the qualifying box at k: no qualifying box has a
      higher confidence and every qualifying box before k a lower one. */
  predicate BestAt(boxes: seq<Box>, floor: real, names: Option<map<int, string>>, k: int, d: Defect) {
    && 0 <= k < |boxes| && Qualifies(boxes[k], floor, names) && d == DefectOf(boxes[k], names)
    && NoneAbove(boxes, floor, names, d.confidence)
    && forall i :: 0 <= i < k && Qualifies(boxes[i], floor, names) ==> boxes[i].confidence < d.confidence
  }

  /** What the loop picks when no box raises, from the defect kept so far:
      nothing when nothing was kept and no box qualifies; otherwise the kept
      defect, when no box beats it, or the first qualifying box of the
      highest confidence, which beats it. */
  ghost predicate PickedFrom(boxes: seq<Box>, floor: real, names: Option<map<int, string>>, best: Option<Defect>, a: Analysis) {
    match a
    case Raised => false
    case NoDefect => best.None? && forall i :: 0 <= i < |boxes| ==> !Qualifies(boxes[i], floor, names)
    case Found(d) =>
      || (best == Some(d) && NoneAbove(boxes, floor, names, d.confidence))
      || ((best.Some? ==> d.confidence > best.value.confidence) && exists k :: BestAt(boxes, floor, names, k, d))
  }

  lemma {:induction false} PickChoice(boxes: seq<Box>, floor: real, names: Option<map<int, string>>, best: Option<Defect>)
    requires forall i :: 0 <= i < |boxes| ==> !Raises(boxes[i], floor, names)
    ensures PickedFrom(boxes, floor, names, best, Pick(boxes, floor, names, best))
    decreases |boxes|
  {
    if boxes != [] {
      var b := boxes[0];
      var rest := boxes[1..];
      assert !Raises(b, floor, names);
      assert forall i :: 0 <= i < |rest| ==> !Raises(rest[i], floor, names) by {
        forall i | 0 <= i < |rest| ensures !Raises(rest[i], floor, names) { assert rest[i] == boxes[i + 1]; }
      }
      if Qualifies(b, floor, names) {
        var d := DefectOf(b, names);
        var kept := if best.None? || b.confidence > best.value.confidence then Some(d) else best;
        assert Pick(boxes, floor, names, best) == Pick(rest, floor, names, kept);
        PickChoice(rest, floor, names, kept);
        PickQualifying(boxes, floor, names, best, kept);
      } else {
        assert Pick(boxes, floor, names, best) == Pick(rest, floor, names, best);
        PickChoice(rest, floor, names, best);
        PickPassing(boxes, floor, names, best);
      }
    }
  }

  /** A first box at or below c keeps c an upper bound. */
  lemma NoneAboveCons(boxes: seq<Box>, floor: real, names: Option<map<int, string>>, c: real)
    requires boxes != [] && NoneAbove(boxes[1..], floor, names, c)
    requires Qualifies(boxes[0], floor, names) ==> boxes[0].confidence <= c
    ensures NoneAbove(boxes, floor, names, c)
  {
    forall i | 0 <= i < |boxes| && Qualifies(boxes[i], floor, names) ensures boxes[i].confidence <= c {
      if i > 0 { assert boxes[i] == boxes[1..][i - 1]; }
    }
  }

  /** The best box of the rest stays the best behind a first box that does
      not compete with it. */
  lemma BestAtCons(boxes: seq<Box>, floor: real, names: Option<map<int, string>>, k: int, d: Defect)
    requires boxes != [] && BestAt(boxes[1..], floor, names, k, d)
    requires Qualifies(boxes[0], floor, names) ==> boxes[0].confidence < d.confidence
    ensures BestAt(boxes, floor, names, k + 1, d)
  {
    assert boxes[k + 1] == boxes[1..][k];
    NoneAboveCons(boxes, floor, names, d.confidence);
    forall i | 0 <= i < k + 1 && Qualifies(boxes[i], floor, names) ensures boxes[i].confidence < d.confidence {
      if i > 0 { assert boxes[i] == boxes[1..][i - 1]; }
    }
  }

  /** PickedFrom over the rest carries over a first box that does not
      qualify. */
  lemma PickPassing(boxes: seq<Box>, floor: real, names: Option<map<int, string>>, best: Option<Defect>)
    requires boxes != [] && !Qualifies(boxes[0], floor, names)
    requires PickedFrom(boxes[1..], floor, names, best, Pick(boxes[1..], floor, names, best))
    ensures PickedFrom(boxes, floor, names, best, Pick(boxes[1..], floor, names, best))
  {
    var rest := boxes[1..];
    match Pick(rest, floor, names, best)
    case NoDefect =>
      assert forall i :: 1 <= i < |boxes| ==> boxes[i] == rest[i - 1];
    case Raised =>
    case Found(d) =>
      if best == Some(d) && NoneAbove(rest, floor, names, d.confidence) {
        NoneAboveCons(boxes, floor, names, d.confidence);
      } else {
        var k :| BestAt(rest, floor, names, k, d);
        BestAtCons(boxes, floor, names, k, d);
      }
  }

  /** PickedFrom over the rest, from the defect kept after a qualifying
      first box, gives PickedFrom over all the boxes. */
  lemma PickQualifying(boxes: seq<Box>, floor: real, names: Option<map<int, string>>, best: Option<Defect>, kept: Option<Defect>)
    requires boxes != [] && Qualifies(boxes[0], floor, names)
    requires kept == if best.None? || boxes[0].confidence > best.value.confidence then Some(DefectOf(boxes[0], names)) else best
    requires PickedFrom(boxes[1..], floor, names, kept, Pick(boxes[1..], floor, names, kept))
    ensures PickedFrom(boxes, floor, names, best, Pick(boxes[1..], floor, names, kept))
  {
    var rest := boxes[1..];
    var b := boxes[0];
    match Pick(rest, floor, names, kept)
    case NoDefect =>
    case Raised =>
    case Found(d) =>
      if kept == Some(d) && NoneAbove(rest, floor, names, d.confidence) {
        NoneAboveCons(boxes, floor, names, d.confidence);
        if best.None? || b.confidence > best.value.confidence {
          assert BestAt(boxes, floor, names, 0, d);
        }
      } else {
        var k :| BestAt(rest, floor, names, k, d);
        BestAtCons(boxes, floor, names, k, d);
      }
  }

  /** The defect analyze_live reports, stated without the loop: an exception
      when a box above the floor has no name; otherwise nothing when no box
      qualifies, and else the defect of the first qualifying box whose
      confidence no qualifying box exceeds, every earlier qualifying box
      having a strictly lower confidence. */
  lemma PickBest(boxes: seq<Box>, floor: real, names: Option<map<int, string>>)
    ensures Pick(boxes, floor, names, None) == Raised <==> exists i :: 0 <= i < |boxes| && Raises(boxes[i], floor, names)
    ensures Pick(boxes, floor, names, None) == NoDefect <==>
              (forall i :: 0 <= i < |boxes| ==> !Raises(boxes[i], floor, names) && !Qualifies(boxes[i], floor, names))
    ensures Pick(boxes, floor, names, None).Found? ==>
              exists k :: BestAt(boxes, floor, names, k, Pick(boxes, floor, names, None).defect)
  {
    PickRaises(boxes, floor, names, None);
    if forall i :: 0 <= i < |boxes| ==> !Raises(boxes[i], floor, names) {
      PickChoice(boxes, floor, names, None);
    }
  }

  /** A reported defect lies above the floor and has a known type. */
  lemma PickedQualifies(boxes: seq<Box>, floor: real, names: Option<map<int, string>>)
    requires Pick(boxes, floor, names, None).Found?
    ensures Pick(boxes, floor, names, None).defect.confidence > floor
    ensures Pick(boxes, floor, names, None).defect.kind != "unknown"
  {
    PickBest(boxes, floor, names);
  }

  /** What analyze_live answers for the frame it counts as `frameCount`:
      nothing unless the frame is sampled and the detector answered, else
      the pick over the boxes at the floor of `layer`. */
  function Outcome(frameCount: int, layer: int, names: Option<map<int, string>>, inference: Inference): Analysis {
    if !Sampled(frameCount) || inference.InferenceFailed? then NoDefect
    else Pick(inference.boxes, Threshold(layer), names, None)
  }

  // ---------------------------------------------------------------------
  // The model wrapper

  class LiveAIModel {
    /** The detector's class-name table, when it has one. */
    const names: Option<map<int, string>>
    var frameCount: int
    var currentLayer: int

    constructor (names: Option<map<int, string>>)
      ensures this.names == names && frameCount == 0 && currentLayer == 0
    {
      this.names := names;
      frameCount := 0;
      currentLayer := 0;
    }

    /** The floor for `layer`, which also becomes the current layer. */
    method GetThreshold(layer: int) returns (t: real)
      modifies this
      ensures t == Threshold(layer)
      ensures currentLayer == layer && frameCount == old(frameCount)
    {
      currentLayer := layer;
      if layer < 10 {
        t := 0.70;
      } else if layer < 50 {
        t := 0.75;
      } else {
        t := 0.80;
      }
    }

    method SetCurrentLayer(layer: int)
      modifies this
      ensures currentLayer == layer && frameCount == old(frameCount)
    {
      currentLayer := layer;
    }

    /** The defect type of a class; None when the lookup raises. */
    method MapClassToDefect(classId: int) returns (kind: Option<string>)
      ensures names.Some? ==> (kind.Some? <==> classId in names.value)
      ensures names.Some? && classId in names.value ==> kind == Some(names.value[classId])
      ensures names.None? ==> kind == Some(if classId == 0 then "anomaly" else "unknown")
    {
      if names.Some? {
        if classId in names.value {
          kind := Some(names.value[classId]);
        } else {
          kind := None;
        }
      } else if classId == 0 {
        kind := Some("anomaly");
      } else {
        kind := Some("unknown");
      }
    }

    /** Counts the frame; on every sixth one runs the box loop over what the
        detector found (a failed detector call gives no defect). */
    method AnalyzeLive(inference: Inference) returns (a: Analysis)
      modifies this
      ensures frameCount == old(frameCount) + 1 && currentLayer == old(currentLayer)
      ensures a == Outcome(frameCount, currentLayer, names, inference)
    {
      frameCount := frameCount + 1;
      if frameCount % 6 != 0 {
        return NoDefect;
      }
      if inference.InferenceFailed? {
        return NoDefect;
      }
      var boxes := inference.boxes;
      ghost var layer := currentLayer;
      var highest: Option<Defect> := None;
      var i := 0;
      while i < |boxes|
        invariant i <= |boxes|
        invariant currentLayer == layer && frameCount == old(frameCount) + 1
        invariant Pick(boxes, Threshold(layer), names, None) == Pick(boxes[i..], Threshold(layer), names, highest)
      {
        PickStep(boxes, i, Threshold(layer), names, highest);
        var box := boxes[i];
        var threshold := GetThreshold(currentLayer);
        if box.confidence > threshold {
          var kind := MapClassToDefect(box.classId);
          if kind.None? {
            return Raised;
          }
          if kind.value != "unknown" {
            var defect := Defect(kind.value, box.confidence, box.bbox);
            if highest.None? || box.confidence > highest.value.confidence {
              highest := Some(defect);
            }
          }
        }
        i := i + 1;
      }
      assert boxes[i..] == [];
      a := if highest.Some? then Found(highest.value) else NoDefect;
    }
  }
}
