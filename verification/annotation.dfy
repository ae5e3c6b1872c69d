/**
 * What the detector front-end draws for one frame. Every detection the model
 * reports has its confidence rounded up to hundredths; those whose rounded
 * confidence exceeds 0.3 get a corner rectangle over their box and a label
 * "<class name> <confidence>" ten pixels above its top-left corner. Drawing
 * is modelled by the draw commands issued, in order.
 */
module Annotation {
  import opened Wrappers
  import opened Text

  /** One box reported by the model: corners in whole pixels, class index,
      and confidence as an exact real. */
  datatype Detection = Detection(x1: int, y1: int, x2: int, y2: int, cls: int, conf: real)

  /** A drawing call on the frame: `cvzone.cornerRect` with the box as
      (x, y, width, height), and `cvzone.putTextRect` with its text anchor. */
  datatype DrawCommand =
    | CornerRect(x: int, y: int, w: int, h: int)
    | PutTextRect(text: string, x: int, y: int)

  /** Looking up a class index outside the label table raises IndexError. */
  datatype AnnotateError = LabelIndexError(cls: int)

  /** The damage classes the model was trained on, by class index. */
  const ClassLabels: seq<string> := [
    "Bodypanel-Dent", "Front-Windscreen-Damage", "Headlight-Damage",
    "Rear-windscreen-Damage", "RunningBoard-Dent", "Sidemirror-Damage",
    "Signlight-Damage", "Taillight-Damage", "bonnet-dent", "boot-dent",
    "doorouter-dent", "fender-dent", "front-bumper-dent", "pillar-dent",
    "quaterpanel-dent", "rear-bumper-dent", "roof-dent"
  ]

  /** Rounded confidences must exceed this to be drawn. */
  const Threshold: real := 0.3

  /** Pixels between the label's anchor and the box's top edge. */
  const LabelOffset: int := 10

  /** `class_labels[cls]` with Python list indexing: negative indexes count
      from the end, anything else outside the table raises. */
  function ClassLabel(cls: int): (name: Option<string>)
    ensures name.Some? <==> -|ClassLabels| <= cls < |ClassLabels|
    ensures 0 <= cls < |ClassLabels| ==> name == Some(ClassLabels[cls])
  {
    if 0 <= cls < |ClassLabels| then Some(ClassLabels[cls])
    else if -|ClassLabels| <= cls < 0 then Some(ClassLabels[|ClassLabels| + cls])
    else None
  }

  /** `math.ceil`. */
  function Ceil(x: real): (n: int)
    ensures n as real - 1.0 < x <= n as real
  {
    -((-x).Floor)
  }

  /** `math.ceil(conf * 100)`: the confidence in hundredths, rounded up. */
  function Hundredths(conf: real): int
  {
    Ceil(conf * 100.0)
  }

  /** The confidence as shown and compared: `math.ceil(conf * 100) / 100`. */
  function Shown(conf: real): real
  {
    Hundredths(conf) as real / 100.0
  }

  /** The test `conf > 0.3` on the rounded confidence. */
  predicate Admits(conf: real)
  {
    Shown(conf) > Threshold
  }

  predicate IsAdmitted(d: Detection)
  {
    Admits(d.conf)
  }

  /** The shown confidence is the least hundredth at or above the real one. */
  lemma ShownBounds(conf: real)
    ensures conf <= Shown(conf) < conf + 0.01
  {
  }

  lemma ShownIsLeast(conf: real, k: int)
    requires conf <= k as real / 100.0
    ensures Shown(conf) <= k as real / 100.0
  {
    var n := Hundredths(conf);
    assert n as real - 1.0 < conf * 100.0 <= k as real;
    assert n <= k;
  }

  /** Rounding up does not move the threshold: a detection is drawn exactly
      when its exact confidence exceeds 0.3, i.e. when it rounds up to at
      least 0.31. */
  lemma AdmitsIff(conf: real)
    ensures Admits(conf) <==> conf > Threshold
    ensures Admits(conf) <==> Hundredths(conf) >= 31
  {
    var k := Hundredths(conf);
    assert Admits(conf) <==> k > 30;
  }

  /** The boundary itself is not drawn; anything above it is. */
  lemma AdmitsBoundary()
    ensures !Admits(0.3)
    ensures Admits(0.30000001)
  {
    AdmitsIff(0.3);
    AdmitsIff(0.30000001);
  }

  /** The two fractional digits of a hundredth as Python prints a float:
      one digit at least, no trailing zero after it. */
  function FractionDigits(f: nat): string
    requires f < 100
  {
    if f == 0 then "0"
    else if f % 10 == 0 then [Digit(f / 10)]
    else [Digit(f / 10), Digit(f % 10)]
  }

  /** `str(k / 100)` for a float holding a whole number of hundredths. */
  function FormatHundredths(k: nat): string
  {
    NatToDecimal(k / 100) + "." + FractionDigits(k % 100)
  }

  function Pow10(n: nat): (p: nat)
    ensures p >= 1
  {
    if n == 0 then 1 else 10 * Pow10(n - 1)
  }

  /** Reads a decimal "<digits>.<digits>" back into its value. */
  function ParseDecimal(s: string): (v: Option<real>)
  {
    var i := LastIndexOf(s, '.');
    if i < 0 then None
    else
      var whole, frac := s[..i], s[i + 1..];
      if whole != [] && frac != [] && AllDigits(whole) && AllDigits(frac) then
        Some(DigitsValue(whole) as real + DigitsValue(frac) as real / Pow10(|frac|) as real)
      else None
  }

  lemma FractionValue(f: nat)
    requires f < 100
    ensures var s := FractionDigits(f);
      1 <= |s| <= 2 && AllDigits(s) && '.' !in s && ' ' !in s
      && DigitsValue(s) as real / Pow10(|s|) as real == f as real / 100.0
      && (s[|s| - 1] == '0' <==> f == 0)
  {
    var s := FractionDigits(f);
    if f != 0 && f % 10 == 0 {
      assert s[..0] == [];
      assert DigitsValue(s) == f / 10;
      assert f == 10 * (f / 10);
    } else if f != 0 {
      assert DigitValue(Digit(f / 10)) == f / 10;
      assert DigitValue(Digit(f % 10)) == f % 10;
      assert s[..1] == [Digit(f / 10)];
      assert s[..1][..0] == [];
      assert DigitsValue(s[..1]) == f / 10;
      assert DigitsValue(s) == f;
    }
  }

  lemma DigitsHaveNoDotOrSpace(s: string)
    requires AllDigits(s)
    ensures '.' !in s && ' ' !in s
  {
  }

  lemma HundredthsSplit(k: nat)
    ensures k as real / 100.0 == (k / 100) as real + (k % 100) as real / 100.0
  {
    assert k == 100 * (k / 100) + k % 100;
  }

  lemma FormatHundredthsShape(k: nat)
    ensures var s := FormatHundredths(k);
      var whole := NatToDecimal(k / 100);
      |whole| < |s| && s[..|whole|] == whole && s[|whole|] == '.'
      && s[|whole| + 1..] == FractionDigits(k % 100)
  {
  }

  lemma NoSpaceInConcat(a: string, b: string, c: string)
    requires ' ' !in a && ' ' !in b && ' ' !in c
    ensures ' ' !in a + b + c
  {
  }

  /** The printed confidence reads back as exactly the rounded confidence,
      and is written as Python writes a float: no trailing zero except the
      one in "x.0". */
  lemma FormatHundredthsValue(k: nat)
    ensures ParseDecimal(FormatHundredths(k)) == Some(k as real / 100.0)
    ensures ' ' !in FormatHundredths(k)
    ensures var s := FormatHundredths(k);
      s[|s| - 1] == '0' ==> k % 100 == 0 && s[|s| - 2..] == ".0"
  {
    FormatHundredthsParse(k);
    FormatHundredthsShape(k);
    var whole := NatToDecimal(k / 100);
    var frac := FractionDigits(k % 100);
    FractionValue(k % 100);
    DigitsHaveNoDotOrSpace(whole);
    NoSpaceInConcat(whole, ".", frac);
  }

  lemma FormatHundredthsParse(k: nat)
    ensures ParseDecimal(FormatHundredths(k)) == Some(k as real / 100.0)
  {
    var whole := NatToDecimal(k / 100);
    var frac := FractionDigits(k % 100);
    var s := FormatHundredths(k);
    FractionValue(k % 100);
    NatToDecimalValue(k / 100);
    FormatHundredthsShape(k);
    LastIndexOfBetween(whole, '.', frac);
    HundredthsSplit(k);
  }

  /** The label text `f'{class_labels[cls]} {conf}'`. */
  function Label(name: string, conf: real): string
    requires Admits(conf)
  {
    AdmitsIff(conf);
    name + " " + FormatHundredths(Hundredths(conf))
  }

  /** A label splits at its last space into the class name and a number
      that reads back as the rounded confidence, whatever the name. */
  lemma LabelRoundTrip(name: string, conf: real)
    requires Admits(conf)
    ensures var parts := RSplitOnce(Label(name, conf), ' ');
      |parts| == 2 && parts[0] == name && ParseDecimal(parts[1]) == Some(Shown(conf))
  {
    AdmitsIff(conf);
    var k: nat := Hundredths(conf);
    var number := FormatHundredths(k);
    assert Label(name, conf) == name + [' '] + number;
    FormatHundredthsValue(k);
    RSplitOnceBetween(name, ' ', number);
    ShownReadsBack(conf);
  }

  /** The printed rounded confidence reads back as the rounded confidence. */
  lemma ShownReadsBack(conf: real)
    requires Admits(conf)
    ensures Hundredths(conf) >= 0
    ensures ParseDecimal(FormatHundredths(Hundredths(conf))) == Some(Shown(conf))
  {
    AdmitsIff(conf);
    var k: nat := Hundredths(conf);
    FormatHundredthsParse(k);
  }

  /** The two drawing calls for an admitted detection with a known class:
      the box as (x1, y1, x2 - x1, y2 - y1), then the label at (x1, y1 - 10). */
  function BoxAndLabel(d: Detection, name: string): seq<DrawCommand>
    requires IsAdmitted(d)
  {
    [CornerRect(d.x1, d.y1, d.x2 - d.x1, d.y2 - d.y1),
     PutTextRect(Label(name, d.conf), d.x1, d.y1 - LabelOffset)]
  }

  /** The commands one detection contributes, or the IndexError of its
      label lookup; the lookup happens only for admitted detections. */
  function DrawDetection(d: Detection): Result<seq<DrawCommand>, AnnotateError>
  {
    if !IsAdmitted(d) then Ok([])
    else match ClassLabel(d.cls)
      case None => Err(LabelIndexError(d.cls))
      case Some(name) => Ok(BoxAndLabel(d, name))
  }

  /** The commands for a frame's detections, in the model's order, stopping
      at the first IndexError. */
  function Annotations(ds: seq<Detection>): Result<seq<DrawCommand>, AnnotateError>
  {
    if ds == [] then Ok([])
    else match Annotations(ds[..|ds| - 1])
      case Err(e) => Err(e)
      case Ok(cmds) =>
        match DrawDetection(ds[|ds| - 1])
        case Err(e) => Err(e)
        case Ok(more) => Ok(cmds + more)
  }

  /** The detections that pass the threshold, in the model's order. */
  function Drawn(ds: seq<Detection>): (kept: seq<Detection>)
    ensures |kept| <= |ds|
    ensures forall d :: d in kept <==> d in ds && IsAdmitted(d)
  {
    if ds == [] then []
    else
      var init := ds[..|ds| - 1];
      var d := ds[|ds| - 1];
      assert ds == init + [d];
      if IsAdmitted(d) then Drawn(init) + [d] else Drawn(init)
  }

  /** Filtering distributes over concatenation, so it keeps the relative
      order of the detections it keeps. */
  lemma {:induction false} DrawnAppend(a: seq<Detection>, b: seq<Detection>)
    ensures Drawn(a + b) == Drawn(a) + Drawn(b)
  {
    if b != [] {
      var b' := b[..|b| - 1];
      DrawnAppend(a, b');
      assert (a + b)[..|a + b| - 1] == a + b';
      assert (a + b)[|a + b| - 1] == b[|b| - 1];
    } else {
      assert a + b == a;
    }
  }

  predicate LabelsKnown(kept: seq<Detection>)
  {
    forall k :: 0 <= k < |kept| ==> ClassLabel(kept[k].cls).Some?
  }

  /** The reference drawing: box and label for each kept detection, in turn. */
  function CommandsFor(kept: seq<Detection>): seq<DrawCommand>
    requires forall k :: 0 <= k < |kept| ==> IsAdmitted(kept[k])
    requires LabelsKnown(kept)
  {
    if kept == [] then []
    else
      var d := kept[|kept| - 1];
      CommandsFor(kept[..|kept| - 1]) + BoxAndLabel(d, ClassLabel(d.cls).value)
  }

  /** Every kept detection contributes two commands. */
  lemma {:induction false} CommandsForLength(kept: seq<Detection>)
    requires forall k :: 0 <= k < |kept| ==> IsAdmitted(kept[k])
    requires LabelsKnown(kept)
    ensures |CommandsFor(kept)| == 2 * |kept|
  {
    if kept != [] {
      var init := kept[..|kept| - 1];
      assert forall k :: 0 <= k < |init| ==> init[k] == kept[k];
      CommandsForLength(init);
    }
  }

  /** Each kept detection contributes its rectangle and then its label,
      at the two positions that follow those of the detections before it. */
  lemma {:induction false} CommandsForAt(kept: seq<Detection>, j: nat)
    requires forall k :: 0 <= k < |kept| ==> IsAdmitted(kept[k])
    requires LabelsKnown(kept)
    requires j < |kept|
    ensures |CommandsFor(kept)| == 2 * |kept|
    ensures CommandsFor(kept)[2 * j] == BoxAndLabel(kept[j], ClassLabel(kept[j].cls).value)[0]
    ensures CommandsFor(kept)[2 * j + 1] == BoxAndLabel(kept[j], ClassLabel(kept[j].cls).value)[1]
  {
    var init := kept[..|kept| - 1];
    var d := kept[|kept| - 1];
    assert forall k :: 0 <= k < |init| ==> init[k] == kept[k];
    CommandsForLength(kept);
    CommandsForLength(init);
    var tail := BoxAndLabel(d, ClassLabel(d.cls).value);
    var c := CommandsFor(kept);
    assert c == CommandsFor(init) + tail;
    if j < |init| {
      CommandsForAt(init, j);
      assert c[2 * j] == CommandsFor(init)[2 * j];
      assert c[2 * j + 1] == CommandsFor(init)[2 * j + 1];
    } else {
      assert c[2 * j] == tail[0];
      assert c[2 * j + 1] == tail[1];
    }
  }

  /** The drawing of a frame, against the reference: it succeeds exactly
      when every detection passing the threshold has a class in the table,
      and then it is box and label of each of them in turn; otherwise it
      fails with the class of the first passing detection that has none. */
  lemma {:induction false} AnnotationsSpec(ds: seq<Detection>)
    ensures Annotations(ds).Ok? <==> LabelsKnown(Drawn(ds))
    ensures Annotations(ds).Ok? ==> Annotations(ds).value == CommandsFor(Drawn(ds))
    ensures Annotations(ds).Err? ==>
      exists j :: 0 <= j < |Drawn(ds)| && LabelsKnown(Drawn(ds)[..j])
        && ClassLabel(Drawn(ds)[j].cls).None?
        && Annotations(ds).error == LabelIndexError(Drawn(ds)[j].cls)
  {
    if ds != [] {
      var init := ds[..|ds| - 1];
      var d := ds[|ds| - 1];
      AnnotationsSpec(init);
      var kept := Drawn(init);
      assert Drawn(ds) == if IsAdmitted(d) then kept + [d] else kept;
      if Annotations(init).Err? {
        var j :| 0 <= j < |kept| && LabelsKnown(kept[..j]) && ClassLabel(kept[j].cls).None?
          && Annotations(init).error == LabelIndexError(kept[j].cls);
        assert Drawn(ds)[j] == kept[j];
        assert Drawn(ds)[..j] == kept[..j];
      } else if IsAdmitted(d) {
        assert Drawn(ds)[..|kept|] == kept;
        assert Drawn(ds)[|kept|] == d;
        if ClassLabel(d.cls).Some? {
          assert Drawn(ds)[..|Drawn(ds)| - 1] == kept;
        }
      }
    }
  }

  /** A frame none of whose detections passes the threshold is left as it
      was: nothing is drawn on it. */
  lemma NothingAdmittedNothingDrawn(ds: seq<Detection>)
    requires forall k :: 0 <= k < |ds| ==> !IsAdmitted(ds[k])
    ensures Annotations(ds) == Ok([])
  {
    NothingAdmittedNothingKept(ds);
    AnnotationsSpec(ds);
    assert LabelsKnown(Drawn(ds));
  }

  lemma {:induction false} NothingAdmittedNothingKept(ds: seq<Detection>)
    requires forall k :: 0 <= k < |ds| ==> !IsAdmitted(ds[k])
    ensures Drawn(ds) == []
  {
    if ds != [] {
      var init := ds[..|ds| - 1];
      assert forall k :: 0 <= k < |init| ==> init[k] == ds[k];
      NothingAdmittedNothingKept(init);
      assert !IsAdmitted(ds[|ds| - 1]);
    }
  }

  /** Once the drawing of a prefix has failed, the whole frame fails with the
      same error. */
  lemma {:induction false} AnnotationsErrSticky(ds: seq<Detection>, i: nat)
    requires i <= |ds| && Annotations(ds[..i]).Err?
    ensures Annotations(ds) == Annotations(ds[..i])
  {
    if i == |ds| {
      assert ds[..i] == ds;
    } else {
      var init := ds[..|ds| - 1];
      assert init[..i] == ds[..i];
      AnnotationsErrSticky(init, i);
    }
  }

  /** The per-detection loop of the annotation block: for each box, round
      the confidence, and when it passes the threshold draw the rectangle
      and the label; a class index outside the table ends the loop with
      IndexError. */
  method AnnotateDetections(ds: seq<Detection>) returns (r: Result<seq<DrawCommand>, AnnotateError>)
    ensures r == Annotations(ds)
  {
    var drawn: seq<DrawCommand> := [];
    for i := 0 to |ds|
      invariant Annotations(ds[..i]) == Ok(drawn)
    {
      var box := ds[i];
      assert ds[..i + 1][..i] == ds[..i];
      assert ds[..i + 1][i] == box;
      var w, h := box.x2 - box.x1, box.y2 - box.y1;
      var conf := Hundredths(box.conf) as real / 100.0;
      if conf > Threshold {
        var name := ClassLabel(box.cls);
        if name.None? {
          AnnotationsErrSticky(ds, i + 1);
          return Err(LabelIndexError(box.cls));
        }
        drawn := drawn + [CornerRect(box.x1, box.y1, w, h),
                          PutTextRect(Label(name.value, box.conf), box.x1, box.y1 - LabelOffset)];
        assert DrawDetection(box) == Ok(BoxAndLabel(box, name.value));
      } else {
        assert DrawDetection(box) == Ok([]);
        assert drawn + [] == drawn;
      }
    }
    assert ds[..|ds|] == ds;
    return Ok(drawn);
  }
}
