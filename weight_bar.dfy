/** The small stacked bar that shows the two weights side by side on [0, 1]:
    the predominant segment from 0 to w, the minority segment from w to 1.
    A segment carries its inline value label, centred on it, only when it
    is at least 0.15 wide, so that a thin segment is left unlabelled. */
module WeightBar {
  import opened Mixer

  /** Narrowest segment that still gets an inline label. */
  const LabelThreshold: real := 0.15

  /** A bar segment starting at `left`, `width` wide, with or without an
      inline label that shows `value` at horizontal position `x`. */
  datatype Segment = Segment(left: real, width: real, text: InlineLabel)
  datatype InlineLabel = NoLabel | Shown(x: real, value: real)

  function LabelledSegment(left: real, width: real): (s: Segment)
    ensures s.left == left && s.width == width
    ensures s.text.Shown? <==> width >= LabelThreshold
    ensures s.text.Shown? ==> left < s.text.x < left + width && s.text.value == width
    ensures s.text.Shown? ==> s.text.x - left == left + width - s.text.x
  {
    Segment(left, width, if width >= LabelThreshold then Shown(left + width / 2.0, width) else NoLabel)
  }

  /** The two segments for predominant weight w. */
  function Bar(w: real): (bar: (Segment, Segment))
    requires ValidWeight(w)
    ensures bar.0.left == 0.0 && bar.1.left + bar.1.width == 1.0
    ensures bar.0.left + bar.0.width == bar.1.left
    ensures bar.0.width == w && bar.1.width + w == 1.0
    ensures bar.0.text.Shown? <==> w >= LabelThreshold
    ensures bar.1.text.Shown? <==> 1.0 - w >= LabelThreshold
  {
    (LabelledSegment(0.0, w), LabelledSegment(w, MinorityWeight(w)))
  }

  /** Both labels show exactly when w lies in [0.15, 0.85], and at least
      one of them always shows, since the two widths add up to 1. */
  lemma BothLabelsShown(w: real)
    requires ValidWeight(w)
    ensures (Bar(w).0.text.Shown? && Bar(w).1.text.Shown?) <==> 0.15 <= w <= 0.85
    ensures Bar(w).0.text.Shown? || Bar(w).1.text.Shown?
  {
  }
}
