# TAED accuracy mixer, modelled in Dafny

The TAED page (`taed.py`) shows how two group accuracies combine into one
overall accuracy. Three sliders give the accuracy of the predominant group,
the accuracy of the minority group (both percentages in [0, 100]) and the
weight of the predominant group (in [0, 1]). The page then derives:

- the minority weight `1 - w` and the weighted overall accuracy;
- a population of 50 people split into the two groups by rounding `50 * w`,
  and the number of correct people in each group by rounding
  `size * accuracy / 100`;
- a grid of stick figures, ten to a row, where the first `correct` people of
  each group are drawn in the group's colour and the rest in red, with the
  minority grid placed below the predominant one;
- a small stacked bar of the two weights whose segments are labelled only
  when at least 0.15 wide.

This project models those computations and proves what they promise. The
drawing calls are replaced by values: a person is a `Cell` (grid row and
column, drawing position, correctness, colour) and the weight bar is a pair
of `Segment`s.

Files:

- `rounding.dfy` (module `Rounding`): Python's one-argument `round`,
  round half to even, over exact reals.
- `mixer.dfy` (module `Mixer`): the weights, the weighted average, the
  50-person split, the correct counts, and `Compute`, which gathers them.
- `weight_bar.dfy` (module `WeightBar`): the stacked weight bar and its
  label threshold.
- `layout.dfy` (module `Layout`): one group's grid as a loop that appends
  cells (`LayoutGroup`), the minority grid's origin, and both grids
  together (`DrawPeople`).

Notes on the model:

- Inputs outside the slider ranges never reach this code, so the ranges are
  preconditions (`ValidAccuracy`, `ValidWeight`). The code has no error path
  for them, so the model has none.
- Rounding is half to even, as Python's `round` is. A tie such as
  15 * 70 / 100 = 10.5 therefore gives 10, not 11. `DefaultInputs` proves
  this for the page's defaults (85.0, 70.0, 0.7).
- The bounds on the split and the counts are also proved for every rounding
  that lands within one half of the exact value (`SplitUnderAnyRounding`,
  `CorrectUnderAnyRounding`). So they do not depend on how floats round.
- `(predominant_people - 1) // 10` uses Python's floor division. Dafny's
  `/` is Euclidean. The two agree for the positive divisor 10, including
  `(-1) // 10 == -1` when the predominant group is empty.

## Model

| member | source | states |
|---|---|---|
| `Rounding.RoundHalfEven` | taed.py:128 | the result is within 1/2 of x, and an exact tie goes to the even integer |
| `Rounding.RoundHalfEvenUnique` | taed.py:128 | any integer within 1/2 of x that is even on a tie is RoundHalfEven(x), so the two properties define the rounding |
| `Rounding.RoundHalfEvenNearest` | taed.py:128 | no integer is closer to x than RoundHalfEven(x) |
| `Rounding.WithinHalfKeepsIntegerBounds` | taed.py:132-133 | rounding within 1/2 keeps a value of an integer interval [lo, hi] inside it |
| `Mixer.MinorityWeight` | taed.py:69 | the minority weight lies in [0, 1] and the two weights sum to 1 |
| `Mixer.WeightedAverage` | taed.py:72 | the overall accuracy lies between the two group accuracies and in [0, 100]; weight 1 gives the predominant accuracy, weight 0 the minority one |
| `Mixer.WeightedAverageOffset` | taed.py:72 | the overall accuracy sits w of the way from the minority accuracy to the predominant one |
| `Mixer.WeightedAverageHitsEnds` | taed.py:72 | when the accuracies differ, the overall accuracy equals the predominant one iff w = 1, and the minority one iff w = 0 |
| `Mixer.WeightedAverageMonotone` | taed.py:72 | raising the predominant accuracy never lowers the overall accuracy, and strictly raises it when w > 0 |
| `Mixer.PredominantPeople` | taed.py:127-128 | the predominant group has between 0 and 50 people |
| `Mixer.MinorityPeople` | taed.py:129 | the minority group has between 0 and 50 people, and the two groups add up to exactly 50 |
| `Mixer.SplitUnderAnyRounding` | taed.py:127-129 | for any rounding of 50 * w within 1/2, both group sizes lie in [0, 50] |
| `Mixer.ExactCorrectBounds` | taed.py:132-133 | the unrounded correct count lies between 0 and the group size |
| `Mixer.CorrectPeople` | taed.py:132-133 | a group's correct count lies between 0 and the group size |
| `Mixer.CorrectUnderAnyRounding` | taed.py:132-133 | the correct-count bound holds for any rounding within 1/2 |
| `Mixer.Compute` | taed.py:69-133 | the weights sum to 1, the overall accuracy lies between the group accuracies, the groups sum to 50, and each correct count lies within its group |
| `Mixer.DefaultInputs` | taed.py:40-133 | with inputs 85.0, 70.0 and 0.7: overall accuracy 80.5, groups of 35 and 15, and 30 and 10 correct |
| `Mixer.ExtremeWeights` | taed.py:72-129 | weight 0 puts all 50 people in the minority group and gives the minority accuracy; weight 1 does the same for the predominant group |
| `WeightBar.LabelledSegment` | taed.py:84-87 | a segment gets a label iff it is at least 0.15 wide; the label shows the segment's width and is centred inside it |
| `WeightBar.Bar` | taed.py:80-87 | the two segments tile [0, 1] at w; the predominant one is labelled iff w >= 0.15, the minority one iff 1 - w >= 0.15 |
| `WeightBar.BothLabelsShown` | taed.py:84-87 | both labels show iff 0.15 <= w <= 0.85, and at least one label always shows |
| `Layout.PersonAt` | taed.py:143-153 | person i gets column in [0, 9] and row >= 0 with row * 10 + col = i, and x within the row's width; it is correct iff i < correct count; correct people get the group's colour, incorrect ones red |
| `Layout.GroupLayout` | taed.py:143-153 | the grid of a group has exactly one cell per person |
| `Layout.CountCorrectOfLayout` | taed.py:150-153 | exactly the correct count of people in a grid are correct (clamped to [0, group size]) |
| `Layout.CellsDistinct` | taed.py:143-147 | two different people never share a grid cell or a drawing position |
| `Layout.LayoutGroup` | taed.py:143-153 | the loop yields the group's grid; exactly the first correct-count people are correct; no two people share a cell or position |
| `Layout.MinorityOriginY` | taed.py:168 | the minority grid starts a row height plus 0.5 below the last predominant row, or 0.5 below the start when the predominant group is empty |
| `Layout.GroupsSeparated` | taed.py:168-175 | every minority person is drawn at least 0.8 + 0.5 below every predominant person |
| `Layout.DrawPeople` | taed.py:127-181 | the two grids hold 50 people in all with the mixer's correct counts; predominant people are never green, minority people never blue; the grids are separated by 0.8 + 0.5 |

## Left out

- The page setup, the CSS, the columns and the slider widgets (taed.py:9-68). Only their ranges are kept, as preconditions.
- All drawing through matplotlib and Streamlit: the figures and axes, the accuracy gauges, the bars, the circles and line segments of the stick figures, the legends and `st.pyplot`. The model stops at the positions and colours the drawing uses.
- The statistics text and every `:.1f` / `:.2f` number format. This is float-to-string formatting.
- IEEE-754 floats. The model computes with exact reals. So `50 * 0.07` is exactly 3.5 here, and a value that a float cannot hold exactly may round to a different integer than Python's `round` gives. The bounds are also proved for any rounding within 1/2, so they do not depend on this.
