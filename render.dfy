/** The drawing surface, reduced to the sequence of frames drawn on it. */
module Render {

  /** One call of the renderer: the bar heights in index order and the bar
      drawn in the highlight colour. */
  datatype Frame = Frame(bars: seq<int>, highlight: int)

  /** The renderer's default highlight: an index no bar has, so every bar is
      drawn in the uniform colour. */
  const NO_HIGHLIGHT: int := -1

  /** The 2D drawing context shared by a session. Painting pixels is not
      modelled; what is kept is the order of frames, which is what a viewer
      sees of the algorithm. */
  class Context {
    var frames: seq<Frame>

    constructor ()
      ensures frames == []
    {
      frames := [];
    }

    /** Clears the surface and draws one bar per value of `bars`, the one
        at `highlight` (if any) in the highlight colour. The 20 ms pause that
        follows each call in the sorting procedures has no effect on the
        array and is not modelled. */
    method DrawBars(bars: array<int>, highlight: int)
      modifies this
      ensures frames == old(frames) + [Frame(bars[..], highlight)]
    {
      frames := frames + [Frame(bars[..], highlight)];
    }
  }

  /** Appending one frame to a log kept as `before + drawn`. */
  lemma AppendFrame(before: seq<Frame>, drawn: seq<Frame>, f: Frame)
    ensures (before + drawn) + [f] == before + (drawn + [f])
  {
  }

  /** Every frame of `drawn` highlights a position in [lo, hi]. */
  ghost predicate HighlightsIn(drawn: seq<Frame>, lo: int, hi: int) {
    forall t :: 0 <= t < |drawn| ==> lo <= drawn[t].highlight <= hi
  }

  /** Highlights in [lo, hi] lie in any range that holds it. */
  lemma HighlightsWiden(drawn: seq<Frame>, lo: int, hi: int, lo': int, hi': int)
    requires HighlightsIn(drawn, lo, hi) && lo' <= lo && hi <= hi'
    ensures HighlightsIn(drawn, lo', hi')
  {
  }

  /** A log that grew in two steps, each adding frames whose highlights lie
      in [lo, hi], grew by frames whose highlights lie in [lo, hi]. */
  lemma HighlightsExtend(f0: seq<Frame>, f1: seq<Frame>, f2: seq<Frame>, lo: int, hi: int)
    requires |f0| <= |f1| <= |f2|
    requires f1[..|f0|] == f0 && f2[..|f1|] == f1
    requires HighlightsIn(f1[|f0|..], lo, hi) && HighlightsIn(f2[|f1|..], lo, hi)
    ensures f2[..|f0|] == f0
    ensures HighlightsIn(f2[|f0|..], lo, hi)
  {
    forall t | 0 <= t < |f2| - |f0|
      ensures lo <= f2[|f0|..][t].highlight <= hi
    {
      if |f0| + t < |f1| {
        assert f2[|f0|..][t] == f1[|f0|..][t];
      } else {
        assert f2[|f0|..][t] == f2[|f1|..][|f0| + t - |f1|];
      }
    }
  }
}
