/** Edge visual encoding of the network view: min-max normalised weights,
    mapped linearly to an opacity and a line thickness. Arithmetic is exact
    (`real`) where the scripts use floating point. */
module Encoding {
  import opened Seqs

  const MinAlpha: real := 0.1
  const AlphaRange: real := 0.7

  /** Division by a positive denominator keeps the order and the unit range. */
  lemma DivMonotone(a: real, b: real, d: real)
    requires d > 0.0
    ensures a / d <= b / d <==> a <= b
    ensures 0.0 <= a <= d ==> 0.0 <= a / d <= 1.0
  {
    assert a / d * d == a && b / d * d == b;
    if a / d <= b / d {
      assert a / d * d <= b / d * d;
    }
    if a <= b {
      assert (b - a) / d >= 0.0;
      assert b / d - a / d == (b - a) / d;
    }
  }

  /** One weight normalised against the bounds `lo` and `hi`. */
  function NormOne(w: int, lo: int, hi: int): real {
    (w - lo) as real / (if hi - lo != 0 then (hi - lo) as real else 1.0)
  }

  lemma NormOneProps(w: int, lo: int, hi: int)
    requires lo <= w <= hi
    ensures 0.0 <= NormOne(w, lo, hi) <= 1.0
    ensures w as real == lo as real + NormOne(w, lo, hi) * (hi - lo) as real
    ensures w == lo ==> NormOne(w, lo, hi) == 0.0
    ensures w == hi && hi != lo ==> NormOne(w, lo, hi) == 1.0
  {
    var d := if hi - lo != 0 then (hi - lo) as real else 1.0;
    var n := NormOne(w, lo, hi);
    DivMonotone((w - lo) as real, (w - lo) as real, d);
    assert n * d == (w - lo) as real;
    if hi == lo {
      assert w == lo;
    }
  }

  /** The weight a normalised value stands for, given the bounds. */
  function Denormalise(n: real, lo: int, hi: int): real {
    lo as real + n * (hi - lo) as real
  }

  lemma Rescale(w: int, lo: int, hi: int, n: real)
    requires lo <= w <= hi && n == NormOne(w, lo, hi)
    ensures Denormalise(n, lo, hi) == w as real
  {
    NormOneProps(w, lo, hi);
  }

  lemma NormOneMonotone(v: int, w: int, lo: int, hi: int)
    requires lo <= hi
    ensures NormOne(v, lo, hi) <= NormOne(w, lo, hi) <==> v <= w
  {
    var d := if hi - lo != 0 then (hi - lo) as real else 1.0;
    DivMonotone((v - lo) as real, (w - lo) as real, d);
  }

  /** Every weight normalised against the bounds `lo` and `hi`. */
  function NormAll(ws: seq<int>, lo: int, hi: int): (r: seq<real>)
    requires lo <= hi && forall i :: 0 <= i < |ws| ==> lo <= ws[i] <= hi
    ensures |r| == |ws|
    ensures forall i :: 0 <= i < |ws| ==> r[i] == NormOne(ws[i], lo, hi)
    ensures forall i :: 0 <= i < |ws| ==> 0.0 <= r[i] <= 1.0
    ensures forall i :: 0 <= i < |ws| && ws[i] == lo ==> r[i] == 0.0
    ensures forall i :: 0 <= i < |ws| && ws[i] == hi && hi != lo ==> r[i] == 1.0
    ensures forall i, j :: 0 <= i < |ws| && 0 <= j < |ws| ==> (r[i] <= r[j] <==> ws[i] <= ws[j])
  {
    var r := seq(|ws|, i requires 0 <= i < |ws| => NormOne(ws[i], lo, hi));
    forall i | 0 <= i < |ws|
      ensures 0.0 <= r[i] <= 1.0
      ensures ws[i] == lo ==> r[i] == 0.0
      ensures ws[i] == hi && hi != lo ==> r[i] == 1.0
    {
      NormOneProps(ws[i], lo, hi);
    }
    forall i, j | 0 <= i < |ws| && 0 <= j < |ws|
      ensures r[i] <= r[j] <==> ws[i] <= ws[j]
    {
      NormOneMonotone(ws[i], ws[j], lo, hi);
    }
    r
  }

  /** Every weight minus the smallest, divided by the spread of the weights,
      or by 1 when all weights are equal; there is nothing for an empty list,
      whose minimum is undefined. */
  function Normalise(ws: seq<int>): (r: Option<seq<real>>)
    ensures r.None? <==> ws == []
    ensures r.Some? ==> |r.value| == |ws|
    ensures r.Some? ==> forall i :: 0 <= i < |ws| ==> r.value[i] == NormOne(ws[i], Min(ws), Max(ws))
    ensures r.Some? ==> forall i :: 0 <= i < |ws| ==> 0.0 <= r.value[i] <= 1.0
    ensures r.Some? ==> forall i, j :: 0 <= i < |ws| && 0 <= j < |ws| ==>
              (r.value[i] <= r.value[j] <==> ws[i] <= ws[j])
    ensures r.Some? && (forall i, j :: 0 <= i < |ws| && 0 <= j < |ws| ==> ws[i] == ws[j]) ==>
              forall i :: 0 <= i < |ws| ==> r.value[i] == 0.0
  {
    if ws == [] then None
    else
      var lo := Min(ws);
      assert (forall i, j :: 0 <= i < |ws| && 0 <= j < |ws| ==> ws[i] == ws[j]) ==>
               forall i :: 0 <= i < |ws| ==> ws[i] == lo;
      Some(NormAll(ws, lo, Max(ws)))
  }

  /** Denormalising gives the raw weights back: w = min + n * (max - min). */
  lemma NormaliseInverse(ws: seq<int>, i: nat)
    requires i < |ws|
    ensures Denormalise(Normalise(ws).value[i], Min(ws), Max(ws)) == ws[i] as real
  {
    var lo, hi := Min(ws), Max(ws);
    var n := Normalise(ws).value[i];
    assert n == NormOne(ws[i], lo, hi);
    Rescale(ws[i], lo, hi, n);
  }

  /** When the weights differ, the lightest edge maps to 0 and the heaviest to 1. */
  lemma NormaliseEnds(ws: seq<int>, i: nat, j: nat)
    requires i < |ws| && j < |ws| && ws[i] != ws[j]
    ensures 0.0 in Normalise(ws).value && 1.0 in Normalise(ws).value
  {
    var r := Normalise(ws).value;
    var lo, hi := Min(ws), Max(ws);
    var a :| 0 <= a < |ws| && ws[a] == lo;
    var b :| 0 <= b < |ws| && ws[b] == hi;
    assert r == NormAll(ws, lo, hi);
  }

  /** Edge opacity: `0.1 + 0.7 * w`. */
  function Opacity(w: real): (a: real)
    ensures 0.0 <= w <= 1.0 ==> MinAlpha <= a <= MinAlpha + AlphaRange
    ensures (a - MinAlpha) / AlphaRange == w
  {
    MinAlpha + AlphaRange * w
  }

  /** Edge thickness: `1 + 9 * w`. */
  function Thickness(w: real): (t: real)
    ensures 0.0 <= w <= 1.0 ==> 1.0 <= t <= 10.0
    ensures (t - 1.0) / 9.0 == w
  {
    1.0 + 9.0 * w
  }

  /** Both encodings grow strictly with the normalised weight. */
  lemma EncodingMonotone(v: real, w: real)
    ensures Opacity(v) < Opacity(w) <==> v < w
    ensures Thickness(v) < Thickness(w) <==> v < w
  {
  }

  datatype Style = Style(alpha: real, width: real)

  /** Styles of all edges, in edge order. */
  function Styles(ws: seq<int>): (ss: Option<seq<Style>>)
    ensures ss.None? <==> ws == []
    ensures ss.Some? ==> |ss.value| == |ws|
  {
    match Normalise(ws)
    case None => None
    case Some(ns) =>
      Some(seq(|ns|, i requires 0 <= i < |ns| => Style(Opacity(ns[i]), Thickness(ns[i]))))
  }

  /** Opacity stays in [0.1, 0.8] and thickness in [1, 10]; a heavier edge
      is drawn at least as opaque and as thick, and only then. */
  lemma StylesProps(ws: seq<int>, ss: seq<Style>)
    requires Styles(ws) == Some(ss)
    ensures |ss| == |ws|
    ensures forall i :: 0 <= i < |ws| ==>
              && MinAlpha <= ss[i].alpha <= MinAlpha + AlphaRange
              && 1.0 <= ss[i].width <= 10.0
    ensures forall i, j :: 0 <= i < |ws| && 0 <= j < |ws| ==>
              (ss[i].alpha <= ss[j].alpha <==> ws[i] <= ws[j])
    ensures forall i, j :: 0 <= i < |ws| && 0 <= j < |ws| ==>
              (ss[i].width <= ss[j].width <==> ws[i] <= ws[j])
  {
    var ns := Normalise(ws).value;
    assert forall i :: 0 <= i < |ws| ==> 0.0 <= ns[i] <= 1.0;
    forall i, j | 0 <= i < |ws| && 0 <= j < |ws|
      ensures ss[i].alpha <= ss[j].alpha <==> ws[i] <= ws[j]
      ensures ss[i].width <= ss[j].width <==> ws[i] <= ws[j]
    {
      assert ns[i] <= ns[j] <==> ws[i] <= ws[j];
      EncodingMonotone(ns[j], ns[i]);
    }
  }
}
