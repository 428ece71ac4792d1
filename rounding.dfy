/**
 * Grid rounding of a coordinate list: every coordinate is reduced to X and Y,
 * made precise, and a coordinate equal to the one kept just before it is
 * dropped.
 */
module Rounding {
  import opened Geom

  /** No two neighbours are equal. */
  predicate NoRepeats<T(==)>(t: seq<T>) {
    forall i :: 0 < i < |t| ==> t[i - 1] != t[i]
  }

  /** Collapses every run of equal neighbours to a single element. */
  function CollapseRepeats<T(==)>(t: seq<T>): (r: seq<T>)
    ensures |r| <= |t|
    ensures |r| == 0 <==> |t| == 0
    ensures |t| > 0 ==> r[0] == t[0] && r[|r| - 1] == t[|t| - 1]
  {
    if |t| <= 1 then t
    else if t[0] == t[1] then CollapseRepeats(t[1..])
    else [t[0]] + CollapseRepeats(t[1..])
  }

  lemma {:induction false} CollapseHasNoRepeats<T>(t: seq<T>)
    ensures NoRepeats(CollapseRepeats(t))
  {
    if |t| > 1 {
      CollapseHasNoRepeats(t[1..]);
    }
  }

  /** Collapsing neither invents nor loses a value. */
  lemma {:induction false} CollapseKeepsValues<T>(t: seq<T>)
    ensures forall x :: x in CollapseRepeats(t) <==> x in t
  {
    if |t| > 1 {
      CollapseKeepsValues(t[1..]);
      assert t == [t[0]] + t[1..];
    }
  }

  lemma NoRepeatsTail<T>(t: seq<T>)
    requires |t| > 0 && NoRepeats(t)
    ensures NoRepeats(t[1..])
  {
    forall i | 0 < i < |t| - 1 ensures t[1..][i - 1] != t[1..][i] {
      assert t[i] != t[i + 1];
    }
  }

  /** A list without repeats is left as it is. */
  lemma {:induction false} CollapseFixesNoRepeats<T>(t: seq<T>)
    requires NoRepeats(t)
    ensures CollapseRepeats(t) == t
  {
    if |t| > 1 {
      NoRepeatsTail(t);
      CollapseFixesNoRepeats(t[1..]);
      assert t[0] != t[1];
      calc {
        CollapseRepeats(t);
        [t[0]] + CollapseRepeats(t[1..]);
        [t[0]] + t[1..];
        t;
      }
    }
  }

  lemma CollapseIdempotent<T>(t: seq<T>)
    ensures CollapseRepeats(CollapseRepeats(t)) == CollapseRepeats(t)
  {
    CollapseHasNoRepeats(t);
    CollapseFixesNoRepeats(CollapseRepeats(t));
  }

  /** Appending one value: it is kept unless it repeats the last value kept. */
  lemma {:induction false} CollapseAppend<T>(t: seq<T>, c: T)
    ensures var r := CollapseRepeats(t);
            CollapseRepeats(t + [c]) == if |r| > 0 && r[|r| - 1] == c then r else r + [c]
  {
    if |t| == 1 {
      assert t + [c] == [t[0], c];
      assert ([t[0], c])[1..] == [c];
    } else if |t| > 1 {
      assert (t + [c])[1..] == t[1..] + [c];
      CollapseAppend(t[1..], c);
    }
  }

  /** Each coordinate reduced to X and Y and made precise, in order. */
  function Snap(s: seq<Coordinate>, pm: PrecisionModel): seq<Coordinate> {
    seq(|s|, i requires 0 <= i < |s| => pm.MakePrecise(XY(s[i])))
  }

  /** The rounded form of a coordinate list: snapped, with runs of equal neighbours collapsed. */
  function Rounded(s: seq<Coordinate>, pm: PrecisionModel): seq<Coordinate> {
    CollapseRepeats(Snap(s, pm))
  }

  /**
   * What rounding promises: nothing longer than the input, empty exactly when
   * the input is, no two equal neighbours, no Z, every kept coordinate the
   * precise form of an input coordinate and every input coordinate's precise
   * form kept, and the first and last coordinates are the precise forms of the
   * input's first and last.
   */
  lemma RoundedShape(s: seq<Coordinate>, pm: PrecisionModel)
    ensures var r := Rounded(s, pm);
            && |r| <= |s|
            && (|r| == 0 <==> |s| == 0)
            && NoRepeats(r)
            && (forall k :: 0 <= k < |r| ==> r[k].z == None)
            && (forall k :: 0 <= k < |r| ==> exists i :: 0 <= i < |s| && r[k] == pm.MakePrecise(XY(s[i])))
            && (forall i :: 0 <= i < |s| ==> pm.MakePrecise(XY(s[i])) in r)
            && (|s| > 0 ==> r[0] == pm.MakePrecise(XY(s[0])) && r[|r| - 1] == pm.MakePrecise(XY(s[|s| - 1])))
  {
    var t := Snap(s, pm);
    var r := CollapseRepeats(t);
    CollapseHasNoRepeats(t);
    CollapseKeepsValues(t);
    forall k | 0 <= k < |r|
      ensures r[k].z == None
      ensures exists i :: 0 <= i < |s| && r[k] == pm.MakePrecise(XY(s[i]))
    {
      assert r[k] in t;
      var i :| 0 <= i < |t| && t[i] == r[k];
    }
    forall i | 0 <= i < |s| ensures pm.MakePrecise(XY(s[i])) in r {
      assert t[i] in t;
    }
  }

  /** A closed ring stays closed: its first and last coordinates round alike. */
  lemma RoundingKeepsClosure(s: seq<Coordinate>, pm: PrecisionModel)
    requires |s| > 0 && Equals2D(s[0], s[|s| - 1])
    ensures var r := Rounded(s, pm); |r| > 0 && r[0] == r[|r| - 1]
  {
    RoundedShape(s, pm);
  }

  /** A two-point line whose ends round to the same grid point collapses to that single point. */
  lemma TwoPointCollapse(a: Coordinate, b: Coordinate, pm: PrecisionModel)
    requires Equals2D(pm.MakePrecise(a), pm.MakePrecise(b))
    ensures Rounded([a, b], pm) == [pm.MakePrecise(XY(a))]
  {
    var t := Snap([a, b], pm);
    assert t == [pm.MakePrecise(XY(a)), pm.MakePrecise(XY(b))];
    assert t[1..] == [t[1]];
  }

  /** On a grid, rounding an already rounded list changes nothing. */
  lemma RoundingIdempotent(s: seq<Coordinate>, pm: PrecisionModel)
    requires IsGrid(pm)
    ensures Rounded(Rounded(s, pm), pm) == Rounded(s, pm)
  {
    var r := Rounded(s, pm);
    RoundedShape(s, pm);
    forall k | 0 <= k < |r| ensures pm.MakePrecise(XY(r[k])) == r[k] {
      var i :| 0 <= i < |s| && r[k] == pm.MakePrecise(XY(s[i]));
    }
    assert Snap(r, pm) == r;
    CollapseFixesNoRepeats(r);
  }

  /** One more input coordinate: rounding the longer prefix appends its precise form unless it repeats. */
  lemma RoundedStep(s: seq<Coordinate>, i: nat, pm: PrecisionModel)
    requires i < |s|
    ensures var r := Rounded(s[..i], pm);
            var c := pm.MakePrecise(XY(s[i]));
            Rounded(s[..i + 1], pm) == if |r| > 0 && Equals2D(r[|r| - 1], c) then r else r + [c]
  {
    var r := Rounded(s[..i], pm);
    var c := pm.MakePrecise(XY(s[i]));
    assert Snap(s[..i + 1], pm) == Snap(s[..i], pm) + [c];
    CollapseAppend(Snap(s[..i], pm), c);
    if |r| > 0 {
      RoundedShape(s[..i], pm);
      assert Equals2D(r[|r| - 1], c) <==> r[|r| - 1] == c;
    }
  }
}
