/**
 * The snap-rounder itself: it extracts a tagged segment string per line of a
 * geometry, has the noder node them in place, and then either assembles the
 * noded lines or rebuilds the geometry from them and makes it valid.
 */
module SnapRound {
  import opened Geom
  import opened Rounding
  import opened Pipeline

  /**
   * A segment string: the rounded points of one line and, as its data, the
   * tag of that line. The noder updates its split coordinates in place.
   */
  class NodedSegmentString {
    const pts: seq<Coordinate>
    const data: nat
    var splitCoordinates: seq<Coordinate>

    constructor (pts: seq<Coordinate>, data: nat)
      ensures this.pts == pts && this.data == data && splitCoordinates == pts
    {
      this.pts := pts;
      this.data := data;
      splitCoordinates := pts;
    }
  }

  /** The points and tags of a list of segment strings, as values. */
  function Views(segs: seq<NodedSegmentString>): (r: seq<TaggedLine>)
    ensures |r| == |segs|
  {
    seq(|segs|, k requires 0 <= k < |segs| => TaggedLine(segs[k].pts, segs[k].data))
  }

  /** The current split coordinates of a list of segment strings. */
  function Splits(segs: seq<NodedSegmentString>): (r: seq<seq<Coordinate>>)
    reads segs
    ensures |r| == |segs|
  {
    seq(|segs|, k requires 0 <= k < |segs| reads segs => segs[k].splitCoordinates)
  }

  lemma ViewsAppend(segs: seq<NodedSegmentString>, nss: NodedSegmentString)
    ensures Views(segs + [nss]) == Views(segs) + [TaggedLine(nss.pts, nss.data)]
  {
  }

  /** No segment string occurs twice in the list. */
  predicate Distinct(segs: seq<NodedSegmentString>) {
    forall i, j :: 0 <= i < j < |segs| ==> segs[i] != segs[j]
  }

  class GeometrySnapRounder {
    const pm: PrecisionModel
    const env: Collaborators
    var isLineworkOnly: bool

    /** A snap-rounder for the grid of `pm`; linework-only mode starts off. */
    constructor (pm: PrecisionModel, env: Collaborators)
      ensures this.pm == pm && this.env == env && !isLineworkOnly
    {
      this.pm := pm;
      this.env := env;
      isLineworkOnly := false;
    }

    method SetLineworkOnly(isLineworkOnly: bool)
      modifies this`isLineworkOnly
      ensures this.isLineworkOnly == isLineworkOnly
    {
      this.isLineworkOnly := isLineworkOnly;
    }

    /**
     * Snap-rounds a geometry: in linework-only mode the flat collection of
     * noded lines, otherwise the rebuilt geometry made valid.
     */
    method Execute(geom: Geometry) returns (r: Geometry)
      ensures r == SnapRounded(geom, pm, env, isLineworkOnly)
    {
      ghost var frs := Fragments(Components(geom), pm);
      ghost var splits := NodedSplits(frs, env);
      var segStrings := ExtractTaggedSegmentStrings(geom, pm);
      SnapRound(segStrings);
      assert Views(segStrings) == frs && Splits(segStrings) == splits;

      if isLineworkOnly {
        r := ToNodedLines(segStrings);
        assert Splits(segStrings) == splits;
        SnapRoundedSteps(geom, pm, env, true, frs, splits);
      } else {
        var geomSnapped := ReplaceLines(geom, segStrings);
        assert Splits(segStrings) == splits;
        r := EnsureValid(geomSnapped, env);
        SnapRoundedSteps(geom, pm, env, false, frs, splits);
      }
    }

    /** One line per segment string that did not collapse, built from its split coordinates, in list order. */
    method ToNodedLines(segStrings: seq<NodedSegmentString>) returns (g: Geometry)
      ensures g == BuildLineal(NodedLineList(Views(segStrings), Splits(segStrings)))
    {
      var lines: seq<seq<Coordinate>> := [];
      for i := 0 to |segStrings|
        invariant lines == NodedLineList(Views(segStrings)[..i], Splits(segStrings)[..i])
      {
        assert Views(segStrings)[..i + 1] == Views(segStrings)[..i] + [Views(segStrings)[i]];
        assert Splits(segStrings)[..i + 1][..i] == Splits(segStrings)[..i];
        var nss := segStrings[i];
        // a line rounded to fewer than two points has no noded form
        if |nss.pts| < 2 {
          continue;
        }
        var pts := nss.splitCoordinates;
        lines := lines + [pts];
      }
      assert Views(segStrings)[..|segStrings|] == Views(segStrings);
      assert Splits(segStrings)[..|segStrings|] == Splits(segStrings);
      g := BuildLineal(lines);
    }

    /** Rebuilds the geometry with every line replaced by its entry in the noded-lines map. */
    method ReplaceLines(geom: Geometry, segStrings: seq<NodedSegmentString>) returns (snapped: Geometry)
      ensures snapped == env.editLines(geom, NodedLines(Views(segStrings), Splits(segStrings)))
    {
      var nodedLinesMap := NodedLinesMap(segStrings);
      snapped := env.editLines(geom, nodedLinesMap);
    }

    /** Has the noder compute the split coordinates of every segment string, in place. */
    method SnapRound(segStrings: seq<NodedSegmentString>)
      requires Distinct(segStrings)
      modifies segStrings
      ensures Splits(segStrings) == NodedSplits(Views(segStrings), env)
    {
      var all := PointsOf(Views(segStrings));
      forall k | 0 <= k < |segStrings| {
        segStrings[k].splitCoordinates := env.computeNodes(all, k);
      }
    }

    /** Maps the tag of every segment string that did not collapse to its split coordinates. */
    method NodedLinesMap(segStrings: seq<NodedSegmentString>) returns (ptsMap: map<nat, seq<Coordinate>>)
      ensures ptsMap == NodedLines(Views(segStrings), Splits(segStrings))
    {
      ptsMap := map[];
      for i := 0 to |segStrings|
        invariant ptsMap == NodedLines(Views(segStrings)[..i], Splits(segStrings)[..i])
      {
        assert Views(segStrings)[..i + 1][..i] == Views(segStrings)[..i];
        assert Splits(segStrings)[..i + 1][..i] == Splits(segStrings)[..i];
        var nss := segStrings[i];
        // a line rounded to fewer than two points has no noded form
        if |nss.pts| < 2 {
          continue;
        }
        var pts := nss.splitCoordinates;
        ptsMap := ptsMap[nss.data := pts];
      }
      assert Views(segStrings)[..|segStrings|] == Views(segStrings);
      assert Splits(segStrings)[..|segStrings|] == Splits(segStrings);
    }

    /**
     * One segment string per non-empty line component (rings included), in
     * component order, holding the line's rounded coordinates and tagged with
     * the line; points and empty lines are skipped.
     */
    static method ExtractTaggedSegmentStrings(geom: Geometry, pm: PrecisionModel)
      returns (segStrings: seq<NodedSegmentString>)
      ensures Views(segStrings) == Fragments(Components(geom), pm)
      ensures Distinct(segStrings)
      ensures forall k :: 0 <= k < |segStrings| ==> fresh(segStrings[k])
    {
      segStrings := [];
      // the components `geom.apply` hands to the filter, in order
      var components := Components(geom);
      for i := 0 to |components|
        invariant Views(segStrings) == Fragments(components[..i], pm)
        invariant Distinct(segStrings)
        invariant forall k :: 0 <= k < |segStrings| ==> fresh(segStrings[k])
      {
        FragmentsStep(components, pm, i);
        var g := components[i];
        // only line strings and rings are extracted
        if !g.IsLineString() {
          continue;
        }
        // a line without coordinates yields no segment string
        if |g.coords| <= 0 {
          continue;
        }
        var roundPts := Round(g.coords, pm);
        var nss := new NodedSegmentString(roundPts, i);
        ViewsAppend(segStrings, nss);
        segStrings := segStrings + [nss];
      }
      assert components[..|components|] == components;
    }

    /**
     * The coordinates reduced to X and Y, made precise, with a coordinate equal
     * to the one kept before it dropped.
     */
    static method Round(s: seq<Coordinate>, pm: PrecisionModel) returns (coords: seq<Coordinate>)
      ensures coords == Rounded(s, pm)
      ensures |coords| <= |s| && (|coords| == 0 <==> |s| == 0)
      ensures NoRepeats(coords)
    {
      if |s| == 0 {
        RoundedShape(s, pm);
        return [];
      }

      var coordList: seq<Coordinate> := [];
      // snap each coordinate, keeping only X and Y
      for i := 0 to |s|
        invariant coordList == Rounded(s[..i], pm)
      {
        RoundedStep(s, i, pm);
        var coord := pm.MakePrecise(XY(s[i]));
        // a coordinate list does not take a repeat of its last coordinate
        if |coordList| == 0 || !Equals2D(coordList[|coordList| - 1], coord) {
          coordList := coordList + [coord];
        }
      }
      assert s[..|s|] == s;
      coords := coordList;
      RoundedShape(s, pm);
    }
  }
}
