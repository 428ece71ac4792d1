/**
 * The snap-rounding pipeline stated on values: which fragments are extracted
 * from a geometry, which of them survive noding, the tag map and the line list
 * built from them, the validity step, and the whole pipeline in both modes.
 *
 * A fragment's tag is the position, in component-traversal order, of the line
 * component it was extracted from; it stands for the line object that the
 * snap-rounder uses as a map key.
 */
module Pipeline {
  import opened Geom
  import opened Rounding

  /** The rounded points of one fragment and the tag of its source line. */
  datatype TaggedLine = TaggedLine(pts: seq<Coordinate>, tag: nat)

  /** The operations the pipeline delegates to and does not define. */
  datatype Collaborators = Collaborators(
    // The noder: given every fragment's points, the split coordinates of fragment k.
    computeNodes: (seq<seq<Coordinate>>, nat) -> seq<Coordinate>,
    // The tree editor: rebuilds a geometry, replacing each line by its tag's entry.
    editLines: (Geometry, map<nat, seq<Coordinate>>) -> Geometry,
    isValid: Geometry -> bool,
    cleanPolygonal: Geometry -> Geometry)

  /** A component the extractor takes: a line string (rings included) with at least one point. */
  predicate IsExtracted(g: Geometry) {
    g.IsLineString() && |g.coords| > 0
  }

  /**
   * The fragments extracted from a list of components: one per non-empty line
   * component, in component order, tagged with that component's position and
   * holding its rounded coordinates. Nothing else yields a fragment.
   */
  function Fragments(cs: seq<Geometry>, pm: PrecisionModel): (r: seq<TaggedLine>)
    ensures |r| <= |cs|
    ensures forall k :: 0 <= k < |r| ==> r[k].tag < |cs|
    decreases |cs|
  {
    if cs == [] then []
    else
      var n := |cs| - 1;
      var prior := Fragments(cs[..n], pm);
      if IsExtracted(cs[n]) then prior + [TaggedLine(Rounded(cs[n].coords, pm), n)] else prior
  }

  /** Every fragment comes from a non-empty line component and holds that line's rounded coordinates. */
  lemma {:induction false} FragmentsFromLines(cs: seq<Geometry>, pm: PrecisionModel, k: nat)
    requires k < |Fragments(cs, pm)|
    ensures var f := Fragments(cs, pm)[k];
            IsExtracted(cs[f.tag]) && f.pts == Rounded(cs[f.tag].coords, pm)
  {
    var n := |cs| - 1;
    var prior := Fragments(cs[..n], pm);
    if k < |prior| {
      FragmentsFromLines(cs[..n], pm, k);
      assert cs[..n][prior[k].tag] == cs[prior[k].tag];
    }
  }

  /** Fragments appear in component order: their tags strictly increase. */
  lemma {:induction false} FragmentsInOrder(cs: seq<Geometry>, pm: PrecisionModel, j: nat, k: nat)
    requires j < k < |Fragments(cs, pm)|
    ensures Fragments(cs, pm)[j].tag < Fragments(cs, pm)[k].tag
  {
    var n := |cs| - 1;
    var prior := Fragments(cs[..n], pm);
    if k < |prior| {
      FragmentsInOrder(cs[..n], pm, j, k);
    }
  }

  /** Every non-empty line component yields a fragment. */
  lemma {:induction false} LinesYieldFragments(cs: seq<Geometry>, pm: PrecisionModel, i: nat)
    requires i < |cs| && IsExtracted(cs[i])
    ensures exists k :: 0 <= k < |Fragments(cs, pm)| && Fragments(cs, pm)[k].tag == i
  {
    var n := |cs| - 1;
    var prior := Fragments(cs[..n], pm);
    var r := Fragments(cs, pm);
    if i < n {
      assert cs[..n][i] == cs[i];
      LinesYieldFragments(cs[..n], pm, i);
      var k :| 0 <= k < |prior| && prior[k].tag == i;
      assert r[k] == prior[k];
    } else {
      assert r[|r| - 1].tag == i;
    }
  }

  /**
   * Extraction yields one fragment per non-empty line component, in component
   * order, tagged with that component's position and holding its rounded
   * coordinates; points and empty lines yield nothing.
   */
  lemma FragmentsSpec(cs: seq<Geometry>, pm: PrecisionModel)
    ensures var r := Fragments(cs, pm);
            && (forall k :: 0 <= k < |r| ==>
                  IsExtracted(cs[r[k].tag]) && r[k].pts == Rounded(cs[r[k].tag].coords, pm))
            && (forall j, k :: 0 <= j < k < |r| ==> r[j].tag < r[k].tag)
            && (forall i :: 0 <= i < |cs| && IsExtracted(cs[i]) ==> exists k :: 0 <= k < |r| && r[k].tag == i)
  {
    var r := Fragments(cs, pm);
    forall k | 0 <= k < |r| ensures IsExtracted(cs[r[k].tag]) && r[k].pts == Rounded(cs[r[k].tag].coords, pm) {
      FragmentsFromLines(cs, pm, k);
    }
    forall j, k | 0 <= j < k < |r| ensures r[j].tag < r[k].tag {
      FragmentsInOrder(cs, pm, j, k);
    }
    forall i | 0 <= i < |cs| && IsExtracted(cs[i]) ensures exists k :: 0 <= k < |r| && r[k].tag == i {
      LinesYieldFragments(cs, pm, i);
    }
  }

  /** One more component: it adds its fragment when it is a non-empty line, and nothing otherwise. */
  lemma FragmentsStep(cs: seq<Geometry>, pm: PrecisionModel, i: nat)
    requires i < |cs|
    ensures Fragments(cs[..i + 1], pm) ==
      Fragments(cs[..i], pm) + if IsExtracted(cs[i]) then [TaggedLine(Rounded(cs[i].coords, pm), i)] else []
  {
    assert cs[..i + 1][..i] == cs[..i];
  }

  /** The points of every fragment, in order: what the noder is given. */
  function PointsOf(frs: seq<TaggedLine>): seq<seq<Coordinate>> {
    seq(|frs|, k requires 0 <= k < |frs| => frs[k].pts)
  }

  /** The split coordinates the noder computes for each fragment, in fragment order. */
  function NodedSplits(frs: seq<TaggedLine>, env: Collaborators): seq<seq<Coordinate>> {
    seq(|frs|, k requires 0 <= k < |frs| => env.computeNodes(PointsOf(frs), k))
  }

  /** A fragment survives noding when it has at least two points. */
  predicate Survives(f: TaggedLine) {
    |f.pts| >= 2
  }

  /**
   * The tag map: an entry for a tag exactly when some surviving fragment
   * carries it, holding the split coordinates of the last such fragment
   * (a later entry for the same key replaces an earlier one).
   */
  function NodedLines(frs: seq<TaggedLine>, splits: seq<seq<Coordinate>>): (m: map<nat, seq<Coordinate>>)
    requires |splits| == |frs|
    ensures forall t :: t in m ==> exists k :: 0 <= k < |frs| && frs[k].tag == t && Survives(frs[k])
    decreases |frs|
  {
    if frs == [] then map[]
    else
      var n := |frs| - 1;
      var m := NodedLines(frs[..n], splits[..n]);
      assert forall k :: 0 <= k < n ==> frs[..n][k] == frs[k];
      if Survives(frs[n]) then m[frs[n].tag := splits[n]] else m
  }

  /** No surviving fragment after position k carries the tag of fragment k. */
  predicate LastWithTag(frs: seq<TaggedLine>, k: nat)
    requires k < |frs|
  {
    forall j :: k < j < |frs| && Survives(frs[j]) ==> frs[j].tag != frs[k].tag
  }

  /**
   * Every surviving fragment's tag has an entry, and the entry of the last
   * surviving fragment with a given tag is that fragment's split coordinates.
   */
  lemma {:induction false} NodedLinesEntries(frs: seq<TaggedLine>, splits: seq<seq<Coordinate>>)
    requires |splits| == |frs|
    ensures var m := NodedLines(frs, splits);
            && (forall k :: 0 <= k < |frs| && Survives(frs[k]) ==> frs[k].tag in m)
            && (forall k :: 0 <= k < |frs| && Survives(frs[k]) && LastWithTag(frs, k) ==> m[frs[k].tag] == splits[k])
  {
    if frs != [] {
      var n := |frs| - 1;
      var m := NodedLines(frs, splits);
      var prior := NodedLines(frs[..n], splits[..n]);
      NodedLinesEntries(frs[..n], splits[..n]);
      forall k | 0 <= k < |frs| && Survives(frs[k])
        ensures frs[k].tag in m
        ensures LastWithTag(frs, k) ==> m[frs[k].tag] == splits[k]
      {
        if k < n {
          assert frs[..n][k] == frs[k] && splits[..n][k] == splits[k];
          if LastWithTag(frs, k) {
            assert LastWithTag(frs[..n], k);
            if Survives(frs[n]) { assert frs[n].tag != frs[k].tag; }
          }
        }
      }
    }
  }

  /** The positions of the surviving fragments, in fragment order. */
  function Kept(frs: seq<TaggedLine>): (r: seq<nat>)
    ensures forall j :: 0 <= j < |r| ==> r[j] < |frs| && Survives(frs[r[j]])
    ensures forall j, k :: 0 <= j < k < |r| ==> r[j] < r[k]
    ensures forall k :: 0 <= k < |frs| && Survives(frs[k]) ==> k in r
    decreases |frs|
  {
    if frs == [] then []
    else
      var n := |frs| - 1;
      Kept(frs[..n]) + if Survives(frs[n]) then [n] else []
  }

  /** The lines of the linework-only output: the split coordinates of each surviving fragment, in fragment order. */
  function NodedLineList(frs: seq<TaggedLine>, splits: seq<seq<Coordinate>>): (r: seq<seq<Coordinate>>)
    requires |splits| == |frs|
    ensures |r| == |Kept(frs)|
    ensures forall j :: 0 <= j < |r| ==> r[j] == splits[Kept(frs)[j]]
    decreases |frs|
  {
    if frs == [] then []
    else
      var n := |frs| - 1;
      assert Kept(frs) == Kept(frs[..n]) + if Survives(frs[n]) then [n] else [];
      NodedLineList(frs[..n], splits[..n]) + if Survives(frs[n]) then [splits[n]] else []
  }

  /** The geometry itself when it is valid, else the cleaner's repair of it. */
  function EnsureValid(g: Geometry, env: Collaborators): (r: Geometry)
    ensures env.isValid(g) ==> r == g
    ensures !env.isValid(g) ==> r == env.cleanPolygonal(g)
  {
    if env.isValid(g) then g else env.cleanPolygonal(g)
  }

  /** The cleaner's promise: whatever it is given, it returns a valid geometry. */
  ghost predicate CleanerRepairs(env: Collaborators) {
    forall g :: env.isValid(env.cleanPolygonal(g))
  }

  /**
   * Snap-rounding a geometry: extract, node, then either assemble the
   * surviving lines (linework-only) or rebuild the geometry from the tag map
   * and make it valid.
   */
  function SnapRounded(geom: Geometry, pm: PrecisionModel, env: Collaborators, lineworkOnly: bool): Geometry {
    var frs := Fragments(Components(geom), pm);
    var splits := NodedSplits(frs, env);
    if lineworkOnly then BuildLineal(NodedLineList(frs, splits))
    else EnsureValid(env.editLines(geom, NodedLines(frs, splits)), env)
  }

  /** The pipeline in terms of its extracted fragments and their split coordinates. */
  lemma SnapRoundedSteps(geom: Geometry, pm: PrecisionModel, env: Collaborators, lineworkOnly: bool,
                         frs: seq<TaggedLine>, splits: seq<seq<Coordinate>>)
    requires frs == Fragments(Components(geom), pm) && splits == NodedSplits(frs, env)
    ensures |splits| == |frs|
    ensures lineworkOnly ==> SnapRounded(geom, pm, env, lineworkOnly) == BuildLineal(NodedLineList(frs, splits))
    ensures !lineworkOnly ==>
      SnapRounded(geom, pm, env, lineworkOnly) == EnsureValid(env.editLines(geom, NodedLines(frs, splits)), env)
  {
  }

  // ---------------------------------------------------------------------------
  // Properties of the pipeline

  /** With a cleaner that always repairs, the validity step always yields a valid geometry. */
  lemma EnsureValidIsValid(g: Geometry, env: Collaborators)
    requires CleanerRepairs(env)
    ensures env.isValid(EnsureValid(g, env))
  {
  }

  /** The fragments' tags are pairwise distinct: every line component gets a tag of its own. */
  lemma FragmentTagsDistinct(cs: seq<Geometry>, pm: PrecisionModel)
    ensures var frs := Fragments(cs, pm);
            forall j, k :: 0 <= j < |frs| && 0 <= k < |frs| && j != k ==> frs[j].tag != frs[k].tag
  {
    var frs := Fragments(cs, pm);
    forall j, k | 0 <= j < |frs| && 0 <= k < |frs| && j != k ensures frs[j].tag != frs[k].tag {
      if j < k { FragmentsInOrder(cs, pm, j, k); } else { FragmentsInOrder(cs, pm, k, j); }
    }
  }

  /**
   * The tag map of an extraction: component i has an entry exactly when it is
   * a line whose rounded coordinates have at least two points, and the entry is
   * the noded coordinates of the fragment extracted from it. Points, empty
   * lines and collapsed lines have none, and every key names a line component.
   */
  lemma {:induction false} NodedLinesOfGeometry(cs: seq<Geometry>, pm: PrecisionModel, splits: seq<seq<Coordinate>>, i: nat)
    requires |splits| == |Fragments(cs, pm)|
    ensures var frs := Fragments(cs, pm);
            var m := NodedLines(frs, splits);
            && (i in m <==> i < |cs| && IsExtracted(cs[i]) && |Rounded(cs[i].coords, pm)| >= 2)
            && (i in m ==> exists k :: 0 <= k < |frs| && frs[k].tag == i && m[i] == splits[k])
  {
    var frs := Fragments(cs, pm);
    var m := NodedLines(frs, splits);
    FragmentsSpec(cs, pm);
    FragmentTagsDistinct(cs, pm);
    NodedLinesEntries(frs, splits);
    if i in m {
      var k :| 0 <= k < |frs| && frs[k].tag == i && Survives(frs[k]);
      assert LastWithTag(frs, k);
      assert m[i] == splits[k];
    } else if i < |cs| && IsExtracted(cs[i]) {
      var k :| 0 <= k < |frs| && frs[k].tag == i;
      assert !Survives(frs[k]);
    }
  }

  /** A line that rounds to fewer than two points is in neither output. */
  lemma CollapsedLineVanishes(cs: seq<Geometry>, pm: PrecisionModel, env: Collaborators, i: nat)
    requires i < |cs| && cs[i].IsLineString() && |Rounded(cs[i].coords, pm)| < 2
    ensures var frs := Fragments(cs, pm);
            var splits := NodedSplits(frs, env);
            && i !in NodedLines(frs, splits)
            && forall j :: 0 <= j < |Kept(frs)| ==> frs[Kept(frs)[j]].tag != i
  {
    var frs := Fragments(cs, pm);
    NodedLinesOfGeometry(cs, pm, NodedSplits(frs, env), i);
    forall j | 0 <= j < |Kept(frs)| ensures frs[Kept(frs)[j]].tag != i {
      var k := Kept(frs)[j];
      FragmentsFromLines(cs, pm, k);
      assert Survives(frs[k]);
    }
  }

  /**
   * The linework-only lines are the tag map's entries, in fragment order: the
   * j-th line is the entry of the j-th surviving fragment's tag, and every
   * entry is one of the lines.
   */
  lemma LineListMatchesMap(cs: seq<Geometry>, pm: PrecisionModel, splits: seq<seq<Coordinate>>)
    requires |splits| == |Fragments(cs, pm)|
    ensures var frs := Fragments(cs, pm);
            var lines := NodedLineList(frs, splits);
            var m := NodedLines(frs, splits);
            && (forall j :: 0 <= j < |lines| ==> frs[Kept(frs)[j]].tag in m && m[frs[Kept(frs)[j]].tag] == lines[j])
            && (forall t :: t in m ==> exists j :: 0 <= j < |lines| && frs[Kept(frs)[j]].tag == t)
  {
    var frs := Fragments(cs, pm);
    var lines := NodedLineList(frs, splits);
    var m := NodedLines(frs, splits);
    var kept := Kept(frs);
    FragmentTagsDistinct(cs, pm);
    NodedLinesEntries(frs, splits);
    forall t | t in m ensures exists j :: 0 <= j < |lines| && frs[kept[j]].tag == t {
      var k :| 0 <= k < |frs| && frs[k].tag == t && Survives(frs[k]);
      assert k in kept;
      var j :| 0 <= j < |kept| && kept[j] == k;
      assert frs[kept[j]].tag == t;
    }
  }

  /**
   * Linework-only mode yields exactly the noded lines of the surviving
   * fragments, and it neither rebuilds the tree nor runs the validity step:
   * its result does not depend on the editor, the validity test or the cleaner.
   */
  lemma LineworkOnlyOutput(geom: Geometry, pm: PrecisionModel, env: Collaborators, other: Collaborators)
    requires other.computeNodes == env.computeNodes
    ensures var frs := Fragments(Components(geom), pm);
            var lines := Linework(SnapRounded(geom, pm, env, true));
            && |lines| == |Kept(frs)|
            && (forall j :: 0 <= j < |lines| ==>
                 lines[j] == env.computeNodes(PointsOf(frs), Kept(frs)[j]) && Survives(frs[Kept(frs)[j]]))
            && SnapRounded(geom, pm, other, true) == SnapRounded(geom, pm, env, true)
  {
    var frs := Fragments(Components(geom), pm);
    assert NodedSplits(frs, other) == NodedSplits(frs, env);
  }

  /**
   * Full mode rebuilds the geometry from the tag map and returns the rebuilt
   * geometry unchanged when it is valid; with a cleaner that always repairs,
   * the result is valid.
   */
  lemma FullModeOutput(geom: Geometry, pm: PrecisionModel, env: Collaborators)
    ensures var frs := Fragments(Components(geom), pm);
            var rebuilt := env.editLines(geom, NodedLines(frs, NodedSplits(frs, env)));
            && (env.isValid(rebuilt) ==> SnapRounded(geom, pm, env, false) == rebuilt)
            && (CleanerRepairs(env) ==> env.isValid(SnapRounded(geom, pm, env, false)))
  {
    var frs := Fragments(Components(geom), pm);
    var rebuilt := env.editLines(geom, NodedLines(frs, NodedSplits(frs, env)));
    if CleanerRepairs(env) {
      EnsureValidIsValid(rebuilt, env);
    }
  }
}
