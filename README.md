# Snap-rounding driver of JTS lab (`GeometrySnapRounder`)

This project models, in Dafny, the driver that snap-rounds a geometry onto the
grid of a precision model. The driver:

1. rounds each line's coordinates to the grid (`round`): every coordinate is
   reduced to X and Y, made precise, and dropped when it repeats the one kept
   before it;
2. extracts one tagged segment string per non-empty line component of the
   geometry, rings included (`extractTaggedSegmentStrings`); points and empty
   lines give nothing;
3. has the noder insert the intersection nodes into those segment strings in
   place (`snapRound`);
4. in linework-only mode, builds one line per segment string of at least two
   points, in list order (`toNodedLines`);
5. otherwise builds the map from a line's tag to its noded coordinates
   (`nodedLinesMap`), leaving out collapsed segment strings, rebuilds the
   geometry from it (`replaceLines`), and returns the result when it is valid
   or the polygon cleaner's repair of it when it is not (`ensureValid`).

Modules:

- `Geom` (`geom.dfy`): coordinates with optional Z, the precision model's
  coordinate rounding, the geometry tree (point, line string, linear ring,
  polygon, collection), the order in which `Geometry.apply` visits components,
  and the factory's assembly of a list of lines.
- `Rounding` (`rounding.dfy`): the specification of `round` as "snap every
  coordinate, then collapse runs of equal neighbours", with its properties.
- `Pipeline` (`pipeline.dfy`): the pipeline stated on values. `Fragments` is
  the extraction, `NodedSplits` the noder's output per fragment, `NodedLines`
  the tag map, `NodedLineList` the linework-only lines, `EnsureValid` the
  validity step, and `SnapRounded` the whole of `execute` in both modes. The
  lemmas here state what each promises.
- `SnapRound` (`snap_rounder.dfy`): the imperative driver. `NodedSegmentString`
  is a class whose split coordinates the noder updates in place.
  `GeometrySnapRounder` is a class with the fields `pm`, `env` (the collaborators) and `isLineworkOnly`.
  Its methods run the source's loops, and each one is proved equal to the
  matching `Pipeline` or `Rounding` function.

A line's tag is its position in the component traversal of the geometry. The
source keys its map by the line geometry itself, and a JTS geometry's
equality is exact equality of class and coordinates, so two equal line
components share one entry there. Here a position picks out exactly one
component, so two equal lines get distinct tags and entries of their own
(see "## Left out").

The collaborators are given to the snap-rounder's constructor as a
`Collaborators` value of function fields. They are the noder (the split
coordinates of each fragment, given all fragments' points), the tree editor
that replaces lines by map lookup, the validity test and the polygon cleaner.
The precision model holds its ordinate rounding as a function field.

## Model

| member | source | states |
|---|---|---|
| `Geom.XY` | modules/lab/src/main/java/org/locationtech/jtslab/snapround/GeometrySnapRounder.java:189-191 | the coordinate built from another keeps its X and Y and carries no Z |
| `Geom.PrecisionModel.MakePrecise` | modules/lab/src/main/java/org/locationtech/jtslab/snapround/GeometrySnapRounder.java:192 | making a coordinate precise rounds X and Y with the grid's ordinate rounding and leaves Z |
| `Geom.Components` | modules/lab/src/main/java/org/locationtech/jtslab/snapround/GeometrySnapRounder.java:179 | the component traversal visits the geometry itself first |
| `Geom.BuildLineal` | modules/lab/src/main/java/org/locationtech/jtslab/snapround/GeometrySnapRounder.java:136 | the geometry built from a list of lines gives back exactly those lines, in order; no line gives an empty collection, one line gives that line, several give a multi-line-string |
| `Rounding.CollapseRepeats` | modules/lab/src/main/java/org/locationtech/jtslab/snapround/GeometrySnapRounder.java:186-195 | collapsing repeats never lengthens a list, empties it only when it was empty, and keeps its first and last elements |
| `Rounding.CollapseHasNoRepeats` | modules/lab/src/main/java/org/locationtech/jtslab/snapround/GeometrySnapRounder.java:192-193 | the collapsed list has no two equal neighbours |
| `Rounding.CollapseKeepsValues` | modules/lab/src/main/java/org/locationtech/jtslab/snapround/GeometrySnapRounder.java:188-194 | collapsing neither invents nor loses a value |
| `Rounding.CollapseFixesNoRepeats` | modules/lab/src/main/java/org/locationtech/jtslab/snapround/GeometrySnapRounder.java:192-193 | a list without equal neighbours is left unchanged |
| `Rounding.CollapseIdempotent` | modules/lab/src/main/java/org/locationtech/jtslab/snapround/GeometrySnapRounder.java:192-193 | collapsing twice is collapsing once |
| `Rounding.CollapseAppend` | modules/lab/src/main/java/org/locationtech/jtslab/snapround/GeometrySnapRounder.java:193 | appending a value to the input appends it to the output unless it equals the last value kept |
| `Rounding.RoundedShape` | modules/lab/src/main/java/org/locationtech/jtslab/snapround/GeometrySnapRounder.java:183-198 | the rounded list is no longer than the input, is empty exactly when the input is, has no equal neighbours and no Z, holds only precise forms of input coordinates and every one of them, and starts and ends with the precise forms of the input's ends |
| `Rounding.RoundingKeepsClosure` | modules/lab/src/main/java/org/locationtech/jtslab/snapround/GeometrySnapRounder.java:188-195 | a closed ring stays closed after rounding |
| `Rounding.TwoPointCollapse` | modules/lab/src/main/java/org/locationtech/jtslab/snapround/GeometrySnapRounder.java:188-195 | a two-point line whose ends round to the same grid point rounds to that one point |
| `Rounding.RoundingIdempotent` | modules/lab/src/main/java/org/locationtech/jtslab/snapround/GeometrySnapRounder.java:183-198 | on a grid (rounding a rounded ordinate changes nothing), rounding a rounded list returns it unchanged |
| `Rounding.RoundedStep` | modules/lab/src/main/java/org/locationtech/jtslab/snapround/GeometrySnapRounder.java:188-194 | one more input coordinate appends its precise form unless it is equal in X and Y to the last coordinate kept |
| `Pipeline.Fragments` | modules/lab/src/main/java/org/locationtech/jtslab/snapround/GeometrySnapRounder.java:166-181 | extraction yields at most one fragment per component, each tagged with a component position |
| `Pipeline.FragmentsFromLines` | modules/lab/src/main/java/org/locationtech/jtslab/snapround/GeometrySnapRounder.java:172-176 | every fragment comes from a non-empty line component and holds that line's rounded coordinates |
| `Pipeline.FragmentsInOrder` | modules/lab/src/main/java/org/locationtech/jtslab/snapround/GeometrySnapRounder.java:168-179 | fragments appear in component-traversal order |
| `Pipeline.LinesYieldFragments` | modules/lab/src/main/java/org/locationtech/jtslab/snapround/GeometrySnapRounder.java:171-176 | every non-empty line component, ring or line string, yields a fragment |
| `Pipeline.FragmentsSpec` | modules/lab/src/main/java/org/locationtech/jtslab/snapround/GeometrySnapRounder.java:166-181 | exactly one fragment per non-empty line component, in traversal order, tagged with it and holding its rounded coordinates; points and empty lines yield none |
| `Pipeline.FragmentTagsDistinct` | modules/lab/src/main/java/org/locationtech/jtslab/snapround/GeometrySnapRounder.java:176 | no two fragments share a tag |
| `Pipeline.NodedLines` | modules/lab/src/main/java/org/locationtech/jtslab/snapround/GeometrySnapRounder.java:153-164 | every key of the tag map is the tag of a fragment with at least two points |
| `Pipeline.NodedLinesEntries` | modules/lab/src/main/java/org/locationtech/jtslab/snapround/GeometrySnapRounder.java:153-164 | every fragment with at least two points has its tag in the map, and the last such fragment with a tag maps it to its split coordinates |
| `Pipeline.NodedLinesOfGeometry` | modules/lab/src/main/java/org/locationtech/jtslab/snapround/GeometrySnapRounder.java:153-181 | a component has a map entry exactly when it is a line whose rounded coordinates have at least two points, and the entry is the noded coordinates of its fragment |
| `Pipeline.CollapsedLineVanishes` | modules/lab/src/main/java/org/locationtech/jtslab/snapround/GeometrySnapRounder.java:124-164 | a line that rounds to fewer than two points is absent from the map and from the linework-only lines |
| `Pipeline.Kept` | modules/lab/src/main/java/org/locationtech/jtslab/snapround/GeometrySnapRounder.java:126-130 | the kept positions are in increasing order and are exactly those of fragments with at least two points |
| `Pipeline.NodedLineList` | modules/lab/src/main/java/org/locationtech/jtslab/snapround/GeometrySnapRounder.java:124-137 | the linework-only lines are the split coordinates of the fragments with at least two points, one each, in fragment order |
| `Pipeline.LineListMatchesMap` | modules/lab/src/main/java/org/locationtech/jtslab/snapround/GeometrySnapRounder.java:124-164 | the linework-only lines are exactly the tag map's entries, listed in fragment order |
| `Pipeline.EnsureValid` | modules/lab/src/main/java/org/locationtech/jtslab/snapround/GeometrySnapRounder.java:201-208 | a valid geometry is returned unchanged and an invalid one is replaced by the cleaner's repair |
| `Pipeline.EnsureValidIsValid` | modules/lab/src/main/java/org/locationtech/jtslab/snapround/GeometrySnapRounder.java:201-208 | with a cleaner that always repairs, the validity step's result is valid |
| `Pipeline.LineworkOnlyOutput` | modules/lab/src/main/java/org/locationtech/jtslab/snapround/GeometrySnapRounder.java:112-117 | linework-only mode returns exactly the noded lines of the fragments with at least two points, and its result does not depend on the tree editor, the validity test or the cleaner |
| `Pipeline.FullModeOutput` | modules/lab/src/main/java/org/locationtech/jtslab/snapround/GeometrySnapRounder.java:119-121 | full mode returns the rebuilt geometry unchanged when it is valid, and a valid geometry whenever the cleaner always repairs |
| `SnapRound.NodedSegmentString.constructor` | modules/lab/src/main/java/org/locationtech/jtslab/snapround/GeometrySnapRounder.java:176 | a new segment string holds the given points and tag |
| `SnapRound.GeometrySnapRounder.constructor` | modules/lab/src/main/java/org/locationtech/jtslab/snapround/GeometrySnapRounder.java:82-93 | a new snap-rounder keeps its precision model and starts outside linework-only mode |
| `SnapRound.GeometrySnapRounder.SetLineworkOnly` | modules/lab/src/main/java/org/locationtech/jtslab/snapround/GeometrySnapRounder.java:95-97 | sets the mode and nothing else |
| `SnapRound.GeometrySnapRounder.Execute` | modules/lab/src/main/java/org/locationtech/jtslab/snapround/GeometrySnapRounder.java:106-122 | the result is the pipeline's: the linework-only lines, or the rebuilt geometry made valid |
| `SnapRound.GeometrySnapRounder.ToNodedLines` | modules/lab/src/main/java/org/locationtech/jtslab/snapround/GeometrySnapRounder.java:124-137 | builds the geometry of the linework-only lines from the segment strings' current split coordinates |
| `SnapRound.GeometrySnapRounder.ReplaceLines` | modules/lab/src/main/java/org/locationtech/jtslab/snapround/GeometrySnapRounder.java:139-145 | the tree editor is given the tag map of the segment strings |
| `SnapRound.GeometrySnapRounder.SnapRound` | modules/lab/src/main/java/org/locationtech/jtslab/snapround/GeometrySnapRounder.java:147-151 | every segment string's split coordinates become the noder's output for it |
| `SnapRound.GeometrySnapRounder.NodedLinesMap` | modules/lab/src/main/java/org/locationtech/jtslab/snapround/GeometrySnapRounder.java:153-164 | the map filled by the loop is the tag map of the segment strings |
| `SnapRound.GeometrySnapRounder.ExtractTaggedSegmentStrings` | modules/lab/src/main/java/org/locationtech/jtslab/snapround/GeometrySnapRounder.java:166-181 | returns new, distinct segment strings whose points and tags are the extracted fragments of the geometry |
| `SnapRound.GeometrySnapRounder.Round` | modules/lab/src/main/java/org/locationtech/jtslab/snapround/GeometrySnapRounder.java:183-199 | returns the rounded list: snapped coordinates with runs of repeats collapsed, no longer than the input, empty exactly when the input is, with no equal neighbours |

## Left out

- The noder (`MCIndexSnapRounder`, hot-pixel snap rounding) is not part of this model. It is a supplied function from all fragments' points to each fragment's split coordinates. Its promise to insert nodes without reordering is not stated.
- The grid rounding of an ordinate (`PrecisionModel.makePrecise` on a double) is a supplied function. Doubles are modelled as reals, so NaN and floating-point rounding are not modelled. Idempotence of rounding is proved only for a rounding function that is a grid (`IsGrid`).
- `GeometryEditorEx` and `GeometryCoordinateReplacer`, which rebuild the tree in `replaceLines`, are not part of this model. The rebuild is a supplied function of the geometry and the tag map, so the model does not state what shape the rebuilt tree has.
- `Geometry.isValid` and `PolygonCleaner.clean` are supplied functions. That the cleaner always returns a valid geometry is an assumption (`CleanerRepairs`), used only where a lemma says so.
- `NodedSegmentString`'s node list is reduced to one field holding its split coordinates. It starts as the segment string's own points. How the node list derives split coordinates from inserted nodes is not modelled.
- `GeometryFactory` object construction is reduced to the value built.
- NodedLines: the map is keyed by the component's position, not by the line geometry's value equality as in `nodedLinesMap` (GeometrySnapRounder.java:161). When two line components are exactly equal (same class, same coordinates), the source keeps one entry for both, the later line's split coordinates, and the editor looks that entry up for each of them; the model gives each its own entry with its own split coordinates. `NodedLinesMap`, `NodedLinesOfGeometry` and `FragmentTagsDistinct` state the per-position behaviour and do not capture this sharing.
- Coordinates are compared in X and Y, as `CoordinateList` does. M ordinates are not modelled.
