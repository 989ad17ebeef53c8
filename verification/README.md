# SpaceHarmony exporter: segment deduplication

A Dafny model of the export operator in the SpaceHarmony Blender exporter
(`spaceharmony_exporter.py`). When the operator runs:

- It cancels with an error report unless the active object is a mesh.
- Otherwise it walks every triangulated face loop pairwise. The pair from the
  last vertex back to the first is included.
- It keys each vertex-index pair by its sorted index tuple, and keeps a set of
  the keys seen so far.
- The first time a key is met, it appends a segment record. The record holds
  the two endpoint positions in the orientation met, a string key and the
  origin tag `"import"`. The string key is the two endpoints' point keys,
  sorted and joined by `"->"`. A point key is three fixed-point coordinates
  joined by `"|"`.
- It assembles the export document around the segment list. Its four reserved
  collections are empty, and it reports how many segments it exported.

Modules:

- `CoordFormat` (`format.dfy`): `format_coord`, the five-decimal coordinate
  rendering. A parser for the rendering proves that distinct coordinates on
  the model's 10^-5 grid never render alike.
- `SegmentKeys` (`keys.dfy`): `get_segment_key`, `point_key_from_coords`,
  `segment_key_from_point_keys`, and Python's string order.
- `Dedup` (`dedup.dfy`): a declarative specification of what the loop emits,
  its properties, and the loop itself.
  - `LoopEdges`: the pairs in walking order.
  - `FirstOccurrences`: the pairs whose key no earlier pair has.
  - `Segments`: their records.
  - The loop is `CollectSegments` (outer loop), `AddFaceSegments` (inner loop)
    and `AddPair` (loop body). Each is proved to keep the `Processed`
    invariant: the seen keys are the keys of all pairs walked, and the segments
    are the records of their first occurrences.
- `Exporter` (`exporter.dfy`): the `execute` operator (the cancel guard, the
  loop, the document).
- `Scenarios` (`scenarios.dfy`): two worked meshes. One has a shared edge that
  is emitted once. One has coincident vertices whose segments stay distinct by
  index but share a key string.

Coordinates are integers that count units of 10^-5. A segment's string key is
a member, `Segment.Key()`, computed from its endpoints. The source always
computes that entry from the endpoints, so the exported record is the same.

## Behaviour worth noting

- Deduplication is by vertex index only. A triangle with two vertices at the
  same position gives three segments, and two of them carry the same key
  string (`Scenarios.CoincidentVerticesKeepIndexEdges`).
- Faces with fewer than three vertices are not rejected. An empty face
  contributes nothing. A one-vertex face gives the pair (v, v).
- The coordinates are emitted raw, with no bounding-box normalisation.
- `manualFaces` is always empty.

## Model

| member | source | states |
|---|---|---|
| CoordFormat.FormatCoord | spaceharmony_exporter.py:46-47 | the rendering has a '.' followed by exactly five digits, a leading '-' exactly for negative values, and contains neither '|' nor '>' |
| CoordFormat.FormatCoordRoundTrip | spaceharmony_exporter.py:46-47 | parsing the rendering gives back the coordinate |
| CoordFormat.FormatCoordInjective | spaceharmony_exporter.py:46-47 | two grid coordinates render alike exactly when they are equal |
| CoordFormat.NatDigitsNoLeadingZero | spaceharmony_exporter.py:47 | the integer part of a rendering never starts with a redundant '0' |
| SegmentKeys.SegmentKey | spaceharmony_exporter.py:43-44 | the key is the two indices in ascending order |
| SegmentKeys.SegmentKeyUndirected | spaceharmony_exporter.py:43-44 | two index pairs share a key exactly when they are the same unordered pair (so the key is symmetric) |
| SegmentKeys.PointKey | spaceharmony_exporter.py:49-50 | a point key never contains '>', so it cannot be confused with the "->" separator |
| SegmentKeys.PointKeyInjective | spaceharmony_exporter.py:49-50 | two grid points get the same key exactly when they are the same position |
| SegmentKeys.LexLe | spaceharmony_exporter.py:53 | the order `sorted` uses on strings: by code point, a string before every string it is a prefix of, and reflexive |
| SegmentKeys.LexLeTotal | spaceharmony_exporter.py:52-53 | the string order used by `sorted` is total |
| SegmentKeys.LexLeAntisymmetric | spaceharmony_exporter.py:52-53 | two strings each ordered before the other are equal |
| SegmentKeys.SegmentKeyFromPointKeys | spaceharmony_exporter.py:52-53 | the result is the smaller key, then "->", then the larger key |
| SegmentKeys.SegmentKeyFromPointKeysSymmetric | spaceharmony_exporter.py:52-53 | the segment key does not depend on the order of its arguments |
| SegmentKeys.SegmentKeyFromPointKeysInjective | spaceharmony_exporter.py:52-53 | for point keys, two segment keys are equal exactly when they join the same unordered pair of point keys |
| SegmentKeys.SegmentKeyIdentifiesEndpoints | spaceharmony_exporter.py:49-53 | two segment keys are equal exactly when the grid endpoint positions coincide as an unordered pair |
| Dedup.Segment.Key | spaceharmony_exporter.py:67-73 | a segment's key is its endpoints' point keys, the smaller under string order first, joined by "->" |
| Dedup.LoopPair | spaceharmony_exporter.py:56-58 | the pair at position i is face[i] and its successor; the last position closes the loop on face[0] |
| Dedup.LoopEdges | spaceharmony_exporter.py:55-58 | the loops walk one pair per vertex slot over all faces |
| Dedup.FaceEdges | spaceharmony_exporter.py:56-58 | a loop of n vertices yields exactly n pairs |
| Dedup.LoopEdgesMembership | spaceharmony_exporter.py:55-58 | a pair is walked exactly when it is (face[i], face[(i + 1) % len(face)]) for some face and position |
| Dedup.LoopEdgesAt | spaceharmony_exporter.py:55-58 | every face's pair at every position, wrap-around included, is walked |
| Dedup.LoopEdgesFrom | spaceharmony_exporter.py:55-58 | only face loop pairs are walked |
| Dedup.LoopEdgesInRange | spaceharmony_exporter.py:57-65 | when every face index is a valid vertex index, so is every walked pair's |
| Dedup.LoopEdgesAppend | spaceharmony_exporter.py:55-58 | walking one more face appends exactly that face's pairs |
| Dedup.EmptyFaceContributesNothing | spaceharmony_exporter.py:56-58 | an empty face loop adds no pair |
| Dedup.FirstOccurrences | spaceharmony_exporter.py:60-62 | never keeps more pairs than were walked |
| Dedup.FirstOccurrencesSubset | spaceharmony_exporter.py:60-62 | every kept pair is a walked pair |
| Dedup.FirstOccurrencesInRange | spaceharmony_exporter.py:64-65 | kept pairs index valid vertices whenever the walked pairs do |
| Dedup.KeysOfAppend | spaceharmony_exporter.py:60-62 | walking a pair adds exactly its key to the keys seen |
| Dedup.IsFirstLast | spaceharmony_exporter.py:60-61 | the newest pair is a first occurrence exactly when its key is not among the keys seen |
| Dedup.FirstOccurrencesAppend | spaceharmony_exporter.py:60-63 | one step: a new key appends its pair, a seen key appends nothing; the key set grows by the pair's key |
| Dedup.FirstOccurrencesKeys | spaceharmony_exporter.py:60-62 | the kept pairs have exactly the keys of all walked pairs |
| Dedup.FirstOccurrencesDistinct | spaceharmony_exporter.py:60-62 | no two kept pairs share an undirected key |
| Dedup.DistinctKeysCount | spaceharmony_exporter.py:60-62 | pairs with distinct keys have as many keys as pairs |
| Dedup.FirstOccurrencesCount | spaceharmony_exporter.py:60-75 | the number of kept pairs equals the number of distinct keys walked |
| Dedup.FirstOccurrencesOrder | spaceharmony_exporter.py:55-71 | kept pairs are the first-occurrence positions' pairs, in ascending position order and in the orientation met, and every first-occurrence position is kept |
| Dedup.EveryLoopPairCovered | spaceharmony_exporter.py:55-62 | every face loop pair, wrap-around included, has exactly one kept pair with its key |
| Dedup.EveryKeptPairIsLoopPair | spaceharmony_exporter.py:55-62 | every kept pair is some face loop's pair |
| Dedup.MakeSegment | spaceharmony_exporter.py:64-75 | the record of pair (v1_idx, v2_idx) has start vertices[v1_idx], end vertices[v2_idx] and origin "import" |
| Dedup.MakeSegmentKeyUndirected | spaceharmony_exporter.py:64-73 | the record of a pair and of its reverse carry the same key |
| Dedup.Segments | spaceharmony_exporter.py:55-75 | what the loop emits: as many segments as distinct undirected index pairs walked, every one with origin "import" |
| Dedup.SegmentsOfOrigin | spaceharmony_exporter.py:74 | every record of a kept pair has origin "import" |
| Dedup.SegmentsOf | spaceharmony_exporter.py:64-75 | one record per kept pair |
| Dedup.SegmentsOfAt | spaceharmony_exporter.py:64-75 | the record at position j is the record of the kept pair at position j |
| Dedup.SegmentsShape | spaceharmony_exporter.py:64-75 | segment j has the positions of kept pair j's vertices in the orientation met and origin "import"; there are as many segments as distinct keys |
| Dedup.SameKeyIffSameEndpoints | spaceharmony_exporter.py:67-73 | two emitted segments share a key string exactly when their grid endpoint positions coincide as an unordered pair |
| Dedup.Processed | spaceharmony_exporter.py:60-75 | the loop invariant: the seen keys are the keys of all pairs walked, the segments are the records of their first occurrences, and so len(segments) == len(segment_keys) |
| Dedup.ProcessedSeen | spaceharmony_exporter.py:60-61 | a pair whose key was seen leaves the segments and the key set unchanged and keeps the loop invariant |
| Dedup.ProcessedNew | spaceharmony_exporter.py:60-75 | a pair with a new key adds its key and appends its record, keeping the loop invariant |
| Dedup.SegmentsOfSnoc | spaceharmony_exporter.py:70-75 | appending a kept pair appends exactly its record |
| Dedup.CollectSegments | spaceharmony_exporter.py:40-75 | the nested loop yields exactly the records of the first occurrences, as many as distinct keys |
| Dedup.AddFaceSegments | spaceharmony_exporter.py:56-75 | the inner loop keeps the invariant over one face's pairs, wrap-around included |
| Dedup.AddPair | spaceharmony_exporter.py:57-75 | a seen key changes nothing; a new key is added and its record appended; the invariant holds after the pair |
| Exporter.IsMeshObject | spaceharmony_exporter.py:29-30 | a mesh object requires an active object; an active object of another type is not one |
| Exporter.DefaultSettings | spaceharmony_exporter.py:92-100 | one grid division; points, lines and closed forms shown; curved lines, curved surfaces, auto-close and regular highlight off |
| Exporter.AssembleDocument | spaceharmony_exporter.py:86-108 | the document holds the given segments, version "1.0.0", the given timestamp, source "blender-exporter-v2", the default settings and four empty reserved collections |
| Exporter.Execute | spaceharmony_exporter.py:28-114 | cancels with the error message exactly when there is no active mesh object; otherwise the document holds the emitted segments, fixed meta and settings, and empty reserved collections; the reported count is the number of segments, which is the number of distinct keys; every segment has origin "import" |
| Scenarios.SharedEdgeEmittedOnce | spaceharmony_exporter.py:55-75 | two triangles sharing an edge give five segments; the shared edge appears once, in the orientation first met |
| Scenarios.SharedEdgeWalk | spaceharmony_exporter.py:60-62 | the second sighting of the shared edge, reversed, is the only pair dropped |
| Scenarios.CoincidentVerticesKeepIndexEdges | spaceharmony_exporter.py:60-75 | a triangle with two coincident vertices keeps all three segments; two of them share a key string and the third's key differs |
| Scenarios.OneTriangle | spaceharmony_exporter.py:56-58 | a triangle's loop walks its three pairs, the last closing the loop |
| Scenarios.TwoTriangles | spaceharmony_exporter.py:55-58 | two triangles are walked face after face |
| Scenarios.Walk3 | spaceharmony_exporter.py:60-62 | a triangle with three distinct vertices keeps all three pairs |
| Scenarios.NotSeen | spaceharmony_exporter.py:60-63 | a pair whose key no earlier pair has is kept |
| Scenarios.Seen | spaceharmony_exporter.py:60-61 | a pair whose key an earlier pair has is dropped |

## Left out

- Blender calls: the active object lookup, `to_mesh`, `calc_loop_triangles`,
  and reading `vertices` and `loop_triangles` (lines 29-38). The mesh arrives
  as plain vertex and face sequences. `Execute` requires every face index to be
  a valid vertex index, which Blender's meshes guarantee.
- Floating point: coordinates are integers in units of 10^-5. Float rounding
  in `f"{val:.5f}"` and the rendering of negative zero as "-0.00000" are not
  modelled.
- PointKeyInjective, SegmentKeyIdentifiesEndpoints, SameKeyIffSameEndpoints,
  FormatCoordInjective: the "same key exactly when same position" equivalence
  holds for positions on the model's 10^-5 grid. In the source, positions are
  floats that `format_coord` rounds, so distinct positions that round alike
  (x = 0.000001 and x = 0.000002) share a point key, and segments with
  different emitted endpoints can share a key.
- `datetime.now().isoformat()`: the timestamp is a parameter of `Execute`.
- `json.dump`, the file write and a failure to open the file (lines 110-111).
- The nested `symmetry` settings block (lines 77-84, 101). Only the eight
  top-level settings are modelled.
- The text of the success report (line 113). Only the exported count is
  modelled.
- Operator and menu registration, `bl_info` and the file-name filter (lines
  1-26, 116-128).
