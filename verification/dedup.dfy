/**
 * Segment deduplication: every face loop is walked pairwise, wrap-around pair
 * included, and one segment is emitted per undirected vertex-index pair, the
 * first time that pair is met.
 *
 * The specification is declarative: `LoopEdges` lists the directed index pairs
 * in the order the loops meet them, `IsFirst` says whether a position holds the
 * first pair with its undirected key, and `FirstOccurrences` keeps exactly those
 * positions. `CollectSegments` is the source's nested loop, proved to produce
 * the segments of `FirstOccurrences(LoopEdges(faces))`.
 */
module Dedup {
  import opened SegmentKeys

  /** A directed pair of vertex indices (v1_idx, v2_idx), as a face loop meets it. */
  type Edge = (nat, nat)

  /** A face loop: vertex indices in loop order. */
  type Face = seq<nat>

  /**
   * One exported segment record. Its "key" entry is always computed from the
   * two endpoint positions, so it is a member rather than a stored field.
   */
  datatype Segment = Segment(start: Point, end: Point, origin: string)
  {
    /** The endpoints' point keys, the smaller first, joined by "->". */
    function Key(): (k: string)
      ensures (LexLe(PointKey(start), PointKey(end)) && k == PointKey(start) + "->" + PointKey(end))
           || (LexLe(PointKey(end), PointKey(start)) && k == PointKey(end) + "->" + PointKey(start))
    {
      SegmentKeyFromPointKeys(PointKey(start), PointKey(end))
    }
  }

  /** The provenance tag of every segment this exporter writes. */
  const IMPORT_ORIGIN: string := "import"

  predicate FacesInRange(vertexCount: nat, faces: seq<Face>) {
    forall f, i :: 0 <= f < |faces| && 0 <= i < |faces[f]| ==> faces[f][i] < vertexCount
  }

  predicate EdgesInRange(vertexCount: nat, edges: seq<Edge>) {
    forall j :: 0 <= j < |edges| ==> edges[j].0 < vertexCount && edges[j].1 < vertexCount
  }

  /** The pair at position i of a loop: vertex i and its successor, the last closing on the first. */
  function LoopPair(face: Face, i: nat): (e: Edge)
    requires i < |face|
    ensures e.0 == face[i]
    ensures i + 1 < |face| ==> e.1 == face[i + 1]
    ensures i + 1 == |face| ==> e.1 == face[0]
  {
    (face[i], face[(i + 1) % |face|])
  }

  /** The pairs of one loop, in loop order. */
  function FaceEdges(face: Face): (es: seq<Edge>)
    ensures |es| == |face|
  {
    seq(|face|, i requires 0 <= i < |face| => LoopPair(face, i))
  }

  lemma FaceEdgesPrefix(face: Face, i: nat)
    requires i < |face|
    ensures FaceEdges(face)[..i + 1] == FaceEdges(face)[..i] + [LoopPair(face, i)]
  {
  }

  /** Walking position i of a face extends the walked pairs by that position's pair. */
  lemma WalkedStep(seen: seq<Edge>, face: Face, i: nat)
    requires i < |face|
    ensures seen + FaceEdges(face)[..i + 1] == (seen + FaceEdges(face)[..i]) + [(face[i], face[(i + 1) % |face|])]
  {
    FaceEdgesPrefix(face, i);
    assert LoopPair(face, i) == (face[i], face[(i + 1) % |face|]);
  }

  /** The number of vertex slots over all loops. */
  function TotalLength(faces: seq<Face>): nat {
    if faces == [] then 0 else TotalLength(faces[..|faces| - 1]) + |faces[|faces| - 1]|
  }

  /** The pairs of all loops, face after face: one per vertex slot. */
  function LoopEdges(faces: seq<Face>): (es: seq<Edge>)
    ensures |es| == TotalLength(faces)
  {
    if faces == [] then [] else LoopEdges(faces[..|faces| - 1]) + FaceEdges(faces[|faces| - 1])
  }

  function EdgeKey(e: Edge): (nat, nat) {
    SegmentKey(e.0, e.1)
  }

  /** The undirected keys of a sequence of pairs. */
  function KeysOf(edges: seq<Edge>): set<(nat, nat)> {
    set e | e in edges :: EdgeKey(e)
  }

  /** No earlier position holds a pair with the same undirected key. */
  predicate IsFirst(edges: seq<Edge>, i: nat)
    requires i < |edges|
  {
    forall h :: 0 <= h < i ==> EdgeKey(edges[h]) != EdgeKey(edges[i])
  }

  /** The pairs at first-occurrence positions, in their original order and orientation. */
  function FirstOccurrences(edges: seq<Edge>): (r: seq<Edge>)
    ensures |r| <= |edges|
  {
    if edges == [] then []
    else
      var n := |edges| - 1;
      FirstOccurrences(edges[..n]) + (if IsFirst(edges, n) then [edges[n]] else [])
  }

  /** The first-occurrence positions, ascending. */
  function FirstPositions(edges: seq<Edge>): (r: seq<nat>)
    ensures forall j :: 0 <= j < |r| ==> r[j] < |edges|
  {
    if edges == [] then []
    else
      var n := |edges| - 1;
      FirstPositions(edges[..n]) + (if IsFirst(edges, n) then [n] else [])
  }

  /** Every kept pair is one of the pairs walked. */
  lemma {:induction false} FirstOccurrencesSubset(edges: seq<Edge>, j: nat)
    requires j < |FirstOccurrences(edges)|
    ensures FirstOccurrences(edges)[j] in edges
  {
    var n := |edges| - 1;
    var init := edges[..n];
    if j < |FirstOccurrences(init)| {
      FirstOccurrencesSubset(init, j);
      assert FirstOccurrences(edges)[j] == FirstOccurrences(init)[j];
      assert forall x :: x in init ==> x in edges;
    } else {
      assert FirstOccurrences(edges)[j] == edges[n];
    }
  }

  lemma FirstOccurrencesInRange(vertexCount: nat, edges: seq<Edge>)
    requires EdgesInRange(vertexCount, edges)
    ensures EdgesInRange(vertexCount, FirstOccurrences(edges))
  {
    var out := FirstOccurrences(edges);
    forall j | 0 <= j < |out|
      ensures out[j].0 < vertexCount && out[j].1 < vertexCount
    {
      FirstOccurrencesSubset(edges, j);
      var h :| 0 <= h < |edges| && edges[h] == out[j];
    }
  }

  /** The record the exporter writes for one first-seen pair. */
  function MakeSegment(vertices: seq<Point>, e: Edge): (s: Segment)
    requires e.0 < |vertices| && e.1 < |vertices|
    ensures s.start == vertices[e.0] && s.end == vertices[e.1] && s.origin == "import"
  {
    Segment(vertices[e.0], vertices[e.1], IMPORT_ORIGIN)
  }

  /** The records of a sequence of pairs, one per pair, in order. */
  function SegmentsOf(vertices: seq<Point>, edges: seq<Edge>): (r: seq<Segment>)
    requires EdgesInRange(|vertices|, edges)
    ensures |r| == |edges|
  {
    if edges == [] then []
    else
      var n := |edges| - 1;
      SegmentsOf(vertices, edges[..n]) + [MakeSegment(vertices, edges[n])]
  }

  lemma {:induction false} SegmentsOfAt(vertices: seq<Point>, edges: seq<Edge>, j: nat)
    requires EdgesInRange(|vertices|, edges) && j < |edges|
    ensures SegmentsOf(vertices, edges)[j] == MakeSegment(vertices, edges[j])
  {
    var n := |edges| - 1;
    if j < n {
      SegmentsOfAt(vertices, edges[..n], j);
    }
  }

  /** What the exporter emits for a mesh: one segment per first-seen undirected pair. */
  function Segments(vertices: seq<Point>, faces: seq<Face>): (segs: seq<Segment>)
    requires FacesInRange(|vertices|, faces)
    ensures |segs| == |KeysOf(LoopEdges(faces))|
    ensures forall j :: 0 <= j < |segs| ==> segs[j].origin == "import"
  {
    LoopEdgesInRange(|vertices|, faces);
    FirstOccurrencesInRange(|vertices|, LoopEdges(faces));
    FirstOccurrencesCount(LoopEdges(faces));
    SegmentsOfOrigin(vertices, FirstOccurrences(LoopEdges(faces)));
    SegmentsOf(vertices, FirstOccurrences(LoopEdges(faces)))
  }

  lemma SegmentsOfOrigin(vertices: seq<Point>, edges: seq<Edge>)
    requires EdgesInRange(|vertices|, edges)
    ensures forall j :: 0 <= j < |edges| ==> SegmentsOf(vertices, edges)[j].origin == "import"
  {
    forall j | 0 <= j < |edges|
      ensures SegmentsOf(vertices, edges)[j].origin == "import"
    {
      SegmentsOfAt(vertices, edges, j);
    }
  }

  /** The record of a pair and of its reverse carry the same key. */
  lemma MakeSegmentKeyUndirected(vertices: seq<Point>, e: Edge)
    requires e.0 < |vertices| && e.1 < |vertices|
    ensures MakeSegment(vertices, e).Key() == MakeSegment(vertices, (e.1, e.0)).Key()
  {
    SegmentKeyFromPointKeysSymmetric(PointKey(vertices[e.0]), PointKey(vertices[e.1]));
  }

  // ---------------------------------------------------------------------------
  // Which pairs the loops meet

  /** A pair is met by the loops exactly when it is some face's pair at some position. */
  lemma LoopEdgesMembership(faces: seq<Face>, e: Edge)
    ensures e in LoopEdges(faces)
            <==> exists f, i :: 0 <= f < |faces| && 0 <= i < |faces[f]| && e == LoopPair(faces[f], i)
  {
    if e in LoopEdges(faces) {
      LoopEdgesFrom(faces, e);
    }
    if exists f, i :: 0 <= f < |faces| && 0 <= i < |faces[f]| && e == LoopPair(faces[f], i) {
      var f, i :| 0 <= f < |faces| && 0 <= i < |faces[f]| && e == LoopPair(faces[f], i);
      LoopEdgesAt(faces, f, i);
    }
  }

  /** Every face's pair at every position, wrap-around included, is met. */
  lemma {:induction false} LoopEdgesAt(faces: seq<Face>, f: nat, i: nat)
    requires f < |faces| && i < |faces[f]|
    ensures LoopPair(faces[f], i) in LoopEdges(faces)
  {
    var n := |faces| - 1;
    var init := faces[..n];
    if f < n {
      assert init[f] == faces[f];
      LoopEdgesAt(init, f, i);
    } else {
      assert FaceEdges(faces[n])[i] == LoopPair(faces[f], i);
    }
  }

  /** Only faces' pairs are met. */
  lemma {:induction false} LoopEdgesFrom(faces: seq<Face>, e: Edge)
    requires e in LoopEdges(faces)
    ensures exists f, i :: 0 <= f < |faces| && 0 <= i < |faces[f]| && e == LoopPair(faces[f], i)
  {
    var n := |faces| - 1;
    var init := faces[..n];
    if e in LoopEdges(init) {
      LoopEdgesFrom(init, e);
      var f, i :| 0 <= f < |init| && 0 <= i < |init[f]| && e == LoopPair(init[f], i);
      assert faces[f] == init[f];
    } else {
      assert e in FaceEdges(faces[n]);
      var i :| 0 <= i < |faces[n]| && FaceEdges(faces[n])[i] == e;
      assert e == LoopPair(faces[n], i);
    }
  }

  lemma LoopEdgesInRange(vertexCount: nat, faces: seq<Face>)
    requires FacesInRange(vertexCount, faces)
    ensures EdgesInRange(vertexCount, LoopEdges(faces))
  {
    var edges := LoopEdges(faces);
    forall j | 0 <= j < |edges|
      ensures edges[j].0 < vertexCount && edges[j].1 < vertexCount
    {
      LoopEdgesMembership(faces, edges[j]);
    }
  }

  /** Walking one more face appends that face's pairs. */
  lemma LoopEdgesAppend(faces: seq<Face>, face: Face)
    ensures LoopEdges(faces + [face]) == LoopEdges(faces) + FaceEdges(face)
  {
    assert (faces + [face])[..|faces|] == faces;
  }

  /** A face with no vertices contributes no pair. */
  lemma EmptyFaceContributesNothing(faces: seq<Face>)
    ensures LoopEdges(faces + [[]]) == LoopEdges(faces)
  {
    LoopEdgesAppend(faces, []);
  }

  // ---------------------------------------------------------------------------
  // Properties of the first occurrences

  lemma KeysOfAppend(edges: seq<Edge>, e: Edge)
    ensures KeysOf(edges + [e]) == KeysOf(edges) + {EdgeKey(e)}
  {
    assert forall x :: x in edges + [e] <==> x in edges || x == e;
  }

  /** Position |edges| of edges + [e] is a first occurrence exactly when e's key is new. */
  lemma IsFirstLast(edges: seq<Edge>, e: Edge)
    ensures IsFirst(edges + [e], |edges|) <==> EdgeKey(e) !in KeysOf(edges)
  {
    var s := edges + [e];
    if !IsFirst(s, |edges|) {
      var h :| 0 <= h < |edges| && EdgeKey(s[h]) == EdgeKey(e);
      assert s[h] == edges[h];
    }
    if EdgeKey(e) in KeysOf(edges) {
      var x :| x in edges && EdgeKey(x) == EdgeKey(e);
      var h :| 0 <= h < |edges| && edges[h] == x;
      assert s[h] == x;
    }
  }

  /** One step of the loop: the new pair is kept exactly when its key was not seen. */
  lemma FirstOccurrencesAppend(edges: seq<Edge>, e: Edge)
    ensures FirstOccurrences(edges + [e])
            == FirstOccurrences(edges) + (if EdgeKey(e) in KeysOf(edges) then [] else [e])
    ensures KeysOf(edges + [e]) == KeysOf(edges) + {EdgeKey(e)}
  {
    assert (edges + [e])[..|edges|] == edges;
    IsFirstLast(edges, e);
    KeysOfAppend(edges, e);
  }

  /** Every key that is met is kept: the kept pairs have the same keys as all the pairs. */
  lemma {:induction false} FirstOccurrencesKeys(edges: seq<Edge>)
    ensures KeysOf(FirstOccurrences(edges)) == KeysOf(edges)
  {
    if edges != [] {
      var n := |edges| - 1;
      var init, e := edges[..n], edges[n];
      assert edges == init + [e];
      FirstOccurrencesKeys(init);
      FirstOccurrencesAppend(init, e);
      if EdgeKey(e) !in KeysOf(init) {
        KeysOfAppend(FirstOccurrences(init), e);
      }
    }
  }

  predicate DistinctKeys(edges: seq<Edge>) {
    forall j, k :: 0 <= j < k < |edges| ==> EdgeKey(edges[j]) != EdgeKey(edges[k])
  }

  /** No undirected pair is kept twice. */
  lemma {:induction false} FirstOccurrencesDistinct(edges: seq<Edge>)
    ensures DistinctKeys(FirstOccurrences(edges))
  {
    if edges != [] {
      var n := |edges| - 1;
      var init, e := edges[..n], edges[n];
      assert edges == init + [e];
      FirstOccurrencesDistinct(init);
      FirstOccurrencesKeys(init);
      FirstOccurrencesAppend(init, e);
      var prev := FirstOccurrences(init);
      if EdgeKey(e) !in KeysOf(init) {
        forall j | 0 <= j < |prev|
          ensures EdgeKey(prev[j]) != EdgeKey(e)
        {
          assert prev[j] in prev;
        }
      }
    }
  }

  /** A sequence of pairs with distinct keys has as many keys as pairs. */
  lemma {:induction false} DistinctKeysCount(edges: seq<Edge>)
    requires DistinctKeys(edges)
    ensures |KeysOf(edges)| == |edges|
  {
    if edges != [] {
      var n := |edges| - 1;
      var init, e := edges[..n], edges[n];
      assert edges == init + [e];
      DistinctKeysCount(init);
      KeysOfAppend(init, e);
      forall x | x in init
        ensures EdgeKey(x) != EdgeKey(e)
      {
        var h :| 0 <= h < n && init[h] == x;
        assert edges[h] == x;
      }
    }
  }

  /** As many segments as distinct undirected pairs among the loops' pairs. */
  lemma FirstOccurrencesCount(edges: seq<Edge>)
    ensures |FirstOccurrences(edges)| == |KeysOf(edges)|
  {
    FirstOccurrencesDistinct(edges);
    DistinctKeysCount(FirstOccurrences(edges));
    FirstOccurrencesKeys(edges);
  }

  lemma IsFirstPrefix(edges: seq<Edge>, n: nat, i: nat)
    requires i < n <= |edges|
    ensures IsFirst(edges[..n], i) == IsFirst(edges, i)
  {
    assert forall h :: 0 <= h <= i ==> edges[..n][h] == edges[h];
  }

  /**
   * Order and orientation: the kept pairs are the pairs at the first-occurrence
   * positions, taken in ascending position order and as met (v1_idx, v2_idx);
   * every first-occurrence position is among them.
   */
  lemma {:induction false} FirstOccurrencesOrder(edges: seq<Edge>)
    ensures |FirstPositions(edges)| == |FirstOccurrences(edges)|
    ensures forall j :: 0 <= j < |FirstPositions(edges)| ==>
              IsFirst(edges, FirstPositions(edges)[j])
              && FirstOccurrences(edges)[j] == edges[FirstPositions(edges)[j]]
    ensures forall j, k :: 0 <= j < k < |FirstPositions(edges)| ==>
              FirstPositions(edges)[j] < FirstPositions(edges)[k]
    ensures forall i :: 0 <= i < |edges| && IsFirst(edges, i) ==> i in FirstPositions(edges)
  {
    if edges != [] {
      var n := |edges| - 1;
      var init := edges[..n];
      FirstOccurrencesOrder(init);
      var pos, pos0 := FirstPositions(edges), FirstPositions(init);
      var out, out0 := FirstOccurrences(edges), FirstOccurrences(init);
      forall j | 0 <= j < |pos0|
        ensures IsFirst(edges, pos[j]) && out[j] == edges[pos[j]]
      {
        IsFirstPrefix(edges, n, pos0[j]);
      }
      forall i | 0 <= i < n && IsFirst(edges, i)
        ensures i in pos
      {
        IsFirstPrefix(edges, n, i);
        assert i in pos0;
      }
    }
  }

  // ---------------------------------------------------------------------------
  // The emitted segments, stated over faces

  /** Every loop pair, wrap-around included, is represented by exactly one kept pair. */
  lemma EveryLoopPairCovered(faces: seq<Face>, f: nat, i: nat)
    requires f < |faces| && i < |faces[f]|
    ensures var out := FirstOccurrences(LoopEdges(faces));
            var key := EdgeKey(LoopPair(faces[f], i));
            (exists j :: 0 <= j < |out| && EdgeKey(out[j]) == key)
            && (forall j, k ::
                  (0 <= j < |out| && 0 <= k < |out| && EdgeKey(out[j]) == key && EdgeKey(out[k]) == key)
                  ==> j == k)
  {
    var edges := LoopEdges(faces);
    var out := FirstOccurrences(edges);
    var e := LoopPair(faces[f], i);
    LoopEdgesMembership(faces, e);
    FirstOccurrencesKeys(edges);
    FirstOccurrencesDistinct(edges);
    assert EdgeKey(e) in KeysOf(out);
    var x :| x in out && EdgeKey(x) == EdgeKey(e);
    var j :| 0 <= j < |out| && out[j] == x;
  }

  /** Every kept pair is a pair some face loop meets. */
  lemma EveryKeptPairIsLoopPair(faces: seq<Face>, j: nat)
    requires j < |FirstOccurrences(LoopEdges(faces))|
    ensures exists f, i :: 0 <= f < |faces| && 0 <= i < |faces[f]|
              && FirstOccurrences(LoopEdges(faces))[j] == LoopPair(faces[f], i)
  {
    var out := FirstOccurrences(LoopEdges(faces));
    FirstOccurrencesSubset(LoopEdges(faces), j);
    LoopEdgesMembership(faces, out[j]);
  }

  /**
   * Each segment carries the positions of its first-seen pair's vertices, the
   * "import" tag, and a key that names its endpoint positions as an unordered
   * pair; and the segments number the distinct undirected pairs.
   */
  lemma SegmentsShape(vertices: seq<Point>, faces: seq<Face>)
    requires FacesInRange(|vertices|, faces)
    ensures var segs, out := Segments(vertices, faces), FirstOccurrences(LoopEdges(faces));
            |segs| == |out| == |KeysOf(LoopEdges(faces))|
            && EdgesInRange(|vertices|, out)
            && forall j :: 0 <= j < |segs| ==>
                 segs[j].start == vertices[out[j].0] && segs[j].end == vertices[out[j].1]
                 && segs[j].origin == "import"
  {
    FirstOccurrencesCount(LoopEdges(faces));
    LoopEdgesInRange(|vertices|, faces);
    FirstOccurrencesInRange(|vertices|, LoopEdges(faces));
    forall j | 0 <= j < |FirstOccurrences(LoopEdges(faces))|
      ensures Segments(vertices, faces)[j] == MakeSegment(vertices, FirstOccurrences(LoopEdges(faces))[j])
    {
      SegmentsOfAt(vertices, FirstOccurrences(LoopEdges(faces)), j);
    }
  }

  /**
   * Deduplication is by index, not by key: two segments share a key string
   * exactly when their endpoint positions, taken on the 10^-5 grid of this
   * model, coincide as an unordered pair, which different index pairs can do.
   * (With float positions, endpoints that merely round alike share a key too.)
   */
  lemma SameKeyIffSameEndpoints(vertices: seq<Point>, faces: seq<Face>, j: nat, k: nat)
    requires FacesInRange(|vertices|, faces)
    requires j < |Segments(vertices, faces)| && k < |Segments(vertices, faces)|
    ensures var segs := Segments(vertices, faces);
            segs[j].Key() == segs[k].Key()
            <==> (segs[j].start == segs[k].start && segs[j].end == segs[k].end)
                 || (segs[j].start == segs[k].end && segs[j].end == segs[k].start)
  {
    var segs := Segments(vertices, faces);
    SegmentsShape(vertices, faces);
    SegmentKeyIdentifiesEndpoints(segs[j].start, segs[j].end, segs[k].start, segs[k].end);
  }

  // ---------------------------------------------------------------------------
  // The loop of the exporter

  /**
   * What the loop keeps true after walking the pairs `walked`: the seen keys
   * are their keys and the segments are those of their first occurrences.
   */
  predicate Processed(vertices: seq<Point>, walked: seq<Edge>, segments: seq<Segment>,
                      segmentKeys: set<(nat, nat)>)
    ensures Processed(vertices, walked, segments, segmentKeys) ==> |segments| == |segmentKeys|
  {
    FirstOccurrencesCount(walked);
    && EdgesInRange(|vertices|, walked)
    && EdgesInRange(|vertices|, FirstOccurrences(walked))
    && segmentKeys == KeysOf(walked)
    && segments == SegmentsOf(vertices, FirstOccurrences(walked))
  }

  /** A pair whose key was seen changes neither the segments nor the seen keys. */
  lemma ProcessedSeen(vertices: seq<Point>, walked: seq<Edge>, segments: seq<Segment>,
                      segmentKeys: set<(nat, nat)>, e: Edge)
    requires Processed(vertices, walked, segments, segmentKeys)
    requires e.0 < |vertices| && e.1 < |vertices| && EdgeKey(e) in segmentKeys
    ensures Processed(vertices, walked + [e], segments, segmentKeys)
  {
    InRangeAppend(|vertices|, walked, e);
    FirstOccurrencesAppend(walked, e);
    assert FirstOccurrences(walked + [e]) == FirstOccurrences(walked);
    assert KeysOf(walked + [e]) == segmentKeys;
  }

  /** A pair with a new key adds its key and appends its segment. */
  lemma ProcessedNew(vertices: seq<Point>, walked: seq<Edge>, segments: seq<Segment>,
                     segmentKeys: set<(nat, nat)>, e: Edge)
    requires Processed(vertices, walked, segments, segmentKeys)
    requires e.0 < |vertices| && e.1 < |vertices| && EdgeKey(e) !in segmentKeys
    ensures Processed(vertices, walked + [e], segments + [MakeSegment(vertices, e)], segmentKeys + {EdgeKey(e)})
  {
    InRangeAppend(|vertices|, walked, e);
    FirstOccurrencesAppend(walked, e);
    SegmentsOfSnoc(vertices, FirstOccurrences(walked), e);
  }

  lemma SegmentsOfSnoc(vertices: seq<Point>, edges: seq<Edge>, e: Edge)
    requires EdgesInRange(|vertices|, edges) && e.0 < |vertices| && e.1 < |vertices|
    ensures EdgesInRange(|vertices|, edges + [e])
    ensures SegmentsOf(vertices, edges + [e]) == SegmentsOf(vertices, edges) + [MakeSegment(vertices, e)]
  {
    InRangeAppend(|vertices|, edges, e);
    assert (edges + [e])[..|edges|] == edges;
  }

  /**
   * The exporter's nested loop over the face loops, with the set of seen keys
   * (`segment_keys`) and the list of segments (`segments`) it grows. The inner
   * loop, over one face, is `AddFaceSegments`.
   */
  method CollectSegments(vertices: seq<Point>, faces: seq<Face>) returns (segments: seq<Segment>)
    requires FacesInRange(|vertices|, faces)
    ensures segments == Segments(vertices, faces)
    ensures |segments| == |KeysOf(LoopEdges(faces))|
  {
    segments := [];
    var segmentKeys: set<(nat, nat)> := {};
    ghost var seen: seq<Edge> := [];
    for f := 0 to |faces|
      invariant seen == LoopEdges(faces[..f])
      invariant Processed(vertices, seen, segments, segmentKeys)
      invariant |segments| == |segmentKeys|
    {
      var face := faces[f];
      assert forall i :: 0 <= i < |face| ==> face[i] == faces[f][i];
      segments, segmentKeys := AddFaceSegments(vertices, face, segments, segmentKeys, seen);
      assert faces[..f + 1] == faces[..f] + [face];
      LoopEdgesAppend(faces[..f], face);
      seen := seen + FaceEdges(face);
      FirstOccurrencesCount(seen);
    }
    assert faces[..|faces|] == faces;
  }

  /**
   * One pass of the inner loop: walks one face's pairs, wrap-around included,
   * adding each new key to the seen keys and appending its segment.
   */
  method AddFaceSegments(vertices: seq<Point>, face: Face, segments: seq<Segment>,
                         segmentKeys: set<(nat, nat)>, ghost seen: seq<Edge>)
      returns (segments': seq<Segment>, segmentKeys': set<(nat, nat)>)
    requires forall i :: 0 <= i < |face| ==> face[i] < |vertices|
    requires Processed(vertices, seen, segments, segmentKeys)
    ensures Processed(vertices, seen + FaceEdges(face), segments', segmentKeys')
  {
    segments', segmentKeys' := segments, segmentKeys;
    ghost var walked := seen;
    for i := 0 to |face|
      invariant walked == seen + FaceEdges(face)[..i]
      invariant Processed(vertices, walked, segments', segmentKeys')
    {
      var v1 := face[i];
      var v2 := face[(i + 1) % |face|];
      segments', segmentKeys' := AddPair(vertices, v1, v2, segments', segmentKeys', walked);
      WalkedStep(seen, face, i);
      walked := walked + [(v1, v2)];
    }
    assert FaceEdges(face)[..|face|] == FaceEdges(face);
  }

  /**
   * The body of the inner loop for the pair (v1_idx, v2_idx): a key not seen
   * before is added to the seen keys and its segment appended; a seen key
   * changes nothing.
   */
  method AddPair(vertices: seq<Point>, v1: nat, v2: nat, segments: seq<Segment>,
                 segmentKeys: set<(nat, nat)>, ghost walked: seq<Edge>)
      returns (segments': seq<Segment>, segmentKeys': set<(nat, nat)>)
    requires v1 < |vertices| && v2 < |vertices|
    requires Processed(vertices, walked, segments, segmentKeys)
    ensures Processed(vertices, walked + [(v1, v2)], segments', segmentKeys')
    ensures SegmentKey(v1, v2) in segmentKeys ==> segments' == segments && segmentKeys' == segmentKeys
    ensures SegmentKey(v1, v2) !in segmentKeys ==>
              segments' == segments + [MakeSegment(vertices, (v1, v2))]
              && segmentKeys' == segmentKeys + {SegmentKey(v1, v2)}
  {
    var key := SegmentKey(v1, v2);
    if key in segmentKeys {
      segments', segmentKeys' := segments, segmentKeys;
      ProcessedSeen(vertices, walked, segments, segmentKeys, (v1, v2));
    } else {
      segmentKeys' := segmentKeys + {key};
      segments' := segments + [MakeSegment(vertices, (v1, v2))];
      ProcessedNew(vertices, walked, segments, segmentKeys, (v1, v2));
    }
  }

  lemma InRangeAppend(vertexCount: nat, edges: seq<Edge>, e: Edge)
    requires EdgesInRange(vertexCount, edges) && e.0 < vertexCount && e.1 < vertexCount
    ensures EdgesInRange(vertexCount, edges + [e])
  {
  }
}
