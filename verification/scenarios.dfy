/**
 * Two small meshes worked through the segment pass: a shared edge that
 * collapses, and a triangle with two coincident vertices whose segments stay
 * distinct by index while two of them share a key string.
 */
module Scenarios {
  import opened SegmentKeys
  import opened Dedup

  /**
   * Two triangles a-b-c and c-b-d share the edge b-c (met as (b, c) and then
   * as (c, b)): five segments, the shared one once, in the orientation first met.
   */
  lemma SharedEdgeEmittedOnce(vertices: seq<Point>, a: nat, b: nat, c: nat, d: nat)
    requires a < |vertices| && b < |vertices| && c < |vertices| && d < |vertices|
    requires a != b && a != c && a != d && b != c && b != d && c != d
    ensures FacesInRange(|vertices|, [[a, b, c], [c, b, d]])
    ensures FirstOccurrences(LoopEdges([[a, b, c], [c, b, d]])) == [(a, b), (b, c), (c, a), (b, d), (d, c)]
    ensures |Segments(vertices, [[a, b, c], [c, b, d]])| == 5
  {
    TwoTrianglesInRange(|vertices|, a, b, c, d);
    TwoTriangles(a, b, c, c, b, d);
    SharedEdgeWalk(a, b, c, d);
  }

  lemma TwoTrianglesInRange(vertexCount: nat, a: nat, b: nat, c: nat, d: nat)
    requires a < vertexCount && b < vertexCount && c < vertexCount && d < vertexCount
    ensures FacesInRange(vertexCount, [[a, b, c], [c, b, d]])
  {
    var faces := [[a, b, c], [c, b, d]];
    forall f, i | 0 <= f < |faces| && 0 <= i < |faces[f]|
      ensures faces[f][i] < vertexCount
    {
      assert faces[f] == [a, b, c] || faces[f] == [c, b, d];
    }
  }

  /** The walk of the two triangles' pairs drops only the second sighting of b-c. */
  lemma SharedEdgeWalk(a: nat, b: nat, c: nat, d: nat)
    requires a != b && a != c && a != d && b != c && b != d && c != d
    ensures FirstOccurrences([(a, b), (b, c), (c, a), (c, b), (b, d), (d, c)])
            == [(a, b), (b, c), (c, a), (b, d), (d, c)]
  {
    var e3 := [(a, b), (b, c), (c, a)];
    Walk3(a, b, c);
    var e4 := e3 + [(c, b)];
    var e5 := e4 + [(b, d)];
    Seen(e3, (c, b), 1);
    NotSeen(e4, (b, d));
    NotSeen(e5, (d, c));
    assert e5 + [(d, c)] == [(a, b), (b, c), (c, a), (c, b), (b, d), (d, c)];
    assert e3 + [(b, d)] + [(d, c)] == [(a, b), (b, c), (c, a), (b, d), (d, c)];
  }

  /**
   * A triangle i-j-k whose vertices i and j sit at the same position:
   * deduplication is by index, so all three pairs are kept, and the two that
   * join the shared position to k's carry the same key string.
   */
  lemma CoincidentVerticesKeepIndexEdges(vertices: seq<Point>, i: nat, j: nat, k: nat)
    requires i < |vertices| && j < |vertices| && k < |vertices|
    requires i != j && i != k && j != k
    requires vertices[i] == vertices[j] != vertices[k]
    ensures FacesInRange(|vertices|, [[i, j, k]])
    ensures var segs := Segments(vertices, [[i, j, k]]);
            |segs| == 3 && segs[1].Key() == segs[2].Key() && segs[0].Key() != segs[1].Key()
  {
    OneTriangle(i, j, k);
    var e3 := [(i, j), (j, k), (k, i)];
    Walk3(i, j, k);
    var segs := Segments(vertices, [[i, j, k]]);
    assert segs == SegmentsOf(vertices, e3);
    SegmentsOfAt(vertices, e3, 0);
    SegmentsOfAt(vertices, e3, 1);
    SegmentsOfAt(vertices, e3, 2);
    var p, q := vertices[i], vertices[k];
    SegmentKeyFromPointKeysSymmetric(PointKey(p), PointKey(q));
    SegmentKeyIdentifiesEndpoints(p, p, p, q);
  }

  /** A single triangle's loop meets its three pairs, the last closing the loop. */
  lemma OneTriangle(x: nat, y: nat, z: nat)
    ensures LoopEdges([[x, y, z]]) == [(x, y), (y, z), (z, x)]
  {
    LoopEdgesAppend([], [x, y, z]);
    assert [] + [[x, y, z]] == [[x, y, z]];
  }

  /** Two triangles' loops meet the first triangle's pairs, then the second's. */
  lemma TwoTriangles(x: nat, y: nat, z: nat, u: nat, v: nat, w: nat)
    ensures LoopEdges([[x, y, z], [u, v, w]]) == [(x, y), (y, z), (z, x), (u, v), (v, w), (w, u)]
  {
    OneTriangle(x, y, z);
    LoopEdgesAppend([[x, y, z]], [u, v, w]);
    assert [[x, y, z]] + [[u, v, w]] == [[x, y, z], [u, v, w]];
  }

  /** The pairs of a triangle with three distinct vertices are all kept. */
  lemma Walk3(x: nat, y: nat, z: nat)
    requires x != y && x != z && y != z
    ensures FirstOccurrences([(x, y), (y, z), (z, x)]) == [(x, y), (y, z), (z, x)]
  {
    var e1 := [(x, y)];
    var e2 := e1 + [(y, z)];
    assert [] + [(x, y)] == e1;
    NotSeen([], (x, y));
    NotSeen(e1, (y, z));
    NotSeen(e2, (z, x));
    assert e2 + [(z, x)] == [(x, y), (y, z), (z, x)];
  }

  /** A pair whose key no earlier pair has is kept. */
  lemma NotSeen(edges: seq<Edge>, e: Edge)
    requires forall h :: 0 <= h < |edges| ==> EdgeKey(edges[h]) != EdgeKey(e)
    ensures FirstOccurrences(edges + [e]) == FirstOccurrences(edges) + [e]
  {
    FirstOccurrencesAppend(edges, e);
    forall x | x in edges
      ensures EdgeKey(x) != EdgeKey(e)
    {
      var h :| 0 <= h < |edges| && edges[h] == x;
    }
  }

  /** A pair whose key the pair at position h already has is skipped. */
  lemma Seen(edges: seq<Edge>, e: Edge, h: nat)
    requires h < |edges| && EdgeKey(edges[h]) == EdgeKey(e)
    ensures FirstOccurrences(edges + [e]) == FirstOccurrences(edges)
  {
    FirstOccurrencesAppend(edges, e);
    assert edges[h] in edges;
  }
}
