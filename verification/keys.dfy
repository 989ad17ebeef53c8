/**
 * The key helpers of the exporter: the undirected index key of an edge
 * (`get_segment_key`), the string key of a point (`point_key_from_coords`)
 * and the string key of a segment (`segment_key_from_point_keys`).
 */
module SegmentKeys {
  import opened CoordFormat

  /** A vertex position; each coordinate counts units of 10^-5. */
  datatype Point = Point(x: int, y: int, z: int)

  /** The undirected key of the edge between two vertex indices: the sorted pair. */
  function SegmentKey(v1: nat, v2: nat): (k: (nat, nat))
    ensures k.0 <= k.1
    ensures (k.0 == v1 && k.1 == v2) || (k.0 == v2 && k.1 == v1)
  {
    if v1 <= v2 then (v1, v2) else (v2, v1)
  }

  /** Two index pairs share a key exactly when they are the same unordered pair. */
  lemma SegmentKeyUndirected(a: nat, b: nat, c: nat, d: nat)
    ensures SegmentKey(a, b) == SegmentKey(c, d) <==> (a == c && b == d) || (a == d && b == c)
  {
  }

  /** The three formatted coordinates of a point, separated by '|'. */
  function PointKey(p: Point): (k: string)
    ensures '>' !in k
  {
    FormatCoord(p.x) + "|" + FormatCoord(p.y) + "|" + FormatCoord(p.z)
  }

  /** A string with one `sep` somewhere after a `sep`-free prefix splits only one way. */
  lemma SplitAtSeparator(a: string, b: string, c: string, d: string, sep: char)
    requires sep !in a && sep !in c
    requires a + [sep] + b == c + [sep] + d
    ensures a == c && b == d
  {
    var s := a + [sep] + b;
    assert s[|a|] == sep && s[|c|] == sep;
    assert forall i :: 0 <= i < |a| ==> s[i] == a[i] != sep;
    assert forall i :: 0 <= i < |c| ==> s[i] == c[i] != sep;
    assert |a| == |c|;
    assert a == s[..|a|] == c;
    assert b == s[|a| + 1..] == d;
  }

  /** Three '|'-free parts joined by '|' split back into the same three parts. */
  lemma JoinInjective(a: string, b: string, c: string, a': string, b': string, c': string)
    requires '|' !in a && '|' !in b && '|' !in a' && '|' !in b'
    requires a + "|" + b + "|" + c == a' + "|" + b' + "|" + c'
    ensures a == a' && b == b' && c == c'
  {
    assert a + "|" + b + "|" + c == a + ['|'] + (b + ['|'] + c);
    assert a' + "|" + b' + "|" + c' == a' + ['|'] + (b' + ['|'] + c');
    SplitAtSeparator(a, b + ['|'] + c, a', b' + ['|'] + c', '|');
    SplitAtSeparator(b, c, b', c', '|');
  }

  /** Grid points with different positions get different keys. */
  lemma PointKeyInjective(p: Point, q: Point)
    ensures PointKey(p) == PointKey(q) <==> p == q
  {
    if PointKey(p) == PointKey(q) {
      JoinInjective(FormatCoord(p.x), FormatCoord(p.y), FormatCoord(p.z),
                    FormatCoord(q.x), FormatCoord(q.y), FormatCoord(q.z));
      FormatCoordInjective(p.x, q.x);
      FormatCoordInjective(p.y, q.y);
      FormatCoordInjective(p.z, q.z);
    }
  }

  /** String order as the source language compares strings: by code point, a prefix first. */
  predicate LexLe(a: string, b: string)
    ensures a == b ==> LexLe(a, b)
    ensures |a| <= |b| && a == b[..|a|] ==> LexLe(a, b)
    decreases |a|
  {
    if a == [] then true
    else if b == [] then false
    else if a[0] != b[0] then a[0] < b[0]
    else LexLe(a[1..], b[1..])
  }

  lemma {:induction false} LexLeTotal(a: string, b: string)
    ensures LexLe(a, b) || LexLe(b, a)
    decreases |a|
  {
    if a != [] && b != [] && a[0] == b[0] {
      LexLeTotal(a[1..], b[1..]);
    }
  }

  lemma {:induction false} LexLeAntisymmetric(a: string, b: string)
    requires LexLe(a, b) && LexLe(b, a)
    ensures a == b
    decreases |a|
  {
    if a != [] {
      LexLeAntisymmetric(a[1..], b[1..]);
      assert a == [a[0]] + a[1..];
      assert b == [b[0]] + b[1..];
    }
  }

  /** The two point keys in ascending order, joined by "->". */
  function SegmentKeyFromPointKeys(key1: string, key2: string): (s: string)
    ensures (LexLe(key1, key2) && s == key1 + "->" + key2)
         || (LexLe(key2, key1) && s == key2 + "->" + key1)
  {
    LexLeTotal(key1, key2);
    if LexLe(key1, key2) then key1 + "->" + key2 else key2 + "->" + key1
  }

  /** The segment key does not depend on which end comes first. */
  lemma SegmentKeyFromPointKeysSymmetric(key1: string, key2: string)
    ensures SegmentKeyFromPointKeys(key1, key2) == SegmentKeyFromPointKeys(key2, key1)
  {
    if LexLe(key1, key2) && LexLe(key2, key1) {
      LexLeAntisymmetric(key1, key2);
    }
  }

  /**
   * For point keys (which hold no '>'), the segment key determines the
   * unordered pair of point keys it was built from.
   */
  lemma SegmentKeyFromPointKeysInjective(k1: string, k2: string, k3: string, k4: string)
    requires '>' !in k1 && '>' !in k2 && '>' !in k3 && '>' !in k4
    ensures SegmentKeyFromPointKeys(k1, k2) == SegmentKeyFromPointKeys(k3, k4)
            <==> (k1 == k3 && k2 == k4) || (k1 == k4 && k2 == k3)
  {
    SegmentKeyFromPointKeysSymmetric(k1, k2);
    SegmentKeyFromPointKeysSymmetric(k3, k4);
    var lo, hi := if LexLe(k1, k2) then k1 else k2, if LexLe(k1, k2) then k2 else k1;
    var lo', hi' := if LexLe(k3, k4) then k3 else k4, if LexLe(k3, k4) then k4 else k3;
    if SegmentKeyFromPointKeys(k1, k2) == SegmentKeyFromPointKeys(k3, k4) {
      assert SegmentKeyFromPointKeys(k1, k2) == (lo + "-") + ['>'] + hi;
      assert SegmentKeyFromPointKeys(k3, k4) == (lo' + "-") + ['>'] + hi';
      SplitAtSeparator(lo + "-", hi, lo' + "-", hi', '>');
      assert lo == (lo + "-")[..|lo|] == (lo' + "-")[..|lo'|] == lo';
    }
  }

  /**
   * Two segments get the same key exactly when their grid endpoints coincide
   * as an unordered pair.
   */
  lemma SegmentKeyIdentifiesEndpoints(p1: Point, p2: Point, q1: Point, q2: Point)
    ensures SegmentKeyFromPointKeys(PointKey(p1), PointKey(p2)) == SegmentKeyFromPointKeys(PointKey(q1), PointKey(q2))
            <==> (p1 == q1 && p2 == q2) || (p1 == q2 && p2 == q1)
  {
    SegmentKeyFromPointKeysInjective(PointKey(p1), PointKey(p2), PointKey(q1), PointKey(q2));
    PointKeyInjective(p1, q1);
    PointKeyInjective(p2, q2);
    PointKeyInjective(p1, q2);
    PointKeyInjective(p2, q1);
  }
}
