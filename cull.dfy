/**
 * The triangle cull of `marching_squares_system`: a backward walk over the
 * triangle list that removes, in place, every index triple whose three
 * vertices all lie farther than `size` from the origin in the XY plane.
 *
 * Triangle `t` of an index list `ix` is the triple `ix[3t], ix[3t+1], ix[3t+2]`
 * and exists when `3t + 3 <= |ix|`; a list whose length is not a multiple of
 * three has a short tail of one or two indices that belongs to no triangle
 * and is never inspected.
 */
module TriangleCull {
  import opened Geometry

  /** Number of complete triangles in an index list, `indices.len() / 3`. */
  function TriangleCount(ix: seq<nat>): (n: nat)
    ensures 3 * n <= |ix| < 3 * n + 3
  {
    |ix| / 3
  }

  /**
   * Every index that belongs to a complete triangle addresses one of `n`
   * positions.  The source indexes `positions` with these values and would
   * panic otherwise; the short tail is never used as an index.
   */
  predicate ValidIndices(ix: seq<nat>, n: nat)
  {
    forall k :: 0 <= k < 3 * TriangleCount(ix) ==> ix[k] < n
  }

  /** The index triple of triangle `t`. */
  function TripleAt(ix: seq<nat>, t: nat): (r: seq<nat>)
    requires 3 * t + 3 <= |ix|
    ensures |r| == 3
  {
    ix[3 * t .. 3 * t + 3]
  }

  /**
   * Position `i`.  Made total so that the specification functions below need
   * no bounds precondition; every method that looks a vertex up requires
   * ValidIndices, under which this is plain indexing.
   */
  function Vertex(pos: seq<Vec3>, i: nat): (v: Vec3)
    ensures i < |pos| ==> v == pos[i]
  {
    if i < |pos| then pos[i] else Vec3(0.0, 0.0, 0.0)
  }

  /**
   * The source's vertex test, `Vec3::new(a[0], a[1], 0.0).length() > size`.
   * The specification functions below take the vertex test as a parameter
   * `far`, so that their proofs do not depend on the arithmetic.
   */
  function Beyond(size: real): Vec3 -> bool
  {
    p => Outside(p, size)
  }

  /** All three vertices of triangle `t` pass the test `far` (lie outside the radius). */
  predicate TriangleOutside(pos: seq<Vec3>, ix: seq<nat>, t: nat, far: Vec3 -> bool)
    requires 3 * t + 3 <= |ix|
  {
    far(Vertex(pos, ix[3 * t])) && far(Vertex(pos, ix[3 * t + 1])) && far(Vertex(pos, ix[3 * t + 2]))
  }

  // ---------------------------------------------------------------------
  // The specification: an order-preserving filter over triangles.
  // ---------------------------------------------------------------------

  /** Triangle `t`'s triple if it survives, nothing if it is culled. */
  function KeptTriple(pos: seq<Vec3>, ix: seq<nat>, far: Vec3 -> bool, t: nat): (r: seq<nat>)
    requires 3 * t + 3 <= |ix|
    ensures |r| == 0 || |r| == 3
  {
    if TriangleOutside(pos, ix, t, far) then [] else TripleAt(ix, t)
  }

  /** The triples of those of the first `t` triangles that survive, in order. */
  function KeepBelow(pos: seq<Vec3>, ix: seq<nat>, far: Vec3 -> bool, t: nat): seq<nat>
    requires 3 * t <= |ix|
  {
    if t == 0 then []
    else KeepBelow(pos, ix, far, t - 1) + KeptTriple(pos, ix, far, t - 1)
  }

  /**
   * The index list the cull leaves behind: the surviving triples in order,
   * followed by the untouched short tail.
   */
  function Culled(pos: seq<Vec3>, ix: seq<nat>, far: Vec3 -> bool): seq<nat>
  {
    KeepBelow(pos, ix, far, TriangleCount(ix)) + ix[3 * TriangleCount(ix)..]
  }

  /**
   * Reference description of the cull: the numbers of those of the first
   * `t` triangles that have at least one vertex within the radius, in
   * increasing order.
   */
  function SurvivorsBelow(pos: seq<Vec3>, ix: seq<nat>, far: Vec3 -> bool, t: nat): (r: seq<nat>)
    requires 3 * t <= |ix|
    ensures forall j :: 0 <= j < |r| ==> r[j] < t
  {
    if t == 0 then []
    else SurvivorsBelow(pos, ix, far, t - 1) + (if TriangleOutside(pos, ix, t - 1, far) then [] else [t - 1])
  }

  /** SurvivorsBelow, unfolded once at `t = u + 1`. */
  lemma SurvivorsStep(pos: seq<Vec3>, ix: seq<nat>, far: Vec3 -> bool, u: nat)
    requires 3 * u + 3 <= |ix|
    ensures SurvivorsBelow(pos, ix, far, u + 1)
      == SurvivorsBelow(pos, ix, far, u) + (if TriangleOutside(pos, ix, u, far) then [] else [u])
  {
  }

  /** A triangle is a survivor exactly when not all of its vertices are outside. */
  lemma {:induction false} SurvivorsExact(pos: seq<Vec3>, ix: seq<nat>, far: Vec3 -> bool, t: nat, u: nat)
    requires u < t && 3 * t <= |ix|
    ensures u in SurvivorsBelow(pos, ix, far, t) <==> !TriangleOutside(pos, ix, u, far)
    decreases t, 1
  {
    SurvivorsExactAbove(pos, ix, far, t, t - 1, u);
  }

  /** The inductive step of SurvivorsExact, at `t = k + 1`. */
  lemma {:induction false} SurvivorsExactAbove(pos: seq<Vec3>, ix: seq<nat>, far: Vec3 -> bool, t: nat, k: nat, u: nat)
    requires t == k + 1 && u <= k && 3 * t <= |ix|
    ensures u in SurvivorsBelow(pos, ix, far, t) <==> !TriangleOutside(pos, ix, u, far)
    decreases t, 0
  {
    SurvivorsStep(pos, ix, far, k);
    if u < k {
      SurvivorsExact(pos, ix, far, k, u);
    }
  }

  /** The survivors are listed in strictly increasing order. */
  lemma {:induction false} SurvivorsAscending(pos: seq<Vec3>, ix: seq<nat>, far: Vec3 -> bool, t: nat)
    requires 3 * t <= |ix|
    ensures var s := SurvivorsBelow(pos, ix, far, t); forall i, j :: 0 <= i < j < |s| ==> s[i] < s[j]
    decreases t, 1
  {
    if t > 0 {
      SurvivorsAscendingAbove(pos, ix, far, t, t - 1);
    }
  }

  /** The inductive step of SurvivorsAscending, at `t = k + 1`. */
  lemma {:induction false} SurvivorsAscendingAbove(pos: seq<Vec3>, ix: seq<nat>, far: Vec3 -> bool, t: nat, k: nat)
    requires t == k + 1 && 3 * t <= |ix|
    ensures var s := SurvivorsBelow(pos, ix, far, t); forall i, j :: 0 <= i < j < |s| ==> s[i] < s[j]
    decreases t, 0
  {
    SurvivorsStep(pos, ix, far, k);
    SurvivorsAscending(pos, ix, far, k);
  }

  /** Appending one triangle's triple to a matched pair of lists keeps them matched. */
  lemma SnocMatched(ix: seq<nat>, t: nat, init: seq<nat>, sinit: seq<nat>)
    requires 3 * t + 3 <= |ix|
    requires |init| == 3 * |sinit|
    requires forall j :: 0 <= j < |sinit| ==> 3 * sinit[j] + 3 <= |ix|
    requires forall j :: 0 <= j < |sinit| ==> TripleAt(init, j) == TripleAt(ix, sinit[j])
    ensures var r, s := init + TripleAt(ix, t), sinit + [t];
      && |r| == 3 * |s|
      && forall j :: 0 <= j < |s| ==> TripleAt(r, j) == TripleAt(ix, s[j])
  {
    var r, s := init + TripleAt(ix, t), sinit + [t];
    forall j | 0 <= j < |s|
      ensures TripleAt(r, j) == TripleAt(ix, s[j])
    {
      if j < |sinit| {
        assert TripleAt(r, j) == TripleAt(init, j);
      } else {
        assert r[|init|..] == TripleAt(ix, t);
      }
    }
  }

  /** The kept triples are, one for one and in order, the survivors' triples. */
  lemma {:induction false} KeepBelowMatchesSurvivors(pos: seq<Vec3>, ix: seq<nat>, far: Vec3 -> bool, t: nat)
    requires 3 * t <= |ix|
    ensures var r, s := KeepBelow(pos, ix, far, t), SurvivorsBelow(pos, ix, far, t);
      && |r| == 3 * |s|
      && forall j :: 0 <= j < |s| ==> TripleAt(r, j) == TripleAt(ix, s[j])
    decreases t, 1
  {
    if t > 0 {
      KeepBelowMatchesSurvivorsAbove(pos, ix, far, t, t - 1);
    }
  }

  /** The inductive step of KeepBelowMatchesSurvivors, at `t = k + 1`. */
  lemma {:induction false} KeepBelowMatchesSurvivorsAbove(pos: seq<Vec3>, ix: seq<nat>, far: Vec3 -> bool, t: nat, k: nat)
    requires t == k + 1 && 3 * t <= |ix|
    ensures var r, s := KeepBelow(pos, ix, far, t), SurvivorsBelow(pos, ix, far, t);
      && |r| == 3 * |s|
      && forall j :: 0 <= j < |s| ==> TripleAt(r, j) == TripleAt(ix, s[j])
    decreases t, 0
  {
    SurvivorsStep(pos, ix, far, k);
    KeepBelowStep(pos, ix, far, k);
    KeepBelowMatchesSurvivors(pos, ix, far, k);
    if !TriangleOutside(pos, ix, k, far) {
      SnocMatched(ix, k, KeepBelow(pos, ix, far, k), SurvivorsBelow(pos, ix, far, k));
    }
  }

  /** KeepBelow, unfolded once at `t = k + 1`. */
  lemma KeepBelowStep(pos: seq<Vec3>, ix: seq<nat>, far: Vec3 -> bool, k: nat)
    requires 3 * k + 3 <= |ix|
    ensures KeepBelow(pos, ix, far, k + 1) == KeepBelow(pos, ix, far, k) + KeptTriple(pos, ix, far, k)
  {
  }

  /** Triple `j` of `k + tail` is triple `j` of `k`, for `k` of whole triples. */
  lemma TripleOfPrefix(k: seq<nat>, tail: seq<nat>, j: nat)
    requires 3 * j + 3 <= |k|
    ensures TripleAt(k + tail, j) == TripleAt(k, j)
  {
  }

  /** Triple `j` of the culled list is the triple of survivor `j`. */
  lemma CulledTriples(pos: seq<Vec3>, ix: seq<nat>, far: Vec3 -> bool)
    ensures var c, s := Culled(pos, ix, far), SurvivorsBelow(pos, ix, far, TriangleCount(ix));
      && TriangleCount(c) == |s|
      && forall j :: 0 <= j < |s| ==> TripleAt(c, j) == TripleAt(ix, s[j])
  {
    var n := TriangleCount(ix);
    var k, s := KeepBelow(pos, ix, far, n), SurvivorsBelow(pos, ix, far, n);
    KeepBelowMatchesSurvivors(pos, ix, far, n);
    forall j | 0 <= j < |s|
      ensures TripleAt(k + ix[3 * n..], j) == TripleAt(ix, s[j])
    {
      TripleOfPrefix(k, ix[3 * n..], j);
    }
  }

  /** After the survivors' triples comes the short tail of `ix`, unchanged. */
  lemma CulledTail(pos: seq<Vec3>, ix: seq<nat>, far: Vec3 -> bool)
    ensures var c, s := Culled(pos, ix, far), SurvivorsBelow(pos, ix, far, TriangleCount(ix));
      && |c| == 3 * |s| + (|ix| - 3 * TriangleCount(ix))
      && c[3 * |s|..] == ix[3 * TriangleCount(ix)..]
  {
    var n := TriangleCount(ix);
    KeepBelowMatchesSurvivors(pos, ix, far, n);
  }

  /**
   * The cull is an order-preserving filter over triangles: the result is
   * the triples of the survivors, ascending, then the original short tail;
   * a triangle survives exactly when some vertex is within the radius.
   */
  lemma CulledIsFilter(pos: seq<Vec3>, ix: seq<nat>, far: Vec3 -> bool)
    ensures var c, s := Culled(pos, ix, far), SurvivorsBelow(pos, ix, far, TriangleCount(ix));
      && |c| == 3 * |s| + |ix| % 3
      && TriangleCount(c) == |s|
      && (forall j :: 0 <= j < |s| ==> TripleAt(c, j) == TripleAt(ix, s[j]))
      && c[3 * |s|..] == ix[3 * TriangleCount(ix)..]
      && (forall i, j :: 0 <= i < j < |s| ==> s[i] < s[j])
      && (forall t :: 0 <= t < TriangleCount(ix) ==> (t in s <==> !TriangleOutside(pos, ix, t, far)))
  {
    var n := TriangleCount(ix);
    var s := SurvivorsBelow(pos, ix, far, n);
    CulledTriples(pos, ix, far);
    CulledTail(pos, ix, far);
    SurvivorsAscending(pos, ix, far, n);
    forall t | 0 <= t < n
      ensures t in s <==> !TriangleOutside(pos, ix, t, far)
    {
      SurvivorsExact(pos, ix, far, n, t);
    }
  }

  /** Removals happen in whole triples: a list of whole triangles stays one. */
  lemma CulledKeepsWholeTriangles(pos: seq<Vec3>, ix: seq<nat>, far: Vec3 -> bool)
    requires |ix| % 3 == 0
    ensures |Culled(pos, ix, far)| % 3 == 0
  {
    CulledTail(pos, ix, far);
  }

  /** Triangles with the same triple have the same vertices. */
  lemma SameTriple(pos: seq<Vec3>, a: seq<nat>, j: nat, b: seq<nat>, u: nat, far: Vec3 -> bool)
    requires 3 * j + 3 <= |a| && 3 * u + 3 <= |b| && TripleAt(a, j) == TripleAt(b, u)
    ensures a[3 * j] == b[3 * u] && a[3 * j + 1] == b[3 * u + 1] && a[3 * j + 2] == b[3 * u + 2]
    ensures TriangleOutside(pos, a, j, far) == TriangleOutside(pos, b, u, far)
  {
    assert a[3 * j] == TripleAt(a, j)[0] && a[3 * j + 1] == TripleAt(a, j)[1] && a[3 * j + 2] == TripleAt(a, j)[2];
    assert b[3 * u] == TripleAt(b, u)[0] && b[3 * u + 1] == TripleAt(b, u)[1] && b[3 * u + 2] == TripleAt(b, u)[2];
  }

  /** Every triangle left after the cull has a vertex within the radius. */
  lemma CulledTrianglesTouchDisc(pos: seq<Vec3>, ix: seq<nat>, far: Vec3 -> bool)
    ensures forall j :: 0 <= j < TriangleCount(Culled(pos, ix, far)) ==>
      !TriangleOutside(pos, Culled(pos, ix, far), j, far)
  {
    var n := TriangleCount(ix);
    var c, s := Culled(pos, ix, far), SurvivorsBelow(pos, ix, far, n);
    CulledTriples(pos, ix, far);
    forall j | 0 <= j < TriangleCount(c)
      ensures !TriangleOutside(pos, c, j, far)
    {
      SameTriple(pos, c, j, ix, s[j], far);
      SurvivorsExact(pos, ix, far, n, s[j]);
    }
  }

  /**
   * The cull only drops whole triangles, so an index that was valid for the
   * positions before it is still valid after it.
   */
  lemma CulledStaysValid(pos: seq<Vec3>, ix: seq<nat>, far: Vec3 -> bool, n: nat)
    requires ValidIndices(ix, n)
    ensures ValidIndices(Culled(pos, ix, far), n)
  {
    var c, s := Culled(pos, ix, far), SurvivorsBelow(pos, ix, far, TriangleCount(ix));
    CulledTriples(pos, ix, far);
    forall k | 0 <= k < 3 * TriangleCount(c)
      ensures c[k] < n
    {
      var j, m := EntryPlace(k, |s|);
      EntryOfMatched(c, k, j, m, ix, s[j], n);
    }
  }

  /** An entry of a triple equal to a valid triple of `ix` is a valid index. */
  lemma EntryOfMatched(c: seq<nat>, k: nat, j: nat, m: nat, ix: seq<nat>, u: nat, n: nat)
    requires k == 3 * j + m && m < 3 && 3 * j + 3 <= |c| && u < TriangleCount(ix)
    requires TripleAt(c, j) == TripleAt(ix, u) && ValidIndices(ix, n)
    ensures c[k] < n
  {
    TripleEntry(c, j, m);
    TripleEntry(ix, u, m);
  }

  /** Entry `k` of the first `3n` is entry `m` of triangle `j`. */
  lemma EntryPlace(k: nat, n: nat) returns (j: nat, m: nat)
    requires k < 3 * n
    ensures j < n && m < 3 && k == 3 * j + m
  {
    j, m := k / 3, k % 3;
  }

  /** Entry `m` of a triple is the list's entry `3j + m`. */
  lemma TripleEntry(a: seq<nat>, j: nat, m: nat)
    requires 3 * j + 3 <= |a| && m < 3
    ensures TripleAt(a, j)[m] == a[3 * j + m]
  {
  }

  // ---------------------------------------------------------------------
  // The backward walk, step by step, and its agreement with the filter.
  // ---------------------------------------------------------------------

  /** `Vec::remove(k)`: the list without its element at `k`. */
  function RemoveAt(s: seq<nat>, k: nat): (r: seq<nat>)
    requires k < |s|
    ensures |r| == |s| - 1
  {
    s[..k] + s[k + 1..]
  }

  /**
   * The loop body for triangle `t` of the current list: when its three
   * vertices are outside, `remove(3t + 2)`, `remove(3t + 1)`, `remove(3t)`.
   */
  function VisitTriangle(pos: seq<Vec3>, far: Vec3 -> bool, cur: seq<nat>, t: nat): (r: seq<nat>)
    requires 3 * t + 3 <= |cur|
    ensures 3 * t <= |r|
  {
    if TriangleOutside(pos, cur, t, far) then RemoveAt(RemoveAt(RemoveAt(cur, 3 * t + 2), 3 * t + 1), 3 * t)
    else cur
  }

  /** The walk over triangles `i - 1` down to `0` of the current list. */
  ghost function CullWalk(pos: seq<Vec3>, far: Vec3 -> bool, cur: seq<nat>, i: nat): seq<nat>
    requires 3 * i <= |cur|
  {
    if i == 0 then cur else CullWalk(pos, far, VisitTriangle(pos, far, cur, i - 1), i - 1)
  }

  /** The three removals at `j + 2`, `j + 1` and `j` cut out `s[j..j+3]`. */
  lemma RemovesCutTriple(s: seq<nat>, j: nat)
    requires j + 3 <= |s|
    ensures RemoveAt(RemoveAt(RemoveAt(s, j + 2), j + 1), j) == s[..j] + s[j + 3..]
  {
  }

  /** In `ix[..3k+3] + rest`, triangle `k` is triangle `k` of `ix`. */
  lemma SameTripleOnPrefix(ix: seq<nat>, k: nat, rest: seq<nat>)
    requires 3 * k + 3 <= |ix|
    ensures TripleAt(ix[..3 * k + 3] + rest, k) == TripleAt(ix, k)
  {
  }

  /** Cutting triangle `k` out of `ix[..3k+3] + rest` leaves `ix[..3k] + rest`. */
  lemma CutOnPrefix(ix: seq<nat>, k: nat, rest: seq<nat>)
    requires 3 * k + 3 <= |ix|
    ensures RemoveAt(RemoveAt(RemoveAt(ix[..3 * k + 3] + rest, 3 * k + 2), 3 * k + 1), 3 * k) == ix[..3 * k] + rest
  {
    var s := ix[..3 * k + 3] + rest;
    RemovesCutTriple(s, 3 * k);
    assert s[..3 * k] == ix[..3 * k];
    assert s[3 * k + 3..] == rest;
  }

  /** `ix[..3k+3] + rest` splits around triangle `k`. */
  lemma SplitOnPrefix(ix: seq<nat>, k: nat, rest: seq<nat>)
    requires 3 * k + 3 <= |ix|
    ensures ix[..3 * k + 3] + rest == ix[..3 * k] + (TripleAt(ix, k) + rest)
  {
    assert ix[..3 * k + 3] == ix[..3 * k] + TripleAt(ix, k);
  }

  /**
   * Visiting triangle `k` of `ix[..3(k+1)] + rest` (`ix` untouched up to
   * its triple, anything after it) decides as triangle `k` of `ix` does, and
   * leaves `ix[..3k]`, the triple if it is kept, and `rest`.
   */
  lemma VisitOnPrefix(pos: seq<Vec3>, far: Vec3 -> bool, ix: seq<nat>, k: nat, rest: seq<nat>)
    requires 3 * k + 3 <= |ix|
    ensures VisitTriangle(pos, far, ix[..3 * k + 3] + rest, k)
      == ix[..3 * k] + (KeptTriple(pos, ix, far, k) + rest)
  {
    var s := ix[..3 * k + 3] + rest;
    SameTripleOnPrefix(ix, k, rest);
    SameTriple(pos, s, k, ix, k, far);
    if TriangleOutside(pos, ix, k, far) {
      CutOnPrefix(ix, k, rest);
      assert [] + rest == rest;
    } else {
      SplitOnPrefix(ix, k, rest);
    }
  }

  /** One step of the walk over `ix[..3i] + rest`, at `i = k + 1`. */
  lemma WalkOnPrefix(pos: seq<Vec3>, far: Vec3 -> bool, ix: seq<nat>, i: nat, k: nat, rest: seq<nat>)
    requires i == k + 1 && 3 * i <= |ix|
    ensures CullWalk(pos, far, ix[..3 * i] + rest, i)
      == CullWalk(pos, far, ix[..3 * k] + (KeptTriple(pos, ix, far, k) + rest), k)
  {
    PrefixAbove(ix, i, k);
    WalkUnfold(pos, far, ix[..3 * k + 3] + rest, k);
    VisitOnPrefix(pos, far, ix, k, rest);
  }

  lemma PrefixAbove(ix: seq<nat>, i: nat, k: nat)
    requires i == k + 1 && 3 * i <= |ix|
    ensures ix[..3 * i] == ix[..3 * k + 3]
  {
  }

  lemma AppendAssoc(a: seq<nat>, b: seq<nat>, c: seq<nat>)
    ensures a + (b + c) == a + b + c
  {
  }

  /** KeepBelow at `i = k + 1`, unfolded once, with the rest of the list regrouped. */
  lemma KeepBelowRegroup(pos: seq<Vec3>, ix: seq<nat>, far: Vec3 -> bool, i: nat, k: nat, rest: seq<nat>)
    requires i == k + 1 && 3 * i <= |ix|
    ensures KeepBelow(pos, ix, far, k) + (KeptTriple(pos, ix, far, k) + rest)
      == KeepBelow(pos, ix, far, i) + rest
  {
    KeepBelowStep(pos, ix, far, k);
    AppendAssoc(KeepBelow(pos, ix, far, k), KeptTriple(pos, ix, far, k), rest);
  }

  /**
   * The walk over the first `i` triangles of `ix[..3i] + rest` filters them
   * and leaves `rest` as it is: the in-place backward loop computes the
   * order-preserving filter.
   */
  lemma {:induction false} WalkIsFilter(pos: seq<Vec3>, far: Vec3 -> bool, ix: seq<nat>, i: nat, rest: seq<nat>)
    requires 3 * i <= |ix|
    ensures CullWalk(pos, far, ix[..3 * i] + rest, i) == KeepBelow(pos, ix, far, i) + rest
    decreases i, 1
  {
    if i == 0 {
      assert ix[..0] + rest == rest;
    } else {
      WalkIsFilterAbove(pos, far, ix, i, i - 1, rest);
    }
  }

  /** The inductive step of WalkIsFilter, at `i = k + 1`. */
  lemma {:induction false} WalkIsFilterAbove(pos: seq<Vec3>, far: Vec3 -> bool, ix: seq<nat>, i: nat, k: nat, rest: seq<nat>)
    requires i == k + 1 && 3 * i <= |ix|
    ensures CullWalk(pos, far, ix[..3 * i] + rest, i) == KeepBelow(pos, ix, far, i) + rest
    decreases i, 0
  {
    WalkOnPrefix(pos, far, ix, i, k, rest);
    WalkIsFilter(pos, far, ix, k, KeptTriple(pos, ix, far, k) + rest);
    KeepBelowRegroup(pos, ix, far, i, k, rest);
  }

  /** The whole walk, from the last triangle down to the first, is the cull. */
  lemma WalkIsCulled(pos: seq<Vec3>, far: Vec3 -> bool, ix: seq<nat>)
    ensures CullWalk(pos, far, ix, TriangleCount(ix)) == Culled(pos, ix, far)
  {
    var n := TriangleCount(ix);
    assert ix == ix[..3 * n] + ix[3 * n..];
    WalkIsFilter(pos, far, ix, n, ix[3 * n..]);
  }

  /** Visiting triangle `t` leaves everything before its triple alone. */
  lemma VisitKeepsBelow(pos: seq<Vec3>, far: Vec3 -> bool, cur: seq<nat>, t: nat)
    requires 3 * t + 3 <= |cur|
    ensures VisitTriangle(pos, far, cur, t)[..3 * t] == cur[..3 * t]
  {
    if TriangleOutside(pos, cur, t, far) {
      RemovesCutTriple(cur, 3 * t);
    }
  }

  /** Two lists that agree below `n` agree below any `m + 3 <= n`, and at `m .. m + 2`. */
  lemma AgreeBelow(cur: seq<nat>, ix: seq<nat>, m: nat, n: nat)
    requires m + 3 <= n <= |cur| && n <= |ix| && cur[..n] == ix[..n]
    ensures cur[..m] == ix[..m]
    ensures cur[m] == ix[m] && cur[m + 1] == ix[m + 1] && cur[m + 2] == ix[m + 2]
  {
    assert cur[..m] == cur[..n][..m];
    assert ix[..m] == ix[..n][..m];
    assert cur[m] == cur[..n][m] && cur[m + 1] == cur[..n][m + 1] && cur[m + 2] == cur[..n][m + 2];
  }

  /**
   * What the loop knows before it looks at triangle `k = i - 1`: the current
   * list agrees with the original below `3i`.
   */
  ghost predicate WalkState(pos: seq<Vec3>, size: real, ix: seq<nat>, cur: seq<nat>, i: nat)
  {
    && i <= TriangleCount(ix) && 3 * i <= |cur| && cur[..3 * i] == ix[..3 * i]
    && CullWalk(pos, Beyond(size), cur, i) == CullWalk(pos, Beyond(size), ix, TriangleCount(ix))
  }

  /**
   * Triangle `k` of the current list is triangle `k` of the original, so its
   * indices address positions.
   */
  lemma WalkLookup(pos: seq<Vec3>, ix: seq<nat>, cur: seq<nat>, i: nat, k: nat)
    requires i == k + 1 && ValidIndices(ix, |pos|)
    requires i <= TriangleCount(ix) && 3 * i <= |cur| && cur[..3 * i] == ix[..3 * i]
    ensures 3 * k + 3 <= |cur| && cur[3 * k] < |pos| && cur[3 * k + 1] < |pos| && cur[3 * k + 2] < |pos|
  {
    AgreeBelow(cur, ix, 3 * k, 3 * i);
  }

  /** CullWalk over `k + 1` triangles, unfolded once. */
  lemma WalkUnfold(pos: seq<Vec3>, far: Vec3 -> bool, cur: seq<nat>, k: nat)
    requires 3 * k + 3 <= |cur|
    ensures CullWalk(pos, far, cur, k + 1) == CullWalk(pos, far, VisitTriangle(pos, far, cur, k), k)
  {
  }

  /** Visiting triangle `k = i - 1` leaves the list's agreement with `ix` below `3k`. */
  lemma AdvanceBelow(pos: seq<Vec3>, far: Vec3 -> bool, ix: seq<nat>, cur: seq<nat>, i: nat, k: nat, next: seq<nat>)
    requires i == k + 1 && 3 * i <= |cur| && 3 * i <= |ix| && cur[..3 * i] == ix[..3 * i]
    requires next == VisitTriangle(pos, far, cur, k)
    ensures next[..3 * k] == ix[..3 * k]
  {
    VisitKeepsBelow(pos, far, cur, k);
    AgreeBelow(cur, ix, 3 * k, 3 * i);
  }

  /** Visiting triangle `k = i - 1` is the first step of the walk over `i` triangles. */
  lemma AdvanceWalk(pos: seq<Vec3>, far: Vec3 -> bool, cur: seq<nat>, i: nat, k: nat, next: seq<nat>)
    requires i == k + 1 && 3 * i <= |cur|
    requires next == VisitTriangle(pos, far, cur, k)
    ensures CullWalk(pos, far, next, k) == CullWalk(pos, far, cur, i)
  {
    WalkUnfold(pos, far, cur, k);
  }

  /** Visiting triangle `k = i - 1` takes the loop's state from `i` to `k`. */
  lemma WalkAdvance(pos: seq<Vec3>, size: real, ix: seq<nat>, cur: seq<nat>, i: nat, k: nat, next: seq<nat>)
    requires i == k + 1 && WalkState(pos, size, ix, cur, i)
    requires next == VisitTriangle(pos, Beyond(size), cur, k)
    ensures WalkState(pos, size, ix, next, k)
  {
    AdvanceBelow(pos, Beyond(size), ix, cur, i, k, next);
    AdvanceWalk(pos, Beyond(size), cur, i, k, next);
  }

  /**
   * The body of the cull loop for triangle `t` of the current list: read its
   * three positions, and when all three lie outside the radius remove its
   * indices, the highest first.
   */
  method VisitAt(positions: array<Vec3>, cur: seq<nat>, t: nat, size: real) returns (next: seq<nat>)
    requires 3 * t + 3 <= |cur|
    requires cur[3 * t] < positions.Length && cur[3 * t + 1] < positions.Length && cur[3 * t + 2] < positions.Length
    ensures next == VisitTriangle(positions[..], Beyond(size), cur, t)
  {
    var a := positions[cur[3 * t]];
    var b := positions[cur[3 * t + 1]];
    var c := positions[cur[3 * t + 2]];
    next := cur;
    if Outside(a, size) && Outside(b, size) && Outside(c, size) {
      next := RemoveAt(next, 3 * t + 2);
      next := RemoveAt(next, 3 * t + 1);
      next := RemoveAt(next, 3 * t);
    }
  }

  /**
   * `for i in (0..indices.len() / 3).rev()` with its guard; `positions` is
   * only read, since the removals of positions are commented out in the
   * source.
   */
  method Cull(positions: array<Vec3>, indices: seq<nat>, size: real) returns (kept: seq<nat>)
    requires ValidIndices(indices, positions.Length)
    ensures kept == Culled(positions[..], indices, Beyond(size))
  {
    ghost var pos := positions[..];
    kept := indices;
    var i: nat := |indices| / 3;
    while i > 0
      invariant WalkState(pos, size, indices, kept, i)
    {
      ghost var above, before := i, kept;
      i := i - 1;
      WalkLookup(pos, indices, kept, above, i);
      if |kept| >= i + 3 {
        kept := VisitAt(positions, kept, i, size);
      } else {
        assert false;
      }
      WalkAdvance(pos, size, indices, before, above, i, kept);
    }
    WalkIsCulled(pos, Beyond(size), indices);
  }
}
