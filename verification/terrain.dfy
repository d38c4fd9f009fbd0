/**
  * The terrain floor as values: plane vertices, the height sampler of
  * generateTerrain (src/App.js:73-82), the plane a scroll step leaves behind
  * (src/App.js:63-71) and the sequence of frames the scroll produces.
  */
module Terrain {
  import opened Scroll

  /** One vertex of the plane geometry's vertex buffer. */
  datatype Vertex = Vertex(x: real, y: real, z: real)

  /** Divisor applied to the coordinates before sampling the noise. */
  const Smooth: real := 5.0

  /**
    * The noise function and the linear remap that the terrain is sampled
    * from. Neither is part of this model: each is carried as an arbitrary
    * total function, so a height depends on nothing but its arguments.
    */
  datatype Field = Field(noise: (real, real) -> real, remap: (real, real, real, real, real) -> real)
  {
    /**
      * The height generated for a vertex: noise at (x / 5, (z + y) / 5),
      * remapped from [0, 0.8] to [0, 4].
      */
    function Height(v: Vertex): real
    {
      remap(noise(v.x / Smooth, (v.z + v.y) / Smooth), 0.0, 0.8, 0.0, 4.0)
    }
  }

  /**
    * The second noise coordinate couples two axes: vertices that agree on x
    * and on y + z get the same height, whatever their y and z are apart.
    */
  lemma HeightCoupling(f: Field, v: Vertex, w: Vertex)
    requires v.x == w.x && v.y + v.z == w.y + w.z
    ensures f.Height(v) == f.Height(w)
  {
  }

  /** The height list that generation accumulates: one height appended per vertex, in vertex order. */
  function Heights(f: Field, p: seq<Vertex>): (hs: seq<real>)
    ensures |hs| == |p|
    ensures forall i :: 0 <= i < |p| ==> hs[i] == f.Height(p[i])
  {
    if p == [] then [] else Heights(f, p[..|p| - 1]) + [f.Height(p[|p| - 1])]
  }

  /** The plane after generation: each vertex's z replaced by its own height. */
  function Raised(f: Field, p: seq<Vertex>): (q: seq<Vertex>)
    ensures |q| == |p|
  {
    seq(|p|, j requires 0 <= j < |p| => p[j].(z := f.Height(p[j])))
  }

  /**
    * After generation the plane's z coordinates are the height list, and no
    * x or y has moved.
    */
  lemma RaisedMatchesHeights(f: Field, p: seq<Vertex>)
    ensures |Raised(f, p)| == |Heights(f, p)| == |p|
    ensures forall j :: 0 <= j < |p| ==>
      Raised(f, p)[j].z == Heights(f, p)[j] &&
      Raised(f, p)[j].x == p[j].x && Raised(f, p)[j].y == p[j].y
  {
  }

  /**
    * The plane after one scroll step under rotation k: the height at list
    * position i lands on plane vertex Dest(i, k, |hs|); vertices beyond the
    * list keep their value, and only z coordinates change.
    */
  function Scrolled(p: seq<Vertex>, hs: seq<real>, k: int): (q: seq<Vertex>)
    requires |hs| <= |p|
    ensures |q| == |p|
    ensures forall j :: 0 <= j < |p| ==> q[j].x == p[j].x && q[j].y == p[j].y
    ensures forall j :: |hs| <= j < |p| ==> q[j] == p[j]
  {
    seq(|p|, j requires 0 <= j < |p| =>
      if j < |hs| then p[j].(z := hs[Source(j, k, |hs|)]) else p[j])
  }

  /**
    * p and q differ at most in the z of the first m vertices: the part of a
    * plane that a scroll step with a list of length m overwrites.
    */
  ghost predicate Agrees(p: seq<Vertex>, q: seq<Vertex>, m: nat)
  {
    |p| == |q| &&
    forall j :: 0 <= j < |p| ==> p[j].x == q[j].x && p[j].y == q[j].y && (m <= j ==> p[j] == q[j])
  }

  /**
    * A scroll step forgets what it overwrites: planes that differ only in
    * the z of the first |hs| vertices scroll to the same plane, and the
    * result again differs from either only there.
    */
  lemma ScrolledAgrees(p: seq<Vertex>, q: seq<Vertex>, hs: seq<real>, k: int)
    requires |hs| <= |p| && Agrees(p, q, |hs|)
    ensures Scrolled(p, hs, k) == Scrolled(q, hs, k)
    ensures Agrees(Scrolled(p, hs, k), q, |hs|)
  {
    var a, b := Scrolled(p, hs, k), Scrolled(q, hs, k);
    assert forall j :: 0 <= j < |p| ==> a[j] == b[j];
  }

  /** Every height of the list is written to the vertex its rotation names. */
  lemma ScrolledAt(p: seq<Vertex>, hs: seq<real>, k: int, i: nat)
    requires |hs| <= |p| && i < |hs|
    ensures Scrolled(p, hs, k)[Dest(i, k, |hs|)].z == hs[i]
  {
    SourceOfDest(i, k, |hs|);
  }

  /** With an empty height list a scroll step writes no vertex. */
  lemma ScrolledEmpty(p: seq<Vertex>, k: int)
    ensures Scrolled(p, [], k) == p
  {
  }

  /**
    * A scroll step overwrites every z it touches, so what an earlier step
    * wrote is gone: two steps in a row leave what the second alone leaves.
    */
  lemma ScrolledTwice(p: seq<Vertex>, hs: seq<real>, k1: int, k2: int)
    requires |hs| <= |p|
    ensures Scrolled(Scrolled(p, hs, k1), hs, k2) == Scrolled(p, hs, k2)
  {
    var a := Scrolled(Scrolled(p, hs, k1), hs, k2);
    var b := Scrolled(p, hs, k2);
    assert forall j :: 0 <= j < |p| ==> a[j] == b[j];
  }

  /**
    * The first tick (rotation 0) over a freshly generated plane writes back
    * the values it already holds.
    */
  lemma FirstTickIdentity(f: Field, p: seq<Vertex>)
    ensures Scrolled(Raised(f, p), Heights(f, p), Rotation(1, |p|)) == Raised(f, p)
  {
    var q, hs := Raised(f, p), Heights(f, p);
    assert Rotation(1, |p|) == 0;
    var s := Scrolled(q, hs, 0);
    forall j | 0 <= j < |p|
      ensures s[j] == q[j]
    {
      DivModUnique(j, |p|, 0, j);
      assert Source(j, 0, |hs|) == j;
      assert q[j].z == hs[j];
    }
  }

  /** The plane after t ticks, starting from p0, with the height list hs. */
  ghost function Frame(p0: seq<Vertex>, hs: seq<real>, t: nat): (q: seq<Vertex>)
    requires |hs| <= |p0|
    ensures |q| == |p0|
  {
    if t == 0 then p0 else Scrolled(Frame(p0, hs, t - 1), hs, Rotation(t, |hs|))
  }

  /** From the first tick on, a frame depends only on the rotation of its last tick. */
  lemma {:induction false} FrameIsLastScroll(p0: seq<Vertex>, hs: seq<real>, t: nat)
    requires |hs| <= |p0| && t >= 1
    ensures Frame(p0, hs, t) == Scrolled(p0, hs, Rotation(t, |hs|))
  {
    if t > 1 {
      FrameIsLastScroll(p0, hs, t - 1);
      ScrolledTwice(p0, hs, Rotation(t - 1, |hs|), Rotation(t, |hs|));
    }
  }

  /** The rotation repeats every 2n ticks. */
  lemma RotationPeriodic(t: nat, n: nat)
    ensures Rotation(t + 2 * n, n) == Rotation(t, n)
  {
    if n > 0 {
      assert (t + 2 * n) / 2 == t / 2 + n;
      ModAddMultiple(t / 2, 1, n);
    }
  }

  /** Periodicity: from the first tick on, the frame after tick t + 2n is the frame after tick t. */
  lemma FramePeriodic(p0: seq<Vertex>, hs: seq<real>, t: nat)
    requires |hs| <= |p0| && t >= 1
    ensures Frame(p0, hs, t + 2 * |hs|) == Frame(p0, hs, t)
  {
    FrameIsLastScroll(p0, hs, t);
    FrameIsLastScroll(p0, hs, t + 2 * |hs|);
    RotationPeriodic(t, |hs|);
  }

  /** After 2n ticks over a freshly generated plane, the plane is the generated one again. */
  lemma GeneratedCycle(f: Field, p: seq<Vertex>)
    requires |p| > 0
    ensures Frame(Raised(f, p), Heights(f, p), 2 * |p|) == Raised(f, p)
  {
    var q, hs, n := Raised(f, p), Heights(f, p), |p|;
    assert |hs| == n;
    FrameIsLastScroll(q, hs, 2 * n);
    RotationPeriodic(0, n);
    assert Rotation(2 * n, n) == Rotation(1, n);
    FirstTickIdentity(f, p);
  }

  /**
    * Over a freshly generated plane the cycle closes from the very start:
    * after 2n ticks the plane is again the generated one, and the same holds
    * from every later tick.
    */
  lemma GeneratedFramePeriodic(f: Field, p: seq<Vertex>, t: nat)
    ensures Frame(Raised(f, p), Heights(f, p), t + 2 * |p|) == Frame(Raised(f, p), Heights(f, p), t)
  {
    if t >= 1 {
      FramePeriodic(Raised(f, p), Heights(f, p), t);
    } else if |p| > 0 {
      GeneratedCycle(f, p);
    }
  }
}
