/**
  * The `Floor` component of src/App.js with the rendering host removed: it
  * holds the plane's vertex buffer, the generated height list and the scroll
  * offset, generates the terrain once and scrolls it on every frame.
  */
module App {
  import opened Scroll
  import opened Terrain

  class Floor {
    /** The sampler the heights come from (noise and remap). */
    const field: Field
    /** The plane geometry's vertex buffer, updated in place. */
    const plane: array<Vertex>
    /** The generated height list, one height per vertex. */
    var heights: seq<real>
    /** The scroll offset; starts at one half and grows by one half per frame. */
    var offset: real
    /** Signal to the renderer that the vertex buffer changed. */
    var needsUpdate: bool
    /** Number of frames scrolled so far. */
    ghost var ticks: nat
    /** The buffer as the last generation (or construction) left it. */
    ghost var start: seq<Vertex>

    /**
      * The offset is always (ticks + 1) half-steps, a non-negative multiple
      * of one half; and scrolling has changed the buffer since `start` only
      * in the z of the vertices the height list covers.
      */
    ghost predicate Valid()
      reads this, plane
    {
      offset == (ticks + 1) as real / 2.0 &&
      Agrees(plane[..], start, |heights|)
    }

    constructor (field: Field, plane: array<Vertex>)
      ensures Valid()
      ensures this.field == field && this.plane == plane
      ensures heights == [] && offset == 0.5 && !needsUpdate && ticks == 0
      ensures start == plane[..]
    {
      this.field := field;
      this.plane := plane;
      heights := [];
      offset := 0.5;
      needsUpdate := false;
      ticks := 0;
      start := plane[..];
    }

    /**
      * generateTerrain: visits every vertex in order, appends its height to
      * the height list and writes the same height into its z.
      */
    method Generate()
      requires Valid()
      modifies this`heights, this`start, plane
      ensures Valid()
      ensures heights == old(heights) + Heights(field, old(plane[..]))
      ensures plane[..] == Raised(field, old(plane[..]))
      ensures start == plane[..]
    {
      ghost var p0 := plane[..];
      ghost var h0 := heights;
      var i := 0;
      while i < plane.Length
        invariant 0 <= i <= plane.Length
        invariant heights == h0 + Heights(field, p0[..i])
        invariant forall j :: 0 <= j < i ==> plane[j] == p0[j].(z := field.Height(p0[j]))
        invariant forall j :: i <= j < plane.Length ==> plane[j] == p0[j]
      {
        var v := plane[i];
        var noiseVal := field.Height(v);
        assert p0[..i + 1][..i] == p0[..i];
        heights := heights + [noiseVal];
        plane[i] := v.(z := noiseVal);
        i := i + 1;
      }
      assert p0[..plane.Length] == p0;
      start := plane[..];
    }

    /**
      * The frame step: every height of the list is written into the z of
      * plane vertex floor((idx + offset) % n); then the offset grows by one
      * half and the renderer is told to refresh. The height list itself is
      * only read.
      */
    method Tick()
      requires Valid() && |heights| <= plane.Length
      modifies this`offset, this`needsUpdate, this`ticks, plane
      ensures Valid() && ticks == old(ticks) + 1 && offset == old(offset) + 0.5 && needsUpdate
      ensures heights == old(heights)
      ensures plane[..] == Scrolled(old(plane[..]), heights, Rotation(ticks, |heights|))
      ensures heights == [] ==> plane[..] == old(plane[..])
      ensures start == old(start)
      ensures plane[..] == Scrolled(start, heights, Rotation(ticks, |heights|))
      ensures plane[..] == Frame(start, heights, ticks)
    {
      ghost var p0 := plane[..];
      var n := |heights|;
      ghost var k := Rotation(ticks + 1, n);
      var idx := 0;
      while idx < n
        modifies plane
        invariant 0 <= idx <= n
        invariant forall j :: 0 <= j < plane.Length ==>
          plane[j] == if j < n && Source(j, k, n) < idx then p0[j].(z := heights[Source(j, k, n)]) else p0[j]
      {
        var planeIndex := PlaneIndex(idx, offset, n);
        HalfStepIndex(idx, ticks + 1, n);
        SourceOfDest(idx, k, n);
        RotationBijective(k, n);
        plane[planeIndex] := plane[planeIndex].(z := heights[idx]);
        idx := idx + 1;
      }
      offset := offset + 0.5;
      ticks := ticks + 1;
      needsUpdate := true;
      ScrolledAgrees(p0, start, heights, k);
      FrameIsLastScroll(start, heights, ticks);
    }
  }
}
