/** The `Volume` class: a dense voxel grid stored as one flat `Uint32Array`
    of `d0*d1*d2` cells, its cell accessors, and the face-culling mesher
    that turns it into position and colour buffers. */
module Volumes {
  import opened Base
  import opened Grids
  import opened Mesh

  class Volume {
    const dimensions: Dims
    var data: array<u32>

    ghost predicate Valid()
      reads this
    {
      data.Length == Size(dimensions)
    }

    /** The volume's contents as a value. */
    ghost function Model(): (g: Grid)
      reads this, data
      requires Valid()
      ensures WellFormed(g) && g.dims == dimensions
    {
      Grid(dimensions, data[..])
    }

    /** A fresh volume holds exactly `d0*d1*d2` cells, all empty. */
    constructor (dimensions: Dims)
      ensures Valid() && this.dimensions == dimensions && fresh(data)
      ensures data.Length == dimensions.d0 * dimensions.d1 * dimensions.d2
      ensures forall i :: 0 <= i < data.Length ==> data[i] == 0
    {
      this.dimensions := dimensions;
      data := new u32[Size(dimensions)](_ => 0);
    }

    /** The colour stored at an in-bounds cell. */
    function Get(x: nat, y: nat, z: nat): (c: u32)
      reads this, data
      requires Valid() && InBounds(dimensions, x, y, z)
      ensures c == At(Model(), x, y, z)
    {
      IndexInRange(dimensions, x, y, z);
      data[Index(dimensions, x, y, z)]
    }

    /** Stores a colour at (x, y, z). Coordinates are not checked: a flat
        index past the end is dropped as a typed array drops it. */
    method Set(x: nat, y: nat, z: nat, rgba: u32)
      requires Valid()
      modifies data
      ensures Valid()
      ensures data[..] == Put(dimensions, old(data[..]), x, y, z, rgba)
      ensures InBounds(dimensions, x, y, z) ==> Get(x, y, z) == rgba
      ensures InBounds(dimensions, x, y, z) ==>
                forall x': nat, y': nat, z': nat ::
                  InBounds(dimensions, x', y', z') && (x', y', z') != (x, y, z) ==>
                    Get(x', y', z') == old(Get(x', y', z'))
    {
      var i := Index(dimensions, x, y, z);
      if i < data.Length {
        data[i] := rgba;
      }
      assert data[..] == Put(dimensions, old(data[..]), x, y, z, rgba);
      if InBounds(dimensions, x, y, z) {
        ghost var before := Grid(dimensions, old(data[..]));
        PutThenAt(before, x, y, z, rgba, x, y, z);
        forall x': nat, y': nat, z': nat | InBounds(dimensions, x', y', z') && (x', y', z') != (x, y, z)
          ensures Get(x', y', z') == old(Get(x', y', z'))
        {
          PutThenAt(before, x, y, z, rgba, x', y', z');
        }
      }
    }

    /** Face-culling mesher: visits the cells in x, then y, then z order
        and appends the visible faces of each (`AppendCellFaces`). Positions
        are the integer ones, before any scaling. */
    method GenerateMesh() returns (positions: seq<int>, colors: seq<u32>)
      requires Valid()
      ensures positions == PositionsOf(Faces(View(Model())))
      ensures colors == ColorsOf(Faces(View(Model())))
    {
      ghost var v := View(Model());
      ghost var faces: seq<Face> := [];
      positions, colors := [], [];
      var x := 0;
      while x < dimensions.d0
        invariant x <= dimensions.d0
        invariant faces == Scan(v, x, 0, 0)
        invariant positions == PositionsOf(faces) && colors == ColorsOf(faces)
      {
        var y := 0;
        while y < dimensions.d1
          invariant y <= dimensions.d1
          invariant faces == Scan(v, x, y, 0)
          invariant positions == PositionsOf(faces) && colors == ColorsOf(faces)
        {
          var z := 0;
          while z < dimensions.d2
            invariant z <= dimensions.d2
            invariant faces == Scan(v, x, y, z)
            invariant positions == PositionsOf(faces) && colors == ColorsOf(faces)
          {
            positions, colors := AppendCellFaces(x, y, z, faces, positions, colors);
            faces := faces + CellFaces(v, x, y, z);
            z := z + 1;
          }
          y := y + 1;
        }
        x := x + 1;
      }
    }

    /** The culling test: the neighbour one step along the face normal is
        outside `[0, d)` on some axis, or is empty. */
    function NeighbourOpen(x: nat, y: nat, z: nat, dir: Dir): (b: bool)
      reads this, data
      requires Valid() && InBounds(dimensions, x, y, z)
      ensures b == Open(View(Model()), x, y, z, dir)
    {
      var n := Normal(dir);
      var dx, dy, dz := x + n.x, y + n.y, z + n.z;
      dx < 0 || dx >= dimensions.d0 || dy < 0 || dy >= dimensions.d1 ||
      dz < 0 || dz >= dimensions.d2 || Get(dx, dy, dz) == 0
    }

    /** The body of the mesher's loops for cell (x, y, z): nothing for an
        empty cell; otherwise, for each direction in `FaceOrder` whose
        neighbour is outside the grid or empty, the face's two triangles
        (corners 0, 1, 2 and 0, 2, 3: 18 position numbers) and six copies
        of the voxel's colour. */
    method AppendCellFaces(x: nat, y: nat, z: nat, ghost faces: seq<Face>, positions: seq<int>, colors: seq<u32>)
      returns (positions': seq<int>, colors': seq<u32>)
      requires Valid() && InBounds(dimensions, x, y, z)
      requires positions == PositionsOf(faces) && colors == ColorsOf(faces)
      ensures positions' == PositionsOf(faces + CellFaces(View(Model()), x, y, z))
      ensures colors' == ColorsOf(faces + CellFaces(View(Model()), x, y, z))
    {
      ghost var v := View(Model());
      positions', colors' := positions, colors;
      var rgba := Get(x, y, z);
      assert rgba == v.color(x, y, z);
      if rgba == 0 {
        assert faces + CellFaces(v, x, y, z) == faces;
        return;
      }
      ghost var done := faces;
      var k := 0;
      while k < 6
        invariant k <= 6
        invariant done == faces + DirFaces(v, x, y, z, k)
        invariant positions' == PositionsOf(done) && colors' == ColorsOf(done)
      {
        var dir := FaceOrder[k];
        DirFacesNext(v, x, y, z, k, faces, done);
        if NeighbourOpen(x, y, z, dir) {
          positions', colors' := AppendFace(Face(x, y, z, dir, rgba), done, positions', colors');
          done := done + [Face(x, y, z, dir, rgba)];
        }
        k := k + 1;
      }
      assert done == faces + CellFaces(v, x, y, z);
    }

    /** Appends one face: its two triangles, then six copies of its colour. */
    static method AppendFace(face: Face, ghost faces: seq<Face>, positions: seq<int>, colors: seq<u32>)
      returns (positions': seq<int>, colors': seq<u32>)
      requires positions == PositionsOf(faces) && colors == ColorsOf(faces)
      ensures positions' == PositionsOf(faces + [face]) && colors' == ColorsOf(faces + [face])
    {
      var c := Corners(face.dir, face.x, face.y, face.z);
      positions' := positions + Flat(c[0]) + Flat(c[1]) + Flat(c[2]) +
                                Flat(c[0]) + Flat(c[2]) + Flat(c[3]);
      FacePositionsAsCorners(face);
      PositionsAppend(faces, face);
      colors' := colors;
      var i := 0;
      while i < 6
        invariant i <= 6
        invariant colors' == colors + seq(i, _ => face.color)
      {
        colors' := colors' + [face.color];
        i := i + 1;
      }
      ColorsAppend(faces, face);
    }
  }
}
