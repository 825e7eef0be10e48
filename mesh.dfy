/** What `generateMesh` computes, as values: the visible faces of a grid in
    the order the mesher visits them, and the integer (pre-scale) position
    and colour buffers those faces produce. */
module Mesh {
  import opened Base
  import opened Grids

  /** A grid as the mesher sees it: its dimensions and the colour of each
      cell (0 for empty). */
  datatype Voxels = Voxels(dims: Dims, color: (nat, nat, nat) -> u32)

  /** The mesher's view of a volume's flat cell array. */
  function View(g: Grid): (v: Voxels)
    requires WellFormed(g)
    ensures v.dims == g.dims
    ensures forall x: nat, y: nat, z: nat :: InBounds(g.dims, x, y, z) ==> v.color(x, y, z) == At(g, x, y, z)
  {
    var v := Voxels(g.dims, (x: nat, y: nat, z: nat) =>
      if Index(g.dims, x, y, z) < |g.cells| then g.cells[Index(g.dims, x, y, z)] else 0);
    assert forall x: nat, y: nat, z: nat :: InBounds(g.dims, x, y, z) ==> v.color(x, y, z) == At(g, x, y, z) by {
      forall x: nat, y: nat, z: nat | InBounds(g.dims, x, y, z) ensures v.color(x, y, z) == At(g, x, y, z) {
        IndexInRange(g.dims, x, y, z);
      }
    }
    v
  }

  /** The six face directions; the mesher tries them in `FaceOrder`. */
  datatype Dir = XNeg | XPos | YNeg | YPos | ZNeg | ZPos

  const FaceOrder: seq<Dir> := [XNeg, XPos, YNeg, YPos, ZNeg, ZPos]

  /** The position of a direction in `FaceOrder`. */
  function DirIndex(d: Dir): (k: nat)
    ensures k < 6 && FaceOrder[k] == d
  {
    match d
    case XNeg => 0
    case XPos => 1
    case YNeg => 2
    case YPos => 3
    case ZNeg => 4
    case ZPos => 5
  }

  /** `FaceOrder` lists each direction once. */
  lemma OrderIndex(k: nat)
    requires k < 6
    ensures DirIndex(FaceOrder[k]) == k
  {
  }

  datatype Vec = Vec(x: int, y: int, z: int)

  /** Component `axis` (0 = x, 1 = y, 2 = z) of a vector. */
  function Coord(v: Vec, axis: nat): int
    requires axis < 3
  {
    if axis == 0 then v.x else if axis == 1 then v.y else v.z
  }

  /** The outward unit normal of a face direction. */
  function Normal(d: Dir): Vec
  {
    match d
    case XNeg => Vec(-1, 0, 0)
    case XPos => Vec(1, 0, 0)
    case YNeg => Vec(0, -1, 0)
    case YPos => Vec(0, 1, 0)
    case ZNeg => Vec(0, 0, -1)
    case ZPos => Vec(0, 0, 1)
  }

  /** One emitted face: the cell it belongs to, its direction and the
      voxel's colour. */
  datatype Face = Face(x: nat, y: nat, z: nat, dir: Dir, color: u32)

  /** The axis a direction's normal lies on. */
  function Axis(d: Dir): (a: nat)
    ensures a < 3 && Coord(Normal(d), a) != 0
  {
    match d
    case XNeg => 0
    case XPos => 0
    case YNeg => 1
    case YPos => 1
    case ZNeg => 2
    case ZPos => 2
  }

  /** The four corners of the face of cell (x, y, z) in direction d. */
  function Corners(d: Dir, x: int, y: int, z: int): (c: seq<Vec>)
    ensures |c| == 4
  {
    match d
    case XNeg => [Vec(x, y, z), Vec(x, y + 1, z), Vec(x, y + 1, z + 1), Vec(x, y, z + 1)]
    case XPos => [Vec(x + 1, y, z), Vec(x + 1, y + 1, z), Vec(x + 1, y + 1, z + 1), Vec(x + 1, y, z + 1)]
    case YNeg => [Vec(x, y, z), Vec(x + 1, y, z), Vec(x + 1, y, z + 1), Vec(x, y, z + 1)]
    case YPos => [Vec(x, y + 1, z), Vec(x + 1, y + 1, z), Vec(x + 1, y + 1, z + 1), Vec(x, y + 1, z + 1)]
    case ZNeg => [Vec(x, y, z), Vec(x + 1, y, z), Vec(x + 1, y + 1, z), Vec(x, y + 1, z)]
    case ZPos => [Vec(x, y, z + 1), Vec(x + 1, y, z + 1), Vec(x + 1, y + 1, z + 1), Vec(x, y + 1, z + 1)]
  }

  /** The corners of a face are four distinct corners of the unit cell,
      all on the side the normal points to: the cell's own coordinate on
      the normal's axis for a negative direction, one more for a positive
      one. */
  lemma CornersOnFace(d: Dir, x: int, y: int, z: int)
    ensures var c := Corners(d, x, y, z);
            forall i :: 0 <= i < 4 ==>
              x <= c[i].x <= x + 1 && y <= c[i].y <= y + 1 && z <= c[i].z <= z + 1 &&
              Coord(c[i], Axis(d)) == Coord(Vec(x, y, z), Axis(d)) + (if Coord(Normal(d), Axis(d)) > 0 then 1 else 0)
    ensures var c := Corners(d, x, y, z);
            forall i, j :: 0 <= i < j < 4 ==> c[i] != c[j]
  {
  }

  /** The two triangles of a quad use corners 0, 1, 2 and then 0, 2, 3. */
  const TriangleCorners: seq<nat> := [0, 1, 2, 0, 2, 3]

  /** The 18 position numbers one face appends: six vertices, three
      coordinates each. */
  function FacePositions(f: Face): (r: seq<int>)
    ensures |r| == 18
  {
    var c := Corners(f.dir, f.x, f.y, f.z);
    seq(18, t requires 0 <= t < 18 => Coord(c[TriangleCorners[t / 3]], t % 3))
  }

  /** A vertex as three position numbers. */
  function Flat(p: Vec): seq<int> { [p.x, p.y, p.z] }

  /** A face's numbers are its corners 0, 1, 2, 0, 2, 3, one after another. */
  lemma FacePositionsAsCorners(f: Face)
    ensures var c := Corners(f.dir, f.x, f.y, f.z);
            FacePositions(f) == Flat(c[0]) + Flat(c[1]) + Flat(c[2]) + Flat(c[0]) + Flat(c[2]) + Flat(c[3])
  {
  }

  /** The position buffer of a list of faces, in order. */
  function PositionsOf(fs: seq<Face>): (r: seq<int>)
    ensures |r| == 18 * |fs|
  {
    if fs == [] then [] else PositionsOf(fs[..|fs| - 1]) + FacePositions(fs[|fs| - 1])
  }

  /** The colour buffer of a list of faces: six copies of each face's colour. */
  function ColorsOf(fs: seq<Face>): (r: seq<u32>)
    ensures |r| == 6 * |fs|
  {
    if fs == [] then [] else ColorsOf(fs[..|fs| - 1]) + seq(6, _ => fs[|fs| - 1].color)
  }

  lemma PositionsAppend(fs: seq<Face>, f: Face)
    ensures PositionsOf(fs + [f]) == PositionsOf(fs) + FacePositions(f)
  {
    assert (fs + [f])[..|fs|] == fs;
  }

  lemma ColorsAppend(fs: seq<Face>, f: Face)
    ensures ColorsOf(fs + [f]) == ColorsOf(fs) + seq(6, _ => f.color)
  {
    assert (fs + [f])[..|fs|] == fs;
  }

  /** The face of cell (x, y, z) in direction d is drawn: the neighbour one
      step along the normal is outside the grid or empty. */
  predicate Open(v: Voxels, x: nat, y: nat, z: nat, d: Dir)
  {
    var n := Normal(d);
    var nx, ny, nz := x + n.x, y + n.y, z + n.z;
    !InBounds(v.dims, nx, ny, nz) || v.color(nx, ny, nz) == 0
  }

  /** The declarative reading of the mesher: a face appears exactly when its
      cell is in the grid and occupied, it carries that cell's colour, and
      its neighbour is outside or empty. */
  predicate Visible(v: Voxels, f: Face)
  {
    InBounds(v.dims, f.x, f.y, f.z) && v.color(f.x, f.y, f.z) != 0 &&
    f.color == v.color(f.x, f.y, f.z) && Open(v, f.x, f.y, f.z, f.dir)
  }

  /** Faces of cell (x, y, z) among the first n directions of `FaceOrder`:
      at most one per direction, each of that cell, in one of those
      directions, with the cell's colour and an open neighbour. */
  function DirFaces(v: Voxels, x: nat, y: nat, z: nat, n: nat): (r: seq<Face>)
    requires InBounds(v.dims, x, y, z) && n <= 6
    ensures |r| <= n
    ensures forall f :: f in r ==>
              f.x == x && f.y == y && f.z == z && DirIndex(f.dir) < n &&
              f.color == v.color(x, y, z) && Open(v, x, y, z, f.dir)
  {
    if n == 0 then []
    else
      var d := FaceOrder[n - 1];
      OrderIndex(n - 1);
      DirFaces(v, x, y, z, n - 1) + if Open(v, x, y, z, d) then [Face(x, y, z, d, v.color(x, y, z))] else []
  }

  /** Trying direction k of `FaceOrder` appends its face when it is open. */
  lemma DirFacesNext(v: Voxels, x: nat, y: nat, z: nat, k: nat, faces: seq<Face>, done: seq<Face>)
    requires InBounds(v.dims, x, y, z) && k < 6
    requires done == faces + DirFaces(v, x, y, z, k)
    ensures faces + DirFaces(v, x, y, z, k + 1) ==
            done + if Open(v, x, y, z, FaceOrder[k]) then [Face(x, y, z, FaceOrder[k], v.color(x, y, z))] else []
  {
    var next := if Open(v, x, y, z, FaceOrder[k]) then [Face(x, y, z, FaceOrder[k], v.color(x, y, z))] else [];
    assert DirFaces(v, x, y, z, k + 1) == DirFaces(v, x, y, z, k) + next;
    assert faces + (DirFaces(v, x, y, z, k) + next) == done + next;
  }

  /** The faces of one cell: none when it is empty, at most six, each of
      that cell and visible. */
  function CellFaces(v: Voxels, x: nat, y: nat, z: nat): (r: seq<Face>)
    requires InBounds(v.dims, x, y, z)
    ensures |r| <= 6
    ensures forall f :: f in r ==> f.x == x && f.y == y && f.z == z && Visible(v, f)
  {
    if v.color(x, y, z) == 0 then [] else DirFaces(v, x, y, z, 6)
  }

  /** A position of the mesher's x, y, z loops, read as "the next cell to
      visit": (x, y, d2) and (x, y + 1, 0) name the same point, and so do
      (x, d1, 0) and (x + 1, 0, 0). */
  predicate Cursor(v: Voxels, x: nat, y: nat, z: nat)
  {
    x <= v.dims.d0 && y <= v.dims.d1 && z <= v.dims.d2 &&
    (x == v.dims.d0 ==> y == 0 && z == 0) && (y == v.dims.d1 ==> z == 0)
  }

  /** Cell (a, b, c) is visited before cell (x, y, z): x, then y, then z order. */
  predicate VisitedBefore(a: nat, b: nat, c: nat, x: nat, y: nat, z: nat)
  {
    a < x || (a == x && (b < y || (b == y && c < z)))
  }

  /** The faces emitted before the loops reach cursor (x, y, z): each is a
      visible face of a cell visited before the cursor. */
  function Scan(v: Voxels, x: nat, y: nat, z: nat): (r: seq<Face>)
    requires Cursor(v, x, y, z)
    ensures forall f :: f in r ==> VisitedBefore(f.x, f.y, f.z, x, y, z) && Visible(v, f)
    decreases x, y, z
  {
    if z > 0 then Scan(v, x, y, z - 1) + CellFaces(v, x, y, z - 1)
    else if y > 0 then Scan(v, x, y - 1, v.dims.d2)
    else if x > 0 then Scan(v, x - 1, v.dims.d1, 0)
    else []
  }

  /** Every face the mesher emits, in emission order: each is visible. */
  function Faces(v: Voxels): (r: seq<Face>)
    ensures forall f :: f in r ==> Visible(v, f)
  {
    Scan(v, v.dims.d0, 0, 0)
  }

  // ---------------------------------------------------------------------
  // Which faces are emitted

  lemma {:induction false} DirFacesExactly(v: Voxels, x: nat, y: nat, z: nat, n: nat, f: Face)
    requires InBounds(v.dims, x, y, z) && n <= 6
    ensures f in DirFaces(v, x, y, z, n) <==>
            f.x == x && f.y == y && f.z == z && DirIndex(f.dir) < n &&
            f.color == v.color(x, y, z) && Open(v, x, y, z, f.dir)
  {
    if n > 0 {
      DirFacesExactly(v, x, y, z, n - 1, f);
    }
  }

  lemma CellFacesExactly(v: Voxels, x: nat, y: nat, z: nat, f: Face)
    requires InBounds(v.dims, x, y, z)
    ensures f in CellFaces(v, x, y, z) <==> f.x == x && f.y == y && f.z == z && Visible(v, f)
  {
    if v.color(x, y, z) != 0 {
      DirFacesExactly(v, x, y, z, 6, f);
    }
  }

  lemma {:induction false} ScanExactly(v: Voxels, x: nat, y: nat, z: nat, f: Face)
    requires Cursor(v, x, y, z)
    ensures f in Scan(v, x, y, z) <==> VisitedBefore(f.x, f.y, f.z, x, y, z) && Visible(v, f)
    decreases x, y, z
  {
    if z > 0 {
      ScanExactly(v, x, y, z - 1, f);
      CellFacesExactly(v, x, y, z - 1, f);
      var a, b := Scan(v, x, y, z - 1), CellFaces(v, x, y, z - 1);
      assert Scan(v, x, y, z) == a + b;
      assert f in a + b <==> f in a || f in b;
    } else if y > 0 {
      ScanExactly(v, x, y - 1, v.dims.d2, f);
    } else if x > 0 {
      ScanExactly(v, x - 1, v.dims.d1, 0, f);
    }
  }

  /** Face culling: a face is emitted if and only if its cell is occupied,
      it carries the cell's colour, and the neighbour along its normal is
      out of bounds or empty. */
  lemma FacesExactly(v: Voxels, f: Face)
    ensures f in Faces(v) <==> Visible(v, f)
  {
    ScanExactly(v, v.dims.d0, 0, 0, f);
  }

  /** A face shared by two occupied cells is never drawn. */
  lemma InternalFaceCulled(v: Voxels, x: nat, y: nat, z: nat, d: Dir, c: u32)
    requires InBounds(v.dims, x, y, z)
    requires InBounds(v.dims, x + Normal(d).x, y + Normal(d).y, z + Normal(d).z)
    requires v.color(x + Normal(d).x, y + Normal(d).y, z + Normal(d).z) != 0
    ensures Face(x, y, z, d, c) !in Faces(v)
  {
    FacesExactly(v, Face(x, y, z, d, c));
  }

  /** An occupied cell whose six neighbours are all outside or empty shows
      all six of its faces. */
  lemma IsolatedVoxel(v: Voxels, x: nat, y: nat, z: nat)
    requires InBounds(v.dims, x, y, z) && v.color(x, y, z) != 0
    requires forall d: Dir :: Open(v, x, y, z, d)
    ensures forall d: Dir :: Face(x, y, z, d, v.color(x, y, z)) in Faces(v)
  {
    forall d: Dir ensures Face(x, y, z, d, v.color(x, y, z)) in Faces(v) {
      FacesExactly(v, Face(x, y, z, d, v.color(x, y, z)));
    }
  }

  /** A grid with no occupied cell yields no faces, hence empty buffers. */
  lemma EmptyGrid(g: Grid)
    requires WellFormed(g)
    requires forall i :: 0 <= i < |g.cells| ==> g.cells[i] == 0
    ensures Faces(View(g)) == [] && PositionsOf(Faces(View(g))) == [] && ColorsOf(Faces(View(g))) == []
  {
    var v := View(g);
    if Faces(v) != [] {
      var f := Faces(v)[0];
      FacesExactly(v, f);
      IndexInRange(v.dims, f.x, f.y, f.z);
      assert false;
    }
  }

  // ---------------------------------------------------------------------
  // The output buffers

  /** Face k's 18 numbers sit at positions 18k .. 18k + 17. */
  lemma {:induction false} PositionsBlock(fs: seq<Face>, k: nat, t: nat)
    requires k < |fs| && t < 18
    ensures PositionsOf(fs)[18 * k + t] == FacePositions(fs[k])[t]
  {
    var last := |fs| - 1;
    var front := PositionsOf(fs[..last]);
    assert PositionsOf(fs) == front + FacePositions(fs[last]);
    if k < last {
      PositionsBlock(fs[..last], k, t);
      assert 18 * k + t < 18 * last;
      assert fs[..last][k] == fs[k];
    } else {
      assert 18 * k + t - |front| == t;
    }
  }

  /** Vertex colour i is the colour of face i / 6. */
  lemma {:induction false} ColorsBlock(fs: seq<Face>, i: nat)
    requires i < 6 * |fs|
    ensures ColorsOf(fs)[i] == fs[i / 6].color
  {
    var last := |fs| - 1;
    var front := ColorsOf(fs[..last]);
    assert ColorsOf(fs) == front + seq(6, _ => fs[last].color);
    if i < 6 * last {
      ColorsBlock(fs[..last], i);
      assert fs[..last][i / 6] == fs[i / 6];
    } else {
      assert i / 6 == last;
    }
  }

  /** Component `axis` of the cell a face belongs to. */
  function CellCoord(f: Face, axis: nat): nat
    requires axis < 3
  {
    if axis == 0 then f.x else if axis == 1 then f.y else f.z
  }

  /** The extent of the grid along `axis`. */
  function Extent(d: Dims, axis: nat): nat
    requires axis < 3
  {
    if axis == 0 then d.d0 else if axis == 1 then d.d1 else d.d2
  }

  /** Every position number of a face is its cell's coordinate on that axis
      or one more: the quad lies on the boundary of the unit cell. */
  lemma FacePositionsInCell(f: Face, t: nat)
    requires t < 18
    ensures CellCoord(f, t % 3) <= FacePositions(f)[t] <= CellCoord(f, t % 3) + 1
  {
    var c := Corners(f.dir, f.x, f.y, f.z);
    var k := TriangleCorners[t / 3];
    assert FacePositions(f)[t] == Coord(c[k], t % 3);
  }

  /** The buffers agree in length: 18 numbers and 6 colours per face. */
  lemma MeshSizes(v: Voxels)
    ensures |PositionsOf(Faces(v))| == 18 * |Faces(v)| == 3 * |ColorsOf(Faces(v))|
  {
  }

  /** Before scaling every position number lies in [0, d] for its axis. */
  lemma PositionsInGrid(v: Voxels, i: nat)
    requires i < |PositionsOf(Faces(v))|
    ensures 0 <= PositionsOf(Faces(v))[i] <= Extent(v.dims, i % 3)
  {
    var fs := Faces(v);
    var k, t := i / 18, i % 18;
    assert k < |fs| && i == 18 * k + t;
    PositionsBlock(fs, k, t);
    FacePositionsInCell(fs[k], t);
    FacesExactly(v, fs[k]);
    CellInExtent(v.dims, fs[k], t % 3);
    SameResidue(i, k, t);
  }

  lemma {:induction false} SameResidue(i: nat, k: nat, t: nat)
    requires i == 18 * k + t && t < 18
    ensures i % 3 == t % 3
  {
    if k > 0 {
      SameResidue(i - 18, k - 1, t);
    }
  }

  lemma CellInExtent(d: Dims, f: Face, axis: nat)
    requires InBounds(d, f.x, f.y, f.z) && axis < 3
    ensures CellCoord(f, axis) + 1 <= Extent(d, axis)
  {
  }

  /** Every vertex colour is the non-zero colour of the voxel its face
      belongs to. */
  lemma ColorsAreVoxelColors(v: Voxels, i: nat)
    requires i < |ColorsOf(Faces(v))|
    ensures var f := Faces(v)[i / 6];
            InBounds(v.dims, f.x, f.y, f.z) &&
            ColorsOf(Faces(v))[i] == v.color(f.x, f.y, f.z) != 0
  {
    var fs := Faces(v);
    ColorsBlock(fs, i);
    FacesExactly(v, fs[i / 6]);
  }

  /** When every neighbour of an occupied cell is open, the cell shows its
      faces in `FaceOrder`. */
  lemma {:induction false} AllOpenDirFaces(v: Voxels, x: nat, y: nat, z: nat, n: nat)
    requires InBounds(v.dims, x, y, z) && n <= 6
    requires forall d: Dir :: Open(v, x, y, z, d)
    ensures DirFaces(v, x, y, z, n) == seq(n, j requires 0 <= j < n => Face(x, y, z, FaceOrder[j], v.color(x, y, z)))
  {
    if n > 0 {
      AllOpenDirFaces(v, x, y, z, n - 1);
      assert Open(v, x, y, z, FaceOrder[n - 1]);
      var all := seq(n, j requires 0 <= j < n => Face(x, y, z, FaceOrder[j], v.color(x, y, z)));
      assert all[..n - 1] == seq(n - 1, j requires 0 <= j < n - 1 => Face(x, y, z, FaceOrder[j], v.color(x, y, z)));
      assert all == all[..n - 1] + [all[n - 1]];
    }
  }

  /** A single occupied 1x1x1 grid draws all six faces: 108 position
      numbers and 36 colours, every one of them the voxel's colour. */
  lemma LoneCell(v: Voxels)
    requires v.dims == Dims(1, 1, 1) && v.color(0, 0, 0) != 0
    ensures |Faces(v)| == 6
    ensures |PositionsOf(Faces(v))| == 108 && |ColorsOf(Faces(v))| == 36
    ensures forall i :: 0 <= i < |ColorsOf(Faces(v))| ==> ColorsOf(Faces(v))[i] == v.color(0, 0, 0)
  {
    LoneVoxel(v, 0, 0, 0);
    forall i | 0 <= i < |ColorsOf(Faces(v))| ensures ColorsOf(Faces(v))[i] == v.color(0, 0, 0) {
      ColorsAreVoxelColors(v, i);
    }
  }

  // ---------------------------------------------------------------------
  // Emission order and counting

  /** Face f is emitted before face g: its cell comes earlier in the x, y,
      z loops, or it is the same cell and its direction comes earlier in
      `FaceOrder`. */
  predicate Precedes(f: Face, g: Face)
  {
    VisitedBefore(f.x, f.y, f.z, g.x, g.y, g.z) ||
    (f.x == g.x && f.y == g.y && f.z == g.z && DirIndex(f.dir) < DirIndex(g.dir))
  }

  /** Faces strictly in emission order. */
  predicate Ordered(fs: seq<Face>)
  {
    forall i, j :: 0 <= i < j < |fs| ==> Precedes(fs[i], fs[j])
  }

  lemma OrderedAppend(a: seq<Face>, b: seq<Face>)
    requires Ordered(a) && Ordered(b)
    requires forall f, g :: f in a && g in b ==> Precedes(f, g)
    ensures Ordered(a + b)
  {
    forall i, j | 0 <= i < j < |a + b| ensures Precedes((a + b)[i], (a + b)[j]) {
      if j < |a| {
        assert (a + b)[i] == a[i] && (a + b)[j] == a[j];
      } else if i >= |a| {
        assert (a + b)[i] == b[i - |a|] && (a + b)[j] == b[j - |a|];
      } else {
        assert (a + b)[i] == a[i] && (a + b)[j] == b[j - |a|];
      }
    }
  }

  /** A cell's faces come in `FaceOrder`. */
  lemma {:induction false} DirFacesOrdered(v: Voxels, x: nat, y: nat, z: nat, n: nat)
    requires InBounds(v.dims, x, y, z) && n <= 6
    ensures Ordered(DirFaces(v, x, y, z, n))
  {
    if n > 0 {
      var d := FaceOrder[n - 1];
      OrderIndex(n - 1);
      DirFacesOrdered(v, x, y, z, n - 1);
      var b := if Open(v, x, y, z, d) then [Face(x, y, z, d, v.color(x, y, z))] else [];
      OrderedAppend(DirFaces(v, x, y, z, n - 1), b);
    }
  }

  /** The mesher emits faces strictly in order: by cell in x, y, z loop
      order, and within a cell in `FaceOrder`. */
  lemma {:induction false} ScanOrdered(v: Voxels, x: nat, y: nat, z: nat)
    requires Cursor(v, x, y, z)
    ensures Ordered(Scan(v, x, y, z))
    decreases x, y, z, 1
  {
    if z > 0 {
      CellOrdered(v, x, y, z);
    } else if y > 0 {
      RowOrdered(v, x, y);
    } else if x > 0 {
      PlaneOrdered(v, x);
    }
  }

  /** The scan up to cell (x, y, z - 1), then that cell, in order. */
  lemma {:induction false} CellOrdered(v: Voxels, x: nat, y: nat, z: nat)
    requires Cursor(v, x, y, z) && z > 0
    ensures Ordered(Scan(v, x, y, z))
    decreases x, y, z, 0
  {
    ScanOrdered(v, x, y, z - 1);
    ScanStepOrdered(v, x, y, z);
  }

  /** The scan up to the end of row y - 1, which is where row y starts. */
  lemma {:induction false} RowOrdered(v: Voxels, x: nat, y: nat)
    requires Cursor(v, x, y, 0) && y > 0
    ensures Ordered(Scan(v, x, y, 0))
    decreases x, y, 0, 0
  {
    ScanOrdered(v, x, y - 1, v.dims.d2);
    RowShift(v, x, y);
  }

  /** The scan up to the end of plane x - 1, which is where plane x
      starts. */
  lemma {:induction false} PlaneOrdered(v: Voxels, x: nat)
    requires Cursor(v, x, 0, 0) && x > 0
    ensures Ordered(Scan(v, x, 0, 0))
    decreases x, 0, 0, 0
  {
    ScanOrdered(v, x - 1, v.dims.d1, 0);
    PlaneShift(v, x);
  }

  /** Moving on to the next row emits nothing. */
  lemma RowShift(v: Voxels, x: nat, y: nat)
    requires Cursor(v, x, y, 0) && y > 0
    requires Ordered(Scan(v, x, y - 1, v.dims.d2))
    ensures Ordered(Scan(v, x, y, 0))
  {
    assert Scan(v, x, y, 0) == Scan(v, x, y - 1, v.dims.d2);
  }

  /** Moving on to the next plane emits nothing. */
  lemma PlaneShift(v: Voxels, x: nat)
    requires Cursor(v, x, 0, 0) && x > 0
    requires Ordered(Scan(v, x - 1, v.dims.d1, 0))
    ensures Ordered(Scan(v, x, 0, 0))
  {
    assert Scan(v, x, 0, 0) == Scan(v, x - 1, v.dims.d1, 0);
  }

  /** Appending the faces of cell (x, y, z - 1) keeps the scan in order. */
  lemma ScanStepOrdered(v: Voxels, x: nat, y: nat, z: nat)
    requires Cursor(v, x, y, z) && z > 0
    requires Ordered(Scan(v, x, y, z - 1))
    ensures Ordered(Scan(v, x, y, z))
  {
    var a, b := Scan(v, x, y, z - 1), CellFaces(v, x, y, z - 1);
    if v.color(x, y, z - 1) != 0 {
      DirFacesOrdered(v, x, y, z - 1, 6);
    }
    CellAfterScan(v, x, y, z - 1, a, b);
    OrderedAppend(a, b);
  }

  /** Every face emitted before cell (x, y, z) precedes that cell's faces. */
  lemma CellAfterScan(v: Voxels, x: nat, y: nat, z: nat, a: seq<Face>, b: seq<Face>)
    requires forall f :: f in a ==> VisitedBefore(f.x, f.y, f.z, x, y, z)
    requires forall g :: g in b ==> g.x == x && g.y == y && g.z == z
    ensures forall f, g :: f in a && g in b ==> Precedes(f, g)
  {
  }

  /** Faces in emission order are all different. */
  lemma OrderedDistinct(fs: seq<Face>)
    requires Ordered(fs)
    ensures forall i, j :: 0 <= i < j < |fs| ==> fs[i] != fs[j]
  {
  }

  /** A list of different faces has as many faces as its set of faces. */
  lemma {:induction false} DistinctCount(fs: seq<Face>)
    requires forall i, j :: 0 <= i < j < |fs| ==> fs[i] != fs[j]
    ensures |set f | f in fs| == |fs|
  {
    if fs != [] {
      var front := fs[..|fs| - 1];
      var last := fs[|fs| - 1];
      DistinctCount(front);
      assert last !in front;
      assert (set f | f in fs) == (set f | f in front) + {last};
    }
  }

  /** Every visible face is emitted exactly once, in emission order; so the
      position buffer holds 18 numbers and the colour buffer 6 colours per
      visible face. */
  lemma FacesOnce(v: Voxels)
    ensures Ordered(Faces(v))
    ensures |set f | f in Faces(v)| == |Faces(v)|
    ensures |PositionsOf(Faces(v))| == 18 * |set f | f in Faces(v)|
    ensures |ColorsOf(Faces(v))| == 6 * |set f | f in Faces(v)|
  {
    ScanOrdered(v, v.dims.d0, 0, 0);
    OrderedDistinct(Faces(v));
    DistinctCount(Faces(v));
  }

  /** The six faces of cell (x, y, z) with colour c. */
  function SixFaces(x: nat, y: nat, z: nat, c: u32): (r: set<Face>)
    ensures |r| == 6
  {
    {Face(x, y, z, XNeg, c), Face(x, y, z, XPos, c), Face(x, y, z, YNeg, c),
     Face(x, y, z, YPos, c), Face(x, y, z, ZNeg, c), Face(x, y, z, ZPos, c)}
  }

  /** One occupied cell anywhere in an otherwise empty grid draws exactly
      its six faces: 108 position numbers and 36 colours. */
  lemma LoneVoxel(v: Voxels, x: nat, y: nat, z: nat)
    requires InBounds(v.dims, x, y, z) && v.color(x, y, z) != 0
    requires forall a: nat, b: nat, c: nat ::
               InBounds(v.dims, a, b, c) && (a, b, c) != (x, y, z) ==> v.color(a, b, c) == 0
    ensures (set f | f in Faces(v)) == SixFaces(x, y, z, v.color(x, y, z))
    ensures |Faces(v)| == 6
    ensures |PositionsOf(Faces(v))| == 108 && |ColorsOf(Faces(v))| == 36
  {
    var six := SixFaces(x, y, z, v.color(x, y, z));
    forall f: Face ensures f in Faces(v) <==> f in six {
      FacesExactly(v, f);
      LoneFace(v, x, y, z, f);
    }
    FacesOnce(v);
  }

  /** In a grid whose only occupied cell is (x, y, z), the visible faces are
      that cell's six faces. */
  lemma LoneFace(v: Voxels, x: nat, y: nat, z: nat, f: Face)
    requires InBounds(v.dims, x, y, z) && v.color(x, y, z) != 0
    requires forall a: nat, b: nat, c: nat ::
               InBounds(v.dims, a, b, c) && (a, b, c) != (x, y, z) ==> v.color(a, b, c) == 0
    ensures Visible(v, f) <==> f in SixFaces(x, y, z, v.color(x, y, z))
  {
    var n := Normal(f.dir);
    assert (x + n.x, y + n.y, z + n.z) != (x, y, z);
    if f.x != x || f.y != y || f.z != z {
      assert (f.x, f.y, f.z) != (x, y, z);
    }
  }

  /** The visible faces of two occupied cells stacked along y, (x, y, z)
      under (x, y + 1, z), with colours c and c': each cell's six faces
      except the two that touch. */
  function StackedFaces(x: nat, y: nat, z: nat, c: u32, c': u32): (r: set<Face>)
    ensures |r| == 10
  {
    {Face(x, y, z, XNeg, c), Face(x, y, z, XPos, c), Face(x, y, z, YNeg, c),
     Face(x, y, z, ZNeg, c), Face(x, y, z, ZPos, c),
     Face(x, y + 1, z, XNeg, c'), Face(x, y + 1, z, XPos, c'), Face(x, y + 1, z, YPos, c'),
     Face(x, y + 1, z, ZNeg, c'), Face(x, y + 1, z, ZPos, c')}
  }

  /** Two occupied cells stacked along y in an otherwise empty grid draw ten
      faces: the shared face is culled on both sides. */
  lemma StackedPair(v: Voxels, x: nat, y: nat, z: nat)
    requires InBounds(v.dims, x, y, z) && InBounds(v.dims, x, y + 1, z)
    requires v.color(x, y, z) != 0 && v.color(x, y + 1, z) != 0
    requires forall a: nat, b: nat, c: nat ::
               InBounds(v.dims, a, b, c) && (a, b, c) != (x, y, z) && (a, b, c) != (x, y + 1, z) ==>
               v.color(a, b, c) == 0
    ensures (set f | f in Faces(v)) == StackedFaces(x, y, z, v.color(x, y, z), v.color(x, y + 1, z))
    ensures |Faces(v)| == 10
    ensures |PositionsOf(Faces(v))| == 180 && |ColorsOf(Faces(v))| == 60
  {
    var ten := StackedFaces(x, y, z, v.color(x, y, z), v.color(x, y + 1, z));
    forall f: Face ensures f in Faces(v) <==> f in ten {
      FacesExactly(v, f);
      StackedFace(v, x, y, z, f);
    }
    FacesOnce(v);
  }

  /** In a grid whose only occupied cells are (x, y, z) and (x, y + 1, z),
      the visible faces are the ten that do not touch. */
  lemma StackedFace(v: Voxels, x: nat, y: nat, z: nat, f: Face)
    requires InBounds(v.dims, x, y, z) && InBounds(v.dims, x, y + 1, z)
    requires v.color(x, y, z) != 0 && v.color(x, y + 1, z) != 0
    requires forall a: nat, b: nat, c: nat ::
               InBounds(v.dims, a, b, c) && (a, b, c) != (x, y, z) && (a, b, c) != (x, y + 1, z) ==>
               v.color(a, b, c) == 0
    ensures Visible(v, f) <==> f in StackedFaces(x, y, z, v.color(x, y, z), v.color(x, y + 1, z))
  {
    var n := Normal(f.dir);
    var nx, ny, nz := f.x + n.x, f.y + n.y, f.z + n.z;
    if (f.x, f.y, f.z) != (x, y, z) && (f.x, f.y, f.z) != (x, y + 1, z) {
      assert !Visible(v, f);
    } else if (nx, ny, nz) != (x, y, z) && (nx, ny, nz) != (x, y + 1, z) {
      assert Open(v, f.x, f.y, f.z, f.dir);
    }
  }
}
