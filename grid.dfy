/** The dense voxel grid as a value: its dimensions, the flat cell index
    `z*d0*d1 + y*d0 + x`, and the effect of a single store into the flat
    `Uint32Array` that backs a `Volume`. A cell of 0 is empty; any other
    value is a packed RGBA colour. */
module Grids {
  import opened Base

  /** `dimensions[0]`, `dimensions[1]`, `dimensions[2]` of a volume. */
  datatype Dims = Dims(d0: nat, d1: nat, d2: nat)

  /** A volume's contents: its dimensions and its flat cell array. */
  datatype Grid = Grid(dims: Dims, cells: seq<u32>)

  /** The number of cells, `d0 * d1 * d2`. */
  function Size(d: Dims): nat { d.d0 * d.d1 * d.d2 }

  predicate WellFormed(g: Grid) { |g.cells| == Size(g.dims) }

  predicate InBounds(d: Dims, x: int, y: int, z: int)
  {
    0 <= x < d.d0 && 0 <= y < d.d1 && 0 <= z < d.d2
  }

  /** The flat position of cell (x, y, z), as `get` and `set` compute it. */
  function Index(d: Dims, x: nat, y: nat, z: nat): nat
  {
    z * d.d0 * d.d1 + y * d.d0 + x
  }

  lemma {:induction false} MulAtLeast(k: nat, n: nat)
    requires k >= 1
    ensures k * n >= n
  {
    if k > 1 {
      MulAtLeast(k - 1, n);
      assert k * n == (k - 1) * n + n;
    }
  }

  lemma MulLess(a: nat, b: nat, n: nat)
    requires a < b
    ensures a * n + n <= b * n
  {
    MulAtLeast(b - a, n);
    assert b * n == a * n + (b - a) * n;
  }

  /** Mixed-radix digits are unique: `lo + n*hi` determines `lo < n` and `hi`. */
  lemma DigitsUnique(lo: nat, hi: nat, lo': nat, hi': nat, n: nat)
    requires lo < n && lo' < n
    requires lo + n * hi == lo' + n * hi'
    ensures lo == lo' && hi == hi'
  {
    assert n * hi == hi * n && n * hi' == hi' * n;
    if hi < hi' {
      MulLess(hi, hi', n);
      assert false;
    } else if hi' < hi {
      MulLess(hi', hi, n);
      assert false;
    }
  }

  /** The flat index read as mixed-radix digits x, y, z in bases d0 and d1. */
  lemma IndexDigits(d: Dims, x: nat, y: nat, z: nat)
    ensures Index(d, x, y, z) == x + d.d0 * (y + d.d1 * z)
  {
    calc {
      Index(d, x, y, z);
      z * d.d0 * d.d1 + y * d.d0 + x;
      { assert z * d.d0 * d.d1 == d.d0 * (d.d1 * z); }
      d.d0 * (d.d1 * z) + d.d0 * y + x;
    }
  }

  lemma DigitsBound(x: nat, y: nat, z: nat, d0: nat, d1: nat, d2: nat)
    requires x < d0 && y < d1 && z < d2
    ensures x + d0 * (y + d1 * z) < d0 * d1 * d2
  {
    var row := y + d1 * z;
    assert row + 1 <= d1 * d2 by {
      MulLess(z, d2, d1);
      assert z * d1 == d1 * z && d2 * d1 == d1 * d2;
    }
    MulLess(row, d1 * d2, d0);
    assert d0 * row == row * d0;
    assert d1 * d2 * d0 == d0 * d1 * d2;
  }

  /** Every in-bounds cell has its flat index inside the array. */
  lemma IndexInRange(d: Dims, x: nat, y: nat, z: nat)
    requires InBounds(d, x, y, z)
    ensures Index(d, x, y, z) < Size(d)
  {
    IndexDigits(d, x, y, z);
    DigitsBound(x, y, z, d.d0, d.d1, d.d2);
  }

  /** Distinct in-bounds cells have distinct flat indices. */
  lemma IndexInjective(d: Dims, x: nat, y: nat, z: nat, x': nat, y': nat, z': nat)
    requires InBounds(d, x, y, z) && InBounds(d, x', y', z')
    requires Index(d, x, y, z) == Index(d, x', y', z')
    ensures x == x' && y == y' && z == z'
  {
    var hi, hi' := y + d.d1 * z, y' + d.d1 * z';
    assert x + d.d0 * hi == x' + d.d0 * hi' by {
      IndexDigits(d, x, y, z);
      IndexDigits(d, x', y', z');
    }
    DigitsUnique(x, hi, x', hi', d.d0);
    DigitsUnique(y, z, y', z', d.d1);
  }

  /** The colour of an in-bounds cell. */
  function At(g: Grid, x: nat, y: nat, z: nat): (c: u32)
    requires WellFormed(g) && InBounds(g.dims, x, y, z)
  {
    IndexInRange(g.dims, x, y, z);
    g.cells[Index(g.dims, x, y, z)]
  }

  /** `data[Index(x, y, z)] = rgba` on a `Uint32Array`: a store past the end
      of a typed array is silently dropped, and coordinates outside the
      dimensions whose flat index still fits land on some other cell. */
  function Put(d: Dims, cells: seq<u32>, x: nat, y: nat, z: nat, rgba: u32): (r: seq<u32>)
    ensures |r| == |cells|
    ensures forall i :: 0 <= i < |r| && i != Index(d, x, y, z) ==> r[i] == cells[i]
    ensures Index(d, x, y, z) < |cells| ==> r[Index(d, x, y, z)] == rgba
  {
    var i := Index(d, x, y, z);
    if i < |cells| then cells[i := rgba] else cells
  }

  /** Reading a cell back after storing into it gives the stored colour, and
      every other in-bounds cell keeps its colour. */
  lemma PutThenAt(g: Grid, x: nat, y: nat, z: nat, rgba: u32, x': nat, y': nat, z': nat)
    requires WellFormed(g) && InBounds(g.dims, x, y, z) && InBounds(g.dims, x', y', z')
    ensures WellFormed(Grid(g.dims, Put(g.dims, g.cells, x, y, z, rgba)))
    ensures At(Grid(g.dims, Put(g.dims, g.cells, x, y, z, rgba)), x', y', z') ==
            if (x', y', z') == (x, y, z) then rgba else At(g, x', y', z')
  {
    var i, j := Index(g.dims, x, y, z), Index(g.dims, x', y', z');
    var r := Put(g.dims, g.cells, x, y, z, rgba);
    IndexInRange(g.dims, x, y, z);
    IndexInRange(g.dims, x', y', z');
    if (x', y', z') == (x, y, z) {
      assert r[j] == rgba;
    } else {
      if i == j {
        IndexInjective(g.dims, x, y, z, x', y', z');
      }
      assert r[j] == g.cells[j];
    }
  }
}
