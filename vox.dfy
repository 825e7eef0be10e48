/** The MagicaVoxel reader (`Volume.load`): the "VOX " magic, the MAIN
    chunk at byte 8, its SIZE, RGBA and XYZI children, and the voxel
    records that fill a fresh volume. */
module Vox {
  import opened Base
  import opened Grids
  import opened Chunks
  import opened Volumes

  const Magic: seq<byte> := [86, 79, 88, 32]    // "VOX "
  const MainId: seq<byte> := [77, 65, 73, 78]   // "MAIN"
  const SizeId: seq<byte> := [83, 73, 90, 69]   // "SIZE"
  const RgbaId: seq<byte> := [82, 71, 66, 65]   // "RGBA"
  const XyziId: seq<byte> := [88, 89, 90, 73]   // "XYZI"

  /** The dimensions in a SIZE chunk's content: the words at bytes 0, 8 and
      4, in that order, so the file's z and y axes trade places. A word
      read from a slice shorter than 4 bytes throws. */
  function Dimensions(size: seq<byte>): (r: Result<Dims>)
    ensures r.Ok? <==> |size| >= 12
    ensures r.Err? ==> r.error == ShortRead
  {
    match ParseUint32(Slice(size, 0, 4))
    case Err(e) => Err(e)
    case Ok(w0) =>
      match ParseUint32(Slice(size, 8, 12))
      case Err(e) => Err(e)
      case Ok(w2) =>
        match ParseUint32(Slice(size, 4, 8))
        case Err(e) => Err(e)
        case Ok(w1) => Ok(Dims(w0, w2, w1))
  }

  /** The palette: a `Uint32Array` view over the RGBA content, one
      little-endian word per 4 bytes; trailing bytes that do not fill a
      word are not part of it. */
  function Palette(c: seq<byte>): (p: seq<u32>)
    ensures |p| == |c| / 4
    ensures forall k :: 0 <= k < |p| ==>
              4 * k + 3 < |c| && p[k] == LittleEndian(c[4 * k], c[4 * k + 1], c[4 * k + 2], c[4 * k + 3])
    decreases |c|
  {
    if |c| < 4 then [] else [LittleEndian(c[0], c[1], c[2], c[3])] + Palette(c[4..])
  }

  /** The record at offset i names a palette entry: it is complete and its
      colour index is between 1 and the palette length. Otherwise
      `palette[colorIndex - 1]` is undefined and logging it throws. */
  predicate Defined(palette: seq<u32>, xyzi: seq<byte>, i: nat)
  {
    i + 3 < |xyzi| && 1 <= xyzi[i + 3] <= |palette|
  }

  /** The colour a defined record stores. */
  function ColorOf(palette: seq<u32>, xyzi: seq<byte>, i: nat): u32
    requires Defined(palette, xyzi, i)
  {
    palette[xyzi[i + 3] - 1]
  }

  /** The flat cell a record at offset i writes: `set(x, z, y, ...)`. */
  function Target(d: Dims, xyzi: seq<byte>, i: nat): nat
    requires i + 2 < |xyzi|
  {
    Index(d, xyzi[i], xyzi[i + 2], xyzi[i + 1])
  }

  /** The record offsets visited from i: i, i+4, i+8, ... below the end. */
  predicate Visited(xyzi: seq<byte>, i: nat, k: nat)
  {
    i <= k < |xyzi| && (k - i) % 4 == 0
  }

  /** The record loop from offset i over `cells`: store each record's
      colour at (x, z, y); stop with an error at the first record that names
      no palette entry. */
  function Placed(d: Dims, palette: seq<u32>, xyzi: seq<byte>, i: nat, cells: seq<u32>): (r: Result<seq<u32>>)
    ensures r.Ok? ==> |r.value| == |cells|
    decreases |xyzi| - i
  {
    if i >= |xyzi| then Ok(cells)
    else if !Defined(palette, xyzi, i) then Err(UndefinedColor(i))
    else Placed(d, palette, xyzi, i + 4, Put(d, cells, xyzi[i], xyzi[i + 2], xyzi[i + 1], ColorOf(palette, xyzi, i)))
  }

  /** All-empty cells, as a fresh volume holds. */
  function Zeros(n: nat): (r: seq<u32>)
    ensures |r| == n && forall i :: 0 <= i < n ==> r[i] == 0
  {
    seq(n, _ => 0)
  }

  /** `Volume.load` on the fetched bytes, as a value: a loaded grid has
      one cell per position of its dimensions, and a file that does not
      start with "VOX " is refused before anything else is read. */
  function ReadVox(bytes: seq<byte>): (r: Result<Grid>)
    ensures r.Ok? ==> WellFormed(r.value)
    ensures Slice(bytes, 0, 4) != Magic ==> r == Err(BadMagic)
  {
    if Slice(bytes, 0, 4) != Magic then Err(BadMagic)
    else
      match DecodeAt(bytes, 8)
      case Err(e) => Err(e)
      case Ok(main) =>
        if main.id != MainId then Err(NotMain(main.id))
        else if SizeId !in main.children then Err(MissingChunk(SizeId))
        else
          match Dimensions(main.children[SizeId].content)
          case Err(e) => Err(e)
          case Ok(dims) =>
            if RgbaId !in main.children then Err(MissingChunk(RgbaId))
            else if XyziId !in main.children then Err(MissingChunk(XyziId))
            else
              var palette := Palette(main.children[RgbaId].content);
              match Placed(dims, palette, main.children[XyziId].content, 4, Zeros(Size(dims)))
              case Err(e) => Err(e)
              case Ok(cells) => Ok(Grid(dims, cells))
  }

  /** The loader: checks the magic, decodes the MAIN chunk from byte 8,
      reads the dimensions and the palette, and stores the voxel records
      into a fresh volume one `set` at a time. */
  method Load(bytes: seq<byte>) returns (r: Result<Volume>)
    ensures r.Err? <==> ReadVox(bytes).Err?
    ensures r.Err? ==> r.error == ReadVox(bytes).error
    ensures r.Ok? ==> fresh(r.value) && fresh(r.value.data) && r.value.Valid() &&
                      r.value.Model() == ReadVox(bytes).value
  {
    if Slice(bytes, 0, 4) != Magic {
      return Err(BadMagic);
    }
    var parsed := ParseChunk(bytes, 8);
    if parsed.Err? {
      return Err(parsed.error);
    }
    var main := parsed.value;
    if main.id != MainId {
      return Err(NotMain(main.id));
    }
    if SizeId !in main.children {
      return Err(MissingChunk(SizeId));
    }
    var sizeContent := main.children[SizeId].content;
    var w0 := ParseUint32(Slice(sizeContent, 0, 4));
    var w2 := ParseUint32(Slice(sizeContent, 8, 12));
    var w1 := ParseUint32(Slice(sizeContent, 4, 8));
    if w0.Err? || w2.Err? || w1.Err? {
      return Err(ShortRead);
    }
    var dims := Dims(w0.value, w2.value, w1.value);
    if RgbaId !in main.children {
      return Err(MissingChunk(RgbaId));
    }
    var palette := Palette(main.children[RgbaId].content);
    var volume := new Volume(dims);
    if XyziId !in main.children {
      return Err(MissingChunk(XyziId));
    }
    var xyzi := main.children[XyziId].content;
    assert volume.data[..] == Zeros(Size(dims));
    var i := 4;
    while i < |xyzi|
      invariant volume.Valid() && volume.dimensions == dims && fresh(volume.data)
      invariant Placed(dims, palette, xyzi, i, volume.data[..]) ==
                Placed(dims, palette, xyzi, 4, Zeros(Size(dims)))
      decreases |xyzi| - i
    {
      if !Defined(palette, xyzi, i) {
        return Err(UndefinedColor(i));
      }
      volume.Set(xyzi[i], xyzi[i + 2], xyzi[i + 1], palette[xyzi[i + 3] - 1]);
      i := i + 4;
    }
    return Ok(volume);
  }

  // ---------------------------------------------------------------------
  // Properties of the reader

  /** The SIZE words come out as (word 0, word 2, word 1). */
  lemma DimensionsSwap(a: u32, b: u32, c: u32, rest: seq<byte>)
    ensures Dimensions(EncodeUint32(a) + EncodeUint32(b) + EncodeUint32(c) + rest) == Ok(Dims(a, c, b))
  {
    var s := EncodeUint32(a) + EncodeUint32(b) + EncodeUint32(c) + rest;
    assert Slice(s, 0, 4) == EncodeUint32(a) + [];
    assert Slice(s, 4, 8) == EncodeUint32(b) + [];
    assert Slice(s, 8, 12) == EncodeUint32(c) + [];
    ParseEncode(a, []);
    ParseEncode(b, []);
    ParseEncode(c, []);
  }

  /** The bytes of a sequence of words, each least significant first. */
  function Words(ws: seq<u32>): (r: seq<byte>)
    ensures |r| == 4 * |ws|
  {
    if ws == [] then [] else EncodeUint32(ws[0]) + Words(ws[1..])
  }

  /** The palette view reads back the words the RGBA content was made of,
      whatever bytes short of a word follow them. */
  lemma {:induction false} PaletteWords(ws: seq<u32>, tail: seq<byte>)
    requires |tail| < 4
    ensures Palette(Words(ws) + tail) == ws
  {
    if ws != [] {
      var c := Words(ws) + tail;
      assert c == EncodeUint32(ws[0]) + (Words(ws[1..]) + tail);
      ParseEncode(ws[0], Words(ws[1..]) + tail);
      assert c[4..] == Words(ws[1..]) + tail;
      PaletteWords(ws[1..], tail);
    }
  }

  /** The offsets visited from i are i itself, when it is below the end,
      and the offsets visited from i + 4. */
  lemma VisitedStep(xyzi: seq<byte>, i: nat, k: nat)
    ensures Visited(xyzi, i, k) <==> (k == i && i < |xyzi|) || Visited(xyzi, i + 4, k)
  {
    if i + 4 <= k {
      assert (k - i) % 4 == (k - (i + 4)) % 4 by {
        assert k - i == (k - (i + 4)) + 4;
      }
    }
    if i < k < i + 4 {
      assert (k - i) % 4 == k - i;
    }
  }

  /** The record loop succeeds exactly when every visited record names a
      palette entry. */
  lemma {:induction false} PlacedOk(d: Dims, palette: seq<u32>, xyzi: seq<byte>, i: nat, cells: seq<u32>)
    ensures Placed(d, palette, xyzi, i, cells).Ok? <==>
            forall k: nat :: Visited(xyzi, i, k) ==> Defined(palette, xyzi, k)
    decreases |xyzi| - i
  {
    if i >= |xyzi| {
      forall k: nat | Visited(xyzi, i, k) ensures false {
      }
    } else if !Defined(palette, xyzi, i) {
      VisitedStep(xyzi, i, i);
    } else {
      var next := Put(d, cells, xyzi[i], xyzi[i + 2], xyzi[i + 1], ColorOf(palette, xyzi, i));
      assert Placed(d, palette, xyzi, i, cells) == Placed(d, palette, xyzi, i + 4, next);
      PlacedOk(d, palette, xyzi, i + 4, next);
      forall k: nat ensures Visited(xyzi, i, k) <==> k == i || Visited(xyzi, i + 4, k) {
        VisitedStep(xyzi, i, k);
      }
    }
  }

  /** A failed record loop names the first visited record without a palette
      entry. */
  lemma {:induction false} PlacedFails(d: Dims, palette: seq<u32>, xyzi: seq<byte>, i: nat, cells: seq<u32>)
    requires Placed(d, palette, xyzi, i, cells).Err?
    ensures var e := Placed(d, palette, xyzi, i, cells).error;
            e.UndefinedColor? && Visited(xyzi, i, e.offset) && !Defined(palette, xyzi, e.offset) &&
            forall k: nat :: Visited(xyzi, i, k) && k < e.offset ==> Defined(palette, xyzi, k)
    decreases |xyzi| - i
  {
    var r := Placed(d, palette, xyzi, i, cells);
    if !Defined(palette, xyzi, i) {
      assert r == Err(UndefinedColor(i));
      VisitedStep(xyzi, i, i);
    } else {
      var next := Put(d, cells, xyzi[i], xyzi[i + 2], xyzi[i + 1], ColorOf(palette, xyzi, i));
      assert r == Placed(d, palette, xyzi, i + 4, next);
      PlacedFails(d, palette, xyzi, i + 4, next);
      var e := r.error;
      VisitedStep(xyzi, i, e.offset);
      forall k: nat | Visited(xyzi, i, k) && k < e.offset
        ensures Defined(palette, xyzi, k)
      {
        VisitedStep(xyzi, i, k);
      }
    }
  }

  /** A cell no visited record writes keeps its colour. */
  lemma {:induction false} PlacedUntouched(d: Dims, palette: seq<u32>, xyzi: seq<byte>, i: nat, cells: seq<u32>, j: nat)
    requires Placed(d, palette, xyzi, i, cells).Ok? && j < |cells|
    requires forall k: nat :: Visited(xyzi, i, k) && k + 2 < |xyzi| ==> Target(d, xyzi, k) != j
    ensures Placed(d, palette, xyzi, i, cells).value[j] == cells[j]
    decreases |xyzi| - i
  {
    if i < |xyzi| {
      VisitedStep(xyzi, i, i);
      var next := Put(d, cells, xyzi[i], xyzi[i + 2], xyzi[i + 1], ColorOf(palette, xyzi, i));
      assert Placed(d, palette, xyzi, i, cells) == Placed(d, palette, xyzi, i + 4, next);
      forall k: nat | Visited(xyzi, i + 4, k) && k + 2 < |xyzi|
        ensures Target(d, xyzi, k) != j
      {
        VisitedStep(xyzi, i, k);
      }
      PlacedUntouched(d, palette, xyzi, i + 4, next, j);
    }
  }

  /** The last visited record that writes a cell decides its colour. */
  lemma {:induction false} PlacedLastWins(d: Dims, palette: seq<u32>, xyzi: seq<byte>, i: nat, cells: seq<u32>, k: nat)
    requires Placed(d, palette, xyzi, i, cells).Ok?
    requires Visited(xyzi, i, k) && k + 2 < |xyzi| && Target(d, xyzi, k) < |cells|
    requires forall k': nat :: Visited(xyzi, i, k') && k < k' && k' + 2 < |xyzi| ==>
               Target(d, xyzi, k') != Target(d, xyzi, k)
    ensures Defined(palette, xyzi, k)
    ensures Placed(d, palette, xyzi, i, cells).value[Target(d, xyzi, k)] == ColorOf(palette, xyzi, k)
    decreases |xyzi| - i
  {
    VisitedStep(xyzi, i, i);
    assert Defined(palette, xyzi, i);
    var next := Put(d, cells, xyzi[i], xyzi[i + 2], xyzi[i + 1], ColorOf(palette, xyzi, i));
    assert Placed(d, palette, xyzi, i, cells) == Placed(d, palette, xyzi, i + 4, next);
    var j := Target(d, xyzi, k);
    if k == i {
      forall k': nat | Visited(xyzi, i + 4, k') && k' + 2 < |xyzi|
        ensures Target(d, xyzi, k') != j
      {
        VisitedStep(xyzi, i, k');
      }
      PlacedUntouched(d, palette, xyzi, i + 4, next, j);
    } else {
      VisitedStep(xyzi, i, k);
      forall k': nat | Visited(xyzi, i + 4, k') && k < k' && k' + 2 < |xyzi|
        ensures Target(d, xyzi, k') != j
      {
        VisitedStep(xyzi, i, k');
      }
      PlacedLastWins(d, palette, xyzi, i + 4, next, k);
    }
  }

  /** The voxel count in XYZI's first word is never consulted: the loop
      starts at byte 4 and runs to the end of the content. */
  lemma {:induction false} CountIgnored(d: Dims, palette: seq<u32>, a: seq<byte>, b: seq<byte>, i: nat, cells: seq<u32>)
    requires |a| == |b| && 4 <= i && 4 <= |a|
    requires a[4..] == b[4..]
    ensures Placed(d, palette, a, i, cells) == Placed(d, palette, b, i, cells)
    decreases |a| - i
  {
    if i < |a| {
      assert forall k :: i <= k < |a| ==> a[k] == b[k] by {
        forall k | i <= k < |a| ensures a[k] == b[k] {
          assert a[k] == a[4..][k - 4];
        }
      }
      if Defined(palette, a, i) {
        var next := Put(d, cells, a[i], a[i + 2], a[i + 1], ColorOf(palette, a, i));
        CountIgnored(d, palette, a, b, i + 4, next);
      }
    }
  }

  /** Everything a file needs to load: the magic, a MAIN chunk at byte 8
      with SIZE (at least 12 bytes), RGBA and XYZI children, and voxel
      records that all name a palette entry. */
  ghost predicate Loadable(bytes: seq<byte>)
  {
    |bytes| >= 4 && bytes[..4] == Magic &&
    DecodeAt(bytes, 8).Ok? &&
    var main := DecodeAt(bytes, 8).value;
    main.id == MainId &&
    SizeId in main.children && |main.children[SizeId].content| >= 12 &&
    RgbaId in main.children && XyziId in main.children &&
    var palette := Palette(main.children[RgbaId].content);
    var xyzi := main.children[XyziId].content;
    forall k: nat :: Visited(xyzi, 4, k) ==> Defined(palette, xyzi, k)
  }

  /** A file loads exactly when it is `Loadable`, and the volume then has
      the SIZE chunk's dimensions and one cell per voxel position. */
  lemma ReadVoxOk(bytes: seq<byte>)
    ensures ReadVox(bytes).Ok? <==> Loadable(bytes)
    ensures ReadVox(bytes).Ok? ==>
              var size := DecodeAt(bytes, 8).value.children[SizeId].content;
              var g := ReadVox(bytes).value;
              WellFormed(g) && Dimensions(size) == Ok(g.dims)
  {
    if |bytes| >= 4 {
      assert Slice(bytes, 0, 4) == bytes[..4];
    }
    if DecodeAt(bytes, 8).Ok? {
      var main := DecodeAt(bytes, 8).value;
      if SizeId in main.children && Dimensions(main.children[SizeId].content).Ok?
         && RgbaId in main.children && XyziId in main.children {
        var dims := Dimensions(main.children[SizeId].content).value;
        var palette := Palette(main.children[RgbaId].content);
        PlacedOk(dims, palette, main.children[XyziId].content, 4, Zeros(Size(dims)));
      }
    }
  }

  /** The magic is checked first: a load fails with `BadMagic` exactly when
      the first four bytes are not "VOX ". */
  lemma MagicFirst(bytes: seq<byte>)
    ensures ReadVox(bytes) == Err(BadMagic) <==> Slice(bytes, 0, 4) != Magic
  {
    if Slice(bytes, 0, 4) == Magic && DecodeAt(bytes, 8).Ok? {
      var main := DecodeAt(bytes, 8).value;
      if main.id == MainId && SizeId in main.children && Dimensions(main.children[SizeId].content).Ok?
         && RgbaId in main.children && XyziId in main.children {
        var dims := Dimensions(main.children[SizeId].content).value;
        var palette := Palette(main.children[RgbaId].content);
        var p := Placed(dims, palette, main.children[XyziId].content, 4, Zeros(Size(dims)));
        if p.Err? {
          PlacedFails(dims, palette, main.children[XyziId].content, 4, Zeros(Size(dims)));
        }
      }
    }
  }

  /** The root chunk's id is checked right after the magic: a load fails
      with `NotMain` exactly when the magic matches, the chunk at byte 8
      decodes and its id is not "MAIN", and the error carries that id. */
  lemma NotMainFound(bytes: seq<byte>, found: seq<byte>)
    ensures ReadVox(bytes) == Err(NotMain(found)) <==>
              Slice(bytes, 0, 4) == Magic && DecodeAt(bytes, 8).Ok? &&
              DecodeAt(bytes, 8).value.id == found && found != MainId
  {
    if Slice(bytes, 0, 4) == Magic && DecodeAt(bytes, 8).Ok? {
      var main := DecodeAt(bytes, 8).value;
      if main.id == MainId && SizeId in main.children && Dimensions(main.children[SizeId].content).Ok?
         && RgbaId in main.children && XyziId in main.children {
        var dims := Dimensions(main.children[SizeId].content).value;
        var palette := Palette(main.children[RgbaId].content);
        var p := Placed(dims, palette, main.children[XyziId].content, 4, Zeros(Size(dims)));
        if p.Err? {
          PlacedFails(dims, palette, main.children[XyziId].content, 4, Zeros(Size(dims)));
        }
      }
    }
  }

  /** A load names the missing chunk: one of SIZE, RGBA and XYZI that is not
      a child of MAIN, checked in that order. */
  lemma MissingChunkNamed(bytes: seq<byte>, tag: seq<byte>)
    requires ReadVox(bytes) == Err(MissingChunk(tag))
    ensures DecodeAt(bytes, 8).Ok? && DecodeAt(bytes, 8).value.id == MainId
    ensures tag in {SizeId, RgbaId, XyziId}
    ensures tag !in DecodeAt(bytes, 8).value.children
    ensures tag != SizeId ==> SizeId in DecodeAt(bytes, 8).value.children
    ensures tag == XyziId ==> RgbaId in DecodeAt(bytes, 8).value.children
  {
    var main := DecodeAt(bytes, 8).value;
    if SizeId in main.children && Dimensions(main.children[SizeId].content).Ok?
       && RgbaId in main.children && XyziId in main.children {
      var dims := Dimensions(main.children[SizeId].content).value;
      var palette := Palette(main.children[RgbaId].content);
      PlacedFails(dims, palette, main.children[XyziId].content, 4, Zeros(Size(dims)));
    }
  }

  /** The pieces of a file the record loop works on: the MAIN chunk's SIZE
      dimensions, its RGBA palette and its XYZI content. */
  ghost predicate Parts(bytes: seq<byte>, dims: Dims, palette: seq<u32>, xyzi: seq<byte>)
  {
    DecodeAt(bytes, 8).Ok? &&
    var main := DecodeAt(bytes, 8).value;
    SizeId in main.children && RgbaId in main.children && XyziId in main.children &&
    Dimensions(main.children[SizeId].content) == Ok(dims) &&
    palette == Palette(main.children[RgbaId].content) &&
    xyzi == main.children[XyziId].content
  }

  /** A loaded volume is the record loop run over all-empty cells. */
  lemma LoadedParts(bytes: seq<byte>) returns (dims: Dims, palette: seq<u32>, xyzi: seq<byte>)
    requires ReadVox(bytes).Ok?
    ensures Parts(bytes, dims, palette, xyzi)
    ensures Placed(dims, palette, xyzi, 4, Zeros(Size(dims))) == Ok(ReadVox(bytes).value.cells)
    ensures ReadVox(bytes).value.dims == dims
  {
    var main := DecodeAt(bytes, 8).value;
    dims := Dimensions(main.children[SizeId].content).value;
    palette := Palette(main.children[RgbaId].content);
    xyzi := main.children[XyziId].content;
  }

  /** A cell of a loaded volume that no voxel record writes is empty. */
  lemma LoadedUntouched(bytes: seq<byte>, dims: Dims, palette: seq<u32>, xyzi: seq<byte>, j: nat)
    requires ReadVox(bytes).Ok? && Parts(bytes, dims, palette, xyzi)
    requires j < Size(dims)
    requires forall k: nat :: Visited(xyzi, 4, k) && k + 2 < |xyzi| ==> Target(dims, xyzi, k) != j
    ensures ReadVox(bytes).value.cells[j] == 0
  {
    var d, p, x := LoadedParts(bytes);
    PlacedUntouched(dims, palette, xyzi, 4, Zeros(Size(dims)), j);
  }

  /** A cell of a loaded volume holds the colour of the last voxel record
      that writes it. */
  lemma LoadedLastWins(bytes: seq<byte>, dims: Dims, palette: seq<u32>, xyzi: seq<byte>, k: nat)
    requires ReadVox(bytes).Ok? && Parts(bytes, dims, palette, xyzi)
    requires Visited(xyzi, 4, k) && k + 2 < |xyzi| && Target(dims, xyzi, k) < Size(dims)
    requires forall k': nat :: Visited(xyzi, 4, k') && k < k' && k' + 2 < |xyzi| ==>
               Target(dims, xyzi, k') != Target(dims, xyzi, k)
    ensures Defined(palette, xyzi, k)
    ensures ReadVox(bytes).value.cells[Target(dims, xyzi, k)] == ColorOf(palette, xyzi, k)
  {
    var d, p, x := LoadedParts(bytes);
    PlacedLastWins(dims, palette, xyzi, 4, Zeros(Size(dims)), k);
  }

  // ---------------------------------------------------------------------
  // Writing a file and loading it back

  /** The children of a written MAIN chunk: SIZE, RGBA and XYZI, in that
      order, with no children of their own. */
  function MainKids(size: seq<byte>, rgba: seq<byte>, xyzi: seq<byte>): seq<Chunk>
  {
    [Chunk(SizeId, size, map[]), Chunk(RgbaId, rgba, map[]), Chunk(XyziId, xyzi, map[])]
  }

  /** A file as a writer lays it out: "VOX ", a 4-byte version, then a MAIN
      chunk with no content whose children are SIZE, RGBA and XYZI and
      whose declared children length is their total size. */
  function WriteVox(version: seq<byte>, size: seq<byte>, rgba: seq<byte>, xyzi: seq<byte>): (r: seq<byte>)
    requires |version| == 4 && 36 + |size| + |rgba| + |xyzi| < 0x1_0000_0000
    ensures |r| == 56 + |size| + |rgba| + |xyzi|
  {
    var kids := MainKids(size, rgba, xyzi);
    KidsLeaves(size, rgba, xyzi);
    KidsSize(size, rgba, xyzi);
    Magic + version + EncodeChunk(MainId, [], |EncodeLeaves(kids)|, EncodeLeaves(kids))
  }

  /** A written file loads, whatever its version bytes, when SIZE holds at
      least 12 bytes and every voxel record names a palette entry. The grid
      then has SIZE's dimensions and the cells the records store into an
      empty volume. */
  lemma WriteRead(version: seq<byte>, size: seq<byte>, rgba: seq<byte>, xyzi: seq<byte>)
    requires |version| == 4 && 36 + |size| + |rgba| + |xyzi| < 0x1_0000_0000
    requires |size| >= 12
    requires forall k: nat :: Visited(xyzi, 4, k) ==> Defined(Palette(rgba), xyzi, k)
    ensures var r := ReadVox(WriteVox(version, size, rgba, xyzi));
            var dims := Dimensions(size).value;
            r.Ok? && r.value.dims == dims &&
            Ok(r.value.cells) == Placed(dims, Palette(rgba), xyzi, 4, Zeros(Size(dims)))
  {
    var dims := Dimensions(size).value;
    PlacedOk(dims, Palette(rgba), xyzi, 4, Zeros(Size(dims)));
    var bytes := WriteVox(version, size, rgba, xyzi);
    MainDecodes(version, size, rgba, xyzi);
    KidsMap(size, rgba, xyzi);
    FromMain(bytes, ChildMap(MainKids(size, rgba, xyzi)), size, rgba, xyzi);
  }

  lemma KidsLeaves(size: seq<byte>, rgba: seq<byte>, xyzi: seq<byte>)
    requires 36 + |size| + |rgba| + |xyzi| < 0x1_0000_0000
    ensures Leaves(MainKids(size, rgba, xyzi))
  {
  }

  /** The three children take 12 header bytes each plus their contents. */
  lemma KidsSize(size: seq<byte>, rgba: seq<byte>, xyzi: seq<byte>)
    requires 36 + |size| + |rgba| + |xyzi| < 0x1_0000_0000
    ensures Leaves(MainKids(size, rgba, xyzi))
    ensures |EncodeLeaves(MainKids(size, rgba, xyzi))| == 36 + |size| + |rgba| + |xyzi|
  {
    var kids := MainKids(size, rgba, xyzi);
    assert kids[1..][1..][1..] == [];
    assert CursorAt(kids[1..][1..][1..], 0) == 0;
    assert CursorAt(kids[1..][1..], 1) == 12 + |xyzi|;
    assert CursorAt(kids[1..], 2) == 24 + |rgba| + |xyzi|;
    assert CursorAt(kids, 3) == 36 + |size| + |rgba| + |xyzi|;
  }

  /** The children map of a written MAIN chunk finds each of the three
      under its tag. */
  lemma KidsMap(size: seq<byte>, rgba: seq<byte>, xyzi: seq<byte>)
    ensures var m := ChildMap(MainKids(size, rgba, xyzi));
            SizeId in m && RgbaId in m && XyziId in m &&
            m[SizeId].content == size && m[RgbaId].content == rgba && m[XyziId].content == xyzi
  {
    var kids := MainKids(size, rgba, xyzi);
    assert kids[..2][..1][..0] == [];
    assert SizeId[0] != RgbaId[0] && SizeId[0] != XyziId[0] && RgbaId[0] != XyziId[0];
    assert ChildMap(kids[..2][..1]) == map[SizeId := kids[0]];
    assert ChildMap(kids[..2]) == ChildMap(kids[..2][..1])[RgbaId := kids[1]];
    assert ChildMap(kids) == ChildMap(kids[..2])[XyziId := kids[2]];
  }

  /** The MAIN chunk of a written file decodes at byte 8 to no content and
      its three children keyed by id. */
  lemma MainDecodes(version: seq<byte>, size: seq<byte>, rgba: seq<byte>, xyzi: seq<byte>)
    requires |version| == 4 && 36 + |size| + |rgba| + |xyzi| < 0x1_0000_0000
    ensures DecodeAt(WriteVox(version, size, rgba, xyzi), 8) ==
            Ok(Chunk(MainId, [], ChildMap(MainKids(size, rgba, xyzi))))
  {
    var kids := MainKids(size, rgba, xyzi);
    KidsSize(size, rgba, xyzi);
    var leaves := EncodeLeaves(kids);
    var main := EncodeChunk(MainId, [], |leaves|, leaves);
    var bytes := WriteVox(version, size, rgba, xyzi);
    assert bytes == Magic + version + main;
    assert bytes[8..8 + 12 + |leaves|] == main;
    FitsExactly(kids, 0);
    DecodeChunk(bytes, 8, MainId, [], |leaves|, kids);
  }

  /** A file with the magic whose MAIN chunk holds SIZE, RGBA and XYZI
      loads to the grid those three contents describe. */
  lemma FromMain(bytes: seq<byte>, m: map<seq<byte>, Chunk>, size: seq<byte>, rgba: seq<byte>, xyzi: seq<byte>)
    requires |bytes| >= 4 && bytes[..4] == Magic
    requires DecodeAt(bytes, 8) == Ok(Chunk(MainId, [], m))
    requires SizeId in m && RgbaId in m && XyziId in m
    requires m[SizeId].content == size && m[RgbaId].content == rgba && m[XyziId].content == xyzi
    requires |size| >= 12
    requires var dims := Dimensions(size).value;
             Placed(dims, Palette(rgba), xyzi, 4, Zeros(Size(dims))).Ok?
    ensures var dims := Dimensions(size).value;
            ReadVox(bytes) == Ok(Grid(dims, Placed(dims, Palette(rgba), xyzi, 4, Zeros(Size(dims))).value))
  {
    assert Slice(bytes, 0, 4) == bytes[..4];
  }
}
