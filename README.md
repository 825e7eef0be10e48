# Voxel volume: VOX reader, grid and face-culling mesher

This project models the `Volume` class of a small WebGL voxel viewer
(`src/volume.js`). The class turns the bytes of a MagicaVoxel `.vox`
file into a dense voxel grid, then into a triangle mesh:

- **Grid** (`grid.dfy`, `volume.dfy`). A volume is a flat `Uint32Array`
  of `d0*d1*d2` cells. Cell (x, y, z) lives at index `z*d0*d1 + y*d0 + x`.
  A cell of 0 is empty; any other value is a packed RGBA colour.
  - `Volumes.Volume` is a class with an `array<u32>` field, `Get`, `Set`
    and a constructor.
  - The datatype `Grid` of module `Grids` gives its contents as a value,
    and `Put` is one store into the array.
  - A store whose flat index is past the end is dropped, as a typed array
    drops it. Coordinates outside the dimensions whose flat index still
    fits write some other cell.
- **Chunk decoder** (`chunks.dfy`). `parseChunk` reads each chunk as a
  4-byte id, a little-endian content length, a little-endian children
  length, the content, and then child chunks. It parses each child
  recursively from a suffix of the input.
  - The decoder is specified by the mutually recursive functions
    `DecodeAt` and `DecodeChildren`, over positions in one byte sequence.
  - It is implemented by the recursive method `ParseChunk` and by
    `ParseChildren`, which holds the `while` loop over the child cursor
    and builds the children map.
  - Termination follows from the chunk at `pos` parsing its children at
    positions of at least `pos + 12`.
  - `EncodeChunk` and `EncodeLeaves` write chunks back as bytes. The round
    trip is proved for a chunk whose children have no children of their
    own, which is the shape of a MAIN chunk holding SIZE, RGBA and XYZI.
- **VOX reader** (`vox.dfy`). `ReadVox` is `load` as a value, and `Load`
  is the method that fills a fresh `Volume` one `Set` at a time. In order,
  they:
  1. check the `"VOX "` magic;
  2. decode the MAIN chunk at byte 8;
  3. look up its SIZE, RGBA and XYZI children;
  4. read the dimensions as (word 0, word 2, word 1);
  5. read the palette as little-endian words;
  6. store each 4-byte XYZI record (x, y, z, c) from content byte 4 on, at
     cell (x, z, y), with colour `palette[c - 1]`.
  `WriteVox` lays a file out the other way round. `WriteRead` shows that
  such a file loads to the grid its SIZE, RGBA and XYZI contents describe.
- **Mesher** (`mesh.dfy`, `Volume.GenerateMesh`). The mesher visits cells
  in x, then y, then z order. For each occupied cell it tries the six
  faces in the order x-, x+, y-, y+, z-, z+. It draws a face when the
  neighbour along its normal is outside the grid or empty. A drawn face
  appends 18 integer position numbers (corners 0, 1, 2, 0, 2, 3) and six
  copies of the voxel's colour.
  - `Faces` is the list of emitted faces in emission order.
  - `PositionsOf` and `ColorsOf` are the two buffers.
  - `GenerateMesh` is the triple loop, proved equal to them.
  - The faces come out strictly ordered by cell, then by direction. So each
    visible face is emitted exactly once, and the buffers hold 18 numbers
    and 6 colours per visible face.

Errors are a `Result` whose `Error` names the exception `load` would throw:

| Error | Meaning |
|---|---|
| `ShortRead` | A 4-byte word was read from a slice shorter than 4 bytes. |
| `BadMagic` | The file does not start with `"VOX "`. |
| `NotMain(id)` | The chunk at byte 8 is not MAIN. |
| `MissingChunk(tag)` | SIZE, RGBA or XYZI is missing from MAIN's children. |
| `UndefinedColor(offset)` | The record at this offset names no palette entry. |

Ids and tags are compared as raw bytes. For the four-letter ASCII tags the
code compares against, this is the same as comparing the decoded strings:
a 4-byte id decodes to one of them only when its bytes are exactly that tag.

Where the format's description and the code differ, the model follows the
code:

- The child cursor advances by `12 + child.content.length`. A child's own
  children are not counted. Grandchildren are therefore not skipped and
  are parsed again as siblings.
- The cursor is never checked against the declared children length. The
  loop stops at the first cursor at or past it (`Chunks.WalkEnd`). A child
  that starts below the declared length is read in full even when it ends
  beyond it (`Chunks.OverrunAccepted`).
- Only MAIN's immediate children are searched for SIZE, RGBA and XYZI.
- The XYZI voxel count is never read. The record loop runs to the end of
  the content (`Vox.CountIgnored`).

## Model

| member | source | states |
|---|---|---|
| `Base.Slice` | src/volume.js:20-23 | `slice(lo, hi)` clamps both ends to the input. When `lo < hi` its length is `min(hi, n) - min(lo, n)`, otherwise it is empty. Element i is input byte `lo + i`. |
| `Base.ParseUint32` | src/volume.js:15-17 | Reading a word succeeds exactly when at least 4 bytes are given; otherwise the error is a short read. |
| `Base.ParseEncode` | src/volume.js:15-17 | Reading back the four little-endian bytes of any 32-bit word gives that word, whatever bytes follow. |
| `Base.EncodeParse` | src/volume.js:15-17 | Encoding the word read from 4 or more bytes gives back exactly the first four bytes. |
| `Grids.IndexInRange` | src/volume.js:90-100 | For in-range coordinates the flat index `z*d0*d1 + y*d0 + x` is below `d0*d1*d2`. |
| `Grids.IndexInjective` | src/volume.js:90-100 | Distinct in-range cells have distinct flat indices. |
| `Grids.Put` | src/volume.js:96-100 | A store changes only the cell at the flat index, writes the colour there when the index is inside the array, and keeps the length. |
| `Grids.PutThenAt` | src/volume.js:90-100 | After a store at in-range (x, y, z), reading (x, y, z) gives the stored colour, and every other in-range cell keeps its colour. |
| `Volumes.Volume.constructor` | src/volume.js:4-8 | A new volume holds exactly `d0*d1*d2` cells, all 0, in a fresh array. |
| `Volumes.Volume.Get` | src/volume.js:90-94 | `get` returns the colour of the in-range cell in the volume's contents. |
| `Volumes.Volume.Set` | src/volume.js:96-100 | `set` performs exactly the store `Put` describes. For in-range coordinates, `get` then returns the colour and every other in-range cell is unchanged. |
| `Volumes.Volume.NeighbourOpen` | src/volume.js:191-203 | The culling test is true exactly when the neighbour along the face normal is outside `[0, d)` on some axis or is empty. |
| `Volumes.Volume.AppendFace` | src/volume.js:204-213 | One drawn face appends corners 0, 1, 2, 0, 2, 3 to the positions and six copies of its colour to the colours. |
| `Volumes.Volume.AppendCellFaces` | src/volume.js:122-215 | For one cell, the buffers grow by exactly that cell's faces: none when it is empty, else its open faces in the order x-, x+, y-, y+, z-, z+. |
| `Volumes.Volume.GenerateMesh` | src/volume.js:115-218 | The triple loop returns exactly the positions and the colours of `Faces`, the faces in x, y, z visiting order. |
| `Mesh.Corners` | src/volume.js:127-188 | Each of the six face entries lists four corners. |
| `Mesh.CornersOnFace` | src/volume.js:127-188 | The four corners of a face are distinct corners of the unit cell at (x, y, z). On the normal's axis they sit one further for x+, y+ and z+, and at the cell's own coordinate for x-, y- and z-. |
| `Mesh.PositionsOf` | src/volume.js:204-209 | The position buffer holds 18 numbers per face. |
| `Mesh.ColorsOf` | src/volume.js:211-213 | The colour buffer holds 6 colours per face. |
| `Mesh.DirFaces` | src/volume.js:189-215 | Trying the first n directions in the order x-, x+, y-, y+, z-, z+ emits at most n faces. Each is of this cell, in one of those directions, with the cell's colour and an open neighbour. |
| `Mesh.CellFaces` | src/volume.js:122-215 | A cell emits at most six faces, each of that cell and visible, so none when the cell is empty. |
| `Mesh.Scan` | src/volume.js:119-215 | Every face emitted before the loops reach a cursor is a visible face of a cell visited before it. |
| `Mesh.Faces` | src/volume.js:115-218 | Every emitted face is visible. |
| `Mesh.FacePositionsAsCorners` | src/volume.js:204-209 | A face's 18 numbers are its corners 0, 1, 2, 0, 2, 3 flattened. |
| `Mesh.DirFacesExactly` | src/volume.js:189-215 | Among the first n directions, a cell emits exactly the faces whose direction is among them and whose neighbour is open. Each carries the cell's colour. |
| `Mesh.CellFacesExactly` | src/volume.js:122-215 | A cell emits a face exactly when it is occupied, the face has the cell's colour, and the neighbour is open. |
| `Mesh.ScanExactly` | src/volume.js:119-218 | When the loops reach a cursor, the faces emitted so far are exactly the visible faces of the cells visited before it in x, y, z order. |
| `Mesh.FacesExactly` | src/volume.js:115-218 | A face is emitted if and only if its cell is in the grid and occupied, the face carries that colour, and the neighbour along its normal is outside or empty. |
| `Mesh.InternalFaceCulled` | src/volume.js:195-203 | A face whose neighbour is an occupied in-range cell is never emitted. |
| `Mesh.IsolatedVoxel` | src/volume.js:189-215 | An occupied cell whose six neighbours are all open shows all six faces. |
| `Mesh.EmptyGrid` | src/volume.js:122-125 | A grid with no occupied cell yields no faces and empty buffers. |
| `Mesh.PositionsBlock` | src/volume.js:204-209 | Face k's numbers sit at positions 18k to 18k+17 of the position buffer. |
| `Mesh.ColorsBlock` | src/volume.js:211-213 | Vertex colour i is the colour of face i / 6. |
| `Mesh.FacePositionsInCell` | src/volume.js:127-188 | Each number of a face is its cell's coordinate on that axis, or one more. |
| `Mesh.MeshSizes` | src/volume.js:204-213 | `positions.length == 18 * faces == 3 * colors.length`. |
| `Mesh.PositionsInGrid` | src/volume.js:127-209 | Before scaling, every position number lies in `[0, d]` for its axis. |
| `Mesh.ColorsAreVoxelColors` | src/volume.js:122-213 | Every vertex colour is the non-zero colour of the in-range voxel its face belongs to. |
| `Mesh.AllOpenDirFaces` | src/volume.js:189-215 | When all neighbours are open, a cell emits one face per direction, in `FaceOrder`. |
| `Mesh.DirFacesOrdered` | src/volume.js:189-215 | A cell's faces come strictly in the order x-, x+, y-, y+, z-, z+. |
| `Mesh.ScanOrdered` | src/volume.js:119-215 | Up to any cursor, faces are emitted strictly in order: by cell in x, y, z loop order, then by direction. |
| `Mesh.ScanStepOrdered` | src/volume.js:121-215 | Appending one cell's faces keeps the emitted faces in order. |
| `Mesh.FacesOnce` | src/volume.js:115-218 | The mesh's faces are strictly ordered, so no face is emitted twice. The buffers hold 18 numbers and 6 colours per distinct visible face. |
| `Mesh.LoneVoxel` | src/volume.js:115-218 | One occupied cell anywhere in an otherwise empty grid yields exactly its six faces: 108 position numbers and 36 colours. |
| `Mesh.StackedPair` | src/volume.js:115-218 | Two occupied cells stacked along y in an otherwise empty grid yield ten faces, because the touching pair is culled: 180 position numbers and 60 colours. |
| `Mesh.LoneCell` | src/volume.js:115-218 | An occupied 1x1x1 grid emits six faces: 108 position numbers and 36 colours, every colour the voxel's own. |
| `Chunks.DecodeAt` | src/volume.js:19-34 | A chunk needs its 12-byte header; a shorter input fails, and every failure is a short read. |
| `Chunks.DecodeChildren` | src/volume.js:25-32 | The child walk fails only with a short read, from a child that does. |
| `Chunks.ParseChunk` | src/volume.js:19-34 | The recursive parser returns exactly the decoded chunk, or its error. |
| `Chunks.ParseChildren` | src/volume.js:24-33 | The child loop returns exactly the walk's children keyed by id, or the first child's error. |
| `Chunks.WalkAdvance` | src/volume.js:27-31 | A child parsed at `12 + contentNumBytes + cursor` joins the children, and the cursor advances by `12 + child.content.length`. |
| `Chunks.WalkFails` | src/volume.js:27-29 | A child that fails to parse fails its parent with the same error. |
| `Chunks.WalkDone` | src/volume.js:26-33 | Once the cursor reaches the declared children length, the children parsed are the whole result. |
| `Chunks.CursorStep` | src/volume.js:30 | Child k+1 is parsed 12 plus child k's content length after child k. |
| `Chunks.WalkSplit` | src/volume.js:26-31 | A non-empty walk starts below the declared length with the child at the cursor, then continues from the advanced cursor. |
| `Chunks.ChildCursor` | src/volume.js:26 | Every child is parsed at a cursor below the declared children length. |
| `Chunks.WalkFrom` | src/volume.js:26-31 | The walk resumed at child k's cursor yields the children from k on. |
| `Chunks.ChildAt` | src/volume.js:27-29 | Child k is the chunk parsed at `12 + contentNumBytes +` its cursor. |
| `Chunks.WalkEnd` | src/volume.js:26 | The loop stops at the first cursor at or past the declared children length. |
| `Chunks.ChildMapKeys` | src/volume.js:31 | The children map has a key exactly for each id among the parsed children. |
| `Chunks.ChildMapLastWins` | src/volume.js:31 | When two children share an id, the map holds the later one. |
| `Chunks.WordParse` | src/volume.js:21-22 | The word the decoder reads at a position is what `parseUint32` returns on the four bytes sliced there. |
| `Chunks.DecodeHeader` | src/volume.js:20-33 | For a decoded chunk at `pos`, with `t` the input from `pos` on: the id is `t.slice(0, 4)`; both length words parse from `t.slice(4, 8)` and `t.slice(8, 12)`; the content is `t.slice(12, contentNumBytes + 12)`; the children are the walk keyed by id. |
| `Chunks.EncodeChunk` | src/volume.js:20-23 | A written chunk is 12 header bytes plus content plus children. The id is at bytes 0..4, the content length at 4..8 and the declared children length at 8..12, both little-endian. The content follows at byte 12, then the children. |
| `Chunks.EncodeLeaves` | src/volume.js:26-31 | Children written end to end take up exactly the bytes the decoder's cursor moves past: 12 plus the content length each. |
| `Chunks.RoundTrip` | src/volume.js:19-34 | A chunk whose children have no children decodes back to its id, its content and its children keyed by id. This holds for any declared children length that stops the walk right after the last child. |
| `Chunks.EncodeDecode` | src/volume.js:19-34 | Round trip with the declared children length equal to the children's total size. |
| `Chunks.OverrunAccepted` | src/volume.js:26-31 | A child that starts below the declared length is read in full, even when the declared length is anywhere from 1 up to the child's size. |
| `Vox.Dimensions` | src/volume.js:52-56 | Reading the dimensions succeeds exactly when SIZE holds at least 12 bytes; otherwise it is a short read. |
| `Vox.DimensionsSwap` | src/volume.js:52-56 | Words a, b, c in SIZE give dimensions (a, c, b). |
| `Vox.Palette` | src/volume.js:63-67 | The palette has `floor(length / 4)` entries; entry k is the little-endian word at bytes 4k to 4k+3. |
| `Vox.PaletteWords` | src/volume.js:63-67 | The palette reads back the words the RGBA content was made of, ignoring fewer than 4 trailing bytes. |
| `Vox.Zeros` | src/volume.js:6-7 | A fresh cell array has the given length and every cell is 0. |
| `Vox.Placed` | src/volume.js:78-85 | The record loop keeps the cell count. |
| `Vox.PlacedOk` | src/volume.js:78-85 | The record loop succeeds exactly when every record from offset 4 on (in steps of 4) is complete and names a palette index between 1 and its length. |
| `Vox.PlacedFails` | src/volume.js:78-85 | A failed loop names the first visited record without a palette entry. |
| `Vox.PlacedUntouched` | src/volume.js:78-83 | A cell that no visited record writes keeps its value. |
| `Vox.PlacedLastWins` | src/volume.js:78-83 | The last visited record that writes a cell decides its colour, `palette[c - 1]`, at cell (x, z, y). |
| `Vox.CountIgnored` | src/volume.js:77-78 | The loop does not depend on XYZI's first four bytes, the voxel count. |
| `Vox.ReadVox` | src/volume.js:37-87 | A loaded grid has one cell per position of its dimensions. A file that does not start with `"VOX "` is refused with `BadMagic` before anything else is read. |
| `Vox.WriteVox` | src/volume.js:37-45 | A written file is 56 bytes of framing plus the three contents: the magic, 4 version bytes, and at byte 8 a MAIN chunk holding SIZE, RGBA and XYZI. |
| `Vox.MainDecodes` | src/volume.js:42-45 | The MAIN chunk of a written file decodes at byte 8 to no content and its three children keyed by id. |
| `Vox.WriteRead` | src/volume.js:37-87 | A written file loads, whatever its version bytes, when SIZE holds at least 12 bytes and every record names a palette entry. Its grid has SIZE's dimensions, and its cells are what the records store into an empty volume. |
| `Vox.Load` | src/volume.js:37-87 | The loader fails exactly when `ReadVox` does, with the same error. On success it returns a fresh volume whose contents are `ReadVox`'s grid. |
| `Vox.ReadVoxOk` | src/volume.js:37-87 | A file loads exactly when it has the magic, a MAIN chunk at byte 8, children SIZE (at least 12 bytes), RGBA and XYZI, and all records defined. The grid then has SIZE's dimensions and `d0*d1*d2` cells. |
| `Vox.MagicFirst` | src/volume.js:37-40 | A load fails with `BadMagic` exactly when the first four bytes are not `"VOX "`. |
| `Vox.NotMainFound` | src/volume.js:42-45 | A load fails with `NotMain(id)` exactly when the magic matches, the chunk at byte 8 decodes, and its id is `id`, which is not MAIN. |
| `Vox.MissingChunkNamed` | src/volume.js:47-76 | A `MissingChunk` error names SIZE, RGBA or XYZI absent from MAIN's children, checked in that order. |
| `Vox.LoadedParts` | src/volume.js:47-85 | A loaded grid is the record loop from offset 4 over all-zero cells, with SIZE's dimensions, RGBA's palette and XYZI's content. |
| `Vox.LoadedUntouched` | src/volume.js:70-85 | A cell of a loaded volume that no record writes is 0. |
| `Vox.LoadedLastWins` | src/volume.js:78-85 | A cell of a loaded volume holds the colour of the last record that writes it. |

## Left out

- The `fetch` and `arrayBuffer` calls in `load` (src/volume.js:11-13). The
  model takes the file's bytes as input.
- `console.log` in the record loop (src/volume.js:84). It is kept only as
  the point where an undefined palette entry throws: `toString` is called
  on `undefined`.
- Vox.Load: checks the record before the store. On the failing record,
  `load` first stores 0 (undefined converted to a `Uint32Array` element)
  and only then throws. The volume is discarded with the exception, so no
  caller can see the difference.
- `TextDecoder` (src/volume.js:20, 37). Ids are the raw 4 bytes. Two
  distinct non-ASCII ids that decode to the same string are not merged as
  object keys the way the code would merge them. The lookups of the four
  ASCII tags are unaffected.
- The `${name}` in the bad-magic message is not modelled (`name` is not
  defined in `load`). Error messages are reduced to the `Error` cases.
- The missing-SIZE branch calls `fatalError`, which is not defined
  anywhere. The call throws a reference error; it is modelled as
  `MissingChunk(SIZE)`, since the load aborts either way.
- `scaleAndOffsetPositions` (src/volume.js:102-113) and the
  `Float32Array` / `Uint32Array` conversions of the result
  (src/volume.js:220-225). These are floating-point centring and scaling.
  The mesher is specified on the integer positions before scaling.
- The platform byte order of the palette's `Uint32Array` view. It is
  taken to be little-endian, as on the platforms that run the viewer.
- Allocation failure. A very large SIZE makes `new Uint32Array` throw;
  integers and arrays here are unbounded.
- Chunks.ParseChunk: takes the input and a position instead of a fresh
  slice per child. The contents it reads are the same, but copying is not
  modelled.
- src/index.js, src/shader.js, src/buffer.js and src/camera.js are not
  part of this model. They are WebGL, shader, buffer and camera plumbing.
