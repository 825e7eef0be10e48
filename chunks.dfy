/** The generic chunk decoder of the VOX reader (`parseChunk`). A chunk is a
    4-byte id, two little-endian word lengths (content bytes, children
    bytes), the content, and then child chunks, each parsed from the rest
    of the input. */
module Chunks {
  import opened Base

  /** A decoded chunk. Children are keyed by id; a later child with the
      same id replaces an earlier one. */
  datatype Chunk = Chunk(id: seq<byte>, content: seq<byte>, children: map<seq<byte>, Chunk>)

  /** The children map built by inserting `cs` in order. */
  function ChildMap(cs: seq<Chunk>): map<seq<byte>, Chunk>
  {
    if cs == [] then map[]
    else ChildMap(cs[..|cs| - 1])[cs[|cs| - 1].id := cs[|cs| - 1]]
  }

  /** The children of a successful walk, keyed by id. */
  function KeyById(r: Result<seq<Chunk>>): Result<map<seq<byte>, Chunk>>
  {
    match r
    case Ok(cs) => Ok(ChildMap(cs))
    case Err(e) => Err(e)
  }

  /** The little-endian word at bytes p .. p+4. */
  function Word(s: seq<byte>, p: nat): u32
    requires p + 4 <= |s|
  {
    LittleEndian(s[p], s[p + 1], s[p + 2], s[p + 3])
  }

  /** How much input lies at or after position `pos`. */
  function Remaining(s: seq<byte>, pos: nat): nat
  {
    if pos <= |s| then |s| - pos else 0
  }

  /** Where the children of the chunk at `pos` begin: right after its
      12-byte header and its declared content. */
  function ChildrenStart(s: seq<byte>, pos: nat): nat
    requires pos + 12 <= |s|
  {
    pos + 12 + Word(s, pos + 4)
  }

  /** `parseChunk(bytes.slice(pos))`: the chunk at position `pos`. Its id is
      bytes pos .. pos+4; its content is the next `Word(s, pos + 4)` bytes
      after the header, clamped to the input; its children are the chunks
      `DecodeChildren` walks. Reading either length word past the end of
      the input throws, so a chunk needs its full 12-byte header, and every
      failure is that one. */
  function DecodeAt(s: seq<byte>, pos: nat): (r: Result<Chunk>)
    ensures |s| < pos + 12 ==> r == Err(ShortRead)
    ensures r.Err? ==> r.error == ShortRead
    decreases Remaining(s, pos), 1
  {
    if |s| < pos + 12 then Err(ShortRead)
    else
      match KeyById(DecodeChildren(s, pos, 0))
      case Err(e) => Err(e)
      case Ok(children) =>
        Ok(Chunk(s[pos..pos + 4], s[pos + 12..Min(ChildrenStart(s, pos), |s|)], children))
  }

  /** The child loop of the chunk at `pos`, from cursor `offset` on: while
      the cursor is below the declared children length `Word(s, pos + 8)`,
      parse a chunk at `ChildrenStart(s, pos) + offset` and advance the
      cursor by 12 plus that child's content length (its own children's
      bytes are not counted). */
  function DecodeChildren(s: seq<byte>, pos: nat, offset: nat): (r: Result<seq<Chunk>>)
    requires pos + 12 <= |s|
    ensures r.Err? ==> r.error == ShortRead
    decreases Remaining(s, pos), 0,
              if offset < Word(s, pos + 8) then Word(s, pos + 8) - offset else 0
  {
    if offset >= Word(s, pos + 8) then Ok([])
    else
      match DecodeAt(s, ChildrenStart(s, pos) + offset)
      case Err(e) => Err(e)
      case Ok(child) =>
        match DecodeChildren(s, pos, offset + |child.content| + 12)
        case Err(e) => Err(e)
        case Ok(rest) => Ok([child] + rest)
  }

  /** The cursor value, relative to the start of the children, at which
      child k of `cs` is parsed. */
  function CursorAt(cs: seq<Chunk>, k: nat): nat
    requires k <= |cs|
  {
    if k == 0 then 0 else |cs[0].content| + 12 + CursorAt(cs[1..], k - 1)
  }

  /** Already-parsed children in front of the rest of the walk. */
  function Prepend(done: seq<Chunk>, r: Result<seq<Chunk>>): Result<seq<Chunk>>
  {
    match r
    case Ok(rest) => Ok(done + rest)
    case Err(e) => Err(e)
  }

  /** The loop invariant of `ParseChunk`: the children parsed so far,
      followed by the rest of the walk from the cursor, are the whole walk. */
  ghost predicate WalkInvariant(s: seq<byte>, pos: nat, offset: nat, done: seq<Chunk>)
    requires pos + 12 <= |s|
  {
    Prepend(done, DecodeChildren(s, pos, offset)) == DecodeChildren(s, pos, 0)
  }

  /** The recursive decoder over `bytes.slice(pos)`: the header, then the
      child loop. */
  method ParseChunk(s: seq<byte>, pos: nat) returns (r: Result<Chunk>)
    ensures r == DecodeAt(s, pos)
    decreases Remaining(s, pos), 1
  {
    if |s| < pos + 12 {
      return Err(ShortRead);
    }
    var id := s[pos..pos + 4];
    var contentNumBytes := Word(s, pos + 4);
    var content := s[pos + 12..Min(pos + 12 + contentNumBytes, |s|)];
    var children := ParseChildren(s, pos);
    match children
    case Err(e) =>
      return Err(e);
    case Ok(m) =>
      return Ok(Chunk(id, content, m));
  }

  /** The child loop of the chunk at `pos`: while the cursor is below the
      declared children length, parse a child recursively at
      `12 + contentNumBytes + cursor`, advance the cursor by 12 plus its
      content length and record it in the map under its id. */
  method ParseChildren(s: seq<byte>, pos: nat) returns (r: Result<map<seq<byte>, Chunk>>)
    requires pos + 12 <= |s|
    ensures r == KeyById(DecodeChildren(s, pos, 0))
    decreases Remaining(s, pos), 0
  {
    var contentNumBytes := Word(s, pos + 4);
    var childrenNumBytes := Word(s, pos + 8);
    var children: map<seq<byte>, Chunk> := map[];
    var childBytesOffset: nat := 0;
    ghost var done: seq<Chunk> := [];
    WalkBegins(s, pos);
    while childBytesOffset < childrenNumBytes
      invariant children == ChildMap(done)
      invariant WalkInvariant(s, pos, childBytesOffset, done)
      decreases childrenNumBytes - childBytesOffset
    {
      var child := ParseChunk(s, pos + 12 + contentNumBytes + childBytesOffset);
      if child.Err? {
        WalkFails(s, pos, childBytesOffset, child, done);
        return Err(child.error);
      }
      var c := child.value;
      WalkAdvance(s, pos, childBytesOffset, child, done);
      ChildMapAppend(done, c);
      childBytesOffset := childBytesOffset + |c.content| + 12;
      children := children[c.id := c];
      done := done + [c];
    }
    WalkDone(s, pos, childBytesOffset, done);
    return Ok(children);
  }

  /** Recording a child in the map is inserting it into the map of the
      children before it. */
  lemma ChildMapAppend(done: seq<Chunk>, c: Chunk)
    ensures ChildMap(done + [c]) == ChildMap(done)[c.id := c]
  {
    assert (done + [c])[..|done|] == done;
  }

  lemma WalkBegins(s: seq<byte>, pos: nat)
    requires pos + 12 <= |s|
    ensures WalkInvariant(s, pos, 0, [])
  {
    var r := DecodeChildren(s, pos, 0);
    if r.Ok? {
      assert [] + r.value == r.value;
    }
  }

  /** A child parsed at the cursor moves into the finished part. */
  lemma WalkAdvance(s: seq<byte>, pos: nat, offset: nat, child: Result<Chunk>, done: seq<Chunk>)
    requires pos + 12 <= |s| && offset < Word(s, pos + 8)
    requires child == DecodeAt(s, pos + 12 + Word(s, pos + 4) + offset) && child.Ok?
    requires WalkInvariant(s, pos, offset, done)
    ensures WalkInvariant(s, pos, offset + |child.value.content| + 12, done + [child.value])
  {
    var c := child.value;
    match DecodeChildren(s, pos, offset + |c.content| + 12)
    case Err(e) =>
    case Ok(rest) => assert done + ([c] + rest) == (done + [c]) + rest;
  }

  /** A child that fails to parse fails the whole chunk. */
  lemma WalkFails(s: seq<byte>, pos: nat, offset: nat, child: Result<Chunk>, done: seq<Chunk>)
    requires pos + 12 <= |s| && offset < Word(s, pos + 8)
    requires child == DecodeAt(s, pos + 12 + Word(s, pos + 4) + offset) && child.Err?
    requires WalkInvariant(s, pos, offset, done)
    ensures KeyById(DecodeChildren(s, pos, 0)) == Err(child.error)
  {
  }

  /** The loop ends with the cursor at or past the declared children
      length, and the children parsed are then the whole walk. */
  lemma WalkDone(s: seq<byte>, pos: nat, offset: nat, done: seq<Chunk>)
    requires pos + 12 <= |s| && offset >= Word(s, pos + 8)
    requires WalkInvariant(s, pos, offset, done)
    ensures KeyById(DecodeChildren(s, pos, 0)) == Ok(ChildMap(done))
  {
    assert done + [] == done;
  }

  // ---------------------------------------------------------------------
  // Properties of the decoder

  /** Each step of the walk advances the cursor by 12 plus the content
      length of the child just parsed. */
  lemma {:induction false} CursorStep(cs: seq<Chunk>, k: nat)
    requires k < |cs|
    ensures CursorAt(cs, k + 1) == CursorAt(cs, k) + |cs[k].content| + 12
  {
    if k > 0 {
      CursorStep(cs[1..], k - 1);
    }
  }

  /** The cursor of a walk that starts with `child` is the cursor of the
      rest of the walk shifted by that child's 12 + content bytes. */
  lemma CursorCons(child: Chunk, rest: seq<Chunk>, k: nat)
    requires 0 < k <= |rest| + 1
    ensures CursorAt([child] + rest, k) == |child.content| + 12 + CursorAt(rest, k - 1)
    ensures k <= |rest| ==> ([child] + rest)[k] == rest[k - 1]
  {
    assert ([child] + rest)[1..] == rest;
  }

  /** A non-empty walk, split into its first child and the walk from the
      advanced cursor. */
  lemma WalkSplit(s: seq<byte>, pos: nat, offset: nat, cs: seq<Chunk>)
    returns (child: Chunk, rest: seq<Chunk>, next: nat)
    requires pos + 12 <= |s|
    requires DecodeChildren(s, pos, offset) == Ok(cs) && cs != []
    ensures offset < Word(s, pos + 8)
    ensures DecodeAt(s, ChildrenStart(s, pos) + offset) == Ok(child)
    ensures next == offset + |child.content| + 12
    ensures DecodeChildren(s, pos, next) == Ok(rest)
    ensures cs == [child] + rest
  {
    WalkStep(s, pos, offset);
    child := DecodeAt(s, ChildrenStart(s, pos) + offset).value;
    next := offset + |child.content| + 12;
    rest := DecodeChildren(s, pos, next).value;
  }

  /** One step of the walk: below the declared children length, the walk is
      the child parsed at the cursor followed by the walk from the advanced
      cursor. */
  lemma WalkStep(s: seq<byte>, pos: nat, offset: nat)
    requires pos + 12 <= |s|
    requires DecodeChildren(s, pos, offset).Ok?
    requires offset < Word(s, pos + 8)
    ensures DecodeAt(s, ChildrenStart(s, pos) + offset).Ok?
    ensures var child := DecodeAt(s, ChildrenStart(s, pos) + offset).value;
            var next := offset + |child.content| + 12;
            DecodeChildren(s, pos, next).Ok? &&
            DecodeChildren(s, pos, offset).value == [child] + DecodeChildren(s, pos, next).value
  {
  }

  /** The walk from the cursor of child k on yields the children from k
      on. */
  lemma {:induction false} WalkFrom(s: seq<byte>, pos: nat, offset: nat, cs: seq<Chunk>, k: nat, cursor: nat)
    requires pos + 12 <= |s|
    requires DecodeChildren(s, pos, offset) == Ok(cs)
    requires k <= |cs| && cursor == offset + CursorAt(cs, k)
    ensures DecodeChildren(s, pos, cursor) == Ok(cs[k..])
    decreases k
  {
    if k == 0 {
      assert cs[0..] == cs;
    } else {
      var child, rest, next := WalkSplit(s, pos, offset, cs);
      CursorCons(child, rest, k);
      WalkFrom(s, pos, next, rest, k - 1, cursor);
      assert rest[k - 1..] == cs[k..];
    }
  }

  /** The cursor at which child k of the walk is parsed is below the
      declared children length. */
  lemma ChildCursor(s: seq<byte>, pos: nat, offset: nat, cs: seq<Chunk>, k: nat, cursor: nat)
    requires pos + 12 <= |s|
    requires DecodeChildren(s, pos, offset) == Ok(cs)
    requires k < |cs| && cursor == offset + CursorAt(cs, k)
    ensures cursor < Word(s, pos + 8)
  {
    WalkFrom(s, pos, offset, cs, k, cursor);
    var child, rest, next := WalkSplit(s, pos, cursor, cs[k..]);
  }

  /** Child k of the walk is the chunk parsed at cursor
      `offset + CursorAt(cs, k)` of the children. */
  lemma ChildAt(s: seq<byte>, pos: nat, offset: nat, cs: seq<Chunk>, k: nat, cursor: nat)
    requires pos + 12 <= |s|
    requires DecodeChildren(s, pos, offset) == Ok(cs)
    requires k < |cs| && cursor == offset + CursorAt(cs, k)
    ensures DecodeAt(s, ChildrenStart(s, pos) + cursor) == Ok(cs[k])
  {
    WalkFrom(s, pos, offset, cs, k, cursor);
    var child, rest, next := WalkSplit(s, pos, cursor, cs[k..]);
    assert cs[k..][0] == cs[k];
  }

  /** The walk stops at the first cursor at or past the declared children
      length. A child's own children are not counted, so that cursor may
      run past the declared length without any error. */
  lemma {:induction false} WalkEnd(s: seq<byte>, pos: nat, offset: nat)
    requires pos + 12 <= |s|
    requires DecodeChildren(s, pos, offset).Ok?
    ensures var cs := DecodeChildren(s, pos, offset).value;
            offset + CursorAt(cs, |cs|) >= Word(s, pos + 8)
    decreases if offset < Word(s, pos + 8) then Word(s, pos + 8) - offset else 0
  {
    if offset < Word(s, pos + 8) {
      var cs := DecodeChildren(s, pos, offset).value;
      WalkStep(s, pos, offset);
      var child := DecodeAt(s, ChildrenStart(s, pos) + offset).value;
      var next := offset + |child.content| + 12;
      var rest := DecodeChildren(s, pos, next).value;
      WalkEnd(s, pos, next);
      assert cs[1..] == rest;
      assert CursorAt(cs, |cs|) == |child.content| + 12 + CursorAt(rest, |rest|);
    }
  }

  /** Every id among the children is a key of the map, and nothing else is. */
  lemma {:induction false} ChildMapKeys(cs: seq<Chunk>, id: seq<byte>)
    ensures id in ChildMap(cs) <==> exists k :: 0 <= k < |cs| && cs[k].id == id
  {
    if cs != [] {
      var front := cs[..|cs| - 1];
      ChildMapKeys(front, id);
      if id in ChildMap(front) {
        var k :| 0 <= k < |front| && front[k].id == id;
        assert cs[k].id == id;
      }
      if exists k :: 0 <= k < |cs| && cs[k].id == id {
        var k :| 0 <= k < |cs| && cs[k].id == id;
        if k < |front| {
          assert front[k].id == id;
        }
      }
    }
  }

  /** Duplicate ids: the map holds the last child with each id. */
  lemma {:induction false} ChildMapLastWins(cs: seq<Chunk>, k: nat)
    requires k < |cs|
    requires forall j :: k < j < |cs| ==> cs[j].id != cs[k].id
    ensures cs[k].id in ChildMap(cs) && ChildMap(cs)[cs[k].id] == cs[k]
  {
    var front := cs[..|cs| - 1];
    if k < |cs| - 1 {
      assert forall j :: k < j < |front| ==> front[j].id != front[k].id by {
        forall j | k < j < |front| ensures front[j].id != front[k].id {
          assert front[j] == cs[j];
        }
      }
      ChildMapLastWins(front, k);
    }
  }

  /** The little-endian word at p, read the way `parseChunk` reads it:
      `parseUint32` of the four bytes sliced there. */
  lemma WordParse(s: seq<byte>, p: nat)
    requires p + 4 <= |s|
    ensures ParseUint32(Slice(s, p, p + 4)) == Ok(Word(s, p))
  {
    var b := Slice(s, p, p + 4);
    assert b[0] == s[p] && b[1] == s[p + 1] && b[2] == s[p + 2] && b[3] == s[p + 3];
  }

  /** A successful decode of `t := bytes.slice(pos)`, in `parseChunk`'s own
      reads: the id is `t.slice(0, 4)`, both length words parse from
      `t.slice(4, 8)` and `t.slice(8, 12)`, the content is
      `t.slice(12, contentNumBytes + 12)`, and the children are the walk
      keyed by id. */
  lemma DecodeHeader(s: seq<byte>, pos: nat)
    requires DecodeAt(s, pos).Ok?
    ensures pos + 12 <= |s|
    ensures var t := s[pos..];
            var c := DecodeAt(s, pos).value;
            c.id == Slice(t, 0, 4) &&
            ParseUint32(Slice(t, 4, 8)).Ok? && ParseUint32(Slice(t, 8, 12)).Ok? &&
            c.content == Slice(t, 12, ParseUint32(Slice(t, 4, 8)).value + 12)
    ensures DecodeChildren(s, pos, 0).Ok? &&
            DecodeAt(s, pos).value.children == ChildMap(DecodeChildren(s, pos, 0).value)
  {
    var t := s[pos..];
    var c := DecodeAt(s, pos).value;
    WordParse(t, 4);
    WordParse(t, 8);
    assert Word(t, 4) == Word(s, pos + 4);
    var hi := Word(s, pos + 4) + 12;
    assert c.content == s[pos + 12..Min(pos + hi, |s|)];
    assert Slice(t, 12, hi) == t[12..Min(hi, |t|)];
    assert t[12..Min(hi, |t|)] == s[pos + 12..Min(pos + hi, |s|)];
  }

  // ---------------------------------------------------------------------
  // Encoding, and the round trip for chunks whose children are leaves

  /** A chunk the encoder below can write as a child: a 4-byte id, a
      content whose length fits a word, and no children of its own. */
  predicate Leaf(c: Chunk)
  {
    |c.id| == 4 && |c.content| < 0x1_0000_0000 && c.children == map[]
  }

  predicate Leaves(cs: seq<Chunk>)
  {
    forall k :: 0 <= k < |cs| ==> Leaf(cs[k])
  }

  /** A chunk as bytes: id, content length, the declared children length,
      content, then the children's bytes. */
  function EncodeChunk(id: seq<byte>, content: seq<byte>, childrenNumBytes: u32, children: seq<byte>): (r: seq<byte>)
    requires |id| == 4 && |content| < 0x1_0000_0000
    ensures |r| == 12 + |content| + |children|
    ensures r[..4] == id && r[12..12 + |content|] == content && r[12 + |content|..] == children
    ensures r[4..8] == EncodeUint32(|content|) && r[8..12] == EncodeUint32(childrenNumBytes)
  {
    id + EncodeUint32(|content|) + EncodeUint32(childrenNumBytes) + content + children
  }

  /** A sequence of leaves, one after the other. */
  function EncodeLeaves(cs: seq<Chunk>): (r: seq<byte>)
    requires Leaves(cs)
    ensures |r| == CursorAt(cs, |cs|)
  {
    if cs == [] then []
    else
      var c := cs[0];
      EncodeChunk(c.id, c.content, 0, []) + EncodeLeaves(cs[1..])
  }

  /** The walk over `cs` from cursor `offset` stops right after the last of
      them: each child starts below the declared children length `w`, and
      the cursor after the last one is at or past it. */
  predicate Fits(cs: seq<Chunk>, offset: nat, w: nat)
    decreases |cs|
  {
    if cs == [] then offset >= w
    else offset < w && Fits(cs[1..], offset + |cs[0].content| + 12, w)
  }

  /** Four encoded bytes at offset k of bytes `e` held at p read back as
      the word. */
  lemma WordAt(s: seq<byte>, p: nat, e: seq<byte>, k: nat, n: u32)
    requires p + |e| <= |s| && s[p..p + |e|] == e
    requires k + 4 <= |e| && e[k..k + 4] == EncodeUint32(n)
    ensures Word(s, p + k) == n
  {
    ParseEncode(n, []);
    assert EncodeUint32(n) + [] == EncodeUint32(n);
    var b := EncodeUint32(n);
    assert b[0] == e[k] == s[p + k];
    assert b[1] == e[k + 1] == s[p + k + 1];
    assert b[2] == e[k + 2] == s[p + k + 2];
    assert b[3] == e[k + 3] == s[p + k + 3];
  }

  /** The header of a chunk written by `EncodeChunk` at p reads back. */
  lemma HeaderAt(s: seq<byte>, p: nat, id: seq<byte>, content: seq<byte>, w: u32, children: seq<byte>)
    requires |id| == 4 && |content| < 0x1_0000_0000
    requires p + 12 + |content| + |children| <= |s|
    requires s[p..p + 12 + |content| + |children|] == EncodeChunk(id, content, w, children)
    ensures Word(s, p + 4) == |content| && Word(s, p + 8) == w
    ensures ChildrenStart(s, p) == p + 12 + |content|
    ensures s[p..p + 4] == id && s[p + 12..p + 12 + |content|] == content
  {
    var n := 12 + |content|;
    var e := EncodeChunk(id, content, w, children);
    WordAt(s, p, e, 4, |content|);
    WordAt(s, p, e, 8, w);
    SubSlice(s, p, e, 0, 4);
    SubSlice(s, p, e, 12, n);
  }

  /** Part of bytes `e` held at p is held at p plus its offset. */
  lemma SubSlice(s: seq<byte>, p: nat, e: seq<byte>, lo: nat, hi: nat)
    requires p + |e| <= |s| && s[p..p + |e|] == e && lo <= hi <= |e|
    ensures s[p + lo..p + hi] == e[lo..hi]
  {
    forall i | 0 <= i < hi - lo ensures s[p + lo..p + hi][i] == e[lo..hi][i] {
      assert s[p..p + |e|][lo + i] == s[p + lo + i];
    }
  }

  /** A chunk whose header is at p and whose walk yields `cs` decodes to
      its id, its content and `cs` keyed by id. */
  lemma Assemble(s: seq<byte>, p: nat, id: seq<byte>, content: seq<byte>, cs: seq<Chunk>)
    requires p + 12 <= |s| && ChildrenStart(s, p) <= |s|
    requires s[p..p + 4] == id && s[p + 12..ChildrenStart(s, p)] == content
    requires DecodeChildren(s, p, 0) == Ok(cs)
    ensures DecodeAt(s, p) == Ok(Chunk(id, content, ChildMap(cs)))
  {
  }

  /** A leaf written at p decodes back to itself. */
  lemma DecodeLeaf(s: seq<byte>, p: nat, c: Chunk)
    requires Leaf(c) && p + 12 + |c.content| <= |s|
    requires s[p..p + 12 + |c.content|] == EncodeChunk(c.id, c.content, 0, [])
    ensures DecodeAt(s, p) == Ok(c)
  {
    HeaderAt(s, p, c.id, c.content, 0, []);
    assert DecodeChildren(s, p, 0) == Ok([]);
    Assemble(s, p, c.id, c.content, []);
    assert ChildMap([]) == c.children;
  }

  /** The walk from a cursor below the declared children length is the
      child parsed there followed by the walk from the advanced cursor. */
  lemma WalkCons(s: seq<byte>, pos: nat, offset: nat, c: Chunk, rest: seq<Chunk>)
    requires pos + 12 <= |s| && offset < Word(s, pos + 8)
    requires DecodeAt(s, ChildrenStart(s, pos) + offset) == Ok(c)
    requires DecodeChildren(s, pos, offset + |c.content| + 12) == Ok(rest)
    ensures DecodeChildren(s, pos, offset) == Ok([c] + rest)
  {
  }

  /** Each of `cs` decodes at its own cursor of the walk, the children
      starting at `start` and the first at cursor `offset`. */
  ghost predicate DecodesFrom(s: seq<byte>, start: nat, offset: nat, cs: seq<Chunk>)
    decreases |cs|
  {
    cs == [] ||
    (DecodeAt(s, start + offset) == Ok(cs[0]) &&
     DecodesFrom(s, start, offset + |cs[0].content| + 12, cs[1..]))
  }

  /** Each of `cs` is a leaf written at its own cursor of the walk. */
  ghost predicate LaidFrom(s: seq<byte>, start: nat, offset: nat, cs: seq<Chunk>)
    decreases |cs|
  {
    cs == [] ||
    (Leaf(cs[0]) && start + offset + 12 + |cs[0].content| <= |s| &&
     s[start + offset..start + offset + 12 + |cs[0].content|] == EncodeChunk(cs[0].id, cs[0].content, 0, []) &&
     LaidFrom(s, start, offset + |cs[0].content| + 12, cs[1..]))
  }

  /** The walk from cursor `offset` yields `cs` when each of them decodes
      at its own cursor and the declared children length stops the walk
      right after the last of them. */
  lemma {:induction false} WalkLeaves(s: seq<byte>, pos: nat, offset: nat, cs: seq<Chunk>)
    requires pos + 12 <= |s|
    requires Fits(cs, offset, Word(s, pos + 8))
    requires DecodesFrom(s, ChildrenStart(s, pos), offset, cs)
    ensures DecodeChildren(s, pos, offset) == Ok(cs)
    decreases |cs|
  {
    if cs != [] {
      FitsTail(cs, offset, Word(s, pos + 8));
      WalkLeaves(s, pos, offset + |cs[0].content| + 12, cs[1..]);
      WalkCons(s, pos, offset, cs[0], cs[1..]);
      assert [cs[0]] + cs[1..] == cs;
    }
  }

  /** Leaves written at their cursors decode at their cursors. */
  lemma {:induction false} LaidDecodes(s: seq<byte>, start: nat, offset: nat, cs: seq<Chunk>)
    requires LaidFrom(s, start, offset, cs)
    ensures DecodesFrom(s, start, offset, cs)
    decreases |cs|
  {
    if cs != [] {
      DecodeLeaf(s, start + offset, cs[0]);
      LaidDecodes(s, start, offset + |cs[0].content| + 12, cs[1..]);
    }
  }

  /** `EncodeLeaves` writes each leaf at its own cursor. */
  lemma {:induction false} EncodedLaid(s: seq<byte>, start: nat, offset: nat, cs: seq<Chunk>)
    requires Leaves(cs)
    requires start + offset + |EncodeLeaves(cs)| <= |s|
    requires s[start + offset..start + offset + |EncodeLeaves(cs)|] == EncodeLeaves(cs)
    ensures LaidFrom(s, start, offset, cs)
    decreases |cs|
  {
    if cs != [] {
      var next := offset + |cs[0].content| + 12;
      LeavesBytes(s, start + offset, cs);
      assert start + next == start + offset + 12 + |cs[0].content|;
      EncodedLaid(s, start, next, cs[1..]);
    }
  }

  lemma FitsTail(cs: seq<Chunk>, offset: nat, w: nat)
    requires Fits(cs, offset, w) && cs != []
    ensures offset < w && Fits(cs[1..], offset + |cs[0].content| + 12, w)
  {
  }

  /** Leaves written at q: the first one at q, the rest right after it. */
  lemma LeavesBytes(s: seq<byte>, q: nat, cs: seq<Chunk>)
    requires Leaves(cs) && cs != []
    requires q + |EncodeLeaves(cs)| <= |s| && s[q..q + |EncodeLeaves(cs)|] == EncodeLeaves(cs)
    ensures Leaf(cs[0]) && Leaves(cs[1..])
    ensures q + 12 + |cs[0].content| <= |s|
    ensures s[q..q + 12 + |cs[0].content|] == EncodeChunk(cs[0].id, cs[0].content, 0, [])
    ensures q + 12 + |cs[0].content| + |EncodeLeaves(cs[1..])| <= |s|
    ensures s[q + 12 + |cs[0].content|..q + 12 + |cs[0].content| + |EncodeLeaves(cs[1..])|] == EncodeLeaves(cs[1..])
  {
    LeavesTail(cs);
    var head, tail := LeavesSplit(cs);
    SplitBytes(s, q, head, tail);
  }

  /** The bytes of the leaves: the first leaf, then the rest. */
  lemma LeavesSplit(cs: seq<Chunk>) returns (head: seq<byte>, tail: seq<byte>)
    requires Leaves(cs) && cs != []
    ensures Leaf(cs[0]) && Leaves(cs[1..])
    ensures head == EncodeChunk(cs[0].id, cs[0].content, 0, []) && |head| == 12 + |cs[0].content|
    ensures tail == EncodeLeaves(cs[1..]) && EncodeLeaves(cs) == head + tail
  {
    assert Leaf(cs[0]);
    LeavesTail(cs);
    head := EncodeChunk(cs[0].id, cs[0].content, 0, []);
    tail := EncodeLeaves(cs[1..]);
  }

  /** Bytes that hold `head + tail` at q hold `head` at q and `tail` right
      after it. */
  lemma SplitBytes(s: seq<byte>, q: nat, head: seq<byte>, tail: seq<byte>)
    requires q + |head| + |tail| <= |s| && s[q..q + |head| + |tail|] == head + tail
    ensures s[q..q + |head|] == head
    ensures s[q + |head|..q + |head| + |tail|] == tail
  {
    var e := head + tail;
    assert s[q..q + |head|] == e[..|head|];
    assert s[q + |head|..q + |head| + |tail|] == e[|head|..];
  }

  lemma LeavesTail(cs: seq<Chunk>)
    requires Leaves(cs) && cs != []
    ensures Leaves(cs[1..])
  {
    forall k | 0 <= k < |cs[1..]| ensures Leaf(cs[1..][k]) {
      assert cs[1..][k] == cs[k + 1];
    }
  }

  /** A chunk written at p with leaf children: its header reads back and
      the children's bytes lie where the walk starts. */
  lemma ChunkBytes(s: seq<byte>, p: nat, id: seq<byte>, content: seq<byte>, w: u32, kids: seq<Chunk>)
    requires |id| == 4 && |content| < 0x1_0000_0000 && Leaves(kids)
    requires p + 12 + |content| + |EncodeLeaves(kids)| <= |s|
    requires s[p..p + 12 + |content| + |EncodeLeaves(kids)|] == EncodeChunk(id, content, w, EncodeLeaves(kids))
    ensures Word(s, p + 8) == w && ChildrenStart(s, p) == p + 12 + |content|
    ensures s[p..p + 4] == id && s[p + 12..ChildrenStart(s, p)] == content
    ensures ChildrenStart(s, p) + |EncodeLeaves(kids)| <= |s|
    ensures s[ChildrenStart(s, p)..ChildrenStart(s, p) + |EncodeLeaves(kids)|] == EncodeLeaves(kids)
  {
    var kidBytes := EncodeLeaves(kids);
    var e := EncodeChunk(id, content, w, kidBytes);
    HeaderAt(s, p, id, content, w, kidBytes);
    SubSlice(s, p, e, 12 + |content|, |e|);
  }

  /** A chunk with leaf children, written at p, decodes back. */
  lemma DecodeChunk(s: seq<byte>, p: nat, id: seq<byte>, content: seq<byte>, w: u32, kids: seq<Chunk>)
    requires |id| == 4 && |content| < 0x1_0000_0000 && Leaves(kids)
    requires Fits(kids, 0, w)
    requires p + 12 + |content| + |EncodeLeaves(kids)| <= |s|
    requires s[p..p + 12 + |content| + |EncodeLeaves(kids)|] == EncodeChunk(id, content, w, EncodeLeaves(kids))
    ensures DecodeAt(s, p) == Ok(Chunk(id, content, ChildMap(kids)))
  {
    ChunkBytes(s, p, id, content, w, kids);
    DecodeKids(s, p, kids);
    Assemble(s, p, id, content, kids);
  }

  /** Leaf children written where the walk starts, under a declared
      children length that stops the walk after the last of them, are
      walked back. */
  lemma DecodeKids(s: seq<byte>, p: nat, kids: seq<Chunk>)
    requires p + 12 <= |s| && Leaves(kids) && Fits(kids, 0, Word(s, p + 8))
    requires ChildrenStart(s, p) + |EncodeLeaves(kids)| <= |s|
    requires s[ChildrenStart(s, p)..ChildrenStart(s, p) + |EncodeLeaves(kids)|] == EncodeLeaves(kids)
    ensures DecodeChildren(s, p, 0) == Ok(kids)
  {
    EncodedLaid(s, ChildrenStart(s, p), 0, kids);
    LaidDecodes(s, ChildrenStart(s, p), 0, kids);
    WalkLeaves(s, p, 0, kids);
  }

  /** Round trip: a chunk whose children are leaves, written with any
      declared children length that stops the walk after the last child,
      decodes to its id, its content and its children keyed by id. */
  lemma RoundTrip(id: seq<byte>, content: seq<byte>, w: u32, kids: seq<Chunk>)
    requires |id| == 4 && |content| < 0x1_0000_0000 && Leaves(kids)
    requires Fits(kids, 0, w)
    ensures DecodeAt(EncodeChunk(id, content, w, EncodeLeaves(kids)), 0) ==
            Ok(Chunk(id, content, ChildMap(kids)))
  {
    var s := EncodeChunk(id, content, w, EncodeLeaves(kids));
    assert s[0..|s|] == s;
    DecodeChunk(s, 0, id, content, w, kids);
  }

  /** Leaves laid end to end fit a declared length equal to their total
      size. */
  lemma {:induction false} FitsExactly(cs: seq<Chunk>, offset: nat)
    requires Leaves(cs)
    ensures Fits(cs, offset, offset + |EncodeLeaves(cs)|)
    decreases |cs|
  {
    if cs != [] {
      LeavesTail(cs);
      FitsExactly(cs[1..], offset + |cs[0].content| + 12);
    }
  }

  /** Round trip with the children length the encoder would declare: the
      total size of the children. */
  lemma EncodeDecode(id: seq<byte>, content: seq<byte>, kids: seq<Chunk>)
    requires |id| == 4 && |content| < 0x1_0000_0000 && Leaves(kids)
    requires |EncodeLeaves(kids)| < 0x1_0000_0000
    ensures DecodeAt(EncodeChunk(id, content, |EncodeLeaves(kids)|, EncodeLeaves(kids)), 0) ==
            Ok(Chunk(id, content, ChildMap(kids)))
  {
    FitsExactly(kids, 0);
    RoundTrip(id, content, |EncodeLeaves(kids)|, kids);
  }

  /** The declared children length is not checked against the children's
      bytes: a single leaf child is read in full under any declared length
      from 1 up to its size, so it may run past the length its parent
      declares. */
  lemma OverrunAccepted(id: seq<byte>, content: seq<byte>, w: u32, kid: Chunk)
    requires |id| == 4 && |content| < 0x1_0000_0000 && Leaf(kid)
    requires 0 < w <= 12 + |kid.content|
    ensures DecodeAt(EncodeChunk(id, content, w, EncodeLeaves([kid])), 0) ==
            Ok(Chunk(id, content, map[kid.id := kid]))
  {
    assert [kid][1..] == [];
    assert Fits([kid], 0, w);
    RoundTrip(id, content, w, [kid]);
    assert ChildMap([kid]) == ChildMap([])[kid.id := kid];
  }
}
