/** How vfs_lookup (kernel/src/fs/vfs.c) cuts a path into components. A string is its bytes without
    the terminator. */
module Paths {
  import opened Bits

  type Name = Bytes

  const SLASH: Byte := 47

  // The bytes the inner loop copies: up to a slash, the end, or 127 bytes.
  function ScanEnd(path: Name, i: nat): (n: nat)
    requires i <= |path|
    ensures i <= n <= |path|
    decreases |path| - i
  {
    if i < |path| && path[i] != SLASH && i < 127 then ScanEnd(path, i + 1) else i
  }

  function First(path: Name): Name {
    path[..ScanEnd(path, 0)]
  }

  // What is left of the path after one component and the slash behind it.
  function Rest(path: Name): (r: Name)
    requires path != []
    ensures |r| < |path|
  {
    var n := ScanEnd(path, 0);
    if n < |path| && path[n] == SLASH then path[n + 1..] else path[n..]
  }

  // The components that vfs_lookup looks up, for a path without its leading slash.
  function Tokens(path: Name): seq<Name>
    decreases |path|
  {
    if path == [] then [] else [First(path)] + Tokens(Rest(path))
  }

  function Strip(path: Name): Name {
    if path != [] && path[0] == SLASH then path[1..] else path
  }

  // ----- a reference definition -----

  // Where the first slash is, or the length.
  function SlashAt(path: Name): (n: nat)
    ensures n <= |path| && SLASH !in path[..n]
    ensures n < |path| ==> path[n] == SLASH
  {
    if path == [] || path[0] == SLASH then 0
    else
      var n := 1 + SlashAt(path[1..]);
      assert path[..n] == [path[0]] + path[1..][..n - 1];
      n
  }

  // The pieces between slashes.
  function Pieces(path: Name): (r: seq<Name>)
    ensures r != []
    decreases |path|
  {
    var n := SlashAt(path);
    if n == |path| then [path] else [path[..n]] + Pieces(path[n + 1..])
  }

  // A piece in lengths of at most 127 bytes.
  function Chunks(piece: Name): seq<Name>
    decreases |piece|
  {
    if |piece| <= 127 then [piece] else [piece[..127]] + Chunks(piece[127..])
  }

  // All pieces in chunks; an empty last piece stands for a trailing slash and is dropped.
  function Chunked(pieces: seq<Name>): seq<Name> {
    if pieces == [] || pieces == [[]] then []
    else Chunks(pieces[0]) + Chunked(pieces[1..])
  }

  // The scan stops at the first slash or after 127 bytes.
  lemma {:induction false} ScanStops(path: Name, i: nat)
    requires i <= SlashAt(path) && i <= 127
    ensures ScanEnd(path, i) == if SlashAt(path) < 127 then SlashAt(path) else 127
    decreases |path| - i
  {
    if i < SlashAt(path) && i < 127 {
      assert path[i] == path[..SlashAt(path)][i];
      ScanStops(path, i + 1);
    }
  }

  // vfs_lookup splits every path at its slashes, and pieces of more than 127 bytes into chunks.
  lemma {:induction false} TokensAreChunks(path: Name)
    ensures Tokens(path) == Chunked(Pieces(path))
    decreases |path|
  {
    hide Pieces, Chunked, Chunks, ScanEnd, SlashAt;
    if path == [] {
      EmptyPath();
    } else {
      ScanStops(path, 0);
      TokensAreChunks(Rest(path));
      if SlashAt(path) <= 127 {
        ShortPiece(path);
      } else {
        LongPiece(path);
      }
    }
  }

  lemma EmptyPath()
    ensures Chunked(Pieces([])) == []
  {
  }

  lemma ChunkedCons(piece: Name, pieces: seq<Name>)
    requires piece != [] || pieces != []
    ensures Chunked([piece] + pieces) == Chunks(piece) + Chunked(pieces)
  {
    var all := [piece] + pieces;
    assert all[0] == piece && all[1..] == pieces;
    var empty: seq<Name> := [[]];
    assert |empty| == 1 && empty[0] == [];
  }

  lemma PiecesUnfold(path: Name)
    ensures var n := SlashAt(path);
            && Pieces(path) != []
            && (n == |path| ==> Pieces(path) == [path] + [] && path[..n] == path)
            && (n < |path| ==> Pieces(path) == [path[..n]] + Pieces(path[n + 1..]))
  {
  }

  lemma ShortPiece(path: Name)
    requires path != [] && SlashAt(path) <= 127
    ensures var n := SlashAt(path);
            && First(path) == path[..n]
            && Chunked(Pieces(path)) == [path[..n]] + Chunked(Pieces(Rest(path)))
  {
    ScanStops(path, 0);
    PiecesUnfold(path);
    var n := SlashAt(path);
    assert Chunks(path[..n]) == [path[..n]];
    hide Pieces, Chunked, Chunks, ScanEnd, SlashAt;
    if n == |path| {
      ChunkedCons(path, []);
      EmptyPath();
      EmptyChunked();
      assert Rest(path) == [];
    } else {
      PiecesUnfold(path[n + 1..]);
      ChunkedCons(path[..n], Pieces(path[n + 1..]));
    }
  }

  lemma EmptyChunked()
    ensures Chunked([]) == []
  {
  }

  lemma LongPiece(path: Name)
    requires SlashAt(path) > 127
    ensures First(path) == path[..127]
    ensures Chunked(Pieces(path)) == [path[..127]] + Chunked(Pieces(Rest(path)))
  {
    hide Pieces, Chunked, Chunks, ScanEnd, SlashAt, First, Rest;
    SlashAfter(path, 127);
    LongFirst(path);
    var n, rest := SlashAt(path), path[127..];
    PiecesUnfold(path);
    PiecesUnfold(rest);
    assert path[..n][127..] == rest[..n - 127] && path[..n][..127] == path[..127];
    if n < |path| {
      assert rest[n - 127 + 1..] == path[n + 1..];
      MoveChunk(path[..n], Pieces(path[n + 1..]));
    } else {
      MoveChunk(path, []);
    }
  }

  lemma LongFirst(path: Name)
    requires SlashAt(path) > 127
    ensures |path| > 127 && First(path) == path[..127] && Rest(path) == path[127..]
  {
    ScanStops(path, 0);
    NotSlash(path, 127);
    hide ScanEnd, SlashAt;
  }

  lemma MoveChunk(piece: Name, pieces: seq<Name>)
    requires |piece| > 127
    ensures Chunked([piece] + pieces) == [piece[..127]] + Chunked([piece[127..]] + pieces)
  {
    ChunksUnfold(piece);
    hide Chunked, Chunks;
    ChunkedCons(piece, pieces);
    ChunkedCons(piece[127..], pieces);
  }

  lemma NotSlash(path: Name, k: nat)
    requires k < SlashAt(path)
    ensures k < |path| && path[k] != SLASH
  {
    assert path[k] == path[..SlashAt(path)][k];
  }

  lemma ChunksUnfold(piece: Name)
    requires |piece| > 127
    ensures Chunks(piece) == [piece[..127]] + Chunks(piece[127..])
  {
  }

  lemma {:induction false} SlashAfter(path: Name, k: nat)
    requires k <= SlashAt(path)
    ensures SlashAt(path[k..]) == SlashAt(path) - k
  {
    if k > 0 {
      SlashAfter(path[1..], k - 1);
      assert path[1..][k - 1..] == path[k..];
    } else {
      assert path[0..] == path;
    }
  }

  // The components as a reader of the path sees them.
  function Components(path: Name): seq<Name> {
    Dropped(Pieces(path))
  }

  ghost predicate Short(names: seq<Name>) {
    forall n :: n in names ==> |n| <= 127
  }

  // The components looked up are the components of the path exactly when none is longer than 127
  // bytes.
  lemma TokensAreComponentsIff(path: Name)
    ensures Tokens(path) == Components(path) <==> Short(Pieces(path))
  {
    TokensAreChunks(path);
    ChunkedShortIff(Pieces(path));
    PiecesUnfold(path);
  }

  // The list of pieces without an empty last one.
  function Dropped(pieces: seq<Name>): seq<Name>
    requires pieces != []
  {
    if pieces[|pieces| - 1] == [] then pieces[..|pieces| - 1] else pieces
  }

  lemma {:induction false} ChunkedShortIff(pieces: seq<Name>)
    requires pieces != []
    ensures Chunked(pieces) == Dropped(pieces) <==> Short(pieces)
    ensures |Chunked(pieces)| >= |Dropped(pieces)|
    decreases |pieces|
  {
    var p, rest := pieces[0], pieces[1..];
    assert pieces == [p] + rest;
    if rest == [] {
      OnePiece(p);
    } else {
      ChunkedShortIff(rest);
      assert Dropped(pieces) == [p] + Dropped(rest);
      assert Short(pieces) <==> |p| <= 127 && Short(rest);
      ChunkedCons(p, rest);
      ChunksLength(p);
      hide Chunked, Chunks, Short, Dropped;
      var cs, ds := Chunked(rest), Dropped(rest);
      if |p| <= 127 {
        assert ([p] + cs)[1..] == cs && ([p] + ds)[1..] == ds;
      }
    }
  }

  lemma OnePiece(p: Name)
    ensures Chunked([p]) == Dropped([p]) <==> Short([p])
    ensures |Chunked([p])| >= |Dropped([p])|
  {
    ChunksLength(p);
    if p != [] {
      ChunkedCons(p, []);
      assert [p] + [] == [p];
    }
  }

  lemma ChunksLength(p: Name)
    ensures |p| <= 127 ==> Chunks(p) == [p]
    ensures |p| > 127 ==> |Chunks(p)| >= 2
    ensures |Chunks(p)| >= 1
  {
    if |p| > 127 {
      ChunksUnfold(p);
      assert Chunks(p[127..]) != [];
    }
  }

  // ----- rendered paths -----

  // A component that survives: 1 to 127 bytes, no slash.
  ghost predicate Plain(name: Name) {
    1 <= |name| <= 127 && SLASH !in name
  }

  // Components joined by slashes.
  function Render(names: seq<Name>): Name {
    if names == [] then []
    else if |names| == 1 then names[0]
    else names[0] + [SLASH] + Render(names[1..])
  }

  lemma PlainFirst(name: Name, rest: Name)
    requires Plain(name) && (rest == [] || rest[0] == SLASH)
    ensures var path := name + rest;
            First(path) == name && Rest(path) == if rest == [] then [] else rest[1..]
  {
    var path := name + rest;
    PlainSlash(name, rest);
    ScanStops(path, 0);
  }

  lemma {:induction false} PlainSlash(name: Name, rest: Name)
    requires SLASH !in name && (rest == [] || rest[0] == SLASH)
    ensures SlashAt(name + rest) == |name|
  {
    if name == [] {
      assert name + rest == rest;
    } else {
      assert name[0] in name;
      assert (name + rest)[1..] == name[1..] + rest;
      PlainSlash(name[1..], rest);
    }
  }

  // A rendered path of plain components, with or without a trailing slash, is cut back into them.
  lemma {:induction false} TokensOfRender(names: seq<Name>, trailing: bool)
    requires forall n :: n in names ==> Plain(n)
    requires trailing ==> names != []
    ensures Tokens(Render(names) + (if trailing then [SLASH] else [])) == names
    decreases |names|
  {
    var tail := if trailing then [SLASH] else [];
    if names != [] {
      var name, rest := names[0], names[1..];
      assert name in names;
      hide First, Rest, Plain;
      if rest == [] {
        PlainFirst(name, tail);
        assert Render(names) == name;
        TokensUnfold(name + tail);
        assert Tokens([]) == [];
      } else {
        var path := Render(names) + tail;
        assert path == name + ([SLASH] + (Render(rest) + tail));
        PlainFirst(name, [SLASH] + (Render(rest) + tail));
        assert ([SLASH] + (Render(rest) + tail))[1..] == Render(rest) + tail;
        TokensUnfold(path);
        TokensOfRender(rest, trailing);
      }
    } else {
      assert Render(names) + tail == [];
    }
  }

  lemma TokensUnfold(path: Name)
    ensures path != [] ==> Tokens(path) == [First(path)] + Tokens(Rest(path))
  {
  }

  // ----- what pieces and chunks are -----

  // The pieces hold no slash and, joined by slashes, give the path back.
  lemma {:induction false} PiecesMean(path: Name)
    ensures Render(Pieces(path)) == path
    ensures forall p :: p in Pieces(path) ==> SLASH !in p
    decreases |path|
  {
    var n := SlashAt(path);
    PiecesUnfold(path);
    if n < |path| {
      var rest := Pieces(path[n + 1..]);
      PiecesMean(path[n + 1..]);
      assert ([path[..n]] + rest)[1..] == rest;
      assert path == path[..n] + [SLASH] + path[n + 1..];
    }
  }

  function Flat(names: seq<Name>): Name {
    if names == [] then [] else names[0] + Flat(names[1..])
  }

  // The chunks give the piece back; all but the last have 127 bytes, the last at most as many, and
  // none is empty unless the piece is.
  lemma {:induction false} ChunksMean(piece: Name)
    ensures Chunks(piece) != [] && Flat(Chunks(piece)) == piece
    ensures forall k :: 0 <= k < |Chunks(piece)| - 1 ==> |Chunks(piece)[k]| == 127
    ensures var last := Chunks(piece)[|Chunks(piece)| - 1]; |last| <= 127 && (last == [] ==> piece == [])
    decreases |piece|
  {
    var all := Chunks(piece);
    if |piece| > 127 {
      var rest := Chunks(piece[127..]);
      ChunksMean(piece[127..]);
      assert all == [piece[..127]] + rest && all[1..] == rest;
      forall k | 0 <= k < |all| - 1
        ensures |all[k]| == 127
      {
        assert k > 0 ==> all[k] == rest[k - 1];
      }
    } else {
      assert all[1..] == [];
    }
  }
}
