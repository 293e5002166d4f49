/** The encrypted file format and its streaming reader (crates/vt-crypto/src/decrypt.rs:11-111). The cipher
    is a parameter: all that is asked of it is that decryption undoes encryption. */
module EncryptedStream {
  import opened Prelude

  const CHUNK_SIZE: nat := 64 * 1024
  const U32_SIZE: int := 0x1_0000_0000

  /** `encrypt` gets the number of the chunk as its nonce. */
  datatype Cipher = Cipher(encrypt: (nat, Bytes) -> Bytes, decrypt: Bytes -> Option<Bytes>)
  {
    /** Decryption undoes encryption, and an encrypted chunk's length fits its 32-bit header. */
    ghost predicate IsSound() {
      forall nonce: nat, plain: Bytes {:trigger encrypt(nonce, plain)} ::
        |plain| <= CHUNK_SIZE ==> decrypt(encrypt(nonce, plain)) == Some(plain) && |encrypt(nonce, plain)| < U32_SIZE
    }
  }

  // ----- the length header

  function U32(n: nat): (header: Bytes)
    requires n < U32_SIZE
    ensures |header| == 4
  {
    [(n % 256) as Byte, (n / 256 % 256) as Byte, (n / 65536 % 256) as Byte, (n / 16777216) as Byte]
  }

  function FromU32(header: Bytes): (n: nat)
    requires |header| == 4
  {
    header[0] as nat + 256 * header[1] as nat + 65536 * header[2] as nat + 16777216 * header[3] as nat
  }

  lemma U32RoundTrip(n: nat)
    requires n < U32_SIZE
    ensures FromU32(U32(n)) == n
  {
    assert n / 65536 == n / 256 / 256 && n / 16777216 == n / 256 / 256 / 256;
  }

  // ----- the file

  /** The file of `data`, whose first chunk is number `chunk`. */
  function FileOf(cipher: Cipher, data: Bytes, chunk: nat): Bytes
    requires cipher.IsSound()
    decreases |data|
  {
    if data == [] then []
    else
      var n := if |data| < CHUNK_SIZE then |data| else CHUNK_SIZE;
      var encrypted := cipher.encrypt(chunk, data[..n]);
      U32(|encrypted|) + encrypted + FileOf(cipher, data[n..], chunk + 1)
  }

  lemma NextChunk(cipher: Cipher, data: Bytes, offset: nat, n: nat, chunk: nat, file: Bytes)
    requires cipher.IsSound() && offset < |data| && n == if |data| - offset < CHUNK_SIZE then |data| - offset else CHUNK_SIZE
    ensures var encrypted := cipher.encrypt(chunk, data[offset..offset + n]);
      file + FileOf(cipher, data[offset..], chunk) == file + U32(|encrypted|) + encrypted + FileOf(cipher, data[offset + n..], chunk + 1)
  {
    assert data[offset..][..n] == data[offset..offset + n] && data[offset..][n..] == data[offset + n..];
    var encrypted := cipher.encrypt(chunk, data[offset..offset + n]);
    FourAssociate(file, U32(|encrypted|), encrypted, FileOf(cipher, data[offset + n..], chunk + 1));
  }

  lemma FourAssociate(a: Bytes, b: Bytes, c: Bytes, d: Bytes)
    ensures a + (b + c + d) == a + b + c + d
  {
  }

  method EncryptToFile(cipher: Cipher, data: Bytes) returns (file: Bytes)
    requires cipher.IsSound()
    ensures file == FileOf(cipher, data, 0)
  {
    file := [];
    var offset, chunk := 0, 0;
    assert data[0..] == data && file + FileOf(cipher, data, 0) == FileOf(cipher, data, 0);
    while offset < |data|
      invariant 0 <= offset <= |data|
      invariant file + FileOf(cipher, data[offset..], chunk) == FileOf(cipher, data, 0)
    {
      var n := if |data| - offset < CHUNK_SIZE then |data| - offset else CHUNK_SIZE;
      var encrypted := cipher.encrypt(chunk, data[offset..offset + n]);
      NextChunk(cipher, data, offset, n, chunk, file);
      file := file + U32(|encrypted|) + encrypted;
      offset, chunk := offset + n, chunk + 1;
    }
    assert file + [] == file;
  }

  // ----- reading it back

  /** What is left to decrypt from `file`: the next chunk and the file after it, the end, or an error. */
  datatype Fill = Filled(plain: Bytes, rest: nat) | End | Broken(rest: nat)

  /** One step of the reader at `offset`. A header cut short counts as the end. */
  function FillAt(cipher: Cipher, file: Bytes, offset: nat): (f: Fill)
    ensures f.Filled? ==> offset + 4 <= f.rest <= |file|
    ensures f.Broken? ==> offset + 4 <= f.rest <= |file|
  {
    if offset >= |file| || offset + 4 > |file| then End
    else
      var start, len := offset + 4, FromU32(file[offset..offset + 4]);
      if start + len > |file| then Broken(start)
      else
        var plain := cipher.decrypt(file[start..start + len]);
        if plain.Some? then Filled(plain.value, start + len) else Broken(start + len)
  }

  /** The reader of `file` from `offset` on yields `plain`, chunk by nonempty chunk, and then ends. */
  ghost predicate Yields(cipher: Cipher, file: Bytes, offset: nat, plain: Bytes)
    decreases |file| - offset
  {
    match FillAt(cipher, file, offset)
    case End => plain == []
    case Broken(_) => false
    case Filled(first, rest) => first != [] && first <= plain && Yields(cipher, file, rest, plain[|first|..])
  }

  /** Reading an encrypted file yields what was encrypted. */
  lemma {:induction false} FileYieldsData(cipher: Cipher, before: Bytes, data: Bytes, chunk: nat)
    requires cipher.IsSound()
    ensures Yields(cipher, before + FileOf(cipher, data, chunk), |before|, data)
    decreases |data|
  {
    var file := before + FileOf(cipher, data, chunk);
    if data != [] {
      var n := if |data| < CHUNK_SIZE then |data| else CHUNK_SIZE;
      var encrypted := cipher.encrypt(chunk, data[..n]);
      U32RoundTrip(|encrypted|);
      var before' := before + U32(|encrypted|) + encrypted;
      assert file == before' + FileOf(cipher, data[n..], chunk + 1);
      assert file[|before|..|before| + 4] == U32(|encrypted|);
      assert file[|before| + 4..|before'|] == encrypted;
      assert FillAt(cipher, file, |before|) == Filled(data[..n], |before'|);
      FileYieldsData(cipher, before', data[n..], chunk + 1);
    }
  }

  /** Where a file is cut inside a chunk, the reader reports it, unless the cut falls into the chunk's header:
      then it takes the cut for the end of the file. */
  lemma TruncationIsReportedPastHeader(cipher: Cipher, before: Bytes, data: Bytes, chunk: nat, cut: nat)
    requires cipher.IsSound() && data != []
    requires var n := if |data| < CHUNK_SIZE then |data| else CHUNK_SIZE;
      |before| <= cut < |before| + 4 + |cipher.encrypt(chunk, data[..n])|
    ensures var file := before + FileOf(cipher, data, chunk);
      cut <= |file| && FillAt(cipher, file[..cut], |before|) == if cut < |before| + 4 then End else Broken(|before| + 4)
  {
    var n := if |data| < CHUNK_SIZE then |data| else CHUNK_SIZE;
    var encrypted := cipher.encrypt(chunk, data[..n]);
    var file := before + FileOf(cipher, data, chunk);
    U32RoundTrip(|encrypted|);
    assert file == before + U32(|encrypted|) + encrypted + FileOf(cipher, data[n..], chunk + 1);
    if cut >= |before| + 4 {
      assert file[|before|..|before| + 4] == U32(|encrypted|);
      assert file[..cut][|before|..|before| + 4] == file[|before|..|before| + 4];
    }
  }

  /** Where a reader stands: its place in the file, and the decrypted chunk it is handing out. */
  datatype Cursor = Cursor(fileOffset: nat, buffer: Bytes, bufOffset: nat)
  {
    predicate Valid() {
      bufOffset <= |buffer|
    }
  }

  function Fetch(cipher: Cipher, file: Bytes, c: Cursor): (Cursor, Option<bool>) {
    match FillAt(cipher, file, c.fileOffset)
    case End => (c, Some(false))
    case Broken(rest) => (c.(fileOffset := rest), None)
    case Filled(plain, rest) => (Cursor(rest, plain, 0), Some(true))
  }

  function HandOut(c: Cursor, size: nat): (Cursor, Option<Bytes>)
    requires c.Valid()
  {
    var n := if |c.buffer| - c.bufOffset < size then |c.buffer| - c.bufOffset else size;
    (c.(bufOffset := c.bufOffset + n), Some(c.buffer[c.bufOffset..c.bufOffset + n]))
  }

  /** One read of at most `size` bytes; None is an error. */
  function ReadStep(cipher: Cipher, file: Bytes, c: Cursor, size: nat): (Cursor, Option<Bytes>)
    requires c.Valid()
  {
    if c.bufOffset < |c.buffer| then HandOut(c, size)
    else
      var (c', more) := Fetch(cipher, file, c);
      if more.None? then (c', None)
      else if !more.value then (c', Some([]))
      else HandOut(c', size)
  }

  /** `plain` is what further reads return before they return nothing. */
  ghost predicate Remains(cipher: Cipher, file: Bytes, c: Cursor, plain: Bytes) {
    && c.Valid()
    && c.buffer[c.bufOffset..] <= plain
    && Yields(cipher, file, c.fileOffset, plain[|c.buffer| - c.bufOffset..])
  }

  lemma HandOutReturnsPrefix(cipher: Cipher, file: Bytes, c: Cursor, plain: Bytes, size: nat)
    requires Remains(cipher, file, c, plain)
    ensures var (c', piece) := HandOut(c, size);
      && |piece.value| <= size && piece.value <= plain
      && (size > 0 && c.bufOffset < |c.buffer| ==> piece.value != [])
      && Remains(cipher, file, c', plain[|piece.value|..])
  {
    var (c', piece) := HandOut(c, size);
    var tail := c.buffer[c.bufOffset..];
    assert piece.value == tail[..|piece.value|] == plain[..|piece.value|];
    assert c'.buffer[c'.bufOffset..] == tail[|piece.value|..] == plain[|piece.value|..|tail|];
    assert plain[|piece.value|..][|c'.buffer| - c'.bufOffset..] == plain[|tail|..];
  }

  /** A read never fails on such a file, returns the next bytes, and returns none only when none are left. */
  lemma ReadReturnsPrefix(cipher: Cipher, file: Bytes, c: Cursor, plain: Bytes, size: nat)
    requires Remains(cipher, file, c, plain)
    ensures var (c', piece) := ReadStep(cipher, file, c, size);
      && piece.Some? && |piece.value| <= size && piece.value <= plain
      && (size > 0 && plain != [] ==> piece.value != [])
      && Remains(cipher, file, c', plain[|piece.value|..])
  {
    if c.bufOffset < |c.buffer| {
      HandOutReturnsPrefix(cipher, file, c, plain, size);
    } else {
      assert plain[0..] == plain;
      var (c', more) := Fetch(cipher, file, c);
      if more == Some(true) {
        assert c'.buffer[0..] == c'.buffer;
        HandOutReturnsPrefix(cipher, file, c', plain, size);
      }
    }
  }

  class DecryptReader {
    const cipher: Cipher
    const fileData: Bytes
    var fileOffset: nat
    var buffer: Bytes
    var bufOffset: nat

    function State(): Cursor
      reads this
    {
      Cursor(fileOffset, buffer, bufOffset)
    }

    constructor (cipher: Cipher, fileData: Bytes)
      ensures this.cipher == cipher && this.fileData == fileData && State() == Cursor(0, [], 0)
    {
      this.cipher, this.fileData := cipher, fileData;
      fileOffset, buffer, bufOffset := 0, [], 0;
    }

    /** None is an error; otherwise whether a chunk was read. */
    method FillBuffer() returns (more: Option<bool>)
      modifies this
      ensures (State(), more) == Fetch(cipher, fileData, old(State()))
    {
      if fileOffset >= |fileData| {
        return Some(false);
      }
      if fileOffset + 4 > |fileData| {
        return Some(false);
      }
      var chunkLen := FromU32(fileData[fileOffset..fileOffset + 4]);
      fileOffset := fileOffset + 4;
      if fileOffset + chunkLen > |fileData| {
        return None;
      }
      var encrypted := fileData[fileOffset..fileOffset + chunkLen];
      fileOffset := fileOffset + chunkLen;
      var plain := cipher.decrypt(encrypted);
      if plain.None? {
        return None;
      }
      buffer, bufOffset := plain.value, 0;
      more := Some(true);
    }

    method Read(size: nat) returns (piece: Option<Bytes>)
      requires State().Valid()
      modifies this
      ensures (State(), piece) == ReadStep(cipher, fileData, old(State()), size) && State().Valid()
    {
      if bufOffset >= |buffer| {
        var more := FillBuffer();
        if more.None? {
          return None;
        }
        if !more.value {
          return Some([]);
        }
      }
      var available := |buffer| - bufOffset;
      var toCopy := if available < size then available else size;
      piece := Some(buffer[bufOffset..bufOffset + toCopy]);
      bufOffset := bufOffset + toCopy;
    }
  }

  /** A reader over the encrypted file of `data`. */
  method OpenEncrypted(cipher: Cipher, data: Bytes) returns (reader: DecryptReader)
    requires cipher.IsSound()
    ensures fresh(reader) && reader.cipher == cipher && reader.State().Valid()
    ensures Remains(cipher, reader.fileData, reader.State(), data)
  {
    var file := EncryptToFile(cipher, data);
    reader := new DecryptReader(cipher, file);
    FileYieldsData(cipher, [], data, 0);
    assert [] + file == file && data[0..] == data;
  }

  function Concat(pieces: seq<Bytes>): Bytes {
    if pieces == [] then [] else Concat(pieces[..|pieces| - 1]) + pieces[|pieces| - 1]
  }

  /** The read of a positive size came back empty. */
  predicate CameBackEmpty(pieces: seq<Bytes>, sizes: seq<nat>, i: nat)
    requires i < |pieces| <= |sizes|
  {
    sizes[i] > 0 && pieces[i] == []
  }

  /** The pieces fit their sizes, and once a read of a positive size comes back empty, all of the data has been
      returned and every later piece is empty too. */
  ghost predicate EmptyOnlyAtEnd(pieces: seq<Bytes>, sizes: seq<nat>, isAll: bool)
    requires |pieces| <= |sizes|
  {
    && (forall i | 0 <= i < |pieces| :: |pieces[i]| <= sizes[i])
    && (forall i | 0 <= i < |pieces| && CameBackEmpty(pieces, sizes, i) :: isAll)
    && (forall i, j | 0 <= i < j < |pieces| && CameBackEmpty(pieces, sizes, i) :: pieces[j] == [])
  }

  /** A read from a reader that has `left` still to give. */
  method ReadNext(reader: DecryptReader, size: nat, ghost left: Bytes) returns (piece: Bytes, ghost left': Bytes)
    requires reader.State().Valid() && Remains(reader.cipher, reader.fileData, reader.State(), left)
    modifies reader
    ensures reader.State().Valid() && Remains(reader.cipher, reader.fileData, reader.State(), left')
    ensures |piece| <= size && piece <= left && left' == left[|piece|..] && (size > 0 && left != [] ==> piece != [])
  {
    ReadReturnsPrefix(reader.cipher, reader.fileData, reader.State(), left, size);
    var r := reader.Read(size);
    piece, left' := r.value, left[|r.value|..];
  }

  /** Reading with any sizes: the pieces make up a prefix of the data. */
  method ReadPieces(cipher: Cipher, data: Bytes, sizes: seq<nat>) returns (pieces: seq<Bytes>)
    requires cipher.IsSound()
    ensures |pieces| == |sizes| && Concat(pieces) <= data && EmptyOnlyAtEnd(pieces, sizes, Concat(pieces) == data)
  {
    var reader := OpenEncrypted(cipher, data);
    pieces := [];
    ghost var left := data;
    for i := 0 to |sizes|
      invariant fresh(reader) && reader.cipher == cipher && reader.State().Valid()
      invariant Remains(cipher, reader.fileData, reader.State(), left)
      invariant |pieces| == i && Concat(pieces) + left == data && EmptyOnlyAtEnd(pieces, sizes, Concat(pieces) == data)
    {
      var piece, left' := ReadNext(reader, sizes[i], left);
      PieceExtends(pieces, left, piece, data, sizes);
      pieces, left := pieces + [piece], left';
    }
  }

  lemma ConcatOneMore(pieces: seq<Bytes>, piece: Bytes)
    ensures Concat(pieces + [piece]) == Concat(pieces) + piece
  {
    assert (pieces + [piece])[..|pieces|] == pieces;
  }

  lemma PieceMoves(taken: Bytes, left: Bytes, piece: Bytes, data: Bytes)
    requires taken + left == data && piece <= left
    ensures taken + piece + left[|piece|..] == data
  {
    assert piece + left[|piece|..] == left;
    assert taken + piece + left[|piece|..] == taken + (piece + left[|piece|..]);
  }

  lemma EmptyStaysAtEnd(pieces: seq<Bytes>, piece: Bytes, sizes: seq<nat>, isAll: bool, isAll': bool)
    requires |pieces| < |sizes| && EmptyOnlyAtEnd(pieces, sizes, isAll)
    requires |piece| <= sizes[|pieces|] && (isAll ==> piece == [] && isAll')
    requires sizes[|pieces|] > 0 && piece == [] ==> isAll
    ensures EmptyOnlyAtEnd(pieces + [piece], sizes, isAll')
  {
    var all := pieces + [piece];
    forall i | 0 <= i < |all| && CameBackEmpty(all, sizes, i)
      ensures isAll
    {
      if i < |pieces| {
        assert CameBackEmpty(pieces, sizes, i);
      }
    }
    forall i, j | 0 <= i < j < |all| && CameBackEmpty(all, sizes, i)
      ensures all[j] == []
    {
      assert CameBackEmpty(pieces, sizes, i);
    }
  }

  lemma PieceExtends(pieces: seq<Bytes>, left: Bytes, piece: Bytes, data: Bytes, sizes: seq<nat>)
    requires |pieces| < |sizes| && EmptyOnlyAtEnd(pieces, sizes, Concat(pieces) == data)
    requires Concat(pieces) + left == data && piece <= left && |piece| <= sizes[|pieces|]
    requires sizes[|pieces|] > 0 && left != [] ==> piece != []
    ensures Concat(pieces + [piece]) + left[|piece|..] == data
    ensures EmptyOnlyAtEnd(pieces + [piece], sizes, Concat(pieces + [piece]) == data)
  {
    ConcatOneMore(pieces, piece);
    PieceMoves(Concat(pieces), left, piece, data);
    NothingLeft(Concat(pieces), left, data);
    if left == [] {
      NothingLeft(Concat(pieces + [piece]), left[|piece|..], data);
    }
    EmptyStaysAtEnd(pieces, piece, sizes, Concat(pieces) == data, Concat(pieces + [piece]) == data);
  }

  lemma NothingLeft(taken: Bytes, left: Bytes, data: Bytes)
    requires taken + left == data
    ensures left == [] <==> taken == data
  {
    assert |taken| + |left| == |data|;
  }

  /** Reading until nothing comes gives back the data. */
  method ReadToEnd(cipher: Cipher, data: Bytes, size: nat) returns (all: Bytes)
    requires cipher.IsSound() && size > 0
    ensures all == data
  {
    var reader := OpenEncrypted(cipher, data);
    all := [];
    ghost var left := data;
    while true
      invariant fresh(reader) && reader.cipher == cipher && reader.State().Valid()
      invariant Remains(cipher, reader.fileData, reader.State(), left)
      invariant all + left == data
      decreases |left|
    {
      var piece, left' := ReadNext(reader, size, left);
      if piece == [] {
        break;
      }
      PieceMoves(all, left, piece, data);
      all, left := all + piece, left';
    }
  }
}
