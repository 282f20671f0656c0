/** The content fingerprint the sync uses to decide whether a replica file is
    stale: an MD5 hex digest fed with the file's bytes in 4096-byte chunks.
    The MD5 function itself is a parameter (`md5`), so nothing below depends
    on how it mixes bits; only on the fact that it is a function of the bytes. */
module Hashing {
  import opened FileTree

  type Digest = string

  /** The size of the chunks the file is read in. */
  const ChunkSize: nat := 4096

  /** A running `hashlib.md5()` object. MD5's internal state is represented by
      the bytes it has absorbed so far: `update(a); update(b)` leaves it in the
      same state as `update(a + b)`, and `hexdigest()` is MD5 of everything
      absorbed. */
  datatype Md5State = Md5State(absorbed: seq<Byte>)
  {
    /** `update(chunk)`: the digest afterwards covers the bytes absorbed
        before, followed by the chunk. */
    function Update(chunk: seq<Byte>): (st: Md5State)
      ensures forall md5: seq<Byte> -> Digest :: st.HexDigest(md5) == md5(absorbed + chunk)
    {
      Md5State(absorbed + chunk)
    }

    /** `hexdigest()`: MD5 of every byte absorbed so far. */
    function HexDigest(md5: seq<Byte> -> Digest): Digest
    {
      md5(absorbed)
    }
  }

  /** `hashlib.md5()`: a fresh object whose digest is MD5 of the empty input. */
  function NewMd5(): (st: Md5State)
    ensures forall md5: seq<Byte> -> Digest :: st.HexDigest(md5) == md5([])
  {
    Md5State([])
  }

  /** Feeding two chunks in turn is feeding their concatenation at once. */
  lemma UpdateTwice(st: Md5State, a: seq<Byte>, b: seq<Byte>)
    ensures st.Update(a).Update(b) == st.Update(a + b)
  {
    assert st.absorbed + a + b == st.absorbed + (a + b);
  }

  function Min(a: nat, b: nat): nat
  {
    if a <= b then a else b
  }

  /** `file.read(size)` with the file position at `pos`: at most `size` bytes,
      and the empty chunk only at the end of the file. */
  function Read(content: seq<Byte>, pos: nat, size: nat): (chunk: seq<Byte>)
    requires pos <= |content|
    ensures |chunk| <= size
    ensures pos + |chunk| <= |content|
    ensures size > 0 ==> (chunk == [] <==> pos == |content|)
    ensures content[pos..pos + |chunk|] == chunk
  {
    content[pos..Min(pos + size, |content|)]
  }

  /** The chunks `while chunk := file.read(size)` hands to `update`, from
      position `pos` to the end of the file. */
  function Chunks(content: seq<Byte>, pos: nat, size: nat): seq<seq<Byte>>
    requires pos <= |content| && size > 0
    decreases |content| - pos
  {
    var chunk := Read(content, pos, size);
    if chunk == [] then [] else [chunk] + Chunks(content, pos + |chunk|, size)
  }

  /** Feeds the chunks to the digest object one after the other. */
  function AbsorbAll(st: Md5State, chunks: seq<seq<Byte>>): Md5State
    decreases |chunks|
  {
    if chunks == [] then st else AbsorbAll(st.Update(chunks[0]), chunks[1..])
  }

  /** Absorbing the chunks from `pos` on is absorbing the next chunk, then
      the chunks after it. */
  lemma AbsorbFirst(st: Md5State, content: seq<Byte>, pos: nat, size: nat)
    requires pos <= |content| && size > 0 && Read(content, pos, size) != []
    ensures AbsorbAll(st, Chunks(content, pos, size))
         == AbsorbAll(st.Update(Read(content, pos, size)), Chunks(content, pos + |Read(content, pos, size)|, size))
  {
    var chunk := Read(content, pos, size);
    var rest := Chunks(content, pos + |chunk|, size);
    assert Chunks(content, pos, size) == [chunk] + rest;
    assert ([chunk] + rest)[0] == chunk && ([chunk] + rest)[1..] == rest;
  }

  /** Reading from `pos` on yields non-empty chunks of at most `size` bytes
      that put together give back the rest of the file. */
  lemma {:induction false} ChunksCover(content: seq<Byte>, pos: nat, size: nat)
    requires pos <= |content| && size > 0
    ensures forall i :: 0 <= i < |Chunks(content, pos, size)| ==>
      0 < |Chunks(content, pos, size)[i]| <= size
    ensures AbsorbAll(Md5State(content[..pos]), Chunks(content, pos, size)).absorbed == content
    decreases |content| - pos
  {
    var chunk := Read(content, pos, size);
    if chunk != [] {
      ChunksCover(content, pos + |chunk|, size);
      assert content[..pos] + chunk == content[..pos + |chunk|];
    } else {
      assert content[..pos] == content;
    }
  }

  /** The digest of a file read in chunks of any positive size is MD5 of its
      bytes: it depends on the content only, not on how it was read. */
  lemma ChunkedDigest(md5: seq<Byte> -> Digest, content: seq<Byte>, size: nat)
    requires size > 0
    ensures AbsorbAll(NewMd5(), Chunks(content, 0, size)).HexDigest(md5) == md5(content)
  {
    ChunksCover(content, 0, size);
    assert content[..0] == [];
  }

  /** Two different chunk sizes give the same digest. */
  lemma ChunkSizeIrrelevant(md5: seq<Byte> -> Digest, content: seq<Byte>, size1: nat, size2: nat)
    requires size1 > 0 && size2 > 0
    ensures AbsorbAll(NewMd5(), Chunks(content, 0, size1)).HexDigest(md5)
         == AbsorbAll(NewMd5(), Chunks(content, 0, size2)).HexDigest(md5)
  {
    ChunkedDigest(md5, content, size1);
    ChunkedDigest(md5, content, size2);
  }
}
