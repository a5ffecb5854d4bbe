/** The byte stream hashed for a source tree (`tree_digest` in capture_environment.py, `_tree_sha256` in conan_validation.py). */
module TreeFraming {
  import opened Options
  import opened Utf8

  /** A file: its path as Unicode scalar values, and its bytes. */
  datatype File = File(path: seq<nat>, content: seq<Byte>)

  predicate TextPath(path: seq<nat>)
  {
    forall i | 0 <= i < |path| :: IsScalar(path[i])
  }

  const TWO_64: nat := 0x1_0000_0000_0000_0000

  /** Lengths that fit the eight bytes they are written in. */
  predicate Framable(f: File)
  {
    TextPath(f.path) && |EncodeAll(f.path)| < TWO_64 && |f.content| < TWO_64
  }

  function Pow256(k: nat): (p: nat)
    ensures p > 0
  {
    if k == 0 then 1 else 256 * Pow256(k - 1)
  }

  /** The number in `k` bytes, most significant first. */
  function BigEndian(n: nat, k: nat): (bytes: seq<Byte>)
    requires n < Pow256(k)
    ensures |bytes| == k
    decreases k
  {
    if k == 0 then [] else BigEndian(n / 256, k - 1) + [n % 256]
  }

  function FromBigEndian(bytes: seq<Byte>): nat
  {
    if bytes == [] then 0 else 256 * FromBigEndian(bytes[..|bytes| - 1]) + bytes[|bytes| - 1]
  }

  lemma {:induction false} BigEndianInverse(n: nat, k: nat)
    requires n < Pow256(k)
    ensures FromBigEndian(BigEndian(n, k)) == n
    decreases k
  {
    if k > 0 {
      BigEndianInverse(n / 256, k - 1);
      var bytes := BigEndian(n, k);
      assert bytes[..k - 1] == BigEndian(n / 256, k - 1);
    }
  }

  lemma EightBytes()
    ensures Pow256(8) == TWO_64
  {
    assert Pow256(2) == 0x1_0000 && Pow256(4) == 0x1_0000_0000;
    assert Pow256(6) == 0x1_0000_0000_0000;
  }

  /** A length and the bytes it announces. */
  function Chunk(bytes: seq<Byte>): seq<Byte>
    requires |bytes| < TWO_64
  {
    EightBytes();
    BigEndian(|bytes|, 8) + bytes
  }

  function Framed(files: seq<File>): seq<Byte>
    requires forall i | 0 <= i < |files| :: Framable(files[i])
  {
    if files == [] then []
    else
      assert Framable(files[0]);
      Chunk(EncodeAll(files[0].path)) + Chunk(files[0].content) + Framed(files[1..])
  }

  lemma FramedFirst(files: seq<File>)
    requires files != [] && forall i | 0 <= i < |files| :: Framable(files[i])
    ensures Framable(files[0]) && (forall i | 0 <= i < |files[1..]| :: Framable(files[1..][i]))
    ensures TextPath(files[0].path) && |EncodeAll(files[0].path)| < TWO_64 && |files[0].content| < TWO_64
    ensures Framed(files) == Chunk(EncodeAll(files[0].path)) + Chunk(files[0].content) + Framed(files[1..])
  {}

  lemma FramedAt(files: seq<File>, i: nat)
    requires i < |files| && forall k | 0 <= k < |files| :: Framable(files[k])
    ensures TextPath(files[i].path) && |EncodeAll(files[i].path)| < TWO_64 && |files[i].content| < TWO_64
    ensures Framed(files[i..]) == Chunk(EncodeAll(files[i].path)) + Chunk(files[i].content) + Framed(files[i + 1..])
  {
    hide Framed, Framable, Chunk, EncodeAll;
    FramedFirst(files[i..]);
    assert files[i..][1..] == files[i + 1..];
  }

  /** The loop of both implementations: what the digest has been fed. */
  method FeedDigest(files: seq<File>) returns (fed: seq<Byte>)
    requires forall i | 0 <= i < |files| :: Framable(files[i])
    ensures fed == Framed(files)
  {
    hide Chunk, Framable, Framed, EncodeAll;
    fed := [];
    assert files[0..] == files;
    for i := 0 to |files|
      invariant fed + Framed(files[i..]) == Framed(files)
    {
      FramedAt(files, i);
      fed := fed + Chunk(EncodeAll(files[i].path));
      fed := fed + Chunk(files[i].content);
    }
    assert files[|files|..] == [] && Framed([]) == [] by { NothingFramed(); }
  }

  lemma NothingFramed()
    ensures Framed([]) == []
  {}

  // ---------------------------------------------------------------- reading the stream back

  /** The bytes announced at the head of the stream, and the rest. */
  function ReadChunk(stream: seq<Byte>): Option<(seq<Byte>, seq<Byte>)>
  {
    if |stream| < 8 then None
    else
      var n := FromBigEndian(stream[..8]);
      if 8 + n > |stream| then None else Some((stream[8..8 + n], stream[8 + n..]))
  }

  lemma ChunkReadsBack(bytes: seq<Byte>, rest: seq<Byte>)
    requires |bytes| < TWO_64
    ensures ReadChunk(Chunk(bytes) + rest) == Some((bytes, rest))
  {
    EightBytes();
    BigEndianInverse(|bytes|, 8);
    hide BigEndian, FromBigEndian;
    var stream := Chunk(bytes) + rest;
    assert stream[..8] == BigEndian(|bytes|, 8);
    assert stream[8..8 + |bytes|] == bytes && stream[8 + |bytes|..] == rest;
  }

  function ReadFiles(stream: seq<Byte>): Option<seq<File>>
    decreases |stream|
  {
    if stream == [] then Some([])
    else
      var path := ReadChunk(stream);
      if path.None? || |path.value.1| >= |stream| then None
      else
        var content := ReadChunk(path.value.1);
        if content.None? || |content.value.1| >= |stream| then None
        else
          var rest := ReadFiles(content.value.1);
          if rest.None? then None else Some([File(DecodeAll(path.value.0, 0), content.value.0)] + rest.value)
  }

  lemma PathReadsBack(path: seq<nat>)
    requires TextPath(path)
    ensures DecodeAll(EncodeAll(path), 0) == path
  {
    DecodeAllEncoded([], path);
    assert [] + EncodeAll(path) == EncodeAll(path);
  }

  lemma FirstFile(f: File, rest: seq<Byte>)
    requires Framable(f) && ReadFiles(rest).Some?
    ensures ReadFiles(Chunk(EncodeAll(f.path)) + Chunk(f.content) + rest) == Some([f] + ReadFiles(rest).value)
  {
    var path := EncodeAll(f.path);
    var stream := Chunk(path) + Chunk(f.content) + rest;
    assert stream == Chunk(path) + (Chunk(f.content) + rest);
    assert |Chunk(path)| >= 8;
    ChunkReadsBack(path, Chunk(f.content) + rest);
    ChunkReadsBack(f.content, rest);
    PathReadsBack(f.path);
    hide ReadChunk, Chunk, EncodeAll, DecodeAll;
  }

  /** The stream determines the file list. */
  lemma {:induction false} FramedReadsBack(files: seq<File>)
    requires forall i | 0 <= i < |files| :: Framable(files[i])
    ensures ReadFiles(Framed(files)) == Some(files)
  {
    if files != [] {
      FramedFirst(files);
      hide ReadFiles, Framable, Framed, Chunk, EncodeAll, TextPath;
      FramedReadsBack(files[1..]);
      FirstFile(files[0], Framed(files[1..]));
      assert files == [files[0]] + files[1..];
    }
  }

  /** Different file lists feed different bytes to the hash. */
  lemma FramingIsInjective(a: seq<File>, b: seq<File>)
    requires (forall i | 0 <= i < |a| :: Framable(a[i])) && (forall i | 0 <= i < |b| :: Framable(b[i]))
    requires Framed(a) == Framed(b)
    ensures a == b
  {
    FramedReadsBack(a);
    FramedReadsBack(b);
  }
}
