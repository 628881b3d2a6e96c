/**
 * The character-window chunker of `index_repo` (piplines/rag_pipeline.py):
 * every file's text is cut into windows of 2000 characters that start
 * 1800 characters apart, so consecutive windows share 200 characters, and
 * each window gets the id `repo_id:filename:start`.
 */
module RagChunking {

  /** `chunk_size`. */
  const ChunkSize: nat := 2000
  /** `overlap`. */
  const Overlap: nat := 200
  /** How far `i` moves per window: `chunk_size - overlap`. */
  const Stride: nat := 1800

  /** One element of `files`: `{'filename': ..., 'content': ...}`. */
  datatype SourceFile = SourceFile(filename: string, content: string)

  /** One element of `chunks`. */
  datatype Chunk = Chunk(id: string, repoId: string, path: string, startChar: nat, endChar: nat,
                         text: string, metadata: map<string, string>)

  function DigitChar(d: nat): (c: char)
    requires d < 10
    ensures '0' <= c <= '9'
  {
    ('0' as int + d) as char
  }

  /** `str(n)` for a non-negative integer: its decimal digits. */
  function NatToString(n: nat): (s: string)
    ensures |s| >= 1
    ensures |s| == 1 <==> n < 10
  {
    if n < 10 then [DigitChar(n)] else NatToString(n / 10) + [DigitChar(n % 10)]
  }

  /** Different numbers print differently. */
  lemma {:induction false} NatToStringInjective(a: nat, b: nat)
    requires NatToString(a) == NatToString(b)
    ensures a == b
  {
    var sa, sb := NatToString(a), NatToString(b);
    if a < 10 {
      assert sa[0] == DigitChar(a) && sb[0] == DigitChar(b);
    } else {
      assert sa[..|sa| - 1] == NatToString(a / 10);
      assert sb[..|sb| - 1] == NatToString(b / 10);
      assert sa[|sa| - 1] == DigitChar(a % 10) && sb[|sb| - 1] == DigitChar(b % 10);
      NatToStringInjective(a / 10, b / 10);
    }
  }

  /** `f"{repo_id}:{filename}:{i}"`. */
  function ChunkId(repoId: string, filename: string, start: nat): (r: string)
    ensures var p := |repoId| + |filename| + 2;
            p <= |r| && r[..p] == repoId + ":" + filename + ":" && r[p..] == NatToString(start)
  {
    repoId + ":" + filename + ":" + NatToString(start)
  }

  /** Within one file, different start positions give different ids. */
  lemma ChunkIdInjective(repoId: string, filename: string, a: nat, b: nat)
    requires ChunkId(repoId, filename, a) == ChunkId(repoId, filename, b)
    ensures a == b
  {
    var p := repoId + ":" + filename + ":";
    assert ChunkId(repoId, filename, a)[|p|..] == NatToString(a);
    assert ChunkId(repoId, filename, b)[|p|..] == NatToString(b);
    NatToStringInjective(a, b);
  }

  /** The chunk that starts at `i`: `text[i:i+chunk_size]`, which Python
      cuts short at the end of the text. */
  function MakeChunk(repoId: string, file: SourceFile, metadata: map<string, string>, i: nat): (c: Chunk)
    requires i < |file.content|
    ensures c.startChar == i && c.endChar == i + |c.text| <= |file.content|
    ensures c.text == file.content[i..c.endChar]
  {
    var text := file.content[i..WindowEnd(|file.content|, i)];
    Chunk(ChunkId(repoId, file.filename, i), repoId, file.filename, i, i + |text|, text, metadata)
  }

  /** `c` is a non-empty piece of `file` under `repoId`, carrying the
      request's metadata. */
  predicate ChunkOf(c: Chunk, repoId: string, file: SourceFile, metadata: map<string, string>) {
    && c.repoId == repoId && c.path == file.filename && c.metadata == metadata
    && c.startChar < c.endChar <= |file.content|
  }

  /** The chunks the `while i < len(text)` loop appends from position `i` on. */
  function ChunksFrom(repoId: string, file: SourceFile, metadata: map<string, string>, i: nat): (r: seq<Chunk>)
    ensures forall c :: c in r ==> ChunkOf(c, repoId, file, metadata) && i <= c.startChar
    decreases |file.content| - i
  {
    if i >= |file.content| then []
    else [MakeChunk(repoId, file, metadata, i)] + ChunksFrom(repoId, file, metadata, i + Stride)
  }

  /** All chunks of one file. */
  function FileChunks(repoId: string, file: SourceFile, metadata: map<string, string>): (r: seq<Chunk>)
    ensures forall c :: c in r ==> ChunkOf(c, repoId, file, metadata)
  {
    ChunksFrom(repoId, file, metadata, 0)
  }

  /** The chunks of all files, file after file. */
  function AllChunks(repoId: string, files: seq<SourceFile>, metadata: map<string, string>): (r: seq<Chunk>)
    ensures forall c :: c in r ==> c.repoId == repoId && c.metadata == metadata && c.startChar < c.endChar
  {
    if files == [] then [] else FileChunks(repoId, files[0], metadata) + AllChunks(repoId, files[1..], metadata)
  }

  /** From position `i`, ceil((n - i) / 1800) chunks. */
  lemma {:induction false} ChunkCountFrom(repoId: string, file: SourceFile, metadata: map<string, string>, i: nat)
    ensures |ChunksFrom(repoId, file, metadata, i)| ==
            if i >= |file.content| then 0 else (|file.content| - i + Stride - 1) / Stride
    decreases |file.content| - i
  {
    var n := |file.content|;
    if i < n {
      ChunkCountFrom(repoId, file, metadata, i + Stride);
      if i + Stride < n {
        var x := n - i - Stride + Stride - 1;
        assert (x + Stride) / Stride == x / Stride + 1;
      }
    }
  }

  /** The `j`-th chunk from position `i` starts `j` strides further on. */
  lemma {:induction false} ChunkAt(repoId: string, file: SourceFile, metadata: map<string, string>, i: nat, j: nat)
    requires j < |ChunksFrom(repoId, file, metadata, i)|
    ensures i + Stride * j < |file.content|
    ensures ChunksFrom(repoId, file, metadata, i)[j] == MakeChunk(repoId, file, metadata, i + Stride * j)
    decreases j
  {
    ChunksFromCons(repoId, file, metadata, i);
    if j > 0 {
      ChunkAt(repoId, file, metadata, i + Stride, j - 1);
      assert i + Stride + Stride * (j - 1) == i + Stride * j;
    }
  }

  lemma ChunksFromCons(repoId: string, file: SourceFile, metadata: map<string, string>, i: nat)
    ensures var cs := ChunksFrom(repoId, file, metadata, i);
            i < |file.content| <==> cs != []
    ensures i < |file.content| ==>
              ChunksFrom(repoId, file, metadata, i)
                == [MakeChunk(repoId, file, metadata, i)] + ChunksFrom(repoId, file, metadata, i + Stride)
  {
  }

  /** The `j`-th chunk of a file is the window at `1800 * j`. */
  lemma ChunkIsWindow(repoId: string, file: SourceFile, metadata: map<string, string>, j: nat)
    requires j < |FileChunks(repoId, file, metadata)|
    ensures Stride * j < |file.content|
    ensures FileChunks(repoId, file, metadata)[j] == MakeChunk(repoId, file, metadata, Stride * j)
  {
    ChunkAt(repoId, file, metadata, 0, j);
  }

  /**
   * The chunks of a text of length `n`: ceil(n/1800) of them (none for an
   * empty text); the `j`-th starts at `1800 * j` and is the text from there
   * up to 2000 characters on, cut short at `n`; its `end_char - start_char`
   * is its length.
   */
  lemma ChunkLayout(repoId: string, file: SourceFile, metadata: map<string, string>)
    ensures var cs := FileChunks(repoId, file, metadata);
            |cs| == (|file.content| + Stride - 1) / Stride
    ensures var cs := FileChunks(repoId, file, metadata);
            forall j :: 0 <= j < |cs| ==>
              && cs[j].startChar == Stride * j < |file.content|
              && cs[j].endChar == (if Stride * j + ChunkSize <= |file.content| then Stride * j + ChunkSize else |file.content|)
              && cs[j].text == file.content[cs[j].startChar..cs[j].endChar]
              && cs[j].endChar - cs[j].startChar == |cs[j].text|
  {
    ChunkCountFrom(repoId, file, metadata, 0);
    var cs := FileChunks(repoId, file, metadata);
    forall j | 0 <= j < |cs|
      ensures cs[j].startChar == Stride * j < |file.content|
      ensures cs[j].endChar == WindowEnd(|file.content|, Stride * j)
      ensures cs[j].text == file.content[cs[j].startChar..cs[j].endChar]
    {
      ChunkIsWindow(repoId, file, metadata, j);
    }
  }

  /** Every chunk of a file carries its id `repo_id:filename:start`, the
      repository, the file name as `path` and the top-level metadata. */
  lemma ChunkFields(repoId: string, file: SourceFile, metadata: map<string, string>)
    ensures var cs := FileChunks(repoId, file, metadata);
            forall j :: 0 <= j < |cs| ==>
              && cs[j].id == ChunkId(repoId, file.filename, cs[j].startChar)
              && cs[j].path == file.filename && cs[j].repoId == repoId && cs[j].metadata == metadata
  {
    var cs := FileChunks(repoId, file, metadata);
    forall j | 0 <= j < |cs|
      ensures cs[j].id == ChunkId(repoId, file.filename, cs[j].startChar)
      ensures cs[j].path == file.filename && cs[j].repoId == repoId && cs[j].metadata == metadata
    {
      ChunkIsWindow(repoId, file, metadata, j);
    }
  }

  /** Consecutive chunks start 1800 apart and overlap: a chunk reaches 200
      characters into the next one, or to the end of the text when that is
      nearer. */
  lemma ChunksOverlap(repoId: string, file: SourceFile, metadata: map<string, string>, j: nat)
    requires j + 1 < |FileChunks(repoId, file, metadata)|
    ensures var cs := FileChunks(repoId, file, metadata);
            && cs[j + 1].startChar == cs[j].startChar + Stride
            && cs[j].endChar == if cs[j + 1].startChar + Overlap <= |file.content|
                                then cs[j + 1].startChar + Overlap else |file.content|
  {
    ChunkLayout(repoId, file, metadata);
  }

  /** A non-empty text's last chunk ends at its end. */
  lemma {:induction false} LastChunkEnds(repoId: string, file: SourceFile, metadata: map<string, string>, i: nat)
    requires i < |file.content|
    ensures var cs := ChunksFrom(repoId, file, metadata, i);
            cs != [] && cs[|cs| - 1].endChar == |file.content|
    decreases |file.content| - i
  {
    if i + Stride < |file.content| {
      LastChunkEnds(repoId, file, metadata, i + Stride);
    }
  }

  /** Every character from position `i` on lies inside some chunk. */
  lemma {:induction false} ChunksCover(repoId: string, file: SourceFile, metadata: map<string, string>, i: nat, p: nat)
    requires i <= p < |file.content|
    ensures exists j :: 0 <= j < |ChunksFrom(repoId, file, metadata, i)| &&
              ChunksFrom(repoId, file, metadata, i)[j].startChar <= p < ChunksFrom(repoId, file, metadata, i)[j].endChar
    decreases |file.content| - i
  {
    var cs := ChunksFrom(repoId, file, metadata, i);
    if p < i + Stride {
      assert cs[0].startChar <= p < cs[0].endChar;
    } else {
      ChunksCover(repoId, file, metadata, i + Stride, p);
      var rest := ChunksFrom(repoId, file, metadata, i + Stride);
      assert cs == [MakeChunk(repoId, file, metadata, i)] + rest;
      var j :| 0 <= j < |rest| && rest[j].startChar <= p < rest[j].endChar;
      assert cs[j + 1] == rest[j];
      assert 0 <= j + 1 < |cs| && cs[j + 1].startChar <= p < cs[j + 1].endChar;
    }
  }

  /** The chunks of one file have pairwise different ids. */
  lemma ChunkIdsDistinct(repoId: string, file: SourceFile, metadata: map<string, string>)
    ensures var cs := FileChunks(repoId, file, metadata);
            forall j, k :: 0 <= j < k < |cs| ==> cs[j].id != cs[k].id
  {
    var cs := FileChunks(repoId, file, metadata);
    ChunkLayout(repoId, file, metadata);
    ChunkFields(repoId, file, metadata);
    forall j, k | 0 <= j < k < |cs| ensures cs[j].id != cs[k].id {
      if cs[j].id == cs[k].id {
        ChunkIdInjective(repoId, file.filename, Stride * j, Stride * k);
      }
    }
  }

  /** The window the chunking loop cuts at `i`. */
  function WindowEnd(n: nat, i: nat): (r: nat)
    ensures r <= n && (i <= n ==> i <= r)
  {
    if i + ChunkSize <= n then i + ChunkSize else n
  }

  /** One round of the chunking loop appends the window at `i` and keeps
      the loop's invariant. */
  lemma ChunkLoopStep(repoId: string, file: SourceFile, metadata: map<string, string>,
                      chunks: seq<Chunk>, i: nat, c: Chunk)
    requires i < |file.content|
    requires c == Chunk(ChunkId(repoId, file.filename, i), repoId, file.filename, i, i + |c.text|,
                        file.content[i..WindowEnd(|file.content|, i)], metadata)
    requires chunks + ChunksFrom(repoId, file, metadata, i) == FileChunks(repoId, file, metadata)
    ensures (chunks + [c]) + ChunksFrom(repoId, file, metadata, i + ChunkSize - Overlap)
            == FileChunks(repoId, file, metadata)
  {
    var rest := ChunksFrom(repoId, file, metadata, i + Stride);
    ChunksFromCons(repoId, file, metadata, i);
    assert MakeChunk(repoId, file, metadata, i) == c;
    assert chunks + ([c] + rest) == (chunks + [c]) + rest;
  }

  /** Past the end of the text the loop stops with every chunk cut. */
  lemma ChunkLoopDone(repoId: string, file: SourceFile, metadata: map<string, string>,
                      chunks: seq<Chunk>, i: nat)
    requires i >= |file.content|
    requires chunks + ChunksFrom(repoId, file, metadata, i) == FileChunks(repoId, file, metadata)
    ensures chunks == FileChunks(repoId, file, metadata)
  {
    assert chunks + [] == chunks;
  }

  /** The `while` loop of `index_repo` over one file's text. */
  method ChunkFile(repoId: string, file: SourceFile, metadata: map<string, string>) returns (chunks: seq<Chunk>)
    ensures chunks == FileChunks(repoId, file, metadata)
  {
    var text := file.content;
    chunks := [];
    var i := 0;
    while i < |text|
      invariant 0 <= i
      invariant chunks + ChunksFrom(repoId, file, metadata, i) == FileChunks(repoId, file, metadata)
      decreases |text| - i
    {
      var chunkText := text[i..if i + ChunkSize <= |text| then i + ChunkSize else |text|];
      var chunk := Chunk(ChunkId(repoId, file.filename, i), repoId, file.filename,
                         i, i + |chunkText|, chunkText, metadata);
      ChunkLoopStep(repoId, file, metadata, chunks, i, chunk);
      chunks := chunks + [chunk];
      i := i + ChunkSize - Overlap;
    }
    ChunkLoopDone(repoId, file, metadata, chunks, i);
  }

  /** The `for f in files` loop: the chunks of every file, in file order. */
  method ChunkFiles(repoId: string, files: seq<SourceFile>, metadata: map<string, string>) returns (chunks: seq<Chunk>)
    ensures chunks == AllChunks(repoId, files, metadata)
  {
    chunks := [];
    for k := 0 to |files|
      invariant chunks + AllChunks(repoId, files[k..], metadata) == AllChunks(repoId, files, metadata)
    {
      assert files[k..][1..] == files[k + 1..];
      var fileChunks := ChunkFile(repoId, files[k], metadata);
      chunks := chunks + fileChunks;
    }
  }
}
