/**
 * The second half of `index_repo` (piplines/rag_pipeline.py): pair the
 * chunks with their embeddings, flatten their metadata, and merge the new
 * vectors into everything the repository's namespace already holds,
 * counting how many ids were replaced.
 *
 * The embedder's answer (`get_embeddings`) and the namespace contents (the
 * `query_vectors` call with `top_k=10000`) are inputs; the list handed to
 * `upsert_vectors` and the returned summary are outputs. Embedding values
 * are reals.
 */
module RagMerge {
  import opened Wrappers
  import opened OrderedDicts
  import opened RagChunking

  type Embedding = seq<real>

  /** `[0.0] * EMBEDDING_DIM`. */
  function Zeros(dim: nat): (r: Embedding)
    ensures |r| == dim && forall i :: 0 <= i < dim ==> r[i] == 0.0
  {
    seq(dim, _ => 0.0)
  }

  /** The keys a chunk contributes to its flat metadata: every field but
      `text` and `metadata`. */
  const ChunkFieldNames: set<string> := {"id", "repoId", "path", "start_char", "end_char"}

  /** `{k: v for k, v in c.items() if k not in ('text', 'metadata')}`, with
      the integer fields as their decimal text. */
  function OwnFields(c: Chunk): (r: map<string, string>)
    ensures r.Keys == ChunkFieldNames
  {
    map["id" := c.id, "repoId" := c.repoId, "path" := c.path,
        "start_char" := NatToString(c.startChar), "end_char" := NatToString(c.endChar)]
  }

  /**
   * `flat_metadata`: the chunk's fields overridden by the top-level
   * metadata. The chunk's own text and nested metadata never appear; the
   * keys `text` and `metadata` appear only when the top-level metadata has
   * them.
   */
  function FlattenMetadata(c: Chunk, metadata: map<string, string>): (r: map<string, string>)
    ensures r.Keys == ChunkFieldNames + metadata.Keys
    ensures forall k :: k in metadata ==> r[k] == metadata[k]
    ensures forall k :: k in ChunkFieldNames && k !in metadata ==> r[k] == OwnFields(c)[k]
    ensures "text" in r <==> "text" in metadata
    ensures "metadata" in r <==> "metadata" in metadata
  {
    OwnFields(c) + metadata
  }

  /** An `(id, emb, metadata)` tuple of `vectors` or `merged_vectors`. */
  datatype Vector = Vector(id: string, emb: Embedding, metadata: map<string, string>)

  /** `zip(chunks, embeddings)` turned into vectors: as many as the shorter
      list has. */
  function Vectors(chunks: seq<Chunk>, embeddings: seq<Embedding>, metadata: map<string, string>): (r: seq<Vector>)
    ensures |r| == if |chunks| <= |embeddings| then |chunks| else |embeddings|
    ensures forall j :: 0 <= j < |r| ==>
              r[j] == Vector(chunks[j].id, embeddings[j], FlattenMetadata(chunks[j], metadata))
  {
    var n := if |chunks| <= |embeddings| then |chunks| else |embeddings|;
    seq(n, j requires 0 <= j < n => Vector(chunks[j].id, embeddings[j], FlattenMetadata(chunks[j], metadata)))
  }

  /** The `for c, emb in zip(chunks, embeddings)` loop. */
  method BuildVectors(chunks: seq<Chunk>, embeddings: seq<Embedding>, metadata: map<string, string>)
    returns (vectors: seq<Vector>)
    ensures vectors == Vectors(chunks, embeddings, metadata)
  {
    var n := if |chunks| <= |embeddings| then |chunks| else |embeddings|;
    vectors := [];
    for j := 0 to n
      invariant vectors == Vectors(chunks, embeddings, metadata)[..j]
    {
      vectors := vectors + [Vector(chunks[j].id, embeddings[j], FlattenMetadata(chunks[j], metadata))];
    }
  }

  /** One entry `query_vectors` returns: no embedding, only id and metadata. */
  datatype Match = Match(id: string, metadata: map<string, string>, text: Option<string>)

  /** A value of `existing_dict`: a vector from the namespace has no `emb`. */
  datatype Stored = Stored(emb: Option<Embedding>, metadata: map<string, string>)

  /** `existing_dict`, a `dict` with its insertion order. */
  datatype Dict = Dict(keys: seq<string>, entries: map<string, Stored>)

  const EmptyDict := Dict([], map[])

  /** `existing_dict[id] = v`. */
  function Put(d: Dict, id: string, v: Stored): (r: Dict)
    ensures r.entries.Keys == d.entries.Keys + {id} && r.entries[id] == v
    ensures forall k :: k in d.entries && k != id ==> r.entries[k] == d.entries[k]
  {
    Dict(Inserted(d.keys, id), d.entries[id := v])
  }

  /** `{v['id']: v for v in existing}` continued from `d`. */
  function PutExisting(d: Dict, es: seq<Match>): (r: Dict)
    ensures d.entries.Keys <= r.entries.Keys
    ensures forall k :: k in r.entries && k !in MatchIds(es) ==> k in d.entries && r.entries[k] == d.entries[k]
    decreases |es|
  {
    if es == [] then d else
      MatchIdsCons(es);
      PutExisting(Put(d, es[0].id, Stored(None, es[0].metadata)), es[1..])
  }

  /** The merge loop's writes, from `d`. */
  function MergeNew(d: Dict, vs: seq<Vector>): (r: Dict)
    ensures d.entries.Keys <= r.entries.Keys
    ensures forall k :: k in r.entries && k !in Ids(vs) ==> k in d.entries && r.entries[k] == d.entries[k]
    decreases |vs|
  {
    if vs == [] then d else
      IdsCons(vs);
      MergeNew(Put(d, vs[0].id, Stored(Some(vs[0].emb), vs[0].metadata)), vs[1..])
  }

  /** The merge loop's `upserts`: vectors whose id is already a key when
      their turn comes, `present` being the keys at the start. */
  function UpsertCount(present: set<string>, vs: seq<Vector>): (r: nat)
    ensures r <= |vs|
    decreases |vs|
  {
    if vs == [] then 0
    else (if vs[0].id in present then 1 else 0) + UpsertCount(present + {vs[0].id}, vs[1..])
  }

  /** `merged_vectors`: every key in dictionary order, a missing `emb`
      read as the zero vector. */
  function MergedVectors(d: Dict, dim: nat): (r: seq<Vector>)
    requires IsDict(d.keys, d.entries)
    ensures |r| == |d.keys|
  {
    seq(|d.keys|, j requires 0 <= j < |d.keys| =>
      var s := d.entries[d.keys[j]];
      Vector(d.keys[j], if s.emb.Some? then s.emb.value else Zeros(dim), s.metadata))
  }

  function Ids(vs: seq<Vector>): set<string> {
    set v | v in vs :: v.id
  }

  function MatchIds(es: seq<Match>): set<string> {
    set e | e in es :: e.id
  }

  /** `vs[j]` is the last vector with id `id`. */
  predicate LastWith(vs: seq<Vector>, j: int, id: string) {
    0 <= j < |vs| && vs[j].id == id && forall k :: j < k < |vs| ==> vs[k].id != id
  }

  /** Every entry came from the namespace, without an embedding. */
  ghost predicate NoEmb(d: Dict) {
    forall id :: id in d.entries ==> d.entries[id].emb.None?
  }

  /** Writing into a dictionary keeps order and mapping in step, and an
      existing key keeps its place. */
  lemma PutDict(d: Dict, id: string, v: Stored)
    requires IsDict(d.keys, d.entries)
    ensures IsDict(Put(d, id, v).keys, Put(d, id, v).entries)
    ensures |Put(d, id, v).keys| == if id in d.entries then |d.keys| else |d.keys| + 1
    ensures Put(d, id, v).keys[..|d.keys|] == d.keys
  {
    InsertedDistinct(d.keys, id);
    assert id in d.keys <==> id in Elems(d.keys);
  }

  lemma MatchIdsCons(es: seq<Match>)
    requires es != []
    ensures MatchIds(es) == {es[0].id} + MatchIds(es[1..])
  {
    assert es == [es[0]] + es[1..];
  }

  lemma IdsCons(vs: seq<Vector>)
    requires vs != []
    ensures Ids(vs) == {vs[0].id} + Ids(vs[1..])
  {
    assert vs == [vs[0]] + vs[1..];
  }

  /** A prefix of a prefix. */
  lemma PrefixOfPrefix(r: seq<string>, d1: seq<string>, d: seq<string>)
    requires |d| <= |d1| <= |r| && r[..|d1|] == d1 && d1[..|d|] == d
    ensures r[..|d|] == d
  {
    assert r[..|d|] == r[..|d1|][..|d|];
  }

  /** Building `existing_dict` keeps order and mapping in step; its keys are
      the ids seen, old keys first. */
  lemma {:induction false} PutExistingDict(d: Dict, es: seq<Match>)
    requires IsDict(d.keys, d.entries)
    ensures var r := PutExisting(d, es);
            && IsDict(r.keys, r.entries)
            && r.entries.Keys == d.entries.Keys + MatchIds(es)
            && |d.keys| <= |r.keys| && r.keys[..|d.keys|] == d.keys
    decreases |es|
  {
    if es != [] {
      var d1 := Put(d, es[0].id, Stored(None, es[0].metadata));
      PutDict(d, es[0].id, Stored(None, es[0].metadata));
      PutExistingDict(d1, es[1..]);
      MatchIdsCons(es);
      var r := PutExisting(d1, es[1..]);
      PrefixOfPrefix(r.keys, d1.keys, d.keys);
    }
  }

  /** `existing_dict` holds no embeddings: the namespace query returns
      none. */
  lemma {:induction false} PutExistingNoEmb(d: Dict, es: seq<Match>)
    requires NoEmb(d)
    ensures NoEmb(PutExisting(d, es))
    decreases |es|
  {
    if es != [] {
      PutExistingNoEmb(Put(d, es[0].id, Stored(None, es[0].metadata)), es[1..]);
    }
  }

  /** The merge keeps order and mapping in step; its keys are the old keys
      and the new ids, old keys first in their old order. */
  lemma {:induction false} MergeNewDict(d: Dict, vs: seq<Vector>)
    requires IsDict(d.keys, d.entries)
    ensures var r := MergeNew(d, vs);
            && IsDict(r.keys, r.entries)
            && r.entries.Keys == d.entries.Keys + Ids(vs)
            && |d.keys| <= |r.keys| && r.keys[..|d.keys|] == d.keys
    decreases |vs|
  {
    if vs != [] {
      var d1 := Put(d, vs[0].id, Stored(Some(vs[0].emb), vs[0].metadata));
      PutDict(d, vs[0].id, Stored(Some(vs[0].emb), vs[0].metadata));
      MergeNewDict(d1, vs[1..]);
      IdsCons(vs);
      var r := MergeNew(d1, vs[1..]);
      PrefixOfPrefix(r.keys, d1.keys, d.keys);
    }
  }

  /**
   * The count law of the merge: every new vector either replaces a key
   * (and is counted in `upserts`) or adds one, so the merged dictionary
   * has `existing_before + len(vectors) - upserts` keys.
   */
  lemma {:induction false} UpsertLaw(d: Dict, vs: seq<Vector>)
    ensures |MergeNew(d, vs).entries| + UpsertCount(d.entries.Keys, vs) == |d.entries| + |vs|
    decreases |vs|
  {
    if vs != [] {
      var d1 := Put(d, vs[0].id, Stored(Some(vs[0].emb), vs[0].metadata));
      UpsertLaw(d1, vs[1..]);
      assert d1.entries.Keys == d.entries.Keys + {vs[0].id};
    }
  }

  /** No vector is counted when every new id is new to the dictionary and
      occurs once. */
  lemma {:induction false} NoUpserts(present: set<string>, vs: seq<Vector>)
    requires forall j :: 0 <= j < |vs| ==> vs[j].id !in present
    requires forall j, k :: 0 <= j < k < |vs| ==> vs[j].id != vs[k].id
    ensures UpsertCount(present, vs) == 0
    decreases |vs|
  {
    if vs != [] {
      forall j | 0 <= j < |vs| - 1 ensures vs[1..][j].id !in present + {vs[0].id} {
        assert vs[1..][j] == vs[j + 1];
      }
      NoUpserts(present + {vs[0].id}, vs[1..]);
    }
  }

  /** The value the merge leaves under `id`: the last new vector with that
      id, or what the dictionary had. */
  lemma {:induction false} MergeNewValue(d: Dict, vs: seq<Vector>, id: string)
    requires id in d.entries || id in Ids(vs)
    ensures id in MergeNew(d, vs).entries
    ensures id !in Ids(vs) ==> MergeNew(d, vs).entries[id] == d.entries[id]
    ensures forall j :: LastWith(vs, j, id) ==>
              MergeNew(d, vs).entries[id] == Stored(Some(vs[j].emb), vs[j].metadata)
    decreases |vs|
  {
    if vs != [] {
      var d1 := Put(d, vs[0].id, Stored(Some(vs[0].emb), vs[0].metadata));
      IdsCons(vs);
      MergeNewValue(d1, vs[1..], id);
      forall j | 0 < j && LastWith(vs, j, id)
        ensures MergeNew(d, vs).entries[id] == Stored(Some(vs[j].emb), vs[j].metadata)
      {
        assert vs[1..][j - 1] == vs[j];
        forall k | j - 1 < k < |vs| - 1 ensures vs[1..][k].id != id {
          assert vs[1..][k] == vs[k + 1];
        }
      }
      if id !in Ids(vs[1..]) {
        forall k | 0 < k < |vs| ensures vs[k].id != id {
          assert vs[k] in vs[1..] by { assert vs[1..][k - 1] == vs[k]; }
        }
      }
    }
  }

  /** The summary `index_repo` returns. */
  datatype IndexSummary = IndexSummary(repoId: string, fileCount: nat, chunkCount: nat, upserts: nat,
                                       mergedTotal: nat, existingBefore: nat)

  /** The vectors built from the files. */
  function NewVectors(repoId: string, files: seq<SourceFile>, metadata: map<string, string>,
                      embeddings: seq<Embedding>): seq<Vector> {
    Vectors(AllChunks(repoId, files, metadata), embeddings, metadata)
  }

  /** `existing_dict` before the merge. */
  function Before(existing: seq<Match>): (r: Dict)
    ensures IsDict(r.keys, r.entries) && r.entries.Keys == MatchIds(existing) && NoEmb(r)
  {
    PutExistingDict(EmptyDict, existing);
    PutExistingNoEmb(EmptyDict, existing);
    PutExisting(EmptyDict, existing)
  }

  /** `existing_dict` after the merge. */
  function After(repoId: string, files: seq<SourceFile>, metadata: map<string, string>,
                 embeddings: seq<Embedding>, existing: seq<Match>): Dict {
    MergeNew(Before(existing), NewVectors(repoId, files, metadata, embeddings))
  }

  function Summary(repoId: string, files: seq<SourceFile>, metadata: map<string, string>,
                   embeddings: seq<Embedding>, existing: seq<Match>): (r: IndexSummary)
    ensures r.repoId == repoId && r.fileCount == |files|
    ensures r.upserts <= r.chunkCount
    ensures r.existingBefore == |MatchIds(existing)|
  {
    IndexSummary(repoId, |files|, |AllChunks(repoId, files, metadata)|,
                 UpsertCount(Before(existing).entries.Keys, NewVectors(repoId, files, metadata, embeddings)),
                 |After(repoId, files, metadata, embeddings, existing).keys|,
                 |Before(existing).entries|)
  }

  /** The counts of a merge into the dictionary built from `es`. */
  lemma MergeCounts(b: Dict, es: seq<Match>, vs: seq<Vector>)
    requires b == Before(es)
    ensures |b.entries| == |MatchIds(es)|
    ensures var a := MergeNew(b, vs);
            && Elems(a.keys) == MatchIds(es) + Ids(vs)
            && |a.keys| == |MatchIds(es) + Ids(vs)|
            && |a.keys| + UpsertCount(b.entries.Keys, vs) == |b.entries| + |vs|
  {
    PutExistingDict(EmptyDict, es);
    MergeNewDict(b, vs);
    UpsertLaw(b, vs);
    var a := MergeNew(b, vs);
    SizeMatchesOrder(a.entries, a.keys);
  }

  /**
   * The summary's counts: `existing_before` is the number of distinct
   * existing ids; the merged ids are the existing ids and the new ids;
   * `merged_total` is their number, `existing_before + len(vectors) -
   * upserts`.
   */
  lemma SummaryCounts(repoId: string, files: seq<SourceFile>, metadata: map<string, string>,
                      embeddings: seq<Embedding>, existing: seq<Match>)
    ensures var s := Summary(repoId, files, metadata, embeddings, existing);
            var vs := NewVectors(repoId, files, metadata, embeddings);
            && s.existingBefore == |MatchIds(existing)|
            && Elems(After(repoId, files, metadata, embeddings, existing).keys) == MatchIds(existing) + Ids(vs)
            && s.mergedTotal == |MatchIds(existing) + Ids(vs)|
            && s.mergedTotal + s.upserts == s.existingBefore + |vs|
  {
    MergeCounts(Before(existing), existing, NewVectors(repoId, files, metadata, embeddings));
  }

  /**
   * An entry of `merged_vectors` after merging `vs` into a dictionary of
   * namespace entries: the keys it had come first, in their order; a new id
   * carries the embedding and metadata of its last new vector; an id only
   * the namespace had keeps its metadata and gets the zero vector.
   */
  lemma MergedEntry(b: Dict, vs: seq<Vector>, dim: nat, j: nat)
    requires IsDict(b.keys, b.entries) && NoEmb(b)
    requires j < |MergeNew(b, vs).keys|
    ensures IsDict(MergeNew(b, vs).keys, MergeNew(b, vs).entries)
    ensures var v := MergedVectors(MergeNew(b, vs), dim)[j];
            && (j < |b.keys| ==> v.id == b.keys[j])
            && (v.id !in Ids(vs) ==> v.id in b.entries && v.emb == Zeros(dim) && v.metadata == b.entries[v.id].metadata)
            && (forall k :: LastWith(vs, k, v.id) ==> v.emb == vs[k].emb && v.metadata == vs[k].metadata)
  {
    MergeNewDict(b, vs);
    var a := MergeNew(b, vs);
    var id := a.keys[j];
    assert id in Elems(a.keys);
    MergeNewValue(b, vs, id);
    if j < |b.keys| {
      assert a.keys[..|b.keys|][j] == id;
    }
  }

  /** The list `upsert_vectors` receives, in dictionary order. */
  function Upload(repoId: string, files: seq<SourceFile>, metadata: map<string, string>,
                  embeddings: seq<Embedding>, existing: seq<Match>, dim: nat): (r: seq<Vector>)
    ensures |r| == Summary(repoId, files, metadata, embeddings, existing).mergedTotal
  {
    PutExistingDict(EmptyDict, existing);
    MergeNewDict(Before(existing), NewVectors(repoId, files, metadata, embeddings));
    MergedVectors(After(repoId, files, metadata, embeddings, existing), dim)
  }

  /** `Upload` in terms of the namespace entries: what `MergedEntry` says,
      for the dictionary `index_repo` builds. */
  lemma UploadContents(repoId: string, files: seq<SourceFile>, metadata: map<string, string>,
                       embeddings: seq<Embedding>, existing: seq<Match>, dim: nat, j: nat)
    requires j < |Upload(repoId, files, metadata, embeddings, existing, dim)|
    ensures var v := Upload(repoId, files, metadata, embeddings, existing, dim)[j];
            var b := Before(existing);
            var vs := NewVectors(repoId, files, metadata, embeddings);
            && (j < |b.keys| ==> v.id == b.keys[j])
            && (v.id !in Ids(vs) ==> v.id in b.entries && v.emb == Zeros(dim)
                                     && v.metadata == b.entries[v.id].metadata)
            && (forall k :: LastWith(vs, k, v.id) ==> v.emb == vs[k].emb && v.metadata == vs[k].metadata)
  {
    var b := Before(existing);
    var vs := NewVectors(repoId, files, metadata, embeddings);
    PutExistingDict(EmptyDict, existing);
    PutExistingNoEmb(EmptyDict, existing);
    MergeNewDict(b, vs);
    assert Upload(repoId, files, metadata, embeddings, existing, dim) == MergedVectors(MergeNew(b, vs), dim);
    MergedEntry(b, vs, dim, j);
  }

  /** The merge loop: count the ids already present, then overwrite. */
  method MergeVectors(existing: Dict, vectors: seq<Vector>) returns (merged: Dict, upserts: nat)
    ensures merged == MergeNew(existing, vectors)
    ensures upserts == UpsertCount(existing.entries.Keys, vectors)
  {
    merged, upserts := existing, 0;
    for k := 0 to |vectors|
      invariant MergeNew(merged, vectors[k..]) == MergeNew(existing, vectors)
      invariant upserts + UpsertCount(merged.entries.Keys, vectors[k..]) == UpsertCount(existing.entries.Keys, vectors)
    {
      var v := vectors[k];
      assert vectors[k..][1..] == vectors[k + 1..];
      assert Put(merged, v.id, Stored(Some(v.emb), v.metadata)).entries.Keys == merged.entries.Keys + {v.id};
      if v.id in merged.entries {
        upserts := upserts + 1;
      }
      merged := Put(merged, v.id, Stored(Some(v.emb), v.metadata));
    }
    assert vectors[|vectors|..] == [];
  }

  /**
   * `index_repo`, given what the embedder returns for the chunk texts and
   * what the namespace holds: the summary it returns and the list it
   * uploads, `dim` standing for `EMBEDDING_DIM`.
   */
  method IndexRepo(repoId: string, files: seq<SourceFile>, metadata: map<string, string>,
                   embeddings: seq<Embedding>, existing: seq<Match>, dim: nat)
    returns (summary: IndexSummary, upload: seq<Vector>)
    ensures summary == Summary(repoId, files, metadata, embeddings, existing)
    ensures upload == Upload(repoId, files, metadata, embeddings, existing, dim)
  {
    var chunks := ChunkFiles(repoId, files, metadata);
    var vectors := BuildVectors(chunks, embeddings, metadata);
    var before := Before(existing);
    PutExistingDict(EmptyDict, existing);
    var numExisting := |before.entries|;
    var merged, upserts := MergeVectors(before, vectors);
    MergeNewDict(before, vectors);
    upload := MergedVectors(merged, dim);
    summary := IndexSummary(repoId, |files|, |chunks|, upserts, |upload|, numExisting);
  }

  /**
   * New ids that occur once and are new to the namespace are never
   * counted: `upserts` is 0 and `merged_total` is `existing_before` plus
   * the number of new vectors.
   */
  lemma DisjointMerge(repoId: string, files: seq<SourceFile>, metadata: map<string, string>,
                      embeddings: seq<Embedding>, existing: seq<Match>)
    requires var vs := NewVectors(repoId, files, metadata, embeddings);
             && (forall j, k :: 0 <= j < k < |vs| ==> vs[j].id != vs[k].id)
             && (forall j :: 0 <= j < |vs| ==> vs[j].id !in MatchIds(existing))
    ensures var s := Summary(repoId, files, metadata, embeddings, existing);
            s.upserts == 0 &&
            s.mergedTotal == s.existingBefore + |NewVectors(repoId, files, metadata, embeddings)|
  {
    PutExistingDict(EmptyDict, existing);
    NoUpserts(Before(existing).entries.Keys, NewVectors(repoId, files, metadata, embeddings));
    SummaryCounts(repoId, files, metadata, embeddings, existing);
  }

  lemma SingleFile(repoId: string, f: SourceFile, metadata: map<string, string>)
    ensures AllChunks(repoId, [f], metadata) == FileChunks(repoId, f, metadata)
  {
    assert [f][1..] == [];
  }

  /**
   * Indexing one file into an empty namespace uploads one vector per chunk
   * that got an embedding, and counts no upsert.
   */
  lemma FreshRepo(repoId: string, f: SourceFile, metadata: map<string, string>, embeddings: seq<Embedding>)
    ensures var s := Summary(repoId, [f], metadata, embeddings, []);
            && s.upserts == 0 && s.existingBefore == 0
            && s.mergedTotal == (if s.chunkCount <= |embeddings| then s.chunkCount else |embeddings|)
  {
    SingleFile(repoId, f, metadata);
    var cs := FileChunks(repoId, f, metadata);
    var vs := NewVectors(repoId, [f], metadata, embeddings);
    ChunkIdsDistinct(repoId, f, metadata);
    forall j, k | 0 <= j < k < |vs| ensures vs[j].id != vs[k].id {
      assert vs[j].id == cs[j].id && vs[k].id == cs[k].id;
    }
    assert MatchIds([]) == {};
    DisjointMerge(repoId, [f], metadata, embeddings, []);
  }

  /** A file of at most 1800 characters is one chunk, with id
      `repo_id:filename:0`; given an embedding it is one vector. */
  lemma SingleChunk(repoId: string, f: SourceFile, metadata: map<string, string>, embeddings: seq<Embedding>)
    requires 0 < |f.content| <= Stride && |embeddings| >= 1
    ensures |AllChunks(repoId, [f], metadata)| == 1
    ensures var vs := NewVectors(repoId, [f], metadata, embeddings);
            |vs| == 1 && vs[0].id == ChunkId(repoId, f.filename, 0)
  {
    SingleFile(repoId, f, metadata);
    ChunkCountFrom(repoId, f, metadata, 0);
    ChunkLayout(repoId, f, metadata);
    ChunkFields(repoId, f, metadata);
  }

  /** Merging one vector whose id is the one existing id. */
  lemma ReplaceOnly(previous: Match, b: Dict, vs: seq<Vector>)
    requires b == Before([previous])
    requires |vs| == 1 && vs[0].id == previous.id
    ensures |b.entries| == 1
    ensures UpsertCount(b.entries.Keys, vs) == 1
    ensures |MergeNew(b, vs).keys| == 1
  {
    assert MatchIds([previous]) == {previous.id};
    assert Ids(vs) == {previous.id};
    MergeCounts(b, [previous], vs);
    assert vs[1..] == [];
  }

  /**
   * Re-indexing a file of at most 1800 characters, whose one chunk the
   * namespace already holds under the same id, replaces that vector: one
   * upsert, and `merged_total` stays at `existing_before`, which is 1.
   */
  lemma ReindexSingleChunk(repoId: string, f: SourceFile, metadata: map<string, string>,
                           embeddings: seq<Embedding>, previous: Match)
    requires 0 < |f.content| <= Stride && |embeddings| >= 1
    requires previous.id == ChunkId(repoId, f.filename, 0)
    ensures var s := Summary(repoId, [f], metadata, embeddings, [previous]);
            && s.chunkCount == 1 && s.upserts == 1
            && s.existingBefore == 1 && s.mergedTotal == 1
  {
    SingleChunk(repoId, f, metadata, embeddings);
    ReplaceOnly(previous, Before([previous]), NewVectors(repoId, [f], metadata, embeddings));
  }
}
