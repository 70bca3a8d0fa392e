/** `indexer_rgpd`: the chunk list becomes three aligned lists (documents,
    metadatas, ids), and the collection is dropped, recreated with cosine
    distance and filled with exactly those records.

    The vector store is modelled as a map from collection names to
    collections; the embedding model is a function from a document to its
    vector, given as a parameter. */
module Embeddings {
  import opened Chunks
  import opened Segmenter

  /** The metadata dictionary stored with each record: `type`, `numero`, `titre`. */
  datatype Metadata = Metadata(kind: Kind, numero: nat, titre: string)

  /** The distance a collection is created with (`hnsw:space`). */
  datatype Space = Cosine | L2 | InnerProduct

  datatype Record = Record(document: string, embedding: seq<real>, metadata: Metadata)

  datatype Collection = Collection(space: Space, records: map<string, Record>)

  /** The separator between title and body in the embedded text. */
  const Separator: string := "\n\n"

  predicate Distinct<T(==)>(s: seq<T>)
  {
    forall i, j :: 0 <= i < j < |s| ==> s[i] != s[j]
  }

  /** The text embedded for a chunk: its title, a blank line, its body. */
  function Document(c: Chunk): string
  {
    c.titre + Separator + c.contenu
  }

  function MetadataOf(c: Chunk): Metadata
  {
    Metadata(c.kind, c.numero, c.titre)
  }

  /** The record fields of one chunk read back: the title from the metadata, the
      body from what follows the title and separator in the document. */
  function ChunkOf(document: string, metadata: Metadata, id: string): Chunk
  {
    var start := |metadata.titre| + |Separator|;
    Chunk(metadata.kind, metadata.numero, metadata.titre,
          if start <= |document| then document[start..] else [], id)
  }

  /** The loop of the source over the chunk list, appending to three lists. */
  method BuildRecords(chunks: seq<Chunk>) returns (documents: seq<string>, metadatas: seq<Metadata>, ids: seq<string>)
    ensures |documents| == |chunks| && |metadatas| == |chunks| && |ids| == |chunks|
    ensures forall i :: 0 <= i < |chunks| ==>
      && documents[i] == Document(chunks[i])
      && metadatas[i] == MetadataOf(chunks[i])
      && ids[i] == chunks[i].id
    ensures forall i :: 0 <= i < |chunks| ==> ChunkOf(documents[i], metadatas[i], ids[i]) == chunks[i]
  {
    documents, metadatas, ids := [], [], [];
    for i := 0 to |chunks|
      invariant |documents| == i && |metadatas| == i && |ids| == i
      invariant forall k :: 0 <= k < i ==>
        && documents[k] == Document(chunks[k])
        && metadatas[k] == MetadataOf(chunks[k])
        && ids[k] == chunks[k].id
    {
      var c := chunks[i];
      documents := documents + [c.titre + Separator + c.contenu];
      metadatas := metadatas + [Metadata(c.kind, c.numero, c.titre)];
      assert documents[i] == Document(c) && metadatas[i] == MetadataOf(c);
      ids := ids + [c.id];
    }
    forall i | 0 <= i < |chunks| ensures ChunkOf(documents[i], metadatas[i], ids[i]) == chunks[i] {
      RecordRoundTrip(chunks[i]);
    }
  }

  /** A chunk is recovered from its document, metadata and id: the body is what
      follows the title and the blank line, and nothing else is lost. */
  lemma RecordRoundTrip(c: Chunk)
    ensures ChunkOf(Document(c), MetadataOf(c), c.id) == c
  {
    var d := Document(c);
    assert d[|c.titre| + |Separator|..] == c.contenu;
  }

  /** The records `collection.add` stores from aligned lists, keyed by id. */
  function RecordsOf(ids: seq<string>, documents: seq<string>, embeddings: seq<seq<real>>, metadatas: seq<Metadata>): (r: map<string, Record>)
    requires |documents| == |ids| && |embeddings| == |ids| && |metadatas| == |ids|
    ensures forall k :: k in r <==> k in ids
    ensures Distinct(ids) ==> forall i :: 0 <= i < |ids| ==>
      r[ids[i]] == Record(documents[i], embeddings[i], metadatas[i])
  {
    if ids == [] then map[]
    else
      var rest := RecordsOf(ids[1..], documents[1..], embeddings[1..], metadatas[1..]);
      assert forall i :: 1 <= i < |ids| ==> ids[i] == ids[1..][i - 1];
      assert forall k :: k in ids <==> k == ids[0] || k in ids[1..];
      rest[ids[0] := Record(documents[0], embeddings[0], metadatas[0])]
  }

  /** The records of a collection after an add: an id already present keeps its
      record, a new id gets the incoming one. */
  function KeepExisting(present: map<string, Record>, incoming: map<string, Record>): (r: map<string, Record>)
    ensures r.Keys == present.Keys + incoming.Keys
    ensures forall k :: k in present ==> r[k] == present[k]
    ensures forall k :: k in incoming && k !in present ==> r[k] == incoming[k]
  {
    map k | k in present.Keys + incoming.Keys :: if k in present then present[k] else incoming[k]
  }

  /** Adding to an empty collection stores exactly the incoming records. */
  lemma KeepExistingEmpty(incoming: map<string, Record>)
    ensures KeepExisting(map[], incoming) == incoming
  {
    var r := KeepExisting(map[], incoming);
    assert r.Keys == incoming.Keys;
  }

  /** A persistent client: its named collections. */
  class Store {
    var collections: map<string, Collection>

    constructor()
      ensures collections == map[]
    {
      collections := map[];
    }

    /** `delete_collection`: reports whether the collection existed (the client
        raises when it did not); afterwards it is gone either way. */
    method DeleteCollection(name: string) returns (existed: bool)
      modifies this
      ensures existed == (name in old(collections))
      ensures collections == old(collections) - {name}
    {
      existed := name in collections;
      collections := collections - {name};
    }

    /** `create_collection`: fails when the name is taken, and otherwise adds an
        empty collection with the given distance. */
    method CreateCollection(name: string, space: Space) returns (created: bool)
      modifies this
      ensures created == (name !in old(collections))
      ensures created ==> collections == old(collections)[name := Collection(space, map[])]
      ensures !created ==> collections == old(collections)
    {
      created := name !in collections;
      if created {
        collections := collections[name := Collection(space, map[])];
      }
    }

    /** `collection.add`: the lists must be aligned and the ids distinct, or
        nothing is stored; ids the collection already holds keep their record. */
    method Add(name: string, ids: seq<string>, documents: seq<string>, embeddings: seq<seq<real>>, metadatas: seq<Metadata>)
      returns (added: bool)
      modifies this
      ensures added == (name in old(collections) && |documents| == |ids| && |embeddings| == |ids|
                        && |metadatas| == |ids| && Distinct(ids))
      ensures !added ==> collections == old(collections)
      ensures added ==>
        var before := old(collections)[name];
        var incoming := RecordsOf(ids, documents, embeddings, metadatas);
        collections == old(collections)[name := Collection(before.space, KeepExisting(before.records, incoming))]
    {
      added := name in collections && |documents| == |ids| && |embeddings| == |ids|
               && |metadatas| == |ids| && Distinct(ids);
      if added {
        var before := collections[name];
        var incoming := RecordsOf(ids, documents, embeddings, metadatas);
        collections := collections[name := Collection(before.space, KeepExisting(before.records, incoming))];
      }
    }
  }

  function RecordOf(c: Chunk, encode: string -> seq<real>): Record
  {
    Record(Document(c), encode(Document(c)), MetadataOf(c))
  }

  function Ids(chunks: seq<Chunk>): (ids: seq<string>)
    ensures |ids| == |chunks| && forall i :: 0 <= i < |chunks| ==> ids[i] == chunks[i].id
  {
    seq(|chunks|, i requires 0 <= i < |chunks| => chunks[i].id)
  }

  /** What `indexer_rgpd` leaves in the collection for `chunks`: one record per
      chunk, keyed by its id. */
  function Indexed(chunks: seq<Chunk>, encode: string -> seq<real>): map<string, Record>
    requires Distinct(Ids(chunks))
  {
    map i | 0 <= i < |chunks| :: chunks[i].id := RecordOf(chunks[i], encode)
  }

  /** Drop the collection if it exists, recreate it with cosine distance, build
      the records and add them. `indexed` is false when the add is refused
      (duplicate ids); the collection is then empty. */
  method IndexRgpd(store: Store, name: string, chunks: seq<Chunk>, encode: string -> seq<real>)
    returns (indexed: bool)
    modifies store
    ensures store.collections - {name} == old(store.collections) - {name}
    ensures name in store.collections && store.collections[name].space == Cosine
    ensures indexed == Distinct(Ids(chunks))
    ensures indexed ==> store.collections[name].records == Indexed(chunks, encode)
    ensures !indexed ==> store.collections[name].records == map[]
  {
    var _ := store.DeleteCollection(name);
    var created := store.CreateCollection(name, Cosine);
    assert created;
    ghost var emptied := store.collections;
    assert emptied == old(store.collections)[name := Collection(Cosine, map[])];
    var documents, metadatas, ids := BuildRecords(chunks);
    var embeddings := Embed(documents, encode);
    RecordsIndexed(chunks, encode, documents, metadatas, ids);
    OthersKept(old(store.collections), name, Collection(Cosine, map[]));
    indexed := store.Add(name, ids, documents, embeddings, metadatas);
    if indexed {
      var incoming := RecordsOf(ids, documents, embeddings, metadatas);
      KeepExistingEmpty(incoming);
      assert store.collections == emptied[name := Collection(Cosine, incoming)];
      OthersKept(emptied, name, Collection(Cosine, incoming));
    }
  }

  /** `model.encode(documents)`: one vector per document, in order. */
  function Embed(documents: seq<string>, encode: string -> seq<real>): (r: seq<seq<real>>)
    ensures |r| == |documents| && forall i :: 0 <= i < |documents| ==> r[i] == encode(documents[i])
  {
    seq(|documents|, i requires 0 <= i < |documents| => encode(documents[i]))
  }

  /** The lists built from `chunks` are aligned, carry the chunks' ids, and with
      distinct ids add up to exactly the chunks' records. */
  lemma RecordsIndexed(chunks: seq<Chunk>, encode: string -> seq<real>,
                       documents: seq<string>, metadatas: seq<Metadata>, ids: seq<string>)
    requires |documents| == |chunks| && |metadatas| == |chunks| && |ids| == |chunks|
    requires forall i :: 0 <= i < |chunks| ==>
      && documents[i] == Document(chunks[i])
      && metadatas[i] == MetadataOf(chunks[i])
      && ids[i] == chunks[i].id
    ensures ids == Ids(chunks) && |Embed(documents, encode)| == |ids|
    ensures Distinct(ids) ==> RecordsOf(ids, documents, Embed(documents, encode), metadatas) == Indexed(chunks, encode)
  {
    var embeddings := Embed(documents, encode);
    if Distinct(ids) {
      IndexedRecords(chunks, encode, ids, documents, embeddings, metadatas);
    }
  }

  /** Setting one collection leaves every other one as it was; a lemma so that
      the map identity stays out of the context of `IndexRgpd`. */
  lemma OthersKept(cs: map<string, Collection>, name: string, c: Collection)
    ensures cs[name := c] - {name} == cs - {name}
  {
  }

  /** With distinct ids, the records built from the aligned lists are exactly the
      chunks' records: nothing from an earlier run, nothing missing. */
  lemma IndexedRecords(chunks: seq<Chunk>, encode: string -> seq<real>, ids: seq<string>,
                       documents: seq<string>, embeddings: seq<seq<real>>, metadatas: seq<Metadata>)
    requires |documents| == |chunks| && |metadatas| == |chunks| && |embeddings| == |chunks|
    requires ids == Ids(chunks) && Distinct(ids)
    requires forall i :: 0 <= i < |chunks| ==>
      Record(documents[i], embeddings[i], metadatas[i]) == RecordOf(chunks[i], encode)
    ensures RecordsOf(ids, documents, embeddings, metadatas) == Indexed(chunks, encode)
  {
    var r := RecordsOf(ids, documents, embeddings, metadatas);
    var m := Indexed(chunks, encode);
    assert r.Keys == m.Keys by {
      forall k | k in r ensures k in m {
        var i :| 0 <= i < |ids| && ids[i] == k;
      }
    }
    forall k | k in r ensures r[k] == m[k] {
      var i :| 0 <= i < |ids| && ids[i] == k;
      assert m[chunks[i].id] == RecordOf(chunks[i], encode);
    }
  }

  /** On a segmenter output, the ids are distinct (so indexing succeeds) exactly
      when no two recitals carry the same number. */
  lemma IndexingSucceedsIff(cs: seq<Chunk>)
    requires WellFormedOutput(cs)
    ensures Distinct(Ids(cs)) <==>
      forall i, j :: 0 <= i < j < |cs| && cs[i].kind == Recital && cs[j].kind == Recital ==> cs[i].numero != cs[j].numero
  {
  }
}
