/** The vector store as the core uses it: named collections of records, each
    record a document and its metadata, keyed by id. Embeddings are not
    modelled; the collections whose calls raise are fixed when the store is
    made, and every upsert call is recorded. */
module Store {
  import opened Common

  /** A metadata value: the core only stores strings and integers. */
  datatype MetaValue = MStr(s: string) | MInt(i: int)

  type Metadata = map<string, MetaValue>

  /** A stored record; `metadata` is `None` where the store holds none. */
  datatype Record = Record(document: string, metadata: Option<Metadata>)

  type Collection = map<string, Record>

  /** One `upsert` call: the collection and the records it carried. */
  datatype UpsertCall = UpsertCall(collection: string, records: Collection)

  /** The records of an upsert with parallel lists `ids`, `documents` and
      `metadatas`; a later id wins over an earlier equal one. */
  function BatchRecords(ids: seq<string>, documents: seq<string>, metadatas: seq<Metadata>): (batch: Collection)
    requires |ids| == |documents| == |metadatas|
    ensures batch.Keys == set i | 0 <= i < |ids| :: ids[i]
  {
    if ids == [] then map[]
    else
      var n := |ids| - 1;
      BatchRecords(ids[..n], documents[..n], metadatas[..n])[ids[n] := Record(documents[n], Some(metadatas[n]))]
  }

  /** Appending to the parallel lists adds (or replaces) one record. */
  lemma BatchRecordsAppend(ids: seq<string>, documents: seq<string>, metadatas: seq<Metadata>, id: string, document: string, metadata: Metadata)
    requires |ids| == |documents| == |metadatas|
    ensures BatchRecords(ids + [id], documents + [document], metadatas + [metadata]) ==
            BatchRecords(ids, documents, metadatas)[id := Record(document, Some(metadata))]
  {
    assert (ids + [id])[..|ids|] == ids;
    assert (documents + [document])[..|ids|] == documents;
    assert (metadatas + [metadata])[..|ids|] == metadatas;
  }

  class VectorStore {
    /** The collections that exist, by name. */
    var collections: map<string, Collection>
    /** Every `upsert` call made so far, in order. */
    var upserts: seq<UpsertCall>
    /** The collections whose `get_or_create_collection` raises. */
    const createFails: set<string>
    /** The collections whose `get` raises. */
    const getFails: set<string>
    /** The collections whose `upsert` raises. */
    const upsertFails: set<string>

    constructor(initial: map<string, Collection>, createFails: set<string>, getFails: set<string>, upsertFails: set<string>)
      ensures collections == initial && upserts == []
      ensures this.createFails == createFails && this.getFails == getFails && this.upsertFails == upsertFails
    {
      collections := initial;
      upserts := [];
      this.createFails := createFails;
      this.getFails := getFails;
      this.upsertFails := upsertFails;
    }

    /** `get_or_create_collection(name)`: an absent collection is created
        empty; `ok` is false where the call raises. */
    method GetOrCreateCollection(name: string) returns (ok: bool)
      modifies this
      ensures ok == (name !in createFails)
      ensures ok ==> name in collections
      ensures collections == if ok && name !in old(collections) then old(collections)[name := map[]] else old(collections)
      ensures upserts == old(upserts)
    {
      ok := name !in createFails;
      if ok && name !in collections {
        collections := collections[name := map[]];
      }
    }

    /** `collection.get()` on an existing collection: all its records, or
        `None` where the call raises. */
    function Get(name: string): (r: Option<Collection>)
      reads this
      requires name in collections
      ensures r.None? <==> name in getFails
      ensures r.Some? ==> r.value == collections[name]
    {
      if name in getFails then None else Some(collections[name])
    }

    /** `collection.upsert(ids, documents, metadatas)`: the call is made
        (and recorded) whether or not it raises; only one that does not
        raise changes the collection, replacing the records with those ids. */
    method Upsert(name: string, ids: seq<string>, documents: seq<string>, metadatas: seq<Metadata>) returns (ok: bool)
      requires name in collections && |ids| == |documents| == |metadatas|
      modifies this
      ensures ok == (name !in upsertFails)
      ensures upserts == old(upserts) + [UpsertCall(name, BatchRecords(ids, documents, metadatas))]
      ensures collections == if ok then old(collections)[name := old(collections)[name] + BatchRecords(ids, documents, metadatas)]
                             else old(collections)
    {
      upserts := upserts + [UpsertCall(name, BatchRecords(ids, documents, metadatas))];
      ok := name !in upsertFails;
      if ok {
        collections := collections[name := collections[name] + BatchRecords(ids, documents, metadatas)];
      }
    }
  }
}
