/** The in-memory artifact table `app.config['videos']`: a map from a
    download id to the downloaded bytes and file name. A download puts one
    entry; `/download_file/<id>` pops it, so each stored file can be fetched
    once. */
module ArtifactStore {
  import opened Wrappers

  newtype byte = x: int | 0 <= x < 256

  /** The buffered file and its base name. */
  datatype Artifact = Artifact(content: seq<byte>, filename: string)

  datatype Store = Store(entries: map<string, Artifact>)

  /** The result of a pop: the table afterwards and what was removed. */
  datatype Taken = Taken(store: Store, artifact: Option<Artifact>)

  /** The table before the first download (`setdefault('videos', {})`). */
  const Empty := Store(map[])

  /** `videos[id] = (buffer, filename)`: `id` now holds `a`, every other id
      is as it was. */
  function Put(s: Store, id: string, a: Artifact): (s': Store)
    ensures id in s'.entries && s'.entries[id] == a
    ensures s'.entries.Keys == s.entries.Keys + {id}
    ensures forall other :: other != id && other in s.entries ==> s'.entries[other] == s.entries[other]
  {
    Store(s.entries[id := a])
  }

  /** `videos.pop(id, None)`: the entry under `id` if there was one, and the
      table without it; every other id is as it was. */
  function Take(s: Store, id: string): (r: Taken)
    ensures r.artifact.Some? <==> id in s.entries
    ensures id in s.entries ==> r.artifact.value == s.entries[id]
    ensures r.store.entries.Keys == s.entries.Keys - {id}
    ensures forall other :: other in r.store.entries ==> r.store.entries[other] == s.entries[other]
  {
    if id in s.entries then Taken(Store(s.entries - {id}), Some(s.entries[id]))
    else Taken(s, None)
  }

  /** After a put, a take of the same id returns what was put and leaves the
      table as it was before the put, when the id was new. */
  lemma PutThenTake(s: Store, id: string, a: Artifact)
    ensures Take(Put(s, id, a), id).artifact == Some(a)
    ensures id !in s.entries ==> Take(Put(s, id, a), id).store == s
  {
    if id !in s.entries {
      assert Take(Put(s, id, a), id).store.entries == s.entries;
    }
  }

  /** A second take of the same id finds nothing. */
  lemma TakeTwice(s: Store, id: string)
    ensures Take(Take(s, id).store, id).artifact == None
  {
  }

  // ---- Histories of puts and takes ----------------------------------------

  /** One access to the table. Each dict assignment and `pop` is a single
      step under CPython's interpreter lock, so concurrent requests amount
      to some sequence of these. */
  datatype Op = PutOp(id: string, artifact: Artifact) | TakeOp(id: string)

  function Step(s: Store, op: Op): Taken
  {
    match op
    case PutOp(id, a) => Taken(Put(s, id, a), None)
    case TakeOp(id) => Take(s, id)
  }

  /** The table after running `ops` in order. */
  function Run(s: Store, ops: seq<Op>): Store
    decreases |ops|
  {
    if |ops| == 0 then s else Run(Step(s, ops[0]).store, ops[1..])
  }

  /** How many takes of `id` in `ops` return a file. */
  function Deliveries(s: Store, ops: seq<Op>, id: string): nat
    decreases |ops|
  {
    if |ops| == 0 then 0
    else
      var t := Step(s, ops[0]);
      (if ops[0] == TakeOp(id) && t.artifact.Some? then 1 else 0) + Deliveries(t.store, ops[1..], id)
  }

  /** How many puts under `id` `ops` holds. */
  function PutsOf(ops: seq<Op>, id: string): nat
  {
    if |ops| == 0 then 0
    else (if ops[0].PutOp? && ops[0].id == id then 1 else 0) + PutsOf(ops[1..], id)
  }

  /** Consumed once: over any history, a file stored under `id` is handed
      out at most as many times as it was put (plus once for an entry that
      was already there). With fresh ids, one download yields at most one
      successful fetch. */
  lemma {:induction false} AtMostOnceDelivery(s: Store, ops: seq<Op>, id: string)
    ensures Deliveries(s, ops, id) <= PutsOf(ops, id) + (if id in s.entries then 1 else 0)
    decreases |ops|
  {
    if |ops| > 0 {
      var t := Step(s, ops[0]);
      AtMostOnceDelivery(t.store, ops[1..], id);
    }
  }

  /** Takes of other ids and puts under other ids leave `id`'s entry alone. */
  lemma {:induction false} OthersLeaveEntry(s: Store, ops: seq<Op>, id: string)
    requires forall i :: 0 <= i < |ops| ==> ops[i].id != id
    ensures (id in Run(s, ops).entries) == (id in s.entries)
    ensures id in s.entries ==> Run(s, ops).entries[id] == s.entries[id]
    decreases |ops|
  {
    if |ops| > 0 {
      OthersLeaveEntry(Step(s, ops[0]).store, ops[1..], id);
    }
  }
}
