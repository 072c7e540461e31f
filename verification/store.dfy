/** The in-memory stand-in for the relational store: booths keyed by their
    external `boothId`, an index from internal id to `boothId`, and the
    append-only health log. Internal ids come from a counter. */
module Store {
  import opened Wrappers
  import opened Records
  import Seqs

  datatype Store = Store(
    booths: map<string, Booth>,
    byId: map<nat, string>,
    logs: seq<HealthLog>,
    nextId: nat)

  /** Keys agree with the rows, the id index is a bijection onto the booths,
      and every log belongs to an existing booth. */
  predicate Valid(st: Store) {
    && (forall k :: k in st.booths ==>
          && st.booths[k].boothId == k
          && st.booths[k].id < st.nextId
          && st.booths[k].id in st.byId
          && st.byId[st.booths[k].id] == k)
    && (forall id :: id in st.byId ==> st.byId[id] in st.booths && st.booths[st.byId[id]].id == id)
    && (forall i :: 0 <= i < |st.logs| ==> st.logs[i].boothRef in st.byId)
  }

  /** Ownership of a log by the booth with internal id `id`. */
  function OwnedBy(id: nat): HealthLog -> bool {
    (l: HealthLog) => l.boothRef == id
  }

  /** The logs of the booth with internal id `id`, in insertion order. */
  function LogsOf(st: Store, id: nat): seq<HealthLog> {
    Seqs.Filter(st.logs, OwnedBy(id))
  }

  /** Appending a log extends exactly its owner's history. */
  lemma LogsOfAppend(st: Store, st': Store, l: HealthLog, id: nat)
    requires st'.logs == st.logs + [l]
    ensures LogsOf(st', id) == LogsOf(st, id) + (if l.boothRef == id then [l] else [])
  {
    Seqs.FilterAppend(st.logs, [l], OwnedBy(id));
    assert Seqs.Filter([l], OwnedBy(id)) == (if l.boothRef == id then [l] else []) by {
      assert [l][1..] == [];
    }
  }

  /** A valid store holds no logs for the id it will allocate next. */
  lemma NoLogsForNextId(st: Store)
    requires Valid(st)
    ensures LogsOf(st, st.nextId) == []
  {
    forall i | 0 <= i < |st.logs|
      ensures !OwnedBy(st.nextId)(st.logs[i])
    {
      assert st.logs[i].boothRef in st.byId;
    }
    Seqs.FilterNone(st.logs, OwnedBy(st.nextId));
  }

  /** `findUnique({ where: { id } })`: the key of the booth whose internal id
      is `id`, if there is one. */
  function FindById(st: Store, id: nat): (r: Option<string>)
    ensures r.Some? ==> r.value in st.booths && st.booths[r.value].id == id
    ensures Valid(st) && r.None? ==> forall k :: k in st.booths ==> st.booths[k].id != id
  {
    if id in st.byId && st.byId[id] in st.booths && st.booths[st.byId[id]].id == id
    then Some(st.byId[id]) else None
  }
}
