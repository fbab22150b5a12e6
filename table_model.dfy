/**
 * The resource table as the split sanitiser sees it: an arena of entries
 * (one per configuration variant of a resource) addressed by stable handles,
 * and the lookup `getResource(id)` that yields the variants of one resource
 * as a sequence of optional handles (a missing variant is a null slot).
 */
module TableModel {
  import opened Wrappers

  type Handle = nat

  /**
   * One resource entry. `resValue` is the file path its value names when it
   * has one; `isNull` marks the slot vacated while its id stays reserved;
   * `specPair` identifies the type-spec/type pair the entry's type block
   * belongs to.
   */
  datatype Entry = Entry(id: nat, specPair: nat, resValue: Option<string>, isNull: bool)

  datatype Table = Table(entries: map<Handle, Entry>, resources: map<int, seq<Option<Handle>>>)

  /** Every handle the lookup yields names an entry of the arena. */
  predicate Resolves(t: Table, hs: seq<Option<Handle>>)
  {
    forall i :: 0 <= i < |hs| && hs[i].Some? ==> hs[i].value in t.entries
  }

  predicate TableValid(t: Table)
  {
    forall id :: id in t.resources ==> Resolves(t, t.resources[id])
  }

  /** tableBlock.getResource(id): None when the id does not resolve. */
  function GetResource(t: Table, id: int): (r: Option<seq<Option<Handle>>>)
    requires TableValid(t)
    ensures r.Some? <==> id in t.resources
    ensures r.Some? ==> Resolves(t, r.value)
  {
    if id in t.resources then Some(t.resources[id]) else None
  }

  /** A slot the cleanup loop acts on: a non-null entry with a file value. */
  predicate FileBacked(t: Table, o: Option<Handle>)
  {
    o.Some? && o.value in t.entries && t.entries[o.value].resValue.Some?
  }

  function BackingPath(t: Table, o: Option<Handle>): string
    requires FileBacked(t, o)
  {
    t.entries[o.value].resValue.value
  }

  /**
   * entry.isNull = true for every handle in `nulled`. The slots stay: no
   * entry is removed and no id is freed.
   */
  function NullEntries(t: Table, nulled: set<Handle>): (r: Table)
    ensures r.entries.Keys == t.entries.Keys && r.resources == t.resources
    ensures forall h :: h in t.entries ==>
      r.entries[h].id == t.entries[h].id && r.entries[h].specPair == t.entries[h].specPair &&
      r.entries[h].resValue == t.entries[h].resValue &&
      r.entries[h].isNull == (t.entries[h].isNull || h in nulled)
  {
    t.(entries := map h | h in t.entries ::
                    if h in nulled then t.entries[h].(isNull := true) else t.entries[h])
  }

  /** Nulling keeps the table well formed: handles still resolve. */
  lemma NullEntriesValid(t: Table, nulled: set<Handle>)
    requires TableValid(t)
    ensures TableValid(NullEntries(t, nulled))
  {
    var r := NullEntries(t, nulled);
    forall id | id in r.resources ensures Resolves(r, r.resources[id]) {
      assert Resolves(t, t.resources[id]);
    }
  }

  /** Nulling in two rounds is nulling the union: vacated slots stay vacated. */
  lemma NullEntriesTwice(t: Table, a: set<Handle>, b: set<Handle>)
    ensures NullEntries(NullEntries(t, a), b) == NullEntries(t, a + b)
  {
    var l := NullEntries(NullEntries(t, a), b);
    var r := NullEntries(t, a + b);
    assert l.entries.Keys == r.entries.Keys;
    forall h | h in l.entries ensures l.entries[h] == r.entries[h] {
    }
    assert l.entries == r.entries;
  }

  lemma NullEntriesNone(t: Table)
    ensures NullEntries(t, {}) == t
  {
    assert NullEntries(t, {}).entries == t.entries;
  }

}
