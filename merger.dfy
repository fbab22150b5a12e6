/**
 * The sanitising steps the merger applies to the merged module: dropping the
 * split resource a `com.android.vending.splits` meta-data element refers to,
 * removing the split meta-data elements, clearing signature files, and
 * applying the extractNativeLibs option.
 *
 * Each step is a method on the module object, proved against a function on
 * module snapshots; the lemmas state what those functions promise.
 */
module Merger {
  import opened Wrappers
  import opened ManifestModel
  import opened TableModel
  import opened ApkState
  import opened SignatureFiles
  import opened NativeLibs

  // ---------------------------------------------------------------------
  // removeSplitsTableEntry
  // ---------------------------------------------------------------------

  /**
   * The whole guard chain: the configuration variants of the split resource
   * a meta-data element refers to, or None when the function returns false
   * before touching anything (not a splits element, no REFERENCE value, no
   * table, or an id that does not resolve).
   */
  function SplitsResource(meta: Element, table: Option<Table>): (r: Option<seq<Option<Handle>>>)
    requires table.Some? ==> TableValid(table.value)
    ensures r.Some? ==> table.Some? && Resolves(table.value, r.value)
  {
    match SplitsReference(meta)
    case None => None
    case Some(id) => if table.None? then None else GetResource(table.value, id)
  }

  /**
   * SplitsResource stated through the guards one by one: it fails exactly
   * when one of them fails, and otherwise yields what the referenced id
   * resolves to.
   */
  lemma SplitsResourceGuards(meta: Element, table: Option<Table>)
    requires table.Some? ==> TableValid(table.value)
    ensures SplitsResource(meta, table).None? <==>
      || SearchAttributeByResourceId(meta, ID_name).None?
      || SearchAttributeByResourceId(meta, ID_name).value.valueAsString != Some(SPLITS_NAME)
      || ValueAttribute(meta).None?
      || ValueAttribute(meta).value.valueType != Reference
      || table.None?
      || ValueAttribute(meta).value.data !in table.value.resources
    ensures SplitsResource(meta, table).Some? ==>
      SplitsResource(meta, table).value == table.value.resources[ValueAttribute(meta).value.data]
  {
  }

  /** What the cleanup loop does to the archive, the table and the spec pairs. */
  datatype CleanupEffect = CleanupEffect(removedPaths: set<string>, nulled: set<Handle>, compactions: seq<Call>)

  /** One slot of the loop: null and file-less entries are skipped. */
  function SlotEffect(t: Table, o: Option<Handle>): CleanupEffect
  {
    if FileBacked(t, o) then
      var e := t.entries[o.value];
      CleanupEffect({BackingPath(t, o)}, {o.value}, [RemoveNullEntries(e.specPair, e.id)])
    else CleanupEffect({}, {}, [])
  }

  /** The loop over the variants, slot by slot in order. */
  function Cleanup(t: Table, hs: seq<Option<Handle>>): (r: CleanupEffect)
    ensures forall h :: h in r.nulled ==> Some(h) in hs && h in t.entries && t.entries[h].resValue.Some?
  {
    if hs == [] then CleanupEffect({}, {}, [])
    else
      var c := Cleanup(t, hs[..|hs| - 1]);
      var d := SlotEffect(t, hs[|hs| - 1]);
      CleanupEffect(c.removedPaths + d.removedPaths, c.nulled + d.nulled, c.compactions + d.compactions)
  }

  /** One removeNullEntries call per file-backed variant, in variant order. */
  function CompactionsOf(t: Table, hs: seq<Option<Handle>>): seq<Call>
  {
    if hs == [] then []
    else if FileBacked(t, hs[0]) then
      [RemoveNullEntries(t.entries[hs[0].value].specPair, t.entries[hs[0].value].id)] + CompactionsOf(t, hs[1..])
    else CompactionsOf(t, hs[1..])
  }

  /**
   * The cleanup loop, stated per slot: the paths it removes from the archive
   * are exactly the backing paths of the file-backed variants, the entries
   * it nulls are exactly those variants, and the spec pairs are compacted
   * once for each of them, in order. Null slots and entries without a file
   * value contribute nothing.
   */
  lemma CleanupCharacterised(t: Table, hs: seq<Option<Handle>>)
    ensures forall p :: p in Cleanup(t, hs).removedPaths <==>
      exists i :: 0 <= i < |hs| && FileBacked(t, hs[i]) && BackingPath(t, hs[i]) == p
    ensures forall h :: h in Cleanup(t, hs).nulled <==>
      exists i :: 0 <= i < |hs| && FileBacked(t, hs[i]) && hs[i] == Some(h)
    ensures Cleanup(t, hs).compactions == CompactionsOf(t, hs)
  {
    CleanupRemovedPaths(t, hs);
    CleanupNulled(t, hs);
    CleanupCompactions(t, hs);
  }

  lemma {:induction false} CleanupRemovedPaths(t: Table, hs: seq<Option<Handle>>)
    ensures forall p :: p in Cleanup(t, hs).removedPaths <==>
      exists i :: 0 <= i < |hs| && FileBacked(t, hs[i]) && BackingPath(t, hs[i]) == p
  {
    if hs != [] {
      var init := hs[..|hs| - 1];
      CleanupRemovedPaths(t, init);
      forall p ensures p in Cleanup(t, hs).removedPaths <==>
        exists i :: 0 <= i < |hs| && FileBacked(t, hs[i]) && BackingPath(t, hs[i]) == p
      {
        if p in Cleanup(t, hs).removedPaths {
          if p in Cleanup(t, init).removedPaths {
            var i :| 0 <= i < |init| && FileBacked(t, init[i]) && BackingPath(t, init[i]) == p;
            assert hs[i] == init[i];
          } else {
            assert FileBacked(t, hs[|hs| - 1]) && BackingPath(t, hs[|hs| - 1]) == p;
          }
        }
        if exists i :: 0 <= i < |hs| && FileBacked(t, hs[i]) && BackingPath(t, hs[i]) == p {
          var i :| 0 <= i < |hs| && FileBacked(t, hs[i]) && BackingPath(t, hs[i]) == p;
          if i < |init| { assert init[i] == hs[i]; }
        }
      }
    }
  }

  lemma {:induction false} CleanupNulled(t: Table, hs: seq<Option<Handle>>)
    ensures forall h :: h in Cleanup(t, hs).nulled <==>
      exists i :: 0 <= i < |hs| && FileBacked(t, hs[i]) && hs[i] == Some(h)
  {
    if hs != [] {
      var init := hs[..|hs| - 1];
      CleanupNulled(t, init);
      forall h ensures h in Cleanup(t, hs).nulled <==>
        exists i :: 0 <= i < |hs| && FileBacked(t, hs[i]) && hs[i] == Some(h)
      {
        if h in Cleanup(t, hs).nulled {
          if h in Cleanup(t, init).nulled {
            var i :| 0 <= i < |init| && FileBacked(t, init[i]) && init[i] == Some(h);
            assert hs[i] == init[i];
          } else {
            assert FileBacked(t, hs[|hs| - 1]) && hs[|hs| - 1] == Some(h);
          }
        }
        if exists i :: 0 <= i < |hs| && FileBacked(t, hs[i]) && hs[i] == Some(h) {
          var i :| 0 <= i < |hs| && FileBacked(t, hs[i]) && hs[i] == Some(h);
          if i < |init| { assert init[i] == hs[i]; }
        }
      }
    }
  }

  lemma {:induction false} CleanupCompactions(t: Table, hs: seq<Option<Handle>>)
    ensures Cleanup(t, hs).compactions == CompactionsOf(t, hs)
  {
    if hs != [] {
      var init, last := hs[..|hs| - 1], hs[|hs| - 1];
      CleanupCompactions(t, init);
      CompactionsSnoc(t, init, last);
      assert init + [last] == hs;
    }
  }

  lemma {:induction false} CompactionsSnoc(t: Table, hs: seq<Option<Handle>>, o: Option<Handle>)
    ensures CompactionsOf(t, hs + [o]) == CompactionsOf(t, hs) + SlotEffect(t, o).compactions
  {
    if hs == [] {
      assert [o][1..] == [];
    } else {
      assert (hs + [o])[1..] == hs[1..] + [o];
      CompactionsSnoc(t, hs[1..], o);
    }
  }

  /** The module after the cleanup loop ran over the variants `hs`. */
  function ApplyCleanup(s: ModuleState, hs: seq<Option<Handle>>): (r: ModuleState)
    requires s.table.Some?
    ensures r.manifest == s.manifest && r.signatureBlock == s.signatureBlock
    ensures r.table.Some? && r.table.value.entries.Keys == s.table.value.entries.Keys
    ensures r.zipEntryMap.Keys <= s.zipEntryMap.Keys && forall p :: p in r.zipEntryMap ==> r.zipEntryMap[p] == s.zipEntryMap[p]
    ensures s.calls <= r.calls
  {
    var t := s.table.value;
    var c := Cleanup(t, hs);
    s.(zipEntryMap := s.zipEntryMap - c.removedPaths,
       table := Some(NullEntries(t, c.nulled)),
       calls := s.calls + c.compactions)
  }

  /**
   * removeSplitsTableEntry on a snapshot: (false, unchanged) when a guard
   * fails, else (true, the cleanup over the resolved variants).
   */
  function RemoveSplits(meta: Element, s: ModuleState): (r: (bool, ModuleState))
    requires StateValid(s)
    ensures StateValid(r.1)
    ensures r.1.manifest == s.manifest && r.1.signatureBlock == s.signatureBlock
  {
    match SplitsResource(meta, s.table)
    case None => (false, s)
    case Some(hs) =>
      NullEntriesValid(s.table.value, Cleanup(s.table.value, hs).nulled);
      (true, ApplyCleanup(s, hs))
  }

  /**
   * What removeSplitsTableEntry promises: it returns true exactly when the
   * guards pass, even if no variant is file-backed; on false nothing
   * changes; on true exactly the backing files of the file-backed variants
   * leave the archive, exactly those entries are nulled while every slot and
   * id stays, each of them is compacted once in order, and nothing else
   * changes.
   */
  lemma RemoveSplitsEffect(meta: Element, s: ModuleState)
    requires StateValid(s)
    ensures !RemoveSplits(meta, s).0 ==> RemoveSplits(meta, s).1 == s
    ensures RemoveSplits(meta, s).0 <==> SplitsResource(meta, s.table).Some?
    ensures RemoveSplits(meta, s).0 ==>
      var hs := SplitsResource(meta, s.table).value;
      var t := s.table.value;
      var r := RemoveSplits(meta, s).1;
      && r.table.Some?
      && r.table.value.entries.Keys == t.entries.Keys
      && r.table.value.resources == t.resources
      && (forall p :: p in s.zipEntryMap ==>
            (p in r.zipEntryMap <==> !exists i :: 0 <= i < |hs| && FileBacked(t, hs[i]) && BackingPath(t, hs[i]) == p))
      && r.zipEntryMap.Keys <= s.zipEntryMap.Keys
      && (forall p :: p in r.zipEntryMap ==> r.zipEntryMap[p] == s.zipEntryMap[p])
      && (forall h :: h in t.entries ==>
            r.table.value.entries[h].isNull ==
              (t.entries[h].isNull || exists i :: 0 <= i < |hs| && FileBacked(t, hs[i]) && hs[i] == Some(h)))
      && r.calls == s.calls + CompactionsOf(t, hs)
  {
    if RemoveSplits(meta, s).0 {
      CleanupCharacterised(s.table.value, SplitsResource(meta, s.table).value);
    }
  }

  /** Nulling one entry in place is nulling the set holding its handle. */
  lemma NullOne(t: Table, h: Handle)
    requires h in t.entries
    ensures t.(entries := t.entries[h := t.entries[h].(isNull := true)]) == NullEntries(t, {h})
  {
    var l := t.(entries := t.entries[h := t.entries[h].(isNull := true)]);
    assert l.entries == NullEntries(t, {h}).entries;
  }

  /** One more slot of the cleanup loop, as the loop body performs it on the current module. */
  lemma ApplyCleanupSnoc(s0: ModuleState, hs: seq<Option<Handle>>, i: nat)
    requires s0.table.Some? && Resolves(s0.table.value, hs) && i < |hs|
    ensures var cur := ApplyCleanup(s0, hs[..i]);
      var t := cur.table.value;
      && Resolves(t, hs)
      && ApplyCleanup(s0, hs[..i + 1]) ==
        if hs[i].Some? && t.entries[hs[i].value].resValue.Some? then
          var e := t.entries[hs[i].value];
          cur.(zipEntryMap := cur.zipEntryMap - {e.resValue.value},
               table := Some(t.(entries := t.entries[hs[i].value := e.(isNull := true)])),
               calls := cur.calls + [RemoveNullEntries(e.specPair, e.id)])
        else cur
  {
    var t0 := s0.table.value;
    assert hs[..i + 1][..i] == hs[..i];
    var c := Cleanup(t0, hs[..i]);
    var d := SlotEffect(t0, hs[i]);
    assert Cleanup(t0, hs[..i + 1]) ==
      CleanupEffect(c.removedPaths + d.removedPaths, c.nulled + d.nulled, c.compactions + d.compactions);
    var cur := ApplyCleanup(s0, hs[..i]);
    var t := cur.table.value;
    if hs[i].Some? && t.entries[hs[i].value].resValue.Some? {
      var h := hs[i].value;
      var e := t.entries[h];
      assert d == CleanupEffect({e.resValue.value}, {h}, [RemoveNullEntries(e.specPair, e.id)]);
      assert s0.zipEntryMap - c.removedPaths - {e.resValue.value} == s0.zipEntryMap - (c.removedPaths + {e.resValue.value});
      NullOne(t, h);
      NullEntriesTwice(t0, c.nulled, {h});
      assert s0.calls + c.compactions + d.compactions == s0.calls + (c.compactions + d.compactions);
    } else {
      assert d == CleanupEffect({}, {}, []);
      assert c.removedPaths + {} == c.removedPaths && c.nulled + {} == c.nulled && c.compactions + [] == c.compactions;
    }
  }

  method RemoveSplitsTableEntry(meta: Element, apk: ApkModule) returns (removed: bool)
    requires apk.Valid()
    modifies apk
    ensures apk.Valid()
    ensures (removed, apk.State()) == RemoveSplits(meta, old(apk.State()))
  {
    var nameAttribute := SearchAttributeByResourceId(meta, ID_name);
    if nameAttribute.None? {
      return false;
    }
    if nameAttribute.value.valueAsString != Some(SPLITS_NAME) {
      return false;
    }
    var valueAttribute := SearchAttributeByResourceId(meta, ID_value);
    if valueAttribute.None? {
      valueAttribute := SearchAttributeByResourceId(meta, ID_resource);
    }
    if valueAttribute.None? || valueAttribute.value.valueType != Reference {
      return false;
    }
    if apk.table.None? {
      return false;
    }
    var resourceEntry := GetResource(apk.table.value, valueAttribute.value.data);
    if resourceEntry.None? {
      return false;
    }
    var hs := resourceEntry.value;
    assert SplitsResource(meta, apk.table) == Some(hs);
    NullEntriesValid(apk.table.value, Cleanup(apk.table.value, hs).nulled);
    RemoveVariants(apk, hs);
    return true;
  }

  /**
   * The loop over the variants of the split resource: each file-backed
   * variant's file leaves the archive, its entry is nulled and its spec pair
   * compacted; null slots and file-less entries are skipped.
   */
  method RemoveVariants(apk: ApkModule, hs: seq<Option<Handle>>)
    requires apk.table.Some? && Resolves(apk.table.value, hs)
    modifies apk
    ensures apk.State() == ApplyCleanup(old(apk.State()), hs)
  {
    ghost var s0 := apk.State();
    NullEntriesNone(s0.table.value);
    assert s0.zipEntryMap - {} == s0.zipEntryMap;
    for i := 0 to |hs|
      invariant apk.table.Some?
      invariant apk.State() == ApplyCleanup(s0, hs[..i])
    {
      ApplyCleanupSnoc(s0, hs, i);
      var entry := hs[i];
      if entry.None? {
        continue;
      }
      var t := apk.table.value;
      var e := t.entries[entry.value];
      if e.resValue.None? {
        continue;
      }
      var path := e.resValue.value;
      apk.zipEntryMap := apk.zipEntryMap - {path};
      apk.table := Some(t.(entries := t.entries[entry.value := e.(isNull := true)]));
      apk.calls := apk.calls + [RemoveNullEntries(e.specPair, e.id)];
    }
    assert hs[..|hs|] == hs;
  }

  // ---------------------------------------------------------------------
  // sanitizeManifest
  // ---------------------------------------------------------------------

  /** application.remove(meta) on a snapshot with a manifest. */
  function RemoveMeta(s: ModuleState, meta: Element): (r: ModuleState)
    requires s.manifest.Some?
  {
    s.(manifest := Some(s.manifest.value.(application := RemoveChild(s.manifest.value.application, meta))))
  }

  /**
   * The meta-data loop after its first `metas` elements: removeSplitsTableEntry
   * is tried until it returns true, every element is removed from the
   * application. The flag is the loop's `splitsRemoved`.
   */
  function MetaLoop(s0: ModuleState, metas: seq<Element>): (r: (ModuleState, bool))
    requires StateValid(s0) && s0.manifest.Some?
    ensures StateValid(r.0) && r.0.manifest.Some?
    decreases |metas|
  {
    if metas == [] then (s0, false)
    else
      var prev := MetaLoop(s0, metas[..|metas| - 1]);
      var meta := metas[|metas| - 1];
      var step := if prev.1 then (true, prev.0) else RemoveSplits(meta, prev.0);
      (RemoveMeta(step.1, meta), step.0)
  }

  /** Index of the first meta-data element whose guards pass, if any. */
  function FirstSplits(metas: seq<Element>, table: Option<Table>): (r: Option<nat>)
    requires table.Some? ==> TableValid(table.value)
    ensures r.Some? ==> r.value < |metas| && SplitsResource(metas[r.value], table).Some?
    ensures r.Some? ==> forall j :: 0 <= j < r.value ==> SplitsResource(metas[j], table).None?
    ensures r.None? ==> forall j :: 0 <= j < |metas| ==> SplitsResource(metas[j], table).None?
    decreases |metas|
  {
    if metas == [] then None
    else if SplitsResource(metas[0], table).Some? then Some(0)
    else match FirstSplits(metas[1..], table)
      case None =>
        assert forall j :: 0 < j < |metas| ==> metas[j] == metas[1..][j - 1];
        None
      case Some(k) =>
        assert forall j :: 0 < j <= k ==> metas[j] == metas[1..][j - 1];
        Some(k + 1)
  }

  /**
   * The loop, stated outright: every listed element is removed from the
   * application; the table cleanup runs once, for the first element whose
   * guards pass against the module as it was before the loop, and for no
   * other; when no element passes, archive, table and calls are untouched.
   */
  lemma {:induction false} MetaLoopEffect(s0: ModuleState, metas: seq<Element>)
    requires StateValid(s0) && s0.manifest.Some?
    ensures var r := MetaLoop(s0, metas);
      && r.1 == FirstSplits(metas, s0.table).Some?
      && r.0.manifest == Some(s0.manifest.value.(application := RemoveChildren(s0.manifest.value.application, metas)))
      && r.0.signatureBlock == s0.signatureBlock
      && (FirstSplits(metas, s0.table).None? ==>
            r.0.zipEntryMap == s0.zipEntryMap && r.0.table == s0.table && r.0.calls == s0.calls)
      && (FirstSplits(metas, s0.table).Some? ==>
            var after := ApplyCleanup(s0, SplitsResource(metas[FirstSplits(metas, s0.table).value], s0.table).value);
            r.0.zipEntryMap == after.zipEntryMap && r.0.table == after.table && r.0.calls == after.calls)
    decreases |metas|
  {
    if metas != [] {
      var init, meta := metas[..|metas| - 1], metas[|metas| - 1];
      MetaLoopEffect(s0, init);
      FirstSplitsSnoc(init, meta, s0.table);
      assert init + [meta] == metas;
    }
  }

  lemma {:induction false} FirstSplitsSnoc(init: seq<Element>, meta: Element, table: Option<Table>)
    requires table.Some? ==> TableValid(table.value)
    ensures FirstSplits(init + [meta], table) ==
      if FirstSplits(init, table).Some? then FirstSplits(init, table)
      else if SplitsResource(meta, table).Some? then Some(|init|)
      else None
    decreases |init|
  {
    if init != [] {
      assert (init + [meta])[0] == init[0];
      assert (init + [meta])[1..] == init[1..] + [meta];
      FirstSplitsSnoc(init[1..], meta, table);
    }
  }

  /**
   * sanitizeManifest on a snapshot: nothing without a manifest; otherwise
   * the attribute removals (`strip`), the loop over the elements
   * `listSplitRequired` returns for the stripped application, and the
   * manifest refresh.
   */
  function Sanitized(s: ModuleState, strip: Manifest -> Manifest, listSplitRequired: Application -> seq<Element>): (r: ModuleState)
    requires StateValid(s)
    ensures StateValid(r)
  {
    if s.manifest.None? then s
    else
      var stripped := s.(manifest := Some(strip(s.manifest.value)));
      var loop := MetaLoop(stripped, listSplitRequired(stripped.manifest.value.application)).0;
      loop.(calls := loop.calls + [RefreshManifestBlock])
  }

  /**
   * What sanitizeManifest promises: without a manifest it does nothing at
   * all; with one, every split meta-data element is gone from the
   * application (the other children stay, in order), the table cleanup runs
   * at most once, for the first element that qualifies, and the signing block
   * is untouched.
   */
  lemma SanitizeManifestEffect(s: ModuleState, strip: Manifest -> Manifest, listSplitRequired: Application -> seq<Element>)
    requires StateValid(s)
    ensures s.manifest.None? ==> Sanitized(s, strip, listSplitRequired) == s
    ensures s.manifest.Some? ==>
      var m := strip(s.manifest.value);
      var metas := listSplitRequired(m.application);
      var r := Sanitized(s, strip, listSplitRequired);
      var first := FirstSplits(metas, s.table);
      && r.manifest.Some?
      && r.manifest.value.attributes == m.attributes
      && r.manifest.value.extractNativeLibs == m.extractNativeLibs
      && r.manifest.value.application.attributes == m.application.attributes
      && (DistinctNodes(m.application.children) ==>
            r.manifest.value.application.children == WithoutNodes(m.application.children, Nodes(metas)))
      && r.signatureBlock == s.signatureBlock
      && (first.None? ==>
            r.zipEntryMap == s.zipEntryMap && r.table == s.table && r.calls == s.calls + [RefreshManifestBlock])
      && (first.Some? ==>
            var after := ApplyCleanup(s, SplitsResource(metas[first.value], s.table).value);
            r.zipEntryMap == after.zipEntryMap && r.table == after.table &&
            r.calls == after.calls + [RefreshManifestBlock])
  {
    if s.manifest.Some? {
      var m := strip(s.manifest.value);
      var stripped := s.(manifest := Some(m));
      MetaLoopEffect(stripped, listSplitRequired(m.application));
      if DistinctNodes(m.application.children) {
        RemoveChildrenRemovesAll(m.application, listSplitRequired(m.application));
      }
    }
  }

  /**
   * Tried twice on the same element, the cleanup removes no further file
   * and nulls no further entry, but repeats the compaction calls: what the
   * `splitsRemoved` flag saves.
   */
  lemma RemoveSplitsTwice(meta: Element, s: ModuleState)
    requires StateValid(s) && RemoveSplits(meta, s).0
    ensures var once := RemoveSplits(meta, s).1;
      var twice := RemoveSplits(meta, once);
      && twice.0
      && twice.1.zipEntryMap == once.zipEntryMap
      && twice.1.table == once.table
      && twice.1.calls == once.calls + CompactionsOf(s.table.value, SplitsResource(meta, s.table).value)
  {
    var t := s.table.value;
    var hs := SplitsResource(meta, s.table).value;
    var once := RemoveSplits(meta, s).1;
    var t1 := once.table.value;
    var c := Cleanup(t, hs);
    assert SplitsResource(meta, once.table) == Some(hs);
    CleanupSameFiles(t, c.nulled, hs);
    CleanupCharacterised(t, hs);
    NullEntriesTwice(t, c.nulled, c.nulled);
    assert c.nulled + c.nulled == c.nulled;
    assert once.zipEntryMap - c.removedPaths == once.zipEntryMap;
  }

  /** Nulling entries does not change which slots are file-backed, nor their paths. */
  lemma {:induction false} CleanupSameFiles(t: Table, nulled: set<Handle>, hs: seq<Option<Handle>>)
    ensures Cleanup(NullEntries(t, nulled), hs) == Cleanup(t, hs)
    ensures CompactionsOf(NullEntries(t, nulled), hs) == CompactionsOf(t, hs)
  {
    if hs != [] {
      CleanupSameFiles(t, nulled, hs[..|hs| - 1]);
      CleanupSameFiles(t, nulled, hs[1..]);
    }
  }

  method SanitizeManifest(apk: ApkModule, strip: Manifest -> Manifest, listSplitRequired: Application -> seq<Element>)
    requires apk.Valid()
    modifies apk
    ensures apk.Valid()
    ensures apk.State() == Sanitized(old(apk.State()), strip, listSplitRequired)
  {
    if apk.manifest.None? {
      return;
    }
    apk.manifest := Some(strip(apk.manifest.value));
    var application := apk.manifest.value.application;
    var splitMetaDataElements := listSplitRequired(application);
    ghost var s1 := apk.State();
    var splitsRemoved := false;
    for i := 0 to |splitMetaDataElements|
      invariant apk.Valid()
      invariant (apk.State(), splitsRemoved) == MetaLoop(s1, splitMetaDataElements[..i])
    {
      assert splitMetaDataElements[..i + 1][..i] == splitMetaDataElements[..i];
      var meta := splitMetaDataElements[i];
      if !splitsRemoved {
        splitsRemoved := RemoveSplitsTableEntry(meta, apk);
      }
      apk.manifest := Some(apk.manifest.value.(application := RemoveChild(apk.manifest.value.application, meta)));
    }
    assert splitMetaDataElements[..|splitMetaDataElements|] == splitMetaDataElements;
    apk.calls := apk.calls + [RefreshManifestBlock];
  }

  // ---------------------------------------------------------------------
  // clearMeta / removeSignature
  // ---------------------------------------------------------------------

  /** The archive after removeSignature. */
  function WithoutSignatureEntries(m: map<string, Bytes>): (r: map<string, Bytes>)
    ensures r.Keys <= m.Keys && forall p :: p in r ==> r[p] == m[p]
    ensures STAMP_CERT !in r
  {
    map p | p in m && !IsSignatureEntry(p) :: m[p]
  }

  /**
   * removeSignature keeps exactly the entries that are not signature
   * files, with their contents, and running it again changes nothing.
   */
  lemma WithoutSignatureEntriesEffect(m: map<string, Bytes>)
    ensures forall p :: p in WithoutSignatureEntries(m) <==> p in m && !IsSignatureEntry(p)
    ensures forall p :: p in WithoutSignatureEntries(m) ==> WithoutSignatureEntries(m)[p] == m[p]
    ensures !exists p :: p in WithoutSignatureEntries(m) && MatchesSignaturePattern(p)
    ensures STAMP_CERT !in WithoutSignatureEntries(m)
    ensures WithoutSignatureEntries(WithoutSignatureEntries(m)) == WithoutSignatureEntries(m)
  {
  }

  method RemoveSignature(apk: ApkModule)
    modifies apk
    ensures apk.State() == old(apk.State()).(zipEntryMap := WithoutSignatureEntries(old(apk.zipEntryMap)))
  {
    apk.zipEntryMap := map p | p in apk.zipEntryMap && !MatchesSignaturePattern(p) :: apk.zipEntryMap[p];
    apk.zipEntryMap := apk.zipEntryMap - {STAMP_CERT};
  }

  method ClearMeta(apk: ApkModule)
    modifies apk
    ensures apk.State() == old(apk.State()).(zipEntryMap := WithoutSignatureEntries(old(apk.zipEntryMap)),
                                              signatureBlock := None)
  {
    RemoveSignature(apk);
    apk.signatureBlock := None;
  }

  // ---------------------------------------------------------------------
  // applyExtractNativeLibs
  // ---------------------------------------------------------------------

  /** The calls applyExtractNativeLibs makes: none without the option, else one. */
  function ExtractNativeLibsCalls(option: Option<string>, manifest: Option<Manifest>): (r: seq<Call>)
    ensures |r| == if option.Some? then 1 else 0
  {
    match ResolveExtractNativeLibs(option, manifest)
    case None => []
    case Some(v) => [SetExtractNativeLibs(v)]
  }

  method ApplyExtractNativeLibs(apk: ApkModule, extractNativeLibs: Option<string>)
    modifies apk
    ensures apk.State() == old(apk.State()).(calls := old(apk.calls) + ExtractNativeLibsCalls(extractNativeLibs, old(apk.manifest)))
  {
    if extractNativeLibs.Some? {
      var value := ResolveExtractNativeLibs(extractNativeLibs, apk.manifest).value;
      apk.calls := apk.calls + [SetExtractNativeLibs(value)];
    }
  }

}
