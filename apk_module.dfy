/**
 * The merged APK module the sanitiser works on: its zip entry map, its
 * signing block, its parsed manifest and resource table, and a record of the
 * calls made into the module whose internal effect lives in the ARSC/AXML
 * library (compacting a type spec, refreshing the manifest chunk, setting
 * extractNativeLibs).
 */
module ApkState {
  import opened Wrappers
  import opened ManifestModel
  import opened TableModel

  newtype byte = x: int | 0 <= x < 256

  type Bytes = seq<byte>

  datatype Call =
    | RemoveNullEntries(specPair: nat, entryId: nat)
    | RefreshManifestBlock
    | SetExtractNativeLibs(value: Option<bool>)

  /** A snapshot of everything the merger can change in a module. */
  datatype ModuleState = ModuleState(
    zipEntryMap: map<string, Bytes>,
    signatureBlock: Option<Bytes>,
    manifest: Option<Manifest>,
    table: Option<Table>,
    calls: seq<Call>)

  predicate StateValid(s: ModuleState)
  {
    s.table.Some? ==> TableValid(s.table.value)
  }

  class ApkModule {
    var zipEntryMap: map<string, Bytes>
    var signatureBlock: Option<Bytes>
    var manifest: Option<Manifest>   // None: hasAndroidManifest() is false
    var table: Option<Table>         // None: hasTableBlock() is false
    var calls: seq<Call>

    function State(): ModuleState
      reads this
    {
      ModuleState(zipEntryMap, signatureBlock, manifest, table, calls)
    }

    predicate Valid()
      reads this
    {
      StateValid(State())
    }
  }

}
