/**
 * The merge task as a trace: how the options map is read, which operations
 * run on the bundle and the merged module in which order, and which progress
 * messages are posted. Any operation may throw; the task then posts one
 * error message and stops. The operations themselves are the library's and
 * are not interpreted here.
 */
module MergeTask {
  import opened Wrappers

  /** A value of the options map as it arrives from the caller. */
  datatype OptionValue = Text(s: string) | Flag(b: bool) | OtherValue

  /** The options map, itself nullable. */
  type Options = Option<map<string, OptionValue>>

  datatype Settings = Settings(
    extractedDir: Option<string>,
    outputFile: Option<string>,
    validateModules: bool,
    resDirName: Option<string>,
    validateResDir: bool,
    cleanMeta: bool,
    extractNativeLibs: Option<string>)

  /** `options?.get(key) as? String` */
  function StringOption(options: Options, key: string): Option<string>
  {
    if options.Some? && key in options.value && options.value[key].Text? then Some(options.value[key].s)
    else None
  }

  /** `(options?.get(key) as? Boolean) ?: false` */
  function BoolOption(options: Options, key: string): bool
  {
    if options.Some? && key in options.value && options.value[key].Flag? then options.value[key].b
    else false
  }

  /** Reads each option by key; a missing key or a value of the wrong type reads as absent (or false). */
  function ReadSettings(options: Options): (r: Settings)
    ensures options.None? ==> r == Settings(None, None, false, None, false, false, None)
    ensures r.extractedDir.Some? ==> options.Some? && "extractedDir" in options.value && options.value["extractedDir"] == Text(r.extractedDir.value)
    ensures r.outputFile.Some? ==> options.Some? && "outputFile" in options.value && options.value["outputFile"] == Text(r.outputFile.value)
  {
    Settings(
      StringOption(options, "extractedDir"),
      StringOption(options, "outputFile"),
      BoolOption(options, "validateModules"),
      StringOption(options, "resDirName"),
      BoolOption(options, "validateResDir"),
      BoolOption(options, "cleanMeta"),
      StringOption(options, "extractNativeLibs"))
  }

  /** A boolean option is on only when the caller passed the Boolean true. */
  lemma BooleanOptionsDefaultFalse(options: Options)
    ensures ReadSettings(options).validateModules <==>
      options.Some? && "validateModules" in options.value && options.value["validateModules"] == Flag(true)
    ensures ReadSettings(options).validateResDir <==>
      options.Some? && "validateResDir" in options.value && options.value["validateResDir"] == Flag(true)
    ensures ReadSettings(options).cleanMeta <==>
      options.Some? && "cleanMeta" in options.value && options.value["cleanMeta"] == Flag(true)
  {
  }

  /** Operations on the bundle and on the merged module. */
  datatype Step =
    | SetApkLogger
    | LoadApkDirectory(dir: Option<string>)
    | MergeModules(validate: bool)
    | SetResourcesRootDir(name: Option<string>)
    | ValidateResourcesDir
    | ClearMeta
    | SanitizeManifest
    | RefreshTable
    | RefreshManifest
    | ApplyExtractNativeLibs(option: Option<string>)
    | WriteApk(output: Option<string>)
    | CloseModule
    | CloseBundle
    | DeleteSourceDir(path: string)

  datatype MessageType = Success | MergeComplete | Error

  /** The progress messages the task posts itself. */
  datatype Note =
    | Searching | FoundModules | Renaming(name: Option<string>) | ValidatingResDir
    | ClearingMeta | WritingApk | SavedTo(output: Option<string>) | TaskComplete | Failed

  datatype Event = Log(note: Note, kind: MessageType) | Do(step: Step)

  predicate IsTerminal(e: Event)
  {
    e.Log? && e.kind != Success
  }

  /**
   * A successful run. The rename runs unless resDirName is exactly "": an
   * absent name is not equal to "" either. The source directory is deleted
   * when it was given and still exists after the module is written.
   */
  function Plan(s: Settings, sourceDirExists: bool): (r: seq<Event>)
    ensures |r| > 0 && r[0] == Log(Searching, Success) && r[|r| - 1] == Log(TaskComplete, MergeComplete)
  {
    Body(s, sourceDirExists) + Closing(s)
  }

  /** Everything before the two closing messages. */
  function Body(s: Settings, sourceDirExists: bool): seq<Event>
  {
    Opening(s) + Rename(s) + Validate(s) + Clear(s) + Core(s) + Delete(s, sourceDirExists)
  }

  function Opening(s: Settings): seq<Event>
  {
    [Log(Searching, Success), Do(SetApkLogger), Do(LoadApkDirectory(s.extractedDir)),
     Log(FoundModules, Success), Do(MergeModules(s.validateModules))]
  }

  function Rename(s: Settings): seq<Event>
  {
    if s.resDirName != Some("") then [Log(Renaming(s.resDirName), Success), Do(SetResourcesRootDir(s.resDirName))] else []
  }

  function Validate(s: Settings): seq<Event>
  {
    if s.validateResDir then [Log(ValidatingResDir, Success), Do(ValidateResourcesDir)] else []
  }

  function Clear(s: Settings): seq<Event>
  {
    if s.cleanMeta then [Log(ClearingMeta, Success), Do(ClearMeta)] else []
  }

  function Core(s: Settings): seq<Event>
  {
    Sanitise(s) + Write(s)
  }

  function Sanitise(s: Settings): seq<Event>
  {
    [Do(SanitizeManifest), Do(RefreshTable), Do(RefreshManifest), Do(ApplyExtractNativeLibs(s.extractNativeLibs))]
  }

  function Write(s: Settings): seq<Event>
  {
    [Log(WritingApk, Success), Do(WriteApk(s.outputFile)), Do(CloseModule), Do(CloseBundle)]
  }

  function Delete(s: Settings, sourceDirExists: bool): seq<Event>
  {
    if s.extractedDir.Some? && sourceDirExists then [Do(DeleteSourceDir(s.extractedDir.value))] else []
  }

  function Closing(s: Settings): seq<Event>
  {
    [Log(SavedTo(s.outputFile), Success), Log(TaskComplete, MergeComplete)]
  }

  /**
   * Position of the operation that is the k-th (from 0) in the trace: an
   * operation preceded by exactly k others; None when the trace has no more
   * than k operations.
   */
  function NthCall(trace: seq<Event>, k: nat): (r: Option<nat>)
    ensures r.Some? ==> r.value < |trace| && trace[r.value].Do? && |Ops(trace[..r.value])| == k
    ensures r.None? <==> k >= |Ops(trace)|
    decreases |trace|
  {
    if trace == [] then None
    else if trace[0].Do? && k == 0 then Some(0)
    else match NthCall(trace[1..], if trace[0].Do? then k - 1 else k)
      case None => None
      case Some(i) =>
        assert trace[..i + 1][1..] == trace[1..][..i];
        Some(i + 1)
  }

  /** Every operation of a trace is the k-th one for some k: any of them can be the one that throws. */
  lemma {:induction false} NthCallFindsEvery(trace: seq<Event>, i: nat)
    requires i < |trace| && trace[i].Do?
    ensures NthCall(trace, |Ops(trace[..i])|) == Some(i)
    decreases i
  {
    if i > 0 {
      NthCallFindsEvery(trace[1..], i - 1);
      assert trace[..i][1..] == trace[1..][..i - 1];
    }
  }

  /**
   * How a run can stop early: after `completed` operations, the next one
   * throws. An Exception is caught and reported (Caught); an Error such as
   * OutOfMemoryError passes the `catch (e: Exception)` and ends the thread
   * with nothing more posted (Escaped).
   */
  datatype Failure = Caught(completed: nat) | Escaped(completed: nat)

  /** A failure that hits an operation of the plan, rather than one past its end. */
  predicate Throws(plan: seq<Event>, failure: Option<Failure>)
  {
    failure.Some? && NthCall(plan, failure.value.completed).Some?
  }

  /** A run is a prefix of the plan, possibly followed by the error message. */
  predicate FollowsPlan(r: seq<Event>, plan: seq<Event>)
  {
    r <= plan || (|r| > 0 && r[..|r| - 1] <= plan && r[|r| - 1] == Log(Failed, Error))
  }

  /**
   * The trace of one task. The throwing operation is not part of the
   * trace; a caught failure ends it with the error message.
   */
  function Run(options: Options, sourceDirExists: bool, failure: Option<Failure>): (r: seq<Event>)
    ensures !Throws(Plan(ReadSettings(options), sourceDirExists), failure) ==> r == Plan(ReadSettings(options), sourceDirExists)
    ensures FollowsPlan(r, Plan(ReadSettings(options), sourceDirExists))
  {
    var plan := Plan(ReadSettings(options), sourceDirExists);
    if failure.None? then plan
    else match NthCall(plan, failure.value.completed)
      case None => plan
      case Some(i) => if failure.value.Caught? then plan[..i] + [Log(Failed, Error)] else plan[..i]
  }

  /** The order the pipeline prescribes: load, merge, rename, validate, clear, sanitise, refresh, apply, write, close, delete. */
  function Rank(s: Step): nat
  {
    match s
    case SetApkLogger => 0
    case LoadApkDirectory(_) => 1
    case MergeModules(_) => 2
    case SetResourcesRootDir(_) => 3
    case ValidateResourcesDir => 4
    case ClearMeta => 5
    case SanitizeManifest => 6
    case RefreshTable => 7
    case RefreshManifest => 8
    case ApplyExtractNativeLibs(_) => 9
    case WriteApk(_) => 10
    case CloseModule => 11
    case CloseBundle => 12
    case DeleteSourceDir(_) => 13
  }

  /** Every operation runs at most once and the operations come in rank order. */
  predicate InOrder(trace: seq<Event>)
  {
    forall i, j :: 0 <= i < j < |trace| && trace[i].Do? && trace[j].Do? ==> Rank(trace[i].step) < Rank(trace[j].step)
  }

  predicate RanksWithin(trace: seq<Event>, lo: nat, hi: nat)
  {
    forall i :: 0 <= i < |trace| && trace[i].Do? ==> lo <= Rank(trace[i].step) < hi
  }

  lemma InOrderAppend(a: seq<Event>, b: seq<Event>, lo: nat, mid: nat, hi: nat)
    requires lo <= mid <= hi
    requires InOrder(a) && InOrder(b) && RanksWithin(a, lo, mid) && RanksWithin(b, mid, hi)
    ensures InOrder(a + b) && RanksWithin(a + b, lo, hi)
  {
    forall i, j | 0 <= i < j < |a + b| && (a + b)[i].Do? && (a + b)[j].Do?
      ensures Rank((a + b)[i].step) < Rank((a + b)[j].step)
    {
      if j < |a| {
        assert (a + b)[i] == a[i] && (a + b)[j] == a[j];
      } else if i >= |a| {
        assert (a + b)[i] == b[i - |a|] && (a + b)[j] == b[j - |a|];
      } else {
        assert (a + b)[i] == a[i] && (a + b)[j] == b[j - |a|];
      }
    }
    forall i | 0 <= i < |a + b| && (a + b)[i].Do? ensures lo <= Rank((a + b)[i].step) < hi {
      if i < |a| { assert (a + b)[i] == a[i]; } else { assert (a + b)[i] == b[i - |a|]; }
    }
  }

  /** Prepending an operation that ranks below the rest keeps the order. */
  lemma InOrderConsDo(st: Step, t: seq<Event>, lo: nat, hi: nat)
    requires Rank(st) < lo <= hi && InOrder(t) && RanksWithin(t, lo, hi)
    ensures InOrder([Do(st)] + t) && RanksWithin([Do(st)] + t, Rank(st), hi)
  {
    var u := [Do(st)] + t;
    assert forall k :: 1 <= k < |u| ==> u[k] == t[k - 1];
  }

  /** Prepending a message keeps the order. */
  lemma InOrderConsLog(n: Note, m: MessageType, t: seq<Event>, lo: nat, hi: nat)
    requires InOrder(t) && RanksWithin(t, lo, hi)
    ensures InOrder([Log(n, m)] + t) && RanksWithin([Log(n, m)] + t, lo, hi)
  {
    var u := [Log(n, m)] + t;
    assert forall k :: 1 <= k < |u| ==> u[k] == t[k - 1];
  }

  lemma OpeningInOrder(s: Settings)
    ensures InOrder(Opening(s)) && RanksWithin(Opening(s), 0, 3)
  {
    var t4: seq<Event> := [Do(MergeModules(s.validateModules))];
    var t3: seq<Event> := [Log(FoundModules, Success)] + t4;
    var t2: seq<Event> := [Do(LoadApkDirectory(s.extractedDir))] + t3;
    var t1: seq<Event> := [Do(SetApkLogger)] + t2;
    InOrderConsDo(MergeModules(s.validateModules), [], 3, 3);
    InOrderConsLog(FoundModules, Success, t4, 2, 3);
    InOrderConsDo(LoadApkDirectory(s.extractedDir), t3, 2, 3);
    InOrderConsDo(SetApkLogger, t2, 1, 3);
    InOrderConsLog(Searching, Success, t1, 0, 3);
    assert Opening(s) == [Log(Searching, Success)] + t1;
  }

  lemma CoreInOrder(s: Settings)
    ensures InOrder(Core(s)) && RanksWithin(Core(s), 6, 13)
  {
    SanitiseInOrder(s);
    WriteInOrder(s);
    InOrderAppend(Sanitise(s), Write(s), 6, 10, 13);
  }

  lemma SanitiseInOrder(s: Settings)
    ensures InOrder(Sanitise(s)) && RanksWithin(Sanitise(s), 6, 10)
  {
    var t4: seq<Event> := [Do(ApplyExtractNativeLibs(s.extractNativeLibs))];
    var t3: seq<Event> := [Do(RefreshManifest)] + t4;
    var t2: seq<Event> := [Do(RefreshTable)] + t3;
    InOrderConsDo(ApplyExtractNativeLibs(s.extractNativeLibs), [], 10, 10);
    InOrderConsDo(RefreshManifest, t4, 9, 10);
    InOrderConsDo(RefreshTable, t3, 8, 10);
    InOrderConsDo(SanitizeManifest, t2, 7, 10);
    assert Sanitise(s) == [Do(SanitizeManifest)] + t2;
  }

  lemma WriteInOrder(s: Settings)
    ensures InOrder(Write(s)) && RanksWithin(Write(s), 10, 13)
  {
    var t4: seq<Event> := [Do(CloseBundle)];
    var t3: seq<Event> := [Do(CloseModule)] + t4;
    var t2: seq<Event> := [Do(WriteApk(s.outputFile))] + t3;
    InOrderConsDo(CloseBundle, [], 13, 13);
    InOrderConsDo(CloseModule, t4, 12, 13);
    InOrderConsDo(WriteApk(s.outputFile), t3, 11, 13);
    InOrderConsLog(WritingApk, Success, t2, 10, 13);
    assert Write(s) == [Log(WritingApk, Success)] + t2;
  }

  lemma OptionalChunksInOrder(s: Settings, sourceDirExists: bool)
    ensures InOrder(Rename(s)) && RanksWithin(Rename(s), 3, 4)
    ensures InOrder(Validate(s)) && RanksWithin(Validate(s), 4, 5)
    ensures InOrder(Clear(s)) && RanksWithin(Clear(s), 5, 6)
    ensures InOrder(Delete(s, sourceDirExists)) && RanksWithin(Delete(s, sourceDirExists), 13, 14)
    ensures InOrder(Closing(s)) && RanksWithin(Closing(s), 14, 14)
  {
    RenameInOrder(s);
    ValidateInOrder(s);
    ClearInOrder(s);
    TailInOrder(s, sourceDirExists);
  }

  lemma RenameInOrder(s: Settings)
    ensures InOrder(Rename(s)) && RanksWithin(Rename(s), 3, 4)
  {
    if s.resDirName != Some("") { AnnouncedStepInOrder(Renaming(s.resDirName), SetResourcesRootDir(s.resDirName)); }
  }

  lemma ValidateInOrder(s: Settings)
    ensures InOrder(Validate(s)) && RanksWithin(Validate(s), 4, 5)
  {
    if s.validateResDir { AnnouncedStepInOrder(ValidatingResDir, ValidateResourcesDir); }
  }

  lemma ClearInOrder(s: Settings)
    ensures InOrder(Clear(s)) && RanksWithin(Clear(s), 5, 6)
  {
    if s.cleanMeta { AnnouncedStepInOrder(ClearingMeta, ClearMeta); }
  }

  lemma TailInOrder(s: Settings, sourceDirExists: bool)
    ensures InOrder(Delete(s, sourceDirExists)) && RanksWithin(Delete(s, sourceDirExists), 13, 14)
    ensures InOrder(Closing(s)) && RanksWithin(Closing(s), 14, 14)
  {
    if s.extractedDir.Some? && sourceDirExists {
      InOrderConsDo(DeleteSourceDir(s.extractedDir.value), [], 14, 14);
    }
    InOrderConsLog(TaskComplete, MergeComplete, [], 14, 14);
    InOrderConsLog(SavedTo(s.outputFile), Success, [Log(TaskComplete, MergeComplete)], 14, 14);
  }

  /** A message followed by the one operation it announces is in order. */
  lemma AnnouncedStepInOrder(n: Note, st: Step)
    ensures InOrder([Log(n, Success), Do(st)]) && RanksWithin([Log(n, Success), Do(st)], Rank(st), Rank(st) + 1)
  {
    InOrderConsDo(st, [], Rank(st) + 1, Rank(st) + 1);
    InOrderConsLog(n, Success, [Do(st)], Rank(st), Rank(st) + 1);
  }

  lemma {:induction false} PlanInOrder(s: Settings, sourceDirExists: bool)
    ensures InOrder(Plan(s, sourceDirExists))
  {
    var p1, p2, p3, p4 := Opening(s), Rename(s), Validate(s), Clear(s);
    var p5, p6, p7 := Core(s), Delete(s, sourceDirExists), Closing(s);
    OpeningInOrder(s);
    CoreInOrder(s);
    OptionalChunksInOrder(s, sourceDirExists);
    InOrderAppend(p1, p2, 0, 3, 4);
    InOrderAppend(p1 + p2, p3, 0, 4, 5);
    InOrderAppend(p1 + p2 + p3, p4, 0, 5, 6);
    InOrderAppend(p1 + p2 + p3 + p4, p5, 0, 6, 13);
    InOrderAppend(p1 + p2 + p3 + p4 + p5, p6, 0, 13, 14);
    InOrderAppend(p1 + p2 + p3 + p4 + p5 + p6, p7, 0, 14, 14);
  }

  /** A failed run performs a prefix of the same operations, so the order holds for every run. */
  lemma RunInOrder(options: Options, sourceDirExists: bool, failure: Option<Failure>)
    ensures InOrder(Run(options, sourceDirExists, failure))
  {
    PlanInOrder(ReadSettings(options), sourceDirExists);
    FollowsPlanInOrder(Run(options, sourceDirExists, failure), Plan(ReadSettings(options), sourceDirExists));
  }

  lemma FollowsPlanInOrder(r: seq<Event>, plan: seq<Event>)
    requires InOrder(plan) && FollowsPlan(r, plan)
    ensures InOrder(r)
  {
    forall a, b | 0 <= a < b < |r| && r[a].Do? && r[b].Do? ensures Rank(r[a].step) < Rank(r[b].step) {
      assert r[a] == plan[a] && r[b] == plan[b];
    }
  }

  /** The operations of a trace, in order, without the messages. */
  function Ops(trace: seq<Event>): seq<Step>
  {
    if trace == [] then []
    else (if trace[0].Do? then [trace[0].step] else []) + Ops(trace[1..])
  }

  /** An operation occurs in a trace exactly when it is among the trace's operations. */
  lemma {:induction false} OpsMembership(trace: seq<Event>, st: Step)
    ensures Do(st) in trace <==> st in Ops(trace)
  {
    if trace != [] {
      OpsMembership(trace[1..], st);
      assert trace == [trace[0]] + trace[1..];
    }
  }

  lemma {:induction false} OpsAppend(a: seq<Event>, b: seq<Event>)
    ensures Ops(a + b) == Ops(a) + Ops(b)
  {
    if a == [] {
      assert a + b == b;
    } else {
      var h := if a[0].Do? then [a[0].step] else [];
      assert (a + b)[0] == a[0];
      assert (a + b)[1..] == a[1..] + b;
      calc {
        Ops(a + b);
        h + Ops(a[1..] + b);
        { OpsAppend(a[1..], b); }
        h + (Ops(a[1..]) + Ops(b));
        (h + Ops(a[1..])) + Ops(b);
        Ops(a) + Ops(b);
      }
    }
  }

  /**
   * The operations of a successful run, in the order the task performs
   * them: the optional rename, validation, meta clearing and deletion
   * appear exactly under their conditions, everything else always.
   */
  lemma PlanOps(s: Settings, sourceDirExists: bool)
    ensures Ops(Plan(s, sourceDirExists)) ==
      [SetApkLogger, LoadApkDirectory(s.extractedDir), MergeModules(s.validateModules)]
      + (if s.resDirName != Some("") then [SetResourcesRootDir(s.resDirName)] else [])
      + (if s.validateResDir then [ValidateResourcesDir] else [])
      + (if s.cleanMeta then [ClearMeta] else [])
      + [SanitizeManifest, RefreshTable, RefreshManifest, ApplyExtractNativeLibs(s.extractNativeLibs),
         WriteApk(s.outputFile), CloseModule, CloseBundle]
      + (if s.extractedDir.Some? && sourceDirExists then [DeleteSourceDir(s.extractedDir.value)] else [])
  {
    var e := sourceDirExists;
    var o, r, v, c, k, d := Opening(s), Rename(s), Validate(s), Clear(s), Core(s), Delete(s, e);
    FixedChunkOps(s);
    OptionalChunkOps(s, e);
    OpsAppend(Sanitise(s), Write(s));
    assert Ops(k) == [SanitizeManifest, RefreshTable, RefreshManifest, ApplyExtractNativeLibs(s.extractNativeLibs),
                      WriteApk(s.outputFile), CloseModule, CloseBundle];
    OpsAppend(Body(s, e), Closing(s));
    assert Ops(Plan(s, e)) == Ops(o + r + v + c + k + d);
    OpsAppend(o + r + v + c + k, d);
    OpsAppend(o + r + v + c, k);
    OpsAppend(o + r + v, c);
    OpsAppend(o + r, v);
    OpsAppend(o, r);
  }

  lemma FixedChunkOps(s: Settings)
    ensures Ops(Opening(s)) == [SetApkLogger, LoadApkDirectory(s.extractedDir), MergeModules(s.validateModules)]
    ensures Ops(Sanitise(s)) == [SanitizeManifest, RefreshTable, RefreshManifest, ApplyExtractNativeLibs(s.extractNativeLibs)]
    ensures Ops(Write(s)) == [WriteApk(s.outputFile), CloseModule, CloseBundle]
    ensures Ops(Closing(s)) == []
  {
    var o := Opening(s);
    assert o[1..][1..][1..][1..][1..] == [];
    assert Ops(o[1..][1..][1..][1..]) == [MergeModules(s.validateModules)];
    assert Ops(o[1..][1..]) == [LoadApkDirectory(s.extractedDir), MergeModules(s.validateModules)];
    var z := Sanitise(s);
    assert z[1..][1..][1..][1..] == [];
    assert Ops(z[1..][1..][1..]) == [ApplyExtractNativeLibs(s.extractNativeLibs)];
    assert Ops(z[1..][1..]) == [RefreshManifest, ApplyExtractNativeLibs(s.extractNativeLibs)];
    var w := Write(s);
    assert w[1..][1..][1..][1..] == [];
    assert Ops(w[1..][1..][1..]) == [CloseBundle];
    assert Ops(w[1..][1..]) == [CloseModule, CloseBundle];
    assert Closing(s)[1..][1..] == [];
  }

  lemma OptionalChunkOps(s: Settings, e: bool)
    ensures Ops(Rename(s)) == (if s.resDirName != Some("") then [SetResourcesRootDir(s.resDirName)] else [])
    ensures Ops(Validate(s)) == (if s.validateResDir then [ValidateResourcesDir] else [])
    ensures Ops(Clear(s)) == (if s.cleanMeta then [ClearMeta] else [])
    ensures Ops(Delete(s, e)) == (if s.extractedDir.Some? && e then [DeleteSourceDir(s.extractedDir.value)] else [])
  {
    assert Ops([]) == [];
    if s.resDirName != Some("") { assert Rename(s)[1..][1..] == []; }
    if s.validateResDir { assert Validate(s)[1..][1..] == []; }
    if s.cleanMeta { assert Clear(s)[1..][1..] == []; }
    if s.extractedDir.Some? && e { assert Delete(s, e)[1..] == []; }
  }

  /**
   * Every successful run sanitises, refreshes both the table and the
   * manifest, applies the option and writes the module.
   */
  lemma PlanSteps(s: Settings, sourceDirExists: bool)
    ensures Do(SanitizeManifest) in Plan(s, sourceDirExists)
    ensures Do(RefreshTable) in Plan(s, sourceDirExists)
    ensures Do(RefreshManifest) in Plan(s, sourceDirExists)
    ensures Do(ApplyExtractNativeLibs(s.extractNativeLibs)) in Plan(s, sourceDirExists)
    ensures Do(WriteApk(s.outputFile)) in Plan(s, sourceDirExists)
  {
    var plan := Plan(s, sourceDirExists);
    PlanOps(s, sourceDirExists);
    var ops := Ops(plan);
    var k := |ops| - (if s.extractedDir.Some? && sourceDirExists then 1 else 0) - 7;
    assert ops[k] == SanitizeManifest && ops[k + 1] == RefreshTable && ops[k + 2] == RefreshManifest;
    assert ops[k + 3] == ApplyExtractNativeLibs(s.extractNativeLibs) && ops[k + 4] == WriteApk(s.outputFile);
    OpsMembership(plan, SanitizeManifest);
    OpsMembership(plan, RefreshTable);
    OpsMembership(plan, RefreshManifest);
    OpsMembership(plan, ApplyExtractNativeLibs(s.extractNativeLibs));
    OpsMembership(plan, WriteApk(s.outputFile));
  }

  /**
   * The rename runs exactly when resDirName is not "", so also, with a null
   * name, when it is absent.
   */
  lemma PlanRenames(s: Settings, sourceDirExists: bool)
    ensures (exists n :: Do(SetResourcesRootDir(n)) in Plan(s, sourceDirExists)) <==> s.resDirName != Some("")
    ensures s.resDirName.None? ==> Do(SetResourcesRootDir(None)) in Plan(s, sourceDirExists)
  {
    var plan := Plan(s, sourceDirExists);
    PlanOps(s, sourceDirExists);
    if s.resDirName != Some("") {
      assert Ops(plan)[3] == SetResourcesRootDir(s.resDirName);
      OpsMembership(plan, SetResourcesRootDir(s.resDirName));
    }
    forall n | Do(SetResourcesRootDir(n)) in plan ensures s.resDirName != Some("") {
      OpsMembership(plan, SetResourcesRootDir(n));
    }
  }

  /**
   * No terminal message precedes the last event of a run. The last one is
   * mergeComplete exactly when no operation threw, error exactly when an
   * Exception was caught, and a run cut short by an escaping Error ends on
   * no terminal message at all.
   */
  lemma TerminalMessage(options: Options, sourceDirExists: bool, failure: Option<Failure>)
    ensures var plan := Plan(ReadSettings(options), sourceDirExists);
      var r := Run(options, sourceDirExists, failure);
      && |r| > 0
      && (forall i :: 0 <= i < |r| - 1 ==> !IsTerminal(r[i]))
      && (IsTerminal(r[|r| - 1]) <==> !(Throws(plan, failure) && failure.value.Escaped?))
      && (r[|r| - 1] == Log(TaskComplete, MergeComplete) <==> !Throws(plan, failure))
      && (r[|r| - 1] == Log(Failed, Error) <==> Throws(plan, failure) && failure.value.Caught?)
  {
    var plan := Plan(ReadSettings(options), sourceDirExists);
    PlanTerminalLast(ReadSettings(options), sourceDirExists);
    if Throws(plan, failure) {
      var i := NthCall(plan, failure.value.completed).value;
      CutShort(plan, i, failure.value.Caught?);
    }
  }

  /** A plan cut short before an operation ends on error when caught, else on no terminal message. */
  lemma CutShort(plan: seq<Event>, i: nat, caught: bool)
    requires 0 < i < |plan| && plan[i].Do?
    requires |plan| > 0 && plan[|plan| - 1] == Log(TaskComplete, MergeComplete)
    requires forall k :: 0 <= k < |plan| - 1 ==> !IsTerminal(plan[k])
    ensures var r := if caught then plan[..i] + [Log(Failed, Error)] else plan[..i];
      && |r| > 0
      && (forall k :: 0 <= k < |r| - 1 ==> !IsTerminal(r[k]))
      && (IsTerminal(r[|r| - 1]) <==> caught)
      && r[|r| - 1] != Log(TaskComplete, MergeComplete)
      && (r[|r| - 1] == Log(Failed, Error) <==> caught)
  {
    assert i < |plan| - 1;
    if !caught {
      assert plan[..i][i - 1] == plan[i - 1];
    }
  }

  /** No event of the trace ends the task. */
  predicate Quiet(trace: seq<Event>)
  {
    forall e :: e in trace ==> !IsTerminal(e)
  }

  lemma BodyQuiet(s: Settings, sourceDirExists: bool)
    ensures Quiet(Body(s, sourceDirExists))
  {
    assert Quiet(Opening(s)) && Quiet(Rename(s)) && Quiet(Validate(s)) && Quiet(Clear(s));
    assert Quiet(Sanitise(s)) && Quiet(Write(s)) && Quiet(Delete(s, sourceDirExists));
  }

  /** A successful run posts mergeComplete last and no terminal message before. */
  lemma PlanTerminalLast(s: Settings, sourceDirExists: bool)
    ensures var p := Plan(s, sourceDirExists);
      |p| > 0 && p[|p| - 1] == Log(TaskComplete, MergeComplete) &&
      forall i :: 0 <= i < |p| - 1 ==> !IsTerminal(p[i])
  {
    var b := Body(s, sourceDirExists);
    var p := Plan(s, sourceDirExists);
    BodyQuiet(s, sourceDirExists);
    forall i | 0 <= i < |p| - 1 ensures !IsTerminal(p[i]) {
      if i < |b| { assert p[i] == b[i] && b[i] in b; } else { assert p[i] == Log(SavedTo(s.outputFile), Success); }
    }
  }

  /**
   * The source directory is deleted only in a run that wrote the module
   * before and ends with mergeComplete: a failed run never deletes its input.
   */
  lemma DeleteOnlyAfterWrite(options: Options, sourceDirExists: bool, failure: Option<Failure>, i: nat)
    requires var r := Run(options, sourceDirExists, failure);
      i < |r| && r[i].Do? && r[i].step.DeleteSourceDir?
    ensures var r := Run(options, sourceDirExists, failure);
      && r[|r| - 1] == Log(TaskComplete, MergeComplete)
      && exists j :: 0 <= j < i && r[j] == Do(WriteApk(ReadSettings(options).outputFile))
  {
    var s := ReadSettings(options);
    var plan := Plan(s, sourceDirExists);
    var r := Run(options, sourceDirExists, failure);
    PlanInOrder(s, sourceDirExists);
    if Throws(plan, failure) {
      var n := NthCall(plan, failure.value.completed).value;
      assert r[i] == plan[i];
      NothingOutranksDelete(plan, i, n);
    }
    assert r == plan;
    PlanTerminalLast(s, sourceDirExists);
    PlanSteps(s, sourceDirExists);
    WriteBeforeDelete(plan, i, s.outputFile);
  }

  /** In an ordered trace no operation follows the deletion of the source directory. */
  lemma NothingOutranksDelete(trace: seq<Event>, i: nat, n: nat)
    requires InOrder(trace) && i < n < |trace| && trace[n].Do? && trace[i].Do?
    ensures !trace[i].step.DeleteSourceDir?
  {
    assert Rank(trace[i].step) < Rank(trace[n].step);
  }

  /** In an ordered trace that writes the module, the write precedes any deletion. */
  lemma WriteBeforeDelete(trace: seq<Event>, i: nat, output: Option<string>)
    requires InOrder(trace) && Do(WriteApk(output)) in trace
    requires i < |trace| && trace[i].Do? && trace[i].step.DeleteSourceDir?
    ensures exists j :: 0 <= j < i && trace[j] == Do(WriteApk(output))
  {
    var w :| 0 <= w < |trace| && trace[w] == Do(WriteApk(output));
    assert w != i;
  }

}
