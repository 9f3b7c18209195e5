/** Exporting libraries: the per-library result records, the selection of
    the libraries to export, and the recursive export of a library after
    its dependencies. The file system is an oracle: whether a path exists,
    and the error, if any, each file operation raises. */
module Export {

  import opened Wrappers
  import opened Text
  import opened Paths
  import opened Config
  import LibraryFile
  import Directory

  /** The errors an export step can raise. Only the first two are caught. */
  datatype Error = FileNotFound(path: string) | FileExists(path: string) | Other(message: string)

  predicate Captured(e: Error) {
    e.FileNotFound? || e.FileExists?
  }

  /** `LibExportInfo`; `exception` is `None` on success. */
  datatype LibExportInfo = LibExportInfo(name: string, path: string, exception: Option<Error>)

  /** `ProjectExportInfo` */
  datatype ProjectExportInfo = ProjectExportInfo(success: seq<LibExportInfo>, failed: seq<LibExportInfo>)

  const NoInfo := ProjectExportInfo([], [])

  function Total(p: ProjectExportInfo): nat {
    |p.success| + |p.failed|
  }

  /** Successes carry no exception, failures carry one. */
  predicate Sorted(p: ProjectExportInfo) {
    && (forall k :: 0 <= k < |p.success| ==> p.success[k].exception.None?)
    && (forall k :: 0 <= k < |p.failed| ==> p.failed[k].exception.Some?)
  }

  /** `r` keeps every record of `p`, in place. */
  predicate Keeps(p: ProjectExportInfo, r: ProjectExportInfo) {
    && |p.success| <= |r.success| && r.success[..|p.success|] == p.success
    && |p.failed| <= |r.failed| && r.failed[..|p.failed|] == p.failed
  }

  /** `addLibInfo`: one more record, on the side its exception says. */
  function AddLibInfo(p: ProjectExportInfo, info: LibExportInfo): (r: ProjectExportInfo)
    ensures Total(r) == Total(p) + 1
    ensures info in r.success <==> info in p.success || info.exception.None?
    ensures info in r.failed <==> info in p.failed || info.exception.Some?
    ensures Keeps(p, r)
    ensures Sorted(p) ==> Sorted(r)
  {
    if info.exception.None? then ProjectExportInfo(p.success + [info], p.failed)
    else ProjectExportInfo(p.success, p.failed + [info])
  }

  /** `extend` with one argument: its records follow the existing ones. */
  function Extend(p: ProjectExportInfo, q: ProjectExportInfo): (r: ProjectExportInfo)
    ensures Total(r) == Total(p) + Total(q)
    ensures Keeps(p, r)
    ensures r.success[|p.success|..] == q.success && r.failed[|p.failed|..] == q.failed
    ensures Sorted(p) && Sorted(q) ==> Sorted(r)
  {
    ProjectExportInfo(p.success + q.success, p.failed + q.failed)
  }

  /** `extend(*infos)`: each argument in turn. */
  function ExtendAll(p: ProjectExportInfo, qs: seq<ProjectExportInfo>): (r: ProjectExportInfo)
    ensures Keeps(p, r)
    ensures (Sorted(p) && forall k :: 0 <= k < |qs| ==> Sorted(qs[k])) ==> Sorted(r)
    decreases |qs|
  {
    if |qs| == 0 then p
    else
      var q := Extend(p, qs[0]);
      var r := ExtendAll(q, qs[1..]);
      assert forall k :: 1 <= k < |qs| ==> qs[1..][k - 1] == qs[k];
      KeepsTrans(p, q, r);
      r
  }

  lemma KeepsTrans(p: ProjectExportInfo, q: ProjectExportInfo, r: ProjectExportInfo)
    requires Keeps(p, q) && Keeps(q, r)
    ensures Keeps(p, r)
  {
    assert r.success[..|p.success|] == r.success[..|q.success|][..|p.success|];
    assert r.failed[..|p.failed|] == r.failed[..|q.failed|][..|p.failed|];
  }

  function SumTotals(qs: seq<ProjectExportInfo>): nat {
    if |qs| == 0 then 0 else Total(qs[0]) + SumTotals(qs[1..])
  }

  /** Extending by several records adds exactly their totals. */
  lemma {:induction false} ExtendAllTotal(p: ProjectExportInfo, qs: seq<ProjectExportInfo>)
    ensures Total(ExtendAll(p, qs)) == Total(p) + SumTotals(qs)
    decreases |qs|
  {
    if |qs| > 0 {
      ExtendAllTotal(Extend(p, qs[0]), qs[1..]);
    }
  }

  // ---------------------------------------------------------------- libraries

  /** A library of the project as the export sees it: its name, the
      `Version` of its manifest, the names of its dependencies, its folder
      and its type, `getLibraryType` of that folder. */
  datatype Lib = Lib(name: string, version: string, dependencies: seq<string>, dirPath: string, libType: string)

  /** The export's view of an opened library manifest whose folder holds
      `contents`: `name`, `version` and `dependencyNames` as the manifest
      gives them, and the type the folder's marker files decide. The type
      is taken from the folder, not from the manifest: a manifest that is
      not a marker does not make itself the library's `.lby`. */
  function LibOf(lib: LibraryFile.Library, dirPath: string, contents: set<string>): (r: Lib)
    ensures r.name == lib.name && r.dirPath == dirPath
    ensures Directory.HasLibraryMarker(contents) ==> r.libType in Directory.Languages && r.libType + ".lby" in contents
    ensures !Directory.HasLibraryMarker(contents) ==> r.libType == "None"
    ensures forall k :: 0 <= k < |Directory.Languages| && Directory.Languages[k] == r.libType ==>
      forall j :: 0 <= j < k ==> Directory.Languages[j] + ".lby" !in contents
    ensures "Version" !in lib.root.attrib ==> r.version == "0"
    ensures "Version" in lib.root.attrib ==> r.version == lib.root.attrib["Version"]
    ensures |r.dependencies| == |LibraryFile.Dependencies(lib)|
    ensures forall k :: 0 <= k < |r.dependencies| ==> r.dependencies[k] == LibraryFile.Dependencies(lib)[k].name
  {
    Lib(lib.name, LibraryFile.Version(lib), LibraryFile.DependencyNames(lib), dirPath, Directory.LibraryType(contents))
  }

  /** `dest/name`, and `/V<version>` below it when the version is included. */
  function ExportPath(dest: string, lib: Lib, includeVersion: bool): (r: string)
    ensures StartsWith(r, JoinPath(dest, lib.name))
    ensures includeVersion ==> EndsWith(r, "V" + lib.version)
    ensures !includeVersion ==> r == JoinPath(dest, lib.name)
    ensures includeVersion ==> r == JoinPath(JoinPath(dest, lib.name), "V" + lib.version)
  {
    var path := JoinPath(dest, lib.name);
    if includeVersion then JoinPath(path, "V" + lib.version) else path
  }

  /** The file operations of one export. */
  datatype FsOp =
    | RemoveTree(path: string)
    | CopySource(from: string, to: string, excludes: seq<string>, ignoreFolders: bool)
    | CopyBinary(buildFolder: string, config: BuildConfig, lib: string, to: string)
    | Rename(from: string, to: string)
    | SetBinaryAndSynchronize(lby: string)

  /** What `_collectBinaryLibrary` leaves out of the copied sources. */
  const BinaryExcludes: seq<string> := [".c", ".st", ".cpp", ".git", ".vscode", ".gitignore", "jenkinsfile", "CMakeLists.txt"]

  /** The copy of the binaries of one configuration, if there is one. */
  function CopyFirst(first: Option<BuildConfig>, buildFolder: string, lib: string, to: string): (r: seq<FsOp>)
    ensures |r| == (if first.Some? then 1 else 0)
    ensures first.Some? ==> r[0] == CopyBinary(buildFolder, first.value, lib, to)
    ensures forall op :: op in r ==> first.Some? && op == CopyBinary(buildFolder, first.value, lib, to)
  {
    match first
    case None => []
    case Some(c) => [CopyBinary(buildFolder, c, lib, to)]
  }

  /** The binaries collected: the first `sg4` configuration into `SG4`,
      then the first `sg4_arm` configuration into `SG4/Arm`. */
  function BinaryCopies(buildFolder: string, configs: seq<BuildConfig>, lib: string, dest: string): (r: seq<FsOp>)
    ensures |r| <= 2
    ensures forall k :: 0 <= k < |r| ==>
      && r[k].CopyBinary? && r[k].buildFolder == buildFolder && r[k].lib == lib
      && r[k].config in configs && (r[k].config.typ == "sg4" || r[k].config.typ == "sg4_arm")
  {
    CopiesInto(buildFolder, configs, lib, IntelFolder(dest), ArmFolder(dest))
  }

  /** The binaries collected, with the two destination folders given. */
  function CopiesInto(buildFolder: string, configs: seq<BuildConfig>, lib: string, intelTo: string, armTo: string): (r: seq<FsOp>)
    ensures |r| <= 2
    ensures forall k :: 0 <= k < |r| ==>
      && r[k].CopyBinary? && r[k].buildFolder == buildFolder && r[k].lib == lib
      && r[k].config in configs && (r[k].config.typ == "sg4" || r[k].config.typ == "sg4_arm")
  {
    var intel := CopyFirst(FirstOfType(configs, "sg4"), buildFolder, lib, intelTo);
    var arm := CopyFirst(FirstOfType(configs, "sg4_arm"), buildFolder, lib, armTo);
    assert forall k :: 0 <= k < |intel + arm| ==> (intel + arm)[k] in intel || (intel + arm)[k] in arm;
    intel + arm
  }

  function IntelFolder(dest: string): string {
    JoinPath(dest, "SG4")
  }

  function ArmFolder(dest: string): string {
    JoinPath(JoinPath(dest, "SG4"), "Arm")
  }

  /** The copies collected, one by one. */
  lemma BinaryCopiesAt(buildFolder: string, configs: seq<BuildConfig>, lib: string, dest: string)
    ensures var r := BinaryCopies(buildFolder, configs, lib, dest);
      var intel := FirstOfType(configs, "sg4");
      var arm := FirstOfType(configs, "sg4_arm");
      && |r| == (if intel.Some? then 1 else 0) + (if arm.Some? then 1 else 0)
      && (intel.Some? ==> r[0] == CopyBinary(buildFolder, intel.value, lib, IntelFolder(dest)))
      && (arm.Some? ==> r[|r| - 1] == CopyBinary(buildFolder, arm.value, lib, ArmFolder(dest)))
  {
  }

  /** A binary is collected for a CPU type exactly when some configuration
      has that type. */
  lemma BinaryCopiesCover(buildFolder: string, configs: seq<BuildConfig>, lib: string, dest: string, typ: string)
    requires typ == "sg4" || typ == "sg4_arm"
    ensures var r := BinaryCopies(buildFolder, configs, lib, dest);
      (exists k :: 0 <= k < |r| && r[k].config.typ == typ) <==> (exists j :: 0 <= j < |configs| && configs[j].typ == typ)
  {
    var r := BinaryCopies(buildFolder, configs, lib, dest);
    BinaryCopiesAt(buildFolder, configs, lib, dest);
    BinaryCopiesFrom(buildFolder, configs, lib, dest, typ);
    FirstOfTypeFinds(configs, typ);
    var first := FirstOfType(configs, typ);
    if first.Some? {
      var k := if typ == "sg4" then 0 else |r| - 1;
      assert r[k].config.typ == typ;
    }
  }

  /** A binary collected for a CPU type comes from the first configuration
      of that type and goes into that type's folder. */
  lemma BinaryCopiesFrom(buildFolder: string, configs: seq<BuildConfig>, lib: string, dest: string, typ: string)
    requires typ == "sg4" || typ == "sg4_arm"
    ensures var r := BinaryCopies(buildFolder, configs, lib, dest);
      forall k :: 0 <= k < |r| && r[k].config.typ == typ ==>
        && FirstOfType(configs, typ) == Some(r[k].config)
        && r[k].to == (if typ == "sg4" then IntelFolder(dest) else ArmFolder(dest))
  {
    CopiesIntoFrom(buildFolder, configs, lib, IntelFolder(dest), ArmFolder(dest), typ);
  }

  /** `BinaryCopiesFrom` with the two destination folders given. */
  lemma CopiesIntoFrom(buildFolder: string, configs: seq<BuildConfig>, lib: string, intelTo: string, armTo: string, typ: string)
    requires typ == "sg4" || typ == "sg4_arm"
    ensures var r := CopiesInto(buildFolder, configs, lib, intelTo, armTo);
      forall k :: 0 <= k < |r| && r[k].config.typ == typ ==>
        && FirstOfType(configs, typ) == Some(r[k].config)
        && r[k].to == (if typ == "sg4" then intelTo else armTo)
  {
    var intel := CopyFirst(FirstOfType(configs, "sg4"), buildFolder, lib, intelTo);
    var arm := CopyFirst(FirstOfType(configs, "sg4_arm"), buildFolder, lib, armTo);
    var r := intel + arm;
    assert CopiesInto(buildFolder, configs, lib, intelTo, armTo) == r;
    forall k | 0 <= k < |r| && r[k].config.typ == typ
      ensures FirstOfType(configs, typ) == Some(r[k].config)
      ensures r[k].to == (if typ == "sg4" then intelTo else armTo)
    {
      if k < |intel| {
        assert r[k] == intel[k];
      } else {
        assert r[k] == arm[k - |intel|];
      }
    }
  }

  /** A folder holding `IEC.lby` and a stray `Old.lby` is an `IEC` library,
      even when the manifest opened is `Old.lby`; a folder holding only
      `Old.lby` has type `None`. */
  lemma LibOfIgnoresStray(lib: LibraryFile.Library, dirPath: string)
    ensures LibOf(lib, dirPath, {"IEC.lby", "Old.lby"}).libType == "IEC"
    ensures LibOf(lib, dirPath, {"Old.lby"}).libType == "None"
  {
    assert "ANSIC" + ".lby" == "ANSIC.lby" && "IEC" + ".lby" == "IEC.lby" && "Binary" + ".lby" == "Binary.lby";
    assert forall l :: l in Directory.Languages ==> l == "ANSIC" || l == "IEC" || l == "Binary";
  }

  /** `_collectBinaryLibrary`: the sources without code, the binaries, then
      `<type>.lby` renamed to `Binary.lby` and marked binary. */
  function CollectBinary(lib: Lib, path: string, buildFolder: string, configs: seq<BuildConfig>): (r: seq<FsOp>)
    ensures |r| >= 3 && r[0] == CopySource(lib.dirPath, path, BinaryExcludes, true)
    ensures r[|r| - 2] == Rename(JoinPath(path, lib.libType + ".lby"), JoinPath(path, "Binary.lby"))
    ensures r[|r| - 1] == SetBinaryAndSynchronize(JoinPath(path, "Binary.lby"))
  {
    [CopySource(lib.dirPath, path, BinaryExcludes, true)] +
    BinaryCopies(buildFolder, configs, lib.name, path) +
    [Rename(JoinPath(path, lib.libType + ".lby"), JoinPath(path, "Binary.lby")),
     SetBinaryAndSynchronize(JoinPath(path, "Binary.lby"))]
  }

  /** The steps of `Library.export`: the old export is removed first when
      overwriting, then the library is collected as binary or as source. */
  function ExportSteps(lib: Lib, path: string, buildFolder: string, configs: seq<BuildConfig>, overwrite: bool, present: bool, binary: bool): (r: seq<FsOp>)
    ensures |r| > 0 && (r[0].RemoveTree? <==> overwrite && present)
    ensures overwrite && present ==> r[0] == RemoveTree(path)
    ensures !binary ==> r[|r| - 1] == CopySource(lib.dirPath, path, [], false)
    ensures !binary ==> |r| == if overwrite && present then 2 else 1
    ensures binary ==> |r| >= 3
  {
    var collect := if binary then CollectBinary(lib, path, buildFolder, configs) else [CopySource(lib.dirPath, path, [], false)];
    if overwrite && present then [RemoveTree(path)] + collect else collect
  }

  /** A binary export ends by renaming `<type>.lby` to `Binary.lby` and
      synchronising it. */
  lemma ExportStepsBinary(lib: Lib, path: string, buildFolder: string, configs: seq<BuildConfig>, overwrite: bool, present: bool)
    ensures var r := ExportSteps(lib, path, buildFolder, configs, overwrite, present, true);
      && r[|r| - 1] == SetBinaryAndSynchronize(JoinPath(path, "Binary.lby"))
      && r[|r| - 2] == Rename(JoinPath(path, lib.libType + ".lby"), JoinPath(path, "Binary.lby"))
  {
    var collect := CollectBinary(lib, path, buildFolder, configs);
    if overwrite && present {
      PrependKeepsEnd(RemoveTree(path), collect);
    }
  }

  lemma PrependKeepsEnd<T>(x: T, s: seq<T>)
    requires |s| > 1
    ensures ([x] + s)[|[x] + s| - 1] == s[|s| - 1]
    ensures ([x] + s)[|[x] + s| - 2] == s[|s| - 2]
  {
  }

  /** The file system: which paths exist, and what each operation raises. */
  datatype FileSystem = FileSystem(exists_: string -> bool, run: FsOp -> Option<Error>)

  /** The first error of a run of operations; the run stops there. */
  function FirstError(ops: seq<FsOp>, fs: FileSystem): (r: Option<Error>)
    ensures r.None? <==> forall k :: 0 <= k < |ops| ==> fs.run(ops[k]).None?
    ensures r.Some? ==> exists k :: (0 <= k < |ops| && fs.run(ops[k]) == r &&
      forall j :: 0 <= j < k ==> fs.run(ops[j]).None?)
  {
    if |ops| == 0 then None
    else if fs.run(ops[0]).Some? then fs.run(ops[0])
    else
      var r := FirstError(ops[1..], fs);
      assert forall k :: 1 <= k < |ops| ==> ops[k] == ops[1..][k - 1];
      if r.Some? then
        var k :| 0 <= k < |ops| - 1 && fs.run(ops[1..][k]) == r &&
          forall j :: 0 <= j < k ==> fs.run(ops[1..][j]).None?;
        assert fs.run(ops[k + 1]) == r;
        r
      else r
  }

  /** What `Library.export` makes of the first error of its steps: a caught
      error is recorded in the result, any other error escapes. */
  function Record(name: string, path: string, e: Option<Error>): (r: Result<LibExportInfo, Error>)
    ensures r.Success? ==> r.value.name == name && r.value.path == path
    ensures r.Success? && r.value.exception.Some? ==> Captured(r.value.exception.value)
    ensures r.Failure? ==> !Captured(r.error)
  {
    match e
    case None => Success(LibExportInfo(name, path, None))
    case Some(e) =>
      if Captured(e) then Success(LibExportInfo(name, path, Some(e))) else Failure(e)
  }

  /** `Library.export`: the steps run until the first error. */
  function ExportOne(lib: Lib, dest: string, buildFolder: string, configs: seq<BuildConfig>, fs: FileSystem, overwrite: bool, binary: bool, includeVersion: bool): (r: Result<LibExportInfo, Error>)
    ensures r.Success? ==> r.value.name == lib.name && r.value.path == ExportPath(dest, lib, includeVersion)
    ensures r.Success? && r.value.exception.Some? ==> Captured(r.value.exception.value)
    ensures r.Failure? ==> !Captured(r.error)
  {
    var path := ExportPath(dest, lib, includeVersion);
    Record(lib.name, path, FirstError(ExportSteps(lib, path, buildFolder, configs, overwrite, fs.exists_(path), binary), fs))
  }

  /** The export is recorded as a success exactly when none of its steps
      fails, as a caught failure when the first failing step raises a
      missing or existing path, and escapes otherwise. */
  lemma ExportOneOutcome(lib: Lib, dest: string, buildFolder: string, configs: seq<BuildConfig>, fs: FileSystem, overwrite: bool, binary: bool, includeVersion: bool)
    ensures var path := ExportPath(dest, lib, includeVersion);
      var steps := ExportSteps(lib, path, buildFolder, configs, overwrite, fs.exists_(path), binary);
      var r := ExportOne(lib, dest, buildFolder, configs, fs, overwrite, binary, includeVersion);
      && (r == Success(LibExportInfo(lib.name, path, None)) <==> forall k :: 0 <= k < |steps| ==> fs.run(steps[k]).None?)
      && (r.Failure? <==> exists k :: (0 <= k < |steps| && fs.run(steps[k]).Some? && !Captured(fs.run(steps[k]).value) &&
            forall j :: 0 <= j < k ==> fs.run(steps[j]).None?))
  {
    var path := ExportPath(dest, lib, includeVersion);
    RecordOutcome(lib.name, path, ExportSteps(lib, path, buildFolder, configs, overwrite, fs.exists_(path), binary), fs);
  }

  lemma RecordOutcome(name: string, path: string, ops: seq<FsOp>, fs: FileSystem)
    ensures var r := Record(name, path, FirstError(ops, fs));
      && (r == Success(LibExportInfo(name, path, None)) <==> forall k :: 0 <= k < |ops| ==> fs.run(ops[k]).None?)
      && (r.Failure? <==> exists k :: (0 <= k < |ops| && fs.run(ops[k]).Some? && !Captured(fs.run(ops[k]).value) &&
            forall j :: 0 <= j < k ==> fs.run(ops[j]).None?))
  {
    if exists k :: 0 <= k < |ops| && fs.run(ops[k]).Some? && !Captured(fs.run(ops[k]).value) &&
         forall j :: 0 <= j < k ==> fs.run(ops[j]).None? {
      var k :| 0 <= k < |ops| && fs.run(ops[k]).Some? && !Captured(fs.run(ops[k]).value) &&
         forall j :: 0 <= j < k ==> fs.run(ops[j]).None?;
      FirstErrorAt(ops, fs, k);
    }
  }

  /** The first error is the one of the first failing operation. */
  lemma FirstErrorAt(ops: seq<FsOp>, fs: FileSystem, k: nat)
    requires k < |ops| && fs.run(ops[k]).Some?
    requires forall j :: 0 <= j < k ==> fs.run(ops[j]).None?
    ensures FirstError(ops, fs) == fs.run(ops[k])
  {
    var e := FirstError(ops, fs);
    var i :| 0 <= i < |ops| && fs.run(ops[i]) == e && forall j :: 0 <= j < i ==> fs.run(ops[j]).None?;
    assert i == k;
  }

  // ---------------------------------------------------------------- selection

  function LowerAll(names: seq<string>): (r: seq<string>)
    ensures |r| == |names| && forall k :: 0 <= k < |names| ==> r[k] == Lower(names[k])
  {
    seq(|names|, k requires 0 <= k < |names| => Lower(names[k]))
  }

  /** `a` is `b` with some elements left out, the rest in order. */
  predicate Subsequence<T(==)>(a: seq<T>, b: seq<T>)
    decreases |b|
  {
    if |a| == 0 then true
    else if |b| == 0 then false
    else if a[0] == b[0] then Subsequence(a[1..], b[1..])
    else Subsequence(a, b[1..])
  }

  /** The libraries `keep` accepts, in project order. */
  function KeepLibs(libs: seq<Lib>, keep: Lib -> bool): (r: seq<Lib>)
    ensures forall x :: x in r <==> x in libs && keep(x)
    ensures Subsequence(r, libs)
  {
    if |libs| == 0 then []
    else
      var rest := KeepLibs(libs[1..], keep);
      assert forall x :: x in libs <==> x == libs[0] || x in libs[1..];
      if keep(libs[0]) then
        assert ([libs[0]] + rest)[1..] == rest;
        [libs[0]] + rest
      else
        assert |rest| > 0 ==> rest[0] in rest && rest[0] != libs[0];
        rest
  }

  /** The libraries `exportLibraries` exports: a non-empty whitelist picks
      those named in it, else a non-empty blacklist drops those named in
      it, else all; names compared case-insensitively. */
  function SelectExports(libs: seq<Lib>, whitelist: seq<string>, blacklist: seq<string>): (r: seq<Lib>)
    ensures Subsequence(r, libs)
    ensures |whitelist| > 0 ==> forall x :: x in r <==> x in libs && Lower(x.name) in LowerAll(whitelist)
    ensures |whitelist| == 0 && |blacklist| > 0 ==>
      forall x :: x in r <==> x in libs && Lower(x.name) !in LowerAll(blacklist)
    ensures |whitelist| == 0 && |blacklist| == 0 ==> r == libs
  {
    if |whitelist| > 0 then
      var wl := LowerAll(whitelist);
      KeepLibs(libs, (x: Lib) => Lower(x.name) in wl)
    else if |blacklist| > 0 then
      var bl := LowerAll(blacklist);
      KeepLibs(libs, (x: Lib) => Lower(x.name) !in bl)
    else
      SubsequenceRefl(libs);
      libs
  }

  lemma {:induction false} SubsequenceRefl<T>(a: seq<T>)
    ensures Subsequence(a, a)
    decreases |a|
  {
    if |a| > 0 {
      SubsequenceRefl(a[1..]);
    }
  }

  /** `_checkIgnore`: names matching any pattern are dropped, one pattern
      after the other. `glob` is `fnmatch.fnmatch`. */
  function DropIgnored(names: seq<string>, patterns: seq<string>, glob: (string, string) -> bool): (r: seq<string>)
    ensures |r| <= |names|
    ensures forall x :: x in r ==> x in names
    decreases |patterns|
  {
    if |patterns| == 0 then names
    else DropIgnored(DropMatching(names, patterns[0], glob), patterns[1..], glob)
  }

  function DropMatching(names: seq<string>, p: string, glob: (string, string) -> bool): (r: seq<string>)
    ensures |r| <= |names|
    ensures forall x :: x in r ==> x in names && !glob(x, p)
  {
    if |names| == 0 then []
    else if glob(names[0], p) then DropMatching(names[1..], p, glob)
    else [names[0]] + DropMatching(names[1..], p, glob)
  }

  lemma {:induction false} DropMatchingMembers(names: seq<string>, p: string, glob: (string, string) -> bool)
    ensures forall x :: x in DropMatching(names, p, glob) <==> x in names && !glob(x, p)
  {
    if |names| > 0 {
      DropMatchingMembers(names[1..], p, glob);
      assert forall x :: x in names <==> x == names[0] || x in names[1..];
    }
  }

  /** A name survives exactly when it matches none of the patterns. */
  lemma {:induction false} DropIgnoredMembers(names: seq<string>, patterns: seq<string>, glob: (string, string) -> bool)
    ensures forall x :: x in DropIgnored(names, patterns, glob) <==> x in names && forall p :: p in patterns ==> !glob(x, p)
    decreases |patterns|
  {
    if |patterns| > 0 {
      DropMatchingMembers(names, patterns[0], glob);
      DropIgnoredMembers(DropMatching(names, patterns[0], glob), patterns[1..], glob);
      assert forall q :: q in patterns <==> q == patterns[0] || q in patterns[1..];
    }
  }

  /** `getLibrariesByName`: the project libraries whose name is one of
      `names`, exactly, in project order. */
  function LibrariesByName(libs: seq<Lib>, names: seq<string>): (r: seq<Lib>)
    ensures |r| <= |libs|
    ensures forall x :: x in r ==> x in libs && x.name in names
  {
    if |libs| == 0 then []
    else if libs[0].name in names then [libs[0]] + LibrariesByName(libs[1..], names)
    else LibrariesByName(libs[1..], names)
  }

  /** The libraries found are those named, in the project's order. */
  lemma {:induction false} LibrariesByNameMembers(libs: seq<Lib>, names: seq<string>)
    ensures forall x :: x in LibrariesByName(libs, names) <==> x in libs && x.name in names
    ensures Subsequence(LibrariesByName(libs, names), libs)
  {
    if |libs| > 0 {
      var rest := LibrariesByName(libs[1..], names);
      LibrariesByNameMembers(libs[1..], names);
      assert forall x :: x in libs <==> x == libs[0] || x in libs[1..];
      if libs[0].name in names {
        assert ([libs[0]] + rest)[1..] == rest;
      } else {
        assert |rest| > 0 ==> rest[0] in rest && rest[0] != libs[0];
      }
    }
  }

  // ---------------------------------------------------------------- projects

  /** What the export needs of a `Project`: its cached libraries, the
      build folder, the build configurations and the cache ignore patterns. */
  datatype Project = Project(libraries: seq<Lib>, tempPath: string, buildConfigs: seq<BuildConfig>, cacheIgnore: seq<string>)

  /** The export options passed down unchanged. */
  datatype Options = Options(dest: string, overwrite: bool, binary: bool, includeVersion: bool)

  /** Exports each library in turn; an escaping error ends the run. */
  function ExportEach(libs: seq<Lib>, project: Project, configs: seq<BuildConfig>, fs: FileSystem, o: Options, acc: ProjectExportInfo): (r: Result<ProjectExportInfo, Error>)
    ensures r.Success? ==> Total(r.value) == Total(acc) + |libs|
    ensures r.Success? ==> Keeps(acc, r.value)
    ensures r.Success? && Sorted(acc) ==> Sorted(r.value)
    decreases |libs|
  {
    if |libs| == 0 then Success(acc)
    else
      var info :- ExportOne(libs[0], o.dest, project.tempPath, configs, fs, o.overwrite, o.binary, o.includeVersion);
      var next := AddLibInfo(acc, info);
      var r := ExportEach(libs[1..], project, configs, fs, o, next);
      if r.Success? then
        KeepsTrans(acc, next, r.value);
        r
      else r
  }

  /** `exportLibraries` with the build configurations it hands to each
      library's export. */
  function ExportLibrariesWith(project: Project, configs: seq<BuildConfig>, fs: FileSystem, o: Options, whitelist: seq<string>, blacklist: seq<string>): Result<ProjectExportInfo, Error> {
    ExportEach(SelectExports(project.libraries, whitelist, blacklist), project, configs, fs, o, NoInfo)
  }

  /** `exportLibraries` as written: the caller's configurations only replace
      a missing argument and are then not used; every library is exported
      with the project's own configurations. */
  function ExportLibrariesAsWritten(project: Project, buildConfigs: Option<seq<BuildConfig>>, fs: FileSystem, o: Options, whitelist: seq<string>, blacklist: seq<string>): (r: Result<ProjectExportInfo, Error>)
    ensures r.Success? ==> Total(r.value) == |SelectExports(project.libraries, whitelist, blacklist)| && Sorted(r.value)
  {
    ExportLibrariesWith(project, project.buildConfigs, fs, o, whitelist, blacklist)
  }

  /** `exportLibraries` using the caller's configurations when given. */
  function ExportLibraries(project: Project, buildConfigs: Option<seq<BuildConfig>>, fs: FileSystem, o: Options, whitelist: seq<string>, blacklist: seq<string>): (r: Result<ProjectExportInfo, Error>)
    ensures r.Success? ==> Total(r.value) == |SelectExports(project.libraries, whitelist, blacklist)| && Sorted(r.value)
  {
    ExportLibrariesWith(project, buildConfigs.GetOr(project.buildConfigs), fs, o, whitelist, blacklist)
  }

  /** One record per selected library, successes and failures on their
      sides. */
  lemma ExportLibrariesCount(project: Project, configs: seq<BuildConfig>, fs: FileSystem, o: Options, whitelist: seq<string>, blacklist: seq<string>)
    ensures var r := ExportLibrariesWith(project, configs, fs, o, whitelist, blacklist);
      r.Success? ==> Total(r.value) == |SelectExports(project.libraries, whitelist, blacklist)| && Sorted(r.value)
  {
  }

  /** As written, the configurations passed in make no difference. */
  lemma ExportLibrariesAsWrittenIgnoresConfigs(project: Project, a: Option<seq<BuildConfig>>, b: Option<seq<BuildConfig>>, fs: FileSystem, o: Options, whitelist: seq<string>, blacklist: seq<string>)
    ensures ExportLibrariesAsWritten(project, a, fs, o, whitelist, blacklist) ==
      ExportLibrariesAsWritten(project, b, fs, o, whitelist, blacklist)
  {
  }

  /** A library built for `sg4` only: asked to export from the `Arm`
      configuration, the as-written export copies the `Intel` binaries the
      project lists first, the corrected one the `Arm` binaries asked for. */
  lemma ExportLibrariesConfigChoice()
    ensures var intel := BuildConfig("Intel", "P\\Intel", "sg4", "X20CP1586");
      var arm := BuildConfig("Arm", "P\\Arm", "sg4", "X20CP1584");
      var lib := Lib("L", "1.0", [], "L", "ANSIC");
      BinaryCopies("T", [intel, arm], lib.name, "D\\L") != BinaryCopies("T", [arm], lib.name, "D\\L")
  {
    var intel := BuildConfig("Intel", "P\\Intel", "sg4", "X20CP1586");
    var arm := BuildConfig("Arm", "P\\Arm", "sg4", "X20CP1584");
    assert BinaryCopies("T", [intel, arm], "L", "D\\L")[0].config == intel;
    assert BinaryCopies("T", [arm], "L", "D\\L")[0].config == arm;
  }

  /** The corrected export uses the configurations passed in. */
  lemma ExportLibrariesUsesConfigs(project: Project, configs: seq<BuildConfig>, fs: FileSystem, o: Options, whitelist: seq<string>, blacklist: seq<string>)
    ensures ExportLibraries(project, Some(configs), fs, o, whitelist, blacklist) ==
      ExportLibrariesWith(project, configs, fs, o, whitelist, blacklist)
    ensures ExportLibraries(project, None, fs, o, whitelist, blacklist) ==
      ExportLibrariesAsWritten(project, None, fs, o, whitelist, blacklist)
  {
  }

  // ---------------------------------------------------------------- dependency closure

  /** The dependencies `exportLibrary` follows: names dropped by the
      caller's or the project's ignore patterns, the rest resolved against
      the project libraries. */
  function ExportDependencies(project: Project, lib: Lib, ignores: seq<string>, glob: (string, string) -> bool): (r: seq<Lib>)
    ensures forall x :: x in r ==> x in project.libraries && x.name in lib.dependencies
  {
    var names := DropIgnored(DropIgnored(lib.dependencies, ignores, glob), project.cacheIgnore, glob);
    LibrariesByName(project.libraries, names)
  }

  /** The dependencies followed are exactly the project libraries named as
      dependencies and matching no ignore pattern, in project order. */
  lemma ExportDependenciesMembers(project: Project, lib: Lib, ignores: seq<string>, glob: (string, string) -> bool, x: Lib)
    ensures Subsequence(ExportDependencies(project, lib, ignores, glob), project.libraries)
    ensures x in ExportDependencies(project, lib, ignores, glob) <==>
      && x in project.libraries
      && x.name in lib.dependencies
      && (forall p :: p in ignores ==> !glob(x.name, p))
      && (forall p :: p in project.cacheIgnore ==> !glob(x.name, p))
  {
    var first := DropIgnored(lib.dependencies, ignores, glob);
    DropIgnoredMembers(lib.dependencies, ignores, glob);
    DropIgnoredMembers(first, project.cacheIgnore, glob);
    LibrariesByNameMembers(project.libraries, DropIgnored(first, project.cacheIgnore, glob));
  }

  /** The dependencies an export follows: none when asked not to. */
  function Followed(project: Project, lib: Lib, ignores: seq<string>, glob: (string, string) -> bool, withDependencies: bool): seq<Lib> {
    if withDependencies then ExportDependencies(project, lib, ignores, glob) else []
  }

  /** `exportLibrary`: the dependencies are exported first, each with its
      own dependencies, and the library's own record comes last. Nothing
      stops a cycle; `depth` is the interpreter's recursion budget, and
      running out of it raises an error that escapes. */
  function ExportLibrary(project: Project, lib: Lib, fs: FileSystem, o: Options, ignores: seq<string>, glob: (string, string) -> bool, withDependencies: bool, depth: nat): (r: Result<ProjectExportInfo, Error>)
    ensures depth == 0 ==> r == Failure(Other("RecursionError"))
    ensures r.Success? ==> Total(r.value) >= 1
    decreases depth, 1, 0
  {
    if depth == 0 then Failure(Other("RecursionError"))
    else
      var deps := Followed(project, lib, ignores, glob, withDependencies);
      Combine(ExportDeps(project, deps, fs, o, ignores, glob, depth - 1, NoInfo),
              ExportOne(lib, o.dest, project.tempPath, project.buildConfigs, fs, o.overwrite, o.binary, o.includeVersion))
  }

  /** The dependencies' records, then the library's own; the first error
      escaping either ends the export. */
  function Combine(deps: Result<ProjectExportInfo, Error>, own: Result<LibExportInfo, Error>): (r: Result<ProjectExportInfo, Error>)
    ensures r.Success? <==> deps.Success? && own.Success?
    ensures r.Success? ==> r.value == AddLibInfo(deps.value, own.value)
    ensures deps.Failure? ==> r == Failure(deps.error)
  {
    var acc :- deps;
    var info :- own;
    Success(AddLibInfo(acc, info))
  }

  function ExportDeps(project: Project, deps: seq<Lib>, fs: FileSystem, o: Options, ignores: seq<string>, glob: (string, string) -> bool, depth: nat, acc: ProjectExportInfo): (r: Result<ProjectExportInfo, Error>)
    decreases depth + 1, 0, |deps|
  {
    if |deps| == 0 then Success(acc)
    else
      var one :- ExportLibrary(project, deps[0], fs, o, ignores, glob, true, depth);
      ExportDeps(project, deps[1..], fs, o, ignores, glob, depth, Extend(acc, one))
  }

  /** A finished export holds at least the library's own record, and every
      record is on the side its exception says. */
  lemma {:induction false} ExportLibraryRecords(project: Project, lib: Lib, fs: FileSystem, o: Options, ignores: seq<string>, glob: (string, string) -> bool, withDependencies: bool, depth: nat)
    ensures var r := ExportLibrary(project, lib, fs, o, ignores, glob, withDependencies, depth);
      r.Success? ==> Total(r.value) >= 1 && Sorted(r.value)
    decreases depth, 1, 0
  {
    if depth > 0 {
      var deps := Followed(project, lib, ignores, glob, withDependencies);
      ExportDepsRecords(project, deps, fs, o, ignores, glob, depth - 1, NoInfo);
      CombineRecords(ExportDeps(project, deps, fs, o, ignores, glob, depth - 1, NoInfo));
    }
  }

  /** Whatever the library's own export gives, combining it with sorted
      dependency records keeps them sorted and adds one. */
  lemma CombineRecords(deps: Result<ProjectExportInfo, Error>)
    requires deps.Success? ==> Sorted(deps.value)
    ensures forall own :: var r := Combine(deps, own);
      r.Success? ==> Total(r.value) >= 1 && Sorted(r.value)
  {
  }

  /** Exporting a dependency list keeps the records already there and adds
      at least one per dependency, each on its side. */
  lemma {:induction false} ExportDepsRecords(project: Project, deps: seq<Lib>, fs: FileSystem, o: Options, ignores: seq<string>, glob: (string, string) -> bool, depth: nat, acc: ProjectExportInfo)
    ensures var r := ExportDeps(project, deps, fs, o, ignores, glob, depth, acc);
      r.Success? ==> Total(r.value) >= Total(acc) + |deps| && Keeps(acc, r.value) && (Sorted(acc) ==> Sorted(r.value))
    decreases depth + 1, 0, |deps|
  {
    if |deps| > 0 {
      var one := ExportLibrary(project, deps[0], fs, o, ignores, glob, true, depth);
      ExportLibraryRecords(project, deps[0], fs, o, ignores, glob, true, depth);
      if one.Success? {
        var next := Extend(acc, one.value);
        ExportDepsRecords(project, deps[1..], fs, o, ignores, glob, depth, next);
        var r := ExportDeps(project, deps, fs, o, ignores, glob, depth, acc);
        if r.Success? {
          KeepsTrans(acc, next, r.value);
        }
      }
    }
  }

  /** The library's own record is the last one added, after all of its
      dependencies' records. */
  lemma ExportLibraryOwnLast(project: Project, lib: Lib, fs: FileSystem, o: Options, ignores: seq<string>, glob: (string, string) -> bool, withDependencies: bool, depth: nat)
    requires ExportLibrary(project, lib, fs, o, ignores, glob, withDependencies, depth).Success?
    ensures var r := ExportLibrary(project, lib, fs, o, ignores, glob, withDependencies, depth).value;
      var own := ExportOne(lib, o.dest, project.tempPath, project.buildConfigs, fs, o.overwrite, o.binary, o.includeVersion);
      && depth > 0 && own.Success?
      && (own.value.exception.None? ==> |r.success| > 0 && r.success[|r.success| - 1] == own.value)
      && (own.value.exception.Some? ==> |r.failed| > 0 && r.failed[|r.failed| - 1] == own.value)
  {
  }

  /** Without dependencies, `exportLibrary` records just the one export. */
  lemma ExportLibraryAlone(project: Project, lib: Lib, fs: FileSystem, o: Options, ignores: seq<string>, glob: (string, string) -> bool, depth: nat)
    requires depth > 0
    ensures var r := ExportLibrary(project, lib, fs, o, ignores, glob, false, depth);
      var own := ExportOne(lib, o.dest, project.tempPath, project.buildConfigs, fs, o.overwrite, o.binary, o.includeVersion);
      (r.Success? <==> own.Success?) && (r.Success? ==> r.value == AddLibInfo(NoInfo, own.value))
  {
  }

  /** A library whose dependencies fail fails too. */
  lemma ExportLibraryFailsWithDeps(project: Project, lib: Lib, fs: FileSystem, o: Options, ignores: seq<string>, glob: (string, string) -> bool, depth: nat)
    requires depth > 0
    requires ExportDeps(project, ExportDependencies(project, lib, ignores, glob), fs, o, ignores, glob, depth - 1, NoInfo).Failure?
    ensures ExportLibrary(project, lib, fs, o, ignores, glob, true, depth).Failure?
  {
  }

  /** A library that depends on itself never finishes: whatever the budget,
      the export fails. */
  lemma {:induction false} SelfDependencyFails(project: Project, lib: Lib, fs: FileSystem, o: Options, glob: (string, string) -> bool, depth: nat)
    requires lib in project.libraries && lib.name in lib.dependencies
    requires forall p :: p in project.cacheIgnore ==> !glob(lib.name, p)
    ensures ExportLibrary(project, lib, fs, o, [], glob, true, depth).Failure?
  {
    if depth > 0 {
      SelfFollowed(project, lib, glob);
      SelfDependencyFails(project, lib, fs, o, glob, depth - 1);
      FailingDependency(project, lib, lib, fs, o, glob, depth);
    }
  }

  /** A library one of whose followed dependencies fails one level down
      fails too. */
  lemma FailingDependency(project: Project, lib: Lib, bad: Lib, fs: FileSystem, o: Options, glob: (string, string) -> bool, depth: nat)
    requires depth > 0
    requires bad in ExportDependencies(project, lib, [], glob)
    requires ExportLibrary(project, bad, fs, o, [], glob, true, depth - 1).Failure?
    ensures ExportLibrary(project, lib, fs, o, [], glob, true, depth).Failure?
  {
    var deps := ExportDependencies(project, lib, [], glob);
    DepsFailWith(project, deps, bad, fs, o, glob, depth - 1, NoInfo);
    CombineFails(ExportDeps(project, deps, fs, o, [], glob, depth - 1, NoInfo));
  }

  /** A library that names itself as a dependency is among the dependencies
      followed unless the project ignores it. */
  lemma SelfFollowed(project: Project, lib: Lib, glob: (string, string) -> bool)
    requires lib in project.libraries && lib.name in lib.dependencies
    requires forall p :: p in project.cacheIgnore ==> !glob(lib.name, p)
    ensures lib in ExportDependencies(project, lib, [], glob)
  {
    ExportDependenciesMembers(project, lib, [], glob, lib);
  }

  lemma CombineFails(deps: Result<ProjectExportInfo, Error>)
    requires deps.Failure?
    ensures forall own :: Combine(deps, own).Failure?
  {
  }

  /** A dependency list with a member whose export fails fails too. */
  lemma {:induction false} DepsFailWith(project: Project, deps: seq<Lib>, bad: Lib, fs: FileSystem, o: Options, glob: (string, string) -> bool, depth: nat, acc: ProjectExportInfo)
    requires bad in deps
    requires ExportLibrary(project, bad, fs, o, [], glob, true, depth).Failure?
    ensures ExportDeps(project, deps, fs, o, [], glob, depth, acc).Failure?
    decreases |deps|
  {
    if deps[0] != bad {
      var one := ExportLibrary(project, deps[0], fs, o, [], glob, true, depth);
      if one.Success? {
        DepsFailWith(project, deps[1..], bad, fs, o, glob, depth, Extend(acc, one.value));
      }
    }
  }

  // ---------------------------------------------------------------- examples

  const Ok := FileSystem((p: string) => false, (op: FsOp) => None)
  const Opts := Options("D", false, false, false)

  function NoGlob(name: string, pattern: string): bool {
    false
  }

  function OkInfo(lib: Lib): LibExportInfo {
    LibExportInfo(lib.name, ExportPath(Opts.dest, lib, false), None)
  }

  /** With nothing failing, a library's export records it as exported. */
  lemma ExportOneOk(project: Project, lib: Lib)
    ensures ExportOne(lib, Opts.dest, project.tempPath, project.buildConfigs, Ok, Opts.overwrite, Opts.binary, Opts.includeVersion) ==
      Success(OkInfo(lib))
  {
  }

  /** `exportLibrary` when the dependencies and the library's own export
      succeed. */
  lemma ExportLibraryUnfold(project: Project, lib: Lib, fs: FileSystem, o: Options, ignores: seq<string>, glob: (string, string) -> bool, depth: nat, acc: ProjectExportInfo, info: LibExportInfo)
    requires depth > 0
    requires ExportDeps(project, ExportDependencies(project, lib, ignores, glob), fs, o, ignores, glob, depth - 1, NoInfo) == Success(acc)
    requires ExportOne(lib, o.dest, project.tempPath, project.buildConfigs, fs, o.overwrite, o.binary, o.includeVersion) == Success(info)
    ensures ExportLibrary(project, lib, fs, o, ignores, glob, true, depth) == Success(AddLibInfo(acc, info))
  {
  }

  /** One dependency export with nothing failing. */
  lemma ExportDepsCons(project: Project, deps: seq<Lib>, depth: nat, acc: ProjectExportInfo, q: ProjectExportInfo)
    requires |deps| > 0
    requires ExportLibrary(project, deps[0], Ok, Opts, [], NoGlob, true, depth) == Success(q)
    ensures ExportDeps(project, deps, Ok, Opts, [], NoGlob, depth, acc) ==
      ExportDeps(project, deps[1..], Ok, Opts, [], NoGlob, depth, Extend(acc, q))
  {
  }

  lemma ExportDepsOne(project: Project, dep: Lib, depth: nat, acc: ProjectExportInfo, q: ProjectExportInfo)
    requires ExportLibrary(project, dep, Ok, Opts, [], NoGlob, true, depth) == Success(q)
    ensures ExportDeps(project, [dep], Ok, Opts, [], NoGlob, depth, acc) == Success(Extend(acc, q))
  {
    ExportDepsCons(project, [dep], depth, acc, q);
    assert [dep][1..] == [];
  }

  lemma ExportDepsTwo(project: Project, d1: Lib, d2: Lib, depth: nat, acc: ProjectExportInfo, q1: ProjectExportInfo, q2: ProjectExportInfo)
    requires ExportLibrary(project, d1, Ok, Opts, [], NoGlob, true, depth) == Success(q1)
    requires ExportLibrary(project, d2, Ok, Opts, [], NoGlob, true, depth) == Success(q2)
    ensures ExportDeps(project, [d1, d2], Ok, Opts, [], NoGlob, depth, acc) == Success(Extend(Extend(acc, q1), q2))
  {
    ExportDepsCons(project, [d1, d2], depth, acc, q1);
    assert [d1, d2][1..] == [d2];
    ExportDepsOne(project, d2, depth, Extend(acc, q1), q2);
  }

  lemma AddOk(p: ProjectExportInfo, lib: Lib)
    ensures AddLibInfo(p, OkInfo(lib)) == ProjectExportInfo(p.success + [OkInfo(lib)], p.failed)
  {
  }

  lemma ExtendNothing(q: ProjectExportInfo)
    ensures Extend(NoInfo, q) == q
  {
    assert [] + q.success == q.success && [] + q.failed == q.failed;
  }

  /** A library with no dependencies exports just itself. */
  lemma ExportLeaf(project: Project, lib: Lib, depth: nat)
    requires depth > 0 && ExportDependencies(project, lib, [], NoGlob) == []
    ensures ExportLibrary(project, lib, Ok, Opts, [], NoGlob, true, depth) == Success(ProjectExportInfo([OkInfo(lib)], []))
  {
    ExportOneOk(project, lib);
    ExportLibraryUnfold(project, lib, Ok, Opts, [], NoGlob, depth, NoInfo, OkInfo(lib));
  }

  /** A library with one dependency exports that dependency's records, then
      itself. */
  lemma ExportOneDep(project: Project, lib: Lib, dep: Lib, q: ProjectExportInfo, depth: nat)
    requires depth > 0 && ExportDependencies(project, lib, [], NoGlob) == [dep]
    requires ExportLibrary(project, dep, Ok, Opts, [], NoGlob, true, depth - 1) == Success(q)
    ensures ExportLibrary(project, lib, Ok, Opts, [], NoGlob, true, depth) ==
      Success(AddLibInfo(Extend(NoInfo, q), OkInfo(lib)))
  {
    ExportOneOk(project, lib);
    ExportDepsOne(project, dep, depth - 1, NoInfo, q);
    ExportLibraryUnfold(project, lib, Ok, Opts, [], NoGlob, depth, Extend(NoInfo, q), OkInfo(lib));
  }

  /** A library with two dependencies exports the first's records, the
      second's, then itself. */
  lemma ExportTwoDeps(project: Project, lib: Lib, d1: Lib, d2: Lib, q1: ProjectExportInfo, q2: ProjectExportInfo, depth: nat)
    requires depth > 0 && ExportDependencies(project, lib, [], NoGlob) == [d1, d2]
    requires ExportLibrary(project, d1, Ok, Opts, [], NoGlob, true, depth - 1) == Success(q1)
    requires ExportLibrary(project, d2, Ok, Opts, [], NoGlob, true, depth - 1) == Success(q2)
    ensures ExportLibrary(project, lib, Ok, Opts, [], NoGlob, true, depth) ==
      Success(AddLibInfo(Extend(Extend(NoInfo, q1), q2), OkInfo(lib)))
  {
    ExportOneOk(project, lib);
    ExportDepsTwo(project, d1, d2, depth - 1, NoInfo, q1, q2);
    ExportLibraryUnfold(project, lib, Ok, Opts, [], NoGlob, depth, Extend(Extend(NoInfo, q1), q2), OkInfo(lib));
  }

  lemma ExportOneDepOk(project: Project, lib: Lib, dep: Lib, q: ProjectExportInfo, depth: nat)
    requires depth > 0 && ExportDependencies(project, lib, [], NoGlob) == [dep]
    requires ExportLibrary(project, dep, Ok, Opts, [], NoGlob, true, depth - 1) == Success(q)
    ensures ExportLibrary(project, lib, Ok, Opts, [], NoGlob, true, depth) ==
      Success(ProjectExportInfo(q.success + [OkInfo(lib)], q.failed))
  {
    ExportOneDep(project, lib, dep, q, depth);
    ExtendNothing(q);
    AddOk(q, lib);
  }

  lemma ExportTwoDepsOk(project: Project, lib: Lib, d1: Lib, d2: Lib, q1: ProjectExportInfo, q2: ProjectExportInfo, depth: nat)
    requires depth > 0 && ExportDependencies(project, lib, [], NoGlob) == [d1, d2]
    requires ExportLibrary(project, d1, Ok, Opts, [], NoGlob, true, depth - 1) == Success(q1)
    requires ExportLibrary(project, d2, Ok, Opts, [], NoGlob, true, depth - 1) == Success(q2)
    ensures ExportLibrary(project, lib, Ok, Opts, [], NoGlob, true, depth) ==
      Success(ProjectExportInfo(q1.success + q2.success + [OkInfo(lib)], q1.failed + q2.failed))
  {
    ExportTwoDeps(project, lib, d1, d2, q1, q2, depth);
    ExtendNothing(q1);
    AddOk(Extend(q1, q2), lib);
  }

  /** A library whose one dependency has none exports the dependency, then
      itself. */
  lemma ExportPair(project: Project, y: Lib, z: Lib, depth: nat)
    requires depth >= 2
    requires ExportDependencies(project, y, [], NoGlob) == [z]
    requires ExportDependencies(project, z, [], NoGlob) == []
    ensures ExportLibrary(project, y, Ok, Opts, [], NoGlob, true, depth) ==
      Success(ProjectExportInfo([OkInfo(z), OkInfo(y)], []))
  {
    ExportLeaf(project, z, depth - 1);
    ExportOneDepOk(project, y, z, ProjectExportInfo([OkInfo(z)], []), depth);
    assert [OkInfo(z)] + [OkInfo(y)] == [OkInfo(z), OkInfo(y)];
  }

  /** A chain X → Y → Z is exported Z, Y, X. */
  lemma ChainOrder(project: Project, x: Lib, y: Lib, z: Lib, depth: nat)
    requires depth >= 3
    requires ExportDependencies(project, x, [], NoGlob) == [y]
    requires ExportDependencies(project, y, [], NoGlob) == [z]
    requires ExportDependencies(project, z, [], NoGlob) == []
    ensures ExportLibrary(project, x, Ok, Opts, [], NoGlob, true, depth) ==
      Success(ProjectExportInfo([OkInfo(z), OkInfo(y), OkInfo(x)], []))
  {
    ChainLinks(project, x, y, z, depth);
    assert [OkInfo(z), OkInfo(y)] + [OkInfo(x)] == [OkInfo(z), OkInfo(y), OkInfo(x)];
  }

  lemma ChainLinks(project: Project, x: Lib, y: Lib, z: Lib, depth: nat)
    requires depth >= 3
    requires ExportDependencies(project, x, [], NoGlob) == [y]
    requires ExportDependencies(project, y, [], NoGlob) == [z]
    requires ExportDependencies(project, z, [], NoGlob) == []
    ensures ExportLibrary(project, x, Ok, Opts, [], NoGlob, true, depth) ==
      Success(ProjectExportInfo([OkInfo(z), OkInfo(y)] + [OkInfo(x)], []))
  {
    ExportPair(project, y, z, depth - 1);
    ExportOneDepOk(project, x, y, ProjectExportInfo([OkInfo(z), OkInfo(y)], []), depth);
  }

  lemma DiamondSides(project: Project, y: Lib, z: Lib, w: Lib, depth: nat)
    requires depth >= 2
    requires ExportDependencies(project, y, [], NoGlob) == [w]
    requires ExportDependencies(project, z, [], NoGlob) == [w]
    requires ExportDependencies(project, w, [], NoGlob) == []
    ensures ExportLibrary(project, y, Ok, Opts, [], NoGlob, true, depth) == Success(ProjectExportInfo([OkInfo(w), OkInfo(y)], []))
    ensures ExportLibrary(project, z, Ok, Opts, [], NoGlob, true, depth) == Success(ProjectExportInfo([OkInfo(w), OkInfo(z)], []))
  {
    ExportPair(project, y, w, depth);
    ExportPair(project, z, w, depth);
  }

  /** A dependency shared by two others is exported once for each. */
  lemma DiamondTwice(project: Project, x: Lib, y: Lib, z: Lib, w: Lib, depth: nat)
    requires depth >= 3
    requires ExportDependencies(project, x, [], NoGlob) == [y, z]
    requires ExportDependencies(project, y, [], NoGlob) == [w]
    requires ExportDependencies(project, z, [], NoGlob) == [w]
    requires ExportDependencies(project, w, [], NoGlob) == []
    ensures ExportLibrary(project, x, Ok, Opts, [], NoGlob, true, depth) ==
      Success(ProjectExportInfo([OkInfo(w), OkInfo(y), OkInfo(w), OkInfo(z), OkInfo(x)], []))
  {
    DiamondLinks(project, x, y, z, w, depth);
    Concat5(OkInfo(w), OkInfo(y), OkInfo(w), OkInfo(z), OkInfo(x));
  }

  lemma DiamondLinks(project: Project, x: Lib, y: Lib, z: Lib, w: Lib, depth: nat)
    requires depth >= 3
    requires ExportDependencies(project, x, [], NoGlob) == [y, z]
    requires ExportDependencies(project, y, [], NoGlob) == [w]
    requires ExportDependencies(project, z, [], NoGlob) == [w]
    requires ExportDependencies(project, w, [], NoGlob) == []
    ensures ExportLibrary(project, x, Ok, Opts, [], NoGlob, true, depth) ==
      Success(ProjectExportInfo([OkInfo(w), OkInfo(y)] + [OkInfo(w), OkInfo(z)] + [OkInfo(x)], [] + []))
  {
    DiamondSides(project, y, z, w, depth - 1);
    ExportTwoDepsOk(project, x, y, z, ProjectExportInfo([OkInfo(w), OkInfo(y)], []), ProjectExportInfo([OkInfo(w), OkInfo(z)], []), depth);
  }

  lemma Concat5<T>(a: T, b: T, c: T, d: T, e: T)
    ensures [a, b] + [c, d] + [e] == [a, b, c, d, e]
  {
  }
}
