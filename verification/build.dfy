/** Building a project: the command line handed to the Automation Studio
    builder, the batch build over several configurations, the version
    strings derived from the project file, and the names a source copy
    leaves out. The builder itself is an oracle: the return code it gives
    for a configuration. */
module Build {

  import opened Wrappers
  import opened Text

  // ---------------------------------------------------------------- command line

  /** `additionalArg`: absent, one string, or a list (or tuple) of strings. */
  datatype Extra = NoExtra | One(arg: string) | Many(args: seq<string>)

  /** The arguments of `buildASProject` that reach the command line.
      `project` is the project path already made absolute. */
  datatype Request = Request(
    asPath: string,
    project: string,
    configuration: string,
    buildMode: string,
    tempPath: string,
    binaryPath: string,
    simulation: bool,
    extra: Extra)

  /** The trailing arguments: an empty string or list adds nothing, as
      neither is true in Python. */
  function ExtraArgs(e: Extra): seq<string> {
    match e
    case NoExtra => []
    case One(a) => if a == "" then [] else [a]
    case Many(xs) => xs
  }

  /** A flag followed by its value, or nothing when the value is empty. */
  function Opt(flag: string, value: string): (r: seq<string>)
    ensures value == "" <==> r == []
    ensures value != "" ==> r == [flag, value]
  {
    if value == "" then [] else [flag, value]
  }

  /** The build mode, followed by `-all` when it is a rebuild in any
      capitalisation. */
  function ModeArgs(mode: string): (r: seq<string>)
    ensures mode == "" <==> r == []
    ensures mode != "" ==> |r| >= 2 && r[..2] == ["-buildMode", mode]
    ensures mode != "" ==> (|r| == 3 <==> Capitalize(mode) == "Rebuild")
  {
    if mode == "" then []
    else if Capitalize(mode) == "Rebuild" then ["-buildMode", mode, "-all"]
    else ["-buildMode", mode]
  }

  function Quote(s: string): string {
    "\"" + s + "\""
  }

  /** `buildASProject`'s command line, in the order the source builds it. */
  function CommandLine(req: Request): (r: seq<string>)
    ensures |r| >= 3 && r[0] == req.asPath && r[1] == Quote(req.project)
  {
    [req.asPath, Quote(req.project)] + ConfigArgs(req)
  }

  /** The builder and the quoted project come first, the package flag and
      the trailing arguments last. */
  lemma CommandLineShape(req: Request)
    ensures var r := CommandLine(req);
      |r| >= 3 && r[0] == req.asPath && r[1] == Quote(req.project) && EndsWithArgs(r, Trailer(req))
  {
    var c := ConfigArgs(req);
    SplitPair(req.asPath, Quote(req.project), c);
    EndsAppend([req.asPath, Quote(req.project)], c, Trailer(req));
  }

  /** The package flag and the trailing arguments that close every command line. */
  function Trailer(req: Request): seq<string> {
    ["-buildRUCPackage"] + ExtraArgs(req.extra)
  }

  predicate EndsWithArgs(r: seq<string>, suffix: seq<string>) {
    |suffix| <= |r| && r[|r| - |suffix|..] == suffix
  }

  lemma EndsAppend(front: seq<string>, r: seq<string>, suffix: seq<string>)
    requires EndsWithArgs(r, suffix)
    ensures EndsWithArgs(front + r, suffix)
  {
    assert (front + r)[|front + r| - |suffix|..] == r[|r| - |suffix|..];
  }

  // The command line after the project, one segment at a time, each
  // followed by the rest.

  function ConfigArgs(req: Request): (r: seq<string>)
    ensures |r| >= 1 && EndsWithArgs(r, Trailer(req))
  {
    EndsAppend(Opt("-c", req.configuration), ModeSegment(req), Trailer(req));
    Opt("-c", req.configuration) + ModeSegment(req)
  }

  function ModeSegment(req: Request): (r: seq<string>)
    ensures |r| >= 1 && r[0] != "-c" && EndsWithArgs(r, Trailer(req))
  {
    EndsAppend(ModeArgs(req.buildMode), TempSegment(req), Trailer(req));
    ModeArgs(req.buildMode) + TempSegment(req)
  }

  function TempSegment(req: Request): (r: seq<string>)
    ensures |r| >= 1 && r[0] in {"-t", "-o", "-simulation", "-buildRUCPackage"} && EndsWithArgs(r, Trailer(req))
  {
    EndsAppend(Opt("-t", req.tempPath), BinarySegment(req), Trailer(req));
    Opt("-t", req.tempPath) + BinarySegment(req)
  }

  function BinarySegment(req: Request): (r: seq<string>)
    ensures |r| >= 1 && r[0] in {"-o", "-simulation", "-buildRUCPackage"} && EndsWithArgs(r, Trailer(req))
  {
    EndsAppend(Opt("-o", req.binaryPath), FinalSegment(req), Trailer(req));
    Opt("-o", req.binaryPath) + FinalSegment(req)
  }

  function FinalSegment(req: Request): (r: seq<string>)
    ensures |r| >= 1 && r[0] in {"-simulation", "-buildRUCPackage"} && EndsWithArgs(r, Trailer(req))
  {
    var sim := if req.simulation then ["-simulation"] else [];
    EndsAppend(sim, Trailer(req), Trailer(req));
    sim + Trailer(req)
  }

  /** Reads an optional flag and its non-empty value off the front. */
  function ParseOpt(flag: string, args: seq<string>): (r: (string, seq<string>))
    ensures Opt(flag, r.0) + r.1 == args
  {
    if |args| >= 2 && args[0] == flag && args[1] != "" then
      assert [flag, args[1]] + args[2..] == args;
      (args[1], args[2..])
    else ("", args)
  }

  function ParseMode(args: seq<string>): (r: Option<(string, seq<string>)>)
    ensures r.Some? ==> ModeArgs(r.value.0) + r.value.1 == args
  {
    if |args| >= 2 && args[0] == "-buildMode" && args[1] != "" then
      var mode := args[1];
      if Capitalize(mode) == "Rebuild" then
        if |args| >= 3 && args[2] == "-all" then
          HeadTriple(args);
          Some((mode, args[3..]))
        else None
      else
        HeadPair(args);
        Some((mode, args[2..]))
    else
      assert [] + args == args;
      Some(("", args))
  }

  // The parser, one segment at a time: each stage fills its fields into
  // the request read so far.

  function ParseConfig(args: seq<string>, req: Request): Option<Request> {
    var (v, rest) := ParseOpt("-c", args);
    ParseModeStage(rest, req.(configuration := v))
  }

  function ParseModeStage(args: seq<string>, req: Request): Option<Request> {
    match ParseMode(args)
    case None => None
    case Some((m, rest)) => ParseTemp(rest, req.(buildMode := m))
  }

  function ParseTemp(args: seq<string>, req: Request): Option<Request> {
    var (v, rest) := ParseOpt("-t", args);
    ParseBinary(rest, req.(tempPath := v))
  }

  function ParseBinary(args: seq<string>, req: Request): Option<Request> {
    var (v, rest) := ParseOpt("-o", args);
    ParseFinal(rest, req.(binaryPath := v))
  }

  function ParseFinal(args: seq<string>, req: Request): Option<Request> {
    var simulation := |args| > 0 && args[0] == "-simulation";
    var rest := if simulation then args[1..] else args;
    if |rest| == 0 || rest[0] != "-buildRUCPackage" then None
    else Some(req.(simulation := simulation, extra := Many(rest[1..])))
  }

  /** Reads a command line back into the request that produces it; `None`
      for anything `buildASProject` could not have produced. */
  function ParseCommandLine(args: seq<string>): (r: Option<Request>)
    ensures r.Some? ==> |args| >= 3 && r.value.asPath == args[0] && Quote(r.value.project) == args[1]
  {
    if |args| < 2 || |args[1]| < 2 || args[1][0] != '"' || args[1][|args[1]| - 1] != '"' then None
    else ParseConfig(args[2..], Request(args[0], args[1][1..|args[1]| - 1], "", "", "", "", false, NoExtra))
  }

  lemma ParseOptOf(flag: string, value: string, rest: seq<string>)
    requires |rest| > 0 && rest[0] != flag
    ensures ParseOpt(flag, Opt(flag, value) + rest) == (value, rest)
  {
    if value != "" {
      assert (Opt(flag, value) + rest)[2..] == rest;
    } else {
      assert Opt(flag, value) + rest == rest;
    }
  }

  lemma ParseModeOf(mode: string, rest: seq<string>)
    requires |rest| > 0 && rest[0] in {"-t", "-o", "-simulation", "-buildRUCPackage"}
    ensures ParseMode(ModeArgs(mode) + rest) == Some((mode, rest))
  {
    var args := ModeArgs(mode) + rest;
    if mode != "" {
      if Capitalize(mode) == "Rebuild" {
        assert args[3..] == rest;
      } else {
        assert args[2..] == rest;
      }
    } else {
      assert args == rest;
    }
  }

  /** The trailing arguments a request ends up with once read back. */
  function Read(req: Request): Request {
    req.(extra := Many(ExtraArgs(req.extra)))
  }

  lemma ParseFinalOf(req: Request, base: Request)
    ensures ParseFinal(FinalSegment(req), base) == Some(base.(simulation := req.simulation, extra := Read(req).extra))
  {
    var a := FinalSegment(req);
    if req.simulation {
      assert a[1..] == ["-buildRUCPackage"] + ExtraArgs(req.extra);
    }
  }

  lemma ParseBinaryOf(req: Request, base: Request)
    ensures ParseBinary(BinarySegment(req), base) ==
      Some(base.(binaryPath := req.binaryPath, simulation := req.simulation, extra := Read(req).extra))
  {
    ParseOptOf("-o", req.binaryPath, FinalSegment(req));
    ParseFinalOf(req, base.(binaryPath := req.binaryPath));
  }

  lemma ParseTempOf(req: Request, base: Request)
    ensures ParseTemp(TempSegment(req), base) ==
      Some(base.(tempPath := req.tempPath, binaryPath := req.binaryPath, simulation := req.simulation, extra := Read(req).extra))
  {
    ParseOptOf("-t", req.tempPath, BinarySegment(req));
    ParseBinaryOf(req, base.(tempPath := req.tempPath));
  }

  lemma ParseModeStageOf(req: Request, base: Request)
    ensures ParseModeStage(ModeSegment(req), base) ==
      Some(base.(buildMode := req.buildMode, tempPath := req.tempPath, binaryPath := req.binaryPath,
                 simulation := req.simulation, extra := Read(req).extra))
  {
    ParseModeOf(req.buildMode, TempSegment(req));
    ParseTempOf(req, base.(buildMode := req.buildMode));
  }

  lemma ParseConfigOf(req: Request, base: Request)
    ensures ParseConfig(ConfigArgs(req), base) ==
      Some(base.(configuration := req.configuration, buildMode := req.buildMode, tempPath := req.tempPath,
                 binaryPath := req.binaryPath, simulation := req.simulation, extra := Read(req).extra))
  {
    ParseOptOf("-c", req.configuration, ModeSegment(req));
    ParseModeStageOf(req, base.(configuration := req.configuration));
  }

  /** Every request is read back from its command line, the trailing
      arguments as the list they became. */
  lemma ParseCommandLineOf(req: Request)
    ensures ParseCommandLine(CommandLine(req)) == Some(Read(req))
  {
    var args := CommandLine(req);
    var q := Quote(req.project);
    UnquoteQuote(req.project);
    assert args == [req.asPath, q] + ConfigArgs(req);
    SplitPair(req.asPath, q, ConfigArgs(req));
    var base := Request(req.asPath, req.project, "", "", "", "", false, NoExtra);
    assert ParseCommandLine(args) == ParseConfig(ConfigArgs(req), base);
    ParseConfigOf(req, base);
  }

  // The converse, stage by stage: what a stage reads builds its segment.

  lemma FinalOfParse(args: seq<string>, base: Request)
    requires ParseFinal(args, base).Some?
    ensures var q := ParseFinal(args, base).value;
      FinalSegment(q) == args && q == base.(simulation := q.simulation, extra := q.extra)
  {
    var q := ParseFinal(args, base).value;
    var rest := if q.simulation then args[1..] else args;
    assert ExtraArgs(q.extra) == rest[1..];
    assert rest == ["-buildRUCPackage"] + rest[1..];
    if q.simulation {
      assert args == ["-simulation"] + rest;
    }
  }

  lemma BinaryOfParse(args: seq<string>, base: Request)
    requires ParseBinary(args, base).Some?
    ensures var q := ParseBinary(args, base).value;
      BinarySegment(q) == args && q == base.(binaryPath := q.binaryPath, simulation := q.simulation, extra := q.extra)
  {
    var (v, rest) := ParseOpt("-o", args);
    FinalOfParse(rest, base.(binaryPath := v));
  }

  lemma TempOfParse(args: seq<string>, base: Request)
    requires ParseTemp(args, base).Some?
    ensures var q := ParseTemp(args, base).value;
      TempSegment(q) == args &&
      q == base.(tempPath := q.tempPath, binaryPath := q.binaryPath, simulation := q.simulation, extra := q.extra)
  {
    var (v, rest) := ParseOpt("-t", args);
    BinaryOfParse(rest, base.(tempPath := v));
  }

  lemma ModeOfParse(args: seq<string>, base: Request)
    requires ParseModeStage(args, base).Some?
    ensures var q := ParseModeStage(args, base).value;
      ModeSegment(q) == args &&
      q == base.(buildMode := q.buildMode, tempPath := q.tempPath, binaryPath := q.binaryPath,
                 simulation := q.simulation, extra := q.extra)
  {
    var (m, rest) := ParseMode(args).value;
    TempOfParse(rest, base.(buildMode := m));
  }

  lemma ConfigOfParse(args: seq<string>, base: Request)
    requires ParseConfig(args, base).Some?
    ensures var q := ParseConfig(args, base).value;
      ConfigArgs(q) == args && q.asPath == base.asPath && q.project == base.project
  {
    var (v, rest) := ParseOpt("-c", args);
    ModeOfParse(rest, base.(configuration := v));
  }

  lemma QuoteUnquote(s: string)
    requires |s| >= 2 && s[0] == '"' && s[|s| - 1] == '"'
    ensures Quote(s[1..|s| - 1]) == s
  {
    assert s == [s[0]] + s[1..|s| - 1] + [s[|s| - 1]];
  }

  lemma UnquoteQuote(s: string)
    ensures var q := Quote(s); |q| == |s| + 2 && q[0] == '"' && q[|q| - 1] == '"' && q[1..|q| - 1] == s
  {
  }

  lemma SplitPair<T>(a: T, b: T, rest: seq<T>)
    ensures var s := [a, b] + rest; |s| >= 2 && s[0] == a && s[1] == b && s[2..] == rest
  {
    assert ([a, b] + rest)[2..] == rest;
  }

  lemma HeadTriple<T>(s: seq<T>)
    requires |s| >= 3
    ensures [s[0], s[1], s[2]] + s[3..] == s
  {
  }

  lemma HeadPair<T>(s: seq<T>)
    requires |s| >= 2
    ensures [s[0], s[1]] + s[2..] == s
  {
  }

  lemma CommandLineOf(q: Request, asPath: string, project: string, rest: seq<string>)
    requires q.asPath == asPath && Quote(q.project) == project && ConfigArgs(q) == rest
    ensures CommandLine(q) == [asPath, project] + rest
  {
  }

  /** Conversely, whatever is read back builds the very same command line. */
  lemma CommandLineOfParse(args: seq<string>)
    requires ParseCommandLine(args).Some?
    ensures CommandLine(ParseCommandLine(args).value) == args
  {
    var base := Request(args[0], args[1][1..|args[1]| - 1], "", "", "", "", false, NoExtra);
    var q := ParseConfig(args[2..], base).value;
    assert ParseCommandLine(args).value == q;
    ConfigOfParse(args[2..], base);
    QuoteUnquote(args[1]);
    CommandLineOf(q, args[0], args[1], args[2..]);
    HeadPair(args);
  }

  // ---------------------------------------------------------------- batch build

  /** `ASReturnCodes["Warnings"]`: a return code above it is a failed build. */
  const Warnings := 1

  /** What a batch build hands back: the configuration of the last build
      started and that build's return code. */
  datatype Outcome = Outcome(configuration: string, returnCode: int)

  /** `batchBuildAsProject`: the configurations are built in order until
      one fails; the last build's result is returned. `returnCode` stands
      for `buildASProject` run on a configuration. An empty list fails, as
      the source then reads a variable it never assigned. */
  method BatchBuild(configs: seq<string>, returnCode: string -> int) returns (r: Result<Outcome, string>)
    ensures configs == [] <==> r == Failure("UnboundLocalError")
    ensures configs != [] ==> r.Success?
    ensures r.Success? ==> exists k :: 0 <= k < |configs| && BuiltLast(configs, returnCode, k, r.value)
  {
    if |configs| == 0 {
      return Failure("UnboundLocalError");
    }
    var i := 0;
    while i < |configs|
      invariant 0 <= i <= |configs|
      invariant forall j :: 0 <= j < i ==> returnCode(configs[j]) <= Warnings
    {
      var code := returnCode(configs[i]);
      if code > Warnings {
        r := Success(Outcome(configs[i], code));
        assert BuiltLast(configs, returnCode, i, r.value);
        return;
      }
      i := i + 1;
    }
    var last := |configs| - 1;
    r := Success(Outcome(configs[last], returnCode(configs[last])));
    assert BuiltLast(configs, returnCode, last, r.value);
  }

  /** The build of `configs[k]` is the one returned: every build before it
      passed, and it is the last one or it failed. */
  predicate BuiltLast(configs: seq<string>, returnCode: string -> int, k: nat, o: Outcome)
    requires k < |configs|
  {
    && o == Outcome(configs[k], returnCode(configs[k]))
    && (forall j :: 0 <= j < k ==> returnCode(configs[j]) <= Warnings)
    && (k == |configs| - 1 || returnCode(configs[k]) > Warnings)
  }

  /** At most one build can be the one returned. */
  lemma BuiltLastUnique(configs: seq<string>, returnCode: string -> int, k: nat, m: nat, o: Outcome, p: Outcome)
    requires k < |configs| && m < |configs|
    requires BuiltLast(configs, returnCode, k, o) && BuiltLast(configs, returnCode, m, p)
    ensures k == m && o == p
  {
  }

  // ---------------------------------------------------------------- versions

  /** `_parseASVersion` after its pattern match: `AS` and the first two
      dot-separated fields of the version attribute, run together. */
  function ASVersion(version: string): (r: string)
    ensures StartsWith(r, "AS")
  {
    var fields := Split(version, {'.'});
    var r := "AS" + Join(fields[..if |fields| < 2 then |fields| else 2], "");
    assert r[..2] == "AS";
    r
  }

  /** `createPIP`'s conversion of `ASxy` into the transfer tool's `Vx.y`:
      the first `AS` is dropped, then a dot goes after the first character. */
  function PviVersion(asVersion: string): (r: string)
    ensures |r| >= 2 && r[0] == 'V'
    ensures |ReplaceFirst(asVersion, "AS", "")| >= 1 ==> |r| >= 3 && r[2] == '.'
  {
    var v := ReplaceFirst(asVersion, "AS", "");
    "V" + Take(v, 1) + "." + v[if |v| < 1 then |v| else 1..]
  }

  /** A version `x.y.z` with single-character major `x` becomes `ASxy` and
      then `Vx.y`. */
  lemma VersionRoundTrip(major: char, minor: string, rest: seq<string>)
    requires major != '.' && forall i :: 0 <= i < |minor| ==> minor[i] != '.'
    requires forall k :: 0 <= k < |rest| ==> forall i :: 0 <= i < |rest[k]| ==> rest[k][i] != '.'
    ensures ASVersion(Join([[major], minor] + rest, ".")) == "AS" + [major] + minor
    ensures PviVersion(ASVersion(Join([[major], minor] + rest, "."))) == "V" + [major] + "." + minor
  {
    ASVersionOf(major, minor, rest);
    PviVersionOf(major, minor);
  }

  lemma ASVersionOf(major: char, minor: string, rest: seq<string>)
    requires major != '.' && forall i :: 0 <= i < |minor| ==> minor[i] != '.'
    requires forall k :: 0 <= k < |rest| ==> forall i :: 0 <= i < |rest[k]| ==> rest[k][i] != '.'
    ensures ASVersion(Join([[major], minor] + rest, ".")) == "AS" + [major] + minor
  {
    var parts := [[major], minor] + rest;
    forall k | 0 <= k < |parts|
      ensures forall i :: 0 <= i < |parts[k]| ==> parts[k][i] !in {'.'}
    {
      if k >= 2 {
        assert parts[k] == rest[k - 2];
      }
    }
    SplitOfJoin(parts, '.', {'.'});
    assert parts[..2] == [[major], minor];
    assert Join([[major], minor], "") == [major] + "" + Join([minor], "");
  }

  lemma PviVersionOf(major: char, minor: string)
    ensures PviVersion("AS" + [major] + minor) == "V" + [major] + "." + minor
  {
    var a := "AS" + [major] + minor;
    assert StartsWith(a, "AS");
    assert a[2..] == [major] + minor;
  }

  // ---------------------------------------------------------------- source copy

  /** The source copy's ignore rule for one name: it ends, ignoring case,
      in one of the excludes, or it is a folder and folders are ignored. */
  predicate IgnoredName(name: string, excludes: seq<string>, ignoreFolders: bool, isDir: string -> bool) {
    || (exists k :: 0 <= k < |excludes| && EndsWith(Lower(name), Lower(excludes[k])))
    || (ignoreFolders && isDir(name))
  }

  /** `_ignorePatterns`: each name once per exclude it ends with, and once
      more when it is a folder and folders are ignored. */
  function IgnorePatterns(names: seq<string>, excludes: seq<string>, ignoreFolders: bool, isDir: string -> bool): (r: seq<string>)
    ensures forall x :: x in r ==> x in names
    decreases |names|
  {
    if |names| == 0 then []
    else
      var n := names[0];
      MatchingExcludes(n, excludes)
      + (if ignoreFolders && isDir(n) then [n] else [])
      + IgnorePatterns(names[1..], excludes, ignoreFolders, isDir)
  }

  /** The name, once for every exclude it ends with. */
  function MatchingExcludes(name: string, excludes: seq<string>): (r: seq<string>)
    ensures forall k :: 0 <= k < |r| ==> r[k] == name
    ensures |r| > 0 <==> exists k :: 0 <= k < |excludes| && EndsWith(Lower(name), Lower(excludes[k]))
    decreases |excludes|
  {
    if |excludes| == 0 then []
    else
      var rest := MatchingExcludes(name, excludes[1..]);
      assert forall k :: 1 <= k < |excludes| ==> excludes[1..][k - 1] == excludes[k];
      (if EndsWith(Lower(name), Lower(excludes[0])) then [name] else []) + rest
  }

  /** Exactly the names the rule ignores are returned. */
  lemma {:induction false} IgnorePatternsMembers(names: seq<string>, excludes: seq<string>, ignoreFolders: bool, isDir: string -> bool)
    ensures forall x :: x in IgnorePatterns(names, excludes, ignoreFolders, isDir) <==>
      x in names && IgnoredName(x, excludes, ignoreFolders, isDir)
    decreases |names|
  {
    if |names| > 0 {
      var n := names[0];
      var m := MatchingExcludes(n, excludes);
      IgnorePatternsMembers(names[1..], excludes, ignoreFolders, isDir);
      assert forall x :: x in names <==> x == n || x in names[1..];
      assert |m| > 0 ==> m[0] in m;
    }
  }
}
