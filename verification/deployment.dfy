/** The software deployment table (`Cpu.sw`): eight cyclic task classes and
    a list of deployed libraries, and the two operations that add a library
    or a task to it. */
module Deployment {

  import opened Wrappers
  import opened Text
  import opened Paths
  import opened Xml
  import opened Directory

  /** `Cyclic#n` */
  function ClassName(n: nat): string {
    "Cyclic#" + ShowNat(n)
  }

  /** `_addRootLevelElement`: a childless element with a newline tail. */
  function RootLevelElement(name: string, attrs: map<string, string>): Element {
    Element(name, attrs, None, Some("\n"), [])
  }

  /** A root child that is the task class `name`, qualified or still bare. */
  predicate HasClass(root: Element, prefix: string, name: string) {
    exists c :: c in root.children && (c.tag == prefix + "TaskClass" || c.tag == "TaskClass") &&
      "Name" in c.attrib && c.attrib["Name"] == name
  }

  /** One round of the constructor loop: task class `Cyclic#(i+1)` is
      inserted at root index `i` unless it is already there. */
  function EnsureClass(root: Root, i: nat): (r: Root)
    ensures r.tag == root.tag && Prefix(r) == Prefix(root)
    ensures forall x :: x in root.children ==> x in r.children
    ensures HasClass(r, Prefix(root), ClassName(i + 1))
  {
    var p := Prefix(root);
    var s := Named("TaskClass", ClassName(i + 1));
    FindOneStep(root, p, s);
    if Find(root, p, [s]).Some? then
      assert root.children[FirstIndex(root.children, p, s).value] in root.children;
      root
    else
      var c := RootLevelElement("TaskClass", map["Name" := ClassName(i + 1)]);
      var r := Insert(root, i, c);
      assert c in r.children;
      r
  }

  function EnsureClasses(root: Root, i: nat): (r: Root)
    ensures r.tag == root.tag && Prefix(r) == Prefix(root)
    ensures forall x :: x in root.children ==> x in r.children
    decreases 8 - i
  {
    if i >= 8 then root else EnsureClasses(EnsureClass(root, i), i + 1)
  }

  lemma {:induction false} EnsureClassesHasAll(root: Root, i: nat)
    requires forall n :: 1 <= n <= i ==> HasClass(root, Prefix(root), ClassName(n))
    ensures forall n :: 1 <= n <= 8 ==> HasClass(EnsureClasses(root, i), Prefix(root), ClassName(n))
    decreases 8 - i
  {
    if i < 8 {
      var r := EnsureClass(root, i);
      forall n | 1 <= n <= i + 1
        ensures HasClass(r, Prefix(r), ClassName(n))
      {
        if n <= i {
          assert HasClass(root, Prefix(root), ClassName(n));
          var c :| c in root.children && (c.tag == Prefix(root) + "TaskClass" || c.tag == "TaskClass") &&
            "Name" in c.attrib && c.attrib["Name"] == ClassName(n);
          assert c in r.children;
        }
      }
      EnsureClassesHasAll(r, i + 1);
    }
  }

  /** The constructor's last step: a `Libraries` element is appended when
      there is none. */
  function EnsureLibraries(root: Root): (r: Root)
    ensures r.tag == root.tag && Prefix(r) == Prefix(root)
    ensures forall x :: x in root.children ==> x in r.children
    ensures exists c :: c in r.children && (c.tag == Prefix(root) + "Libraries" || c.tag == "Libraries")
  {
    var p := Prefix(root);
    FindOneStep(root, p, Tag("Libraries"));
    if Find(root, p, [Tag("Libraries")]).Some? then
      assert root.children[FirstIndex(root.children, p, Tag("Libraries")).value] in root.children;
      root
    else
      Append(root, RootLevelElement("Libraries", map[]))
  }

  /** `SwDeploymentTable(path)`: the missing task classes and the missing
      library list are added, the table is written and read back. */
  function Open(root: Root): (r: Root)
    ensures r.tag == root.tag && Prefix(r) == Prefix(root)
  {
    Reload(Write(EnsureLibraries(EnsureClasses(root, 0))))
  }

  lemma FoundAfterOpen(t: Root, c: Element, s: Step)
    requires c in t.children && (c.tag == Prefix(t) + s.tag || c.tag == s.tag)
    requires s.attr.Some? ==> s.attr.value.0 in c.attrib && c.attrib[s.attr.value.0] == s.attr.value.1
    requires |s.tag| > 0 && s.tag[0] != '{'
    ensures Find(Reload(Write(t)), Prefix(t), [s]).Some?
  {
    var k :| 0 <= k < |t.children| && t.children[k] == c;
    ReloadFinds(t, k, s);
  }

  /** Once opened, the table has all eight cyclic task classes and a
      library list, each findable by its path. */
  lemma OpenComplete(root: Root)
    ensures forall n :: 1 <= n <= 8 ==> Find(Open(root), Prefix(root), [Named("TaskClass", ClassName(n))]).Some?
    ensures Find(Open(root), Prefix(root), [Tag("Libraries")]).Some?
  {
    forall n | 1 <= n <= 8
      ensures Find(Open(root), Prefix(root), [Named("TaskClass", ClassName(n))]).Some?
    {
      OpenFindsClass(root, n);
    }
    OpenFindsLibraries(root);
  }

  lemma OpenFindsClass(root: Root, n: int)
    requires 1 <= n <= 8
    ensures Find(Open(root), Prefix(root), [Named("TaskClass", ClassName(n))]).Some?
  {
    var t1 := EnsureClasses(root, 0);
    EnsureClassesHasAll(root, 0);
    var t := EnsureLibraries(t1);
    var c :| c in t1.children && (c.tag == Prefix(root) + "TaskClass" || c.tag == "TaskClass") &&
      "Name" in c.attrib && c.attrib["Name"] == ClassName(n);
    FoundAfterOpen(t, c, Named("TaskClass", ClassName(n)));
  }

  lemma OpenFindsLibraries(root: Root)
    ensures Find(Open(root), Prefix(root), [Tag("Libraries")]).Some?
  {
    var t := EnsureLibraries(EnsureClasses(root, 0));
    var c :| c in t.children && (c.tag == Prefix(root) + "Libraries" || c.tag == "Libraries");
    FoundAfterOpen(t, c, Tag("Libraries"));
  }

  // ---------------------------------------------------------------- libraries

  function LibraryEntries(root: Root): seq<Element> {
    FindAll(root, Prefix(root), [Tag("Libraries"), Tag("LibraryObject")])
  }

  /** `libraries`: the `Name` of every deployed library, "Unknown" if absent. */
  function LibraryNames(root: Root): (r: seq<string>)
    ensures |r| == |LibraryEntries(root)|
    ensures forall k :: 0 <= k < |r| ==> r[k] == Get(LibraryEntries(root)[k], "Name", "Unknown")
  {
    var es := LibraryEntries(root);
    seq(|es|, k requires 0 <= k < |es| => Get(es[k], "Name", "Unknown"))
  }

  /** A library of that name, compared case-insensitively, is deployed. */
  predicate Deployed(root: Root, name: string) {
    exists k :: 0 <= k < |LibraryNames(root)| && Lower(LibraryNames(root)[k]) == Lower(name)
  }

  lemma DeployedMember(root: Root, name: string)
    ensures Deployed(root, name) <==>
      exists x :: x in LibraryEntries(root) && Lower(Get(x, "Name", "Unknown")) == Lower(name)
  {
    var es := LibraryEntries(root);
    if exists x :: x in es && Lower(Get(x, "Name", "Unknown")) == Lower(name) {
      var x :| x in es && Lower(Get(x, "Name", "Unknown")) == Lower(name);
      var k :| 0 <= k < |es| && es[k] == x;
      assert Lower(LibraryNames(root)[k]) == Lower(name);
    }
  }

  /** The attributes of a new library entry: the defaults, with every
      caller override replacing its default. */
  function LibraryAttributes(folder: string, name: string, contents: set<string>, overrides: map<string, string>): (r: map<string, string>)
    ensures r.Keys == overrides.Keys + {"Name", "Source", "Memory", "Language", "Debugging"}
    ensures forall key :: key in overrides ==> r[key] == overrides[key]
    ensures "Name" !in overrides ==> r["Name"] == name
    ensures "Source" !in overrides ==> r["Source"] == "Libraries." + Tail(folder) + "." + name + ".lby"
    ensures "Memory" !in overrides ==> r["Memory"] == "UserROM"
    ensures "Language" !in overrides ==> r["Language"] == LibraryType(contents)
    ensures "Debugging" !in overrides ==> r["Debugging"] == "true"
  {
    map["Name" := name, "Source" := LibrarySource(folder, name), "Memory" := "UserROM",
        "Language" := LibraryType(contents), "Debugging" := "true"] + overrides
  }

  /** The dotted source path of a library: `Libraries`, the folder's last
      component, the name, and `lby`. */
  function LibrarySource(folder: string, name: string): (r: string)
    ensures r == "Libraries." + Tail(folder) + "." + name + ".lby"
  {
    var t := Tail(folder);
    var b := Join([name, "lby"], ".");
    assert [name, "lby"][1..] == ["lby"] && Join(["lby"], ".") == "lby";
    assert b == name + "." + "lby";
    var c := Join([t, name, "lby"], ".");
    assert [t, name, "lby"][1..] == [name, "lby"];
    assert c == t + "." + b;
    var r := Join(["Libraries", t, name, "lby"], ".");
    assert ["Libraries", t, name, "lby"][1..] == [t, name, "lby"];
    assert r == "Libraries" + "." + c;
    assert "Libraries" + "." == "Libraries." && "." + "lby" == ".lby";
    r
  }

  /** `_createLibraryElement`, with the tag it is given. */
  function CreateLibraryElement(tag: string, folder: string, name: string, contents: set<string>, overrides: map<string, string>): Element {
    Element(tag, LibraryAttributes(folder, name, contents, overrides), None, Some("\n"), [])
  }

  function LibrariesIndex(root: Root): Option<nat> {
    FirstIndex(root.children, Prefix(root), Tag("Libraries"))
  }

  /** `deployLibrary(folder, name, overrides)`: `contents` is what the folder
      `folder/name` holds (empty when there is no such folder). Nothing
      happens if the library is already deployed; otherwise the new entry,
      tagged `tag`, is appended to the library list. `None` when there is no
      library list to append to. */
  function DeployLibraryWith(tag: string, root: Root, folder: string, name: string, contents: set<string>, overrides: map<string, string>): (r: Option<Root>)
    ensures r.Some? ==> r.value.tag == root.tag && |r.value.children| == |root.children|
    ensures Deployed(root, name) ==> r == Some(root)
    ensures r.None? <==> !Deployed(root, name) && LibrariesIndex(root).None?
  {
    if Deployed(root, name) then Some(root)
    else
      match LibrariesIndex(root)
      case None => None
      case Some(i) =>
        var el := CreateLibraryElement(tag, folder, name, contents, overrides);
        Some(SetChild(root, i, Append(root.children[i], el)))
  }

  /** `deployLibrary` as the source writes it: the new entry's tag is bare. */
  function DeployLibraryAsWritten(root: Root, folder: string, name: string, contents: set<string>, overrides: map<string, string>): (r: Option<Root>)
    ensures Deployed(root, name) ==> r == Some(root)
    ensures r.None? <==> !Deployed(root, name) && LibrariesIndex(root).None?
  {
    DeployLibraryWith("LibraryObject", root, folder, name, contents, overrides)
  }

  /** `deployLibrary` with the new entry tagged in the table's namespace, so
      that later lookups in the same session see it. */
  function DeployLibrary(root: Root, folder: string, name: string, contents: set<string>, overrides: map<string, string>): (r: Option<Root>)
    ensures Deployed(root, name) ==> r == Some(root)
    ensures r.None? <==> !Deployed(root, name) && LibrariesIndex(root).None?
  {
    DeployLibraryWith(Prefix(root) + "LibraryObject", root, folder, name, contents, overrides)
  }

  /** A library that is already deployed is left alone. */
  lemma DeployLibraryNoop(tag: string, root: Root, folder: string, name: string, contents: set<string>, overrides: map<string, string>)
    requires Deployed(root, name)
    ensures DeployLibraryWith(tag, root, folder, name, contents, overrides) == Some(root)
  {
  }

  /** A new library is appended, as one entry, to the first library list,
      and nothing else changes; without a library list the call fails. */
  lemma DeployLibraryAppends(tag: string, root: Root, folder: string, name: string, contents: set<string>, overrides: map<string, string>)
    requires !Deployed(root, name)
    ensures DeployLibraryWith(tag, root, folder, name, contents, overrides).None? <==> LibrariesIndex(root).None?
    ensures LibrariesIndex(root).Some? ==>
      var i := LibrariesIndex(root).value;
      var r := DeployLibraryWith(tag, root, folder, name, contents, overrides).value;
      && i < |root.children| && |r.children| == |root.children|
      && r.children[i].children == root.children[i].children + [CreateLibraryElement(tag, folder, name, contents, overrides)]
      && r.children[i].tag == root.children[i].tag
      && forall j :: 0 <= j < |root.children| && j != i ==> r.children[j] == root.children[j]
  {
  }

  /** Only the one list entry changed: the library list stays the first
      match. */
  lemma AppendedKeepsIndex(tag: string, root: Root, folder: string, name: string, contents: set<string>, overrides: map<string, string>)
    requires !Deployed(root, name) && LibrariesIndex(root).Some?
    ensures var r := DeployLibraryWith(tag, root, folder, name, contents, overrides).value;
      && Prefix(r) == Prefix(root)
      && LibrariesIndex(r) == LibrariesIndex(root)
  {
    var i := LibrariesIndex(root).value;
    var el := CreateLibraryElement(tag, folder, name, contents, overrides);
    var r := DeployLibraryWith(tag, root, folder, name, contents, overrides).value;
    assert r == SetChild(root, i, Append(root.children[i], el));
    FirstIndexSameShape(root.children, r.children, Prefix(root), Tag("Libraries"));
  }

  /** The entries the two-step path finds are the old ones plus the new
      element when it carries the qualified tag. */
  lemma AppendedEntries(tag: string, root: Root, folder: string, name: string, contents: set<string>, overrides: map<string, string>, x: Element)
    requires !Deployed(root, name) && LibrariesIndex(root).Some?
    ensures var r := DeployLibraryWith(tag, root, folder, name, contents, overrides).value;
      x in LibraryEntries(r) <==>
        x in LibraryEntries(root) ||
        (x == CreateLibraryElement(tag, folder, name, contents, overrides) && tag == Prefix(root) + "LibraryObject")
  {
    var i := LibrariesIndex(root).value;
    var p := Prefix(root);
    var el := CreateLibraryElement(tag, folder, name, contents, overrides);
    var r := DeployLibraryWith(tag, root, folder, name, contents, overrides).value;
    assert r == SetChild(root, i, Append(root.children[i], el));
    AppendedKeepsIndex(tag, root, folder, name, contents, overrides);
    AppendUnderMember(root, i, el, p, Tag("Libraries"), Tag("LibraryObject"), x);
  }

  /** With the qualified tag, deploying the same library twice in a session
      is deploying it once. */
  lemma DeployLibraryTwice(root: Root, folder: string, name: string, contents: set<string>, overrides: map<string, string>)
    requires "Name" !in overrides
    requires DeployLibrary(root, folder, name, contents, overrides).Some?
    ensures var r := DeployLibrary(root, folder, name, contents, overrides).value;
      DeployLibrary(r, folder, name, contents, overrides) == Some(r)
  {
    var r := DeployLibrary(root, folder, name, contents, overrides).value;
    if !Deployed(root, name) {
      var tag := Prefix(root) + "LibraryObject";
      var el := CreateLibraryElement(tag, folder, name, contents, overrides);
      AppendedKeepsIndex(tag, root, folder, name, contents, overrides);
      AppendedEntries(tag, root, folder, name, contents, overrides, el);
      DeployedMember(r, name);
      assert Get(el, "Name", "Unknown") == name;
    }
  }

  /** As written, in a table with a namespace the new entry's bare tag hides
      it from the lookup: the set of deployed names does not change. */
  lemma DeployLibraryAsWrittenInvisible(root: Root, folder: string, name: string, contents: set<string>, overrides: map<string, string>, other: string)
    requires Prefix(root) != "" && !Deployed(root, name) && LibrariesIndex(root).Some?
    ensures var r := DeployLibraryAsWritten(root, folder, name, contents, overrides).value;
      Deployed(r, other) <==> Deployed(root, other)
  {
    var r := DeployLibraryAsWritten(root, folder, name, contents, overrides).value;
    DeployedMember(root, other);
    DeployedMember(r, other);
    forall x
      ensures x in LibraryEntries(r) <==> x in LibraryEntries(root)
    {
      AppendedEntries("LibraryObject", root, folder, name, contents, overrides, x);
      assert "LibraryObject" != Prefix(root) + "LibraryObject";
    }
  }

  /** So deploying the same library twice in a session appends it twice. */
  lemma DeployLibraryAsWrittenTwice(root: Root, folder: string, name: string, contents: set<string>, overrides: map<string, string>)
    requires Prefix(root) != "" && !Deployed(root, name) && LibrariesIndex(root).Some?
    ensures var r1 := DeployLibraryAsWritten(root, folder, name, contents, overrides).value;
      var r2 := DeployLibraryAsWritten(r1, folder, name, contents, overrides);
      var i := LibrariesIndex(root).value;
      var el := CreateLibraryElement("LibraryObject", folder, name, contents, overrides);
      r2.Some? && r2.value.children[i].children == root.children[i].children + [el, el]
  {
    var i := LibrariesIndex(root).value;
    var el := CreateLibraryElement("LibraryObject", folder, name, contents, overrides);
    var r1 := DeployLibraryAsWritten(root, folder, name, contents, overrides).value;
    assert r1 == SetChild(root, i, Append(root.children[i], el));
    DeployLibraryAsWrittenInvisible(root, folder, name, contents, overrides, name);
    AppendedKeepsIndex("LibraryObject", root, folder, name, contents, overrides);
    var r2 := DeployLibraryAsWritten(r1, folder, name, contents, overrides);
    assert r2 == Some(SetChild(r1, i, Append(r1.children[i], el)));
    assert r1.children[i].children == root.children[i].children + [el];
    assert r2.value.children[i].children == root.children[i].children + [el] + [el];
  }

  // ---------------------------------------------------------------- tasks

  /** Position of the first digit character at or after `i`. */
  function FirstDigitFrom(s: string, i: nat): (r: Option<nat>)
    requires i <= |s|
    ensures r.Some? ==> i <= r.value < |s| && IsDigit(s[r.value])
    ensures r.Some? ==> forall j :: i <= j < r.value ==> !IsDigit(s[j])
    ensures r.None? <==> forall j :: i <= j < |s| ==> !IsDigit(s[j])
    decreases |s| - i
  {
    if i == |s| then None
    else if IsDigit(s[i]) then Some(i)
    else FirstDigitFrom(s, i + 1)
  }

  /** The first digit character of a string. */
  function FirstDigit(s: string): (r: Option<char>)
    ensures r.None? <==> forall k :: 0 <= k < |s| ==> !IsDigit(s[k])
    ensures r.Some? ==> exists k :: (0 <= k < |s| && s[k] == r.value && IsDigit(s[k]) &&
      forall j :: 0 <= j < k ==> !IsDigit(s[j]))
  {
    match FirstDigitFrom(s, 0)
    case None => None
    case Some(k) => Some(s[k])
  }

  /** `Task(path).type`: `ANSIC` before `IEC`; a program folder with neither
      has no language. */
  function TaskLanguage(contents: set<string>): (r: Option<string>)
    ensures r == Some("ANSIC") <==> "ANSIC.prg" in contents
    ensures r == Some("IEC") <==> "ANSIC.prg" !in contents && "IEC.prg" in contents
    ensures r.None? <==> "ANSIC.prg" !in contents && "IEC.prg" !in contents
  {
    if "ANSIC.prg" in contents then Some("ANSIC")
    else if "IEC.prg" in contents then Some("IEC")
    else None
  }

  /** The dotted source path of a task: the normalised folder's components,
      the task name, and `prg`. */
  function TaskSource(folder: string, name: string): string {
    Join(NormSegments(folder) + [name, "prg"], ".")
  }

  /** A task folder written as plain components gives those components as the
      leading parts of the source path. */
  lemma TaskSourceOfPlain(segs: seq<string>, c: char, name: string)
    requires |segs| >= 1 && c in Seps
    requires forall k :: 0 <= k < |segs| ==> IsPlainComponent(segs[k])
    ensures TaskSource(Join(segs, [c]), name) == Join(segs + [name, "prg"], ".")
  {
    NormSegmentsOfPlain(segs, c);
  }

  /** `_createTaskElement`: the name is cut to its first ten characters, the
      source keeps the whole name. */
  function CreateTaskElement(tag: string, folder: string, name: string, language: string): (r: Element)
    ensures r.tag == tag && r.attrib.Keys == {"Name", "Source", "Memory", "Language", "Debugging"}
    ensures r.attrib["Name"] == Take(name, 10) && |r.attrib["Name"]| <= 10
    ensures r.attrib["Source"] == TaskSource(folder, name)
    ensures r.attrib["Language"] == language
    ensures r.attrib["Memory"] == "UserROM" && r.attrib["Debugging"] == "true"
  {
    Element(tag,
      map["Name" := Take(name, 10), "Source" := TaskSource(folder, name), "Memory" := "UserROM",
          "Language" := language, "Debugging" := "true"],
      None, Some("\n"), [])
  }

  function TargetClass(cls: string): Option<string> {
    match FirstDigit(cls)
    case None => None
    case Some(d) => Some("Cyclic#" + [d])
  }

  /** The task is already in that class, under its truncated name. */
  predicate TaskDeployed(root: Root, className: string, name: string) {
    |FindAll(root, Prefix(root), [Named("TaskClass", className), Named("Task", Take(name, 10))])| > 0
  }

  /** `deployTask(folder, name, taskClass)`. `taskDir` is what the folder
      `Logical/folder/name` holds, `None` when there is no such folder.
      Failures are the exceptions the source raises: no digit in the class
      (`IndexError`), no task folder or no such task class
      (`AttributeError`), or a folder without a program file, whose `None`
      language cannot be written (`TypeError`). */
  function DeployTaskWith(tag: string, root: Root, folder: string, name: string, cls: string, taskDir: Option<set<string>>): (r: Result<Root, string>)
    ensures r.Success? ==> r.value.tag == root.tag && |r.value.children| == |root.children|
    ensures r.Failure? ==> r.error in {"IndexError", "AttributeError", "TypeError"}
    ensures TargetClass(cls).None? ==> r == Failure("IndexError")
  {
    match TargetClass(cls)
    case None => Failure("IndexError")
    case Some(c) =>
      if TaskDeployed(root, c, name) then Success(root)
      else if taskDir.None? then Failure("AttributeError")
      else
        match FirstIndex(root.children, Prefix(root), Named("TaskClass", c))
        case None => Failure("AttributeError")
        case Some(i) =>
          match TaskLanguage(taskDir.value)
          case None => Failure("TypeError")
          case Some(lang) =>
            Success(SetChild(root, i, Append(root.children[i], CreateTaskElement(tag, folder, name, lang))))
  }

  /** `deployTask` as the source writes it: the new entry's tag is bare. */
  function DeployTaskAsWritten(root: Root, folder: string, name: string, cls: string, taskDir: Option<set<string>>): (r: Result<Root, string>)
    ensures r.Failure? ==> r.error in {"IndexError", "AttributeError", "TypeError"}
    ensures TargetClass(cls).None? ==> r == Failure("IndexError")
  {
    DeployTaskWith("Task", root, folder, name, cls, taskDir)
  }

  /** `deployTask` with the new entry tagged in the table's namespace. */
  function DeployTask(root: Root, folder: string, name: string, cls: string, taskDir: Option<set<string>>): (r: Result<Root, string>)
    ensures r.Failure? ==> r.error in {"IndexError", "AttributeError", "TypeError"}
    ensures TargetClass(cls).None? ==> r == Failure("IndexError")
  {
    DeployTaskWith(Prefix(root) + "Task", root, folder, name, cls, taskDir)
  }

  /** Where a new task goes and what it records: the first task class named
      `Cyclic#` and the class string's first digit gets one more entry. */
  lemma DeployTaskAppends(tag: string, root: Root, folder: string, name: string, cls: string, taskDir: Option<set<string>>)
    requires DeployTaskWith(tag, root, folder, name, cls, taskDir).Success?
    requires !TaskDeployed(root, TargetClass(cls).value, name)
    ensures var c := TargetClass(cls).value;
      var i := FirstIndex(root.children, Prefix(root), Named("TaskClass", c));
      var r := DeployTaskWith(tag, root, folder, name, cls, taskDir).value;
      && taskDir.Some? && TaskLanguage(taskDir.value).Some?
      && (exists d :: IsDigit(d) && d in cls && c == "Cyclic#" + [d])
      && i.Some? && i.value < |root.children| && |r.children| == |root.children|
      && r.children[i.value].children ==
        root.children[i.value].children + [CreateTaskElement(tag, folder, name, TaskLanguage(taskDir.value).value)]
      && forall j :: 0 <= j < |root.children| && j != i.value ==> r.children[j] == root.children[j]
  {
    var d := FirstDigit(cls).value;
    assert d in cls;
  }

  /** A task already in its class is left alone; a class string without a
      digit always fails. */
  lemma DeployTaskNoopOrFail(tag: string, root: Root, folder: string, name: string, cls: string, taskDir: Option<set<string>>)
    ensures TargetClass(cls).None? <==> forall k :: 0 <= k < |cls| ==> !IsDigit(cls[k])
    ensures TargetClass(cls).None? ==> DeployTaskWith(tag, root, folder, name, cls, taskDir) == Failure("IndexError")
    ensures TargetClass(cls).Some? && TaskDeployed(root, TargetClass(cls).value, name) ==>
      DeployTaskWith(tag, root, folder, name, cls, taskDir) == Success(root)
  {
  }

  /** With the qualified tag, deploying the same task twice in a session is
      deploying it once. */
  lemma DeployTaskTwice(root: Root, folder: string, name: string, cls: string, taskDir: Option<set<string>>)
    requires DeployTask(root, folder, name, cls, taskDir).Success?
    ensures var r := DeployTask(root, folder, name, cls, taskDir).value;
      DeployTask(r, folder, name, cls, taskDir) == Success(r)
  {
    var r := DeployTask(root, folder, name, cls, taskDir).value;
    var c := TargetClass(cls).value;
    if !TaskDeployed(root, c, name) {
      var p := Prefix(root);
      var tag := p + "Task";
      DeployTaskAppends(tag, root, folder, name, cls, taskDir);
      var i := FirstIndex(root.children, p, Named("TaskClass", c)).value;
      var el := CreateTaskElement(tag, folder, name, TaskLanguage(taskDir.value).value);
      assert Prefix(r) == p;
      assert el in r.children[i].children;
      assert Matches(r.children[i], p, Named("TaskClass", c));
      assert Matches(el, p, Named("Task", Take(name, 10)));
      assert r.children[i] in r.children;
      FindTwoSteps(r, p, Named("TaskClass", c), Named("Task", Take(name, 10)));
    }
  }

  /** As written, in a table with a namespace the new task's bare tag hides it
      from the lookup, so a second call appends it again. */
  lemma DeployTaskAsWrittenTwice(root: Root, folder: string, name: string, cls: string, taskDir: Option<set<string>>)
    requires Prefix(root) != "" && taskDir.Some? && TaskLanguage(taskDir.value).Some? && TargetClass(cls).Some?
    requires FirstIndex(root.children, Prefix(root), Named("TaskClass", TargetClass(cls).value)).Some?
    requires !TaskDeployed(root, TargetClass(cls).value, name)
    ensures DeployTaskAsWritten(root, folder, name, cls, taskDir).Success?
    ensures var r1 := DeployTaskAsWritten(root, folder, name, cls, taskDir).value;
      var r2 := DeployTaskAsWritten(r1, folder, name, cls, taskDir);
      var i := FirstIndex(root.children, Prefix(root), Named("TaskClass", TargetClass(cls).value)).value;
      var el := CreateTaskElement("Task", folder, name, TaskLanguage(taskDir.value).value);
      && r2.Success? && |r2.value.children| == |root.children|
      && r2.value.children[i].children == root.children[i].children + [el, el]
  {
    var p := Prefix(root);
    var c := TargetClass(cls).value;
    var i := FirstIndex(root.children, p, Named("TaskClass", c)).value;
    var lang := TaskLanguage(taskDir.value).value;
    var el := CreateTaskElement("Task", folder, name, lang);
    DeployTaskStep("Task", root, folder, name, cls, taskDir, c, i, lang);
    var r1 := SetChild(root, i, Append(root.children[i], el));
    HiddenAfterFirst(root, i, el, c, name);
    DeployTaskStep("Task", r1, folder, name, cls, taskDir, c, i, lang);
    assert r1.children[i].children == root.children[i].children + [el];
  }

  /** After the first bare-tagged append, the class is still the first match
      and the task is still not found. */
  lemma HiddenAfterFirst(root: Root, i: nat, el: Element, c: string, name: string)
    requires Prefix(root) != "" && el.tag == "Task" && !TaskDeployed(root, c, name)
    requires FirstIndex(root.children, Prefix(root), Named("TaskClass", c)) == Some(i)
    ensures i < |root.children|
    ensures var r1 := SetChild(root, i, Append(root.children[i], el));
      && Prefix(r1) == Prefix(root)
      && FirstIndex(r1.children, Prefix(r1), Named("TaskClass", c)) == Some(i)
      && !TaskDeployed(r1, c, name)
  {
    var p := Prefix(root);
    var r1 := SetChild(root, i, Append(root.children[i], el));
    assert Prefix(r1) == p;
    FirstIndexSameShape(root.children, r1.children, p, Named("TaskClass", c));
    TaskStillHidden(root, i, el, p, Named("TaskClass", c), Named("Task", Take(name, 10)));
  }

  /** One new task, all checks passed: it is appended to the class's list. */
  lemma DeployTaskStep(tag: string, root: Root, folder: string, name: string, cls: string, taskDir: Option<set<string>>, c: string, i: nat, lang: string)
    requires TargetClass(cls) == Some(c) && !TaskDeployed(root, c, name) && taskDir.Some?
    requires FirstIndex(root.children, Prefix(root), Named("TaskClass", c)) == Some(i)
    requires TaskLanguage(taskDir.value) == Some(lang)
    ensures i < |root.children|
    ensures DeployTaskWith(tag, root, folder, name, cls, taskDir) ==
      Success(SetChild(root, i, Append(root.children[i], CreateTaskElement(tag, folder, name, lang))))
  {
  }

  /** A bare-tagged element appended under a namespaced table adds nothing to
      what a two-step path finds. */
  lemma TaskStillHidden(root: Root, i: nat, el: Element, p: string, s1: Step, s2: Step)
    requires i < |root.children| && p != "" && el.tag == s2.tag
    requires |FindAll(root, p, [s1, s2])| == 0
    ensures |FindAll(SetChild(root, i, Append(root.children[i], el)), p, [s1, s2])| == 0
  {
    var r := SetChild(root, i, Append(root.children[i], el));
    if |FindAll(r, p, [s1, s2])| > 0 {
      var x := FindAll(r, p, [s1, s2])[0];
      AppendUnderMember(root, i, el, p, s1, s2, x);
      assert false;
    }
  }
}
