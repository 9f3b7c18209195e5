/** A library manifest (`ANSIC.lby`, `IEC.lby`, `Binary.lby`): its object list
    under `<Files>` or `<Objects>`, its dependencies, version and description,
    and the reconciliation of the object list with the library folder. */
module LibraryFile {

  import opened Wrappers
  import opened Text
  import opened Xml
  import opened Directory

  /** The two spellings of a library's object list. */
  type ListTag = t: string | t == "Files" || t == "Objects" witness "Files"

  /** The tag of one list entry: the list tag without its plural `s`. */
  function ChildTag(t: ListTag): (r: string)
    ensures r + "s" == t
  {
    t[..|t| - 1]
  }

  /** A library dependency; the versions are "" when not given. */
  datatype Dependency = Dependency(name: string, minVersion: string, maxVersion: string)

  /** An opened library: its name (the name of its folder), its document,
      and the list tag detected when it was opened. */
  datatype Library = Library(name: string, root: Root, listTag: ListTag)

  // ---------------------------------------------------------------- list tag

  predicate IsListLocal(tag: string, ns: string) {
    RemoveAll(tag, ns) == "Files" || RemoveAll(tag, ns) == "Objects"
  }

  /** The first child whose tag, with the namespace removed, is a list tag. */
  function FirstListIndex(cs: seq<Element>, ns: string): (r: Option<nat>)
    ensures r.Some? ==> r.value < |cs| && IsListLocal(cs[r.value].tag, ns)
    ensures r.Some? ==> forall j :: 0 <= j < r.value ==> !IsListLocal(cs[j].tag, ns)
    ensures r.None? <==> forall j :: 0 <= j < |cs| ==> !IsListLocal(cs[j].tag, ns)
  {
    if |cs| == 0 then None
    else if IsListLocal(cs[0].tag, ns) then Some(0)
    else
      match FirstListIndex(cs[1..], ns)
      case None => None
      case Some(k) => Some(k + 1)
  }

  /** `_getXmlTag`: `Files` or `Objects`, whichever list comes first, and
      `Files` when there is neither. */
  function DetectListTag(root: Root): (r: ListTag)
    ensures FirstListIndex(root.children, Prefix(root)).None? ==> r == "Files"
    ensures FirstListIndex(root.children, Prefix(root)).Some? ==>
      r == RemoveAll(root.children[FirstListIndex(root.children, Prefix(root)).value].tag, Prefix(root))
  {
    match FirstListIndex(root.children, Prefix(root))
    case None => "Files"
    case Some(k) => RemoveAll(root.children[k].tag, Prefix(root))
  }

  /** `Library(path)`: the list tag is detected once, when the file is opened. */
  function Open(name: string, root: Root): (r: Library)
    ensures r.root == root && r.listTag == DetectListTag(root)
  {
    Library(name, root, DetectListTag(root))
  }

  function NS(lib: Library): string {
    Prefix(lib.root)
  }

  /** Where `self.files` (the object list) sits among the root's children. */
  function ListIndex(lib: Library): Option<nat> {
    FirstIndex(lib.root.children, NS(lib), Tag(lib.listTag))
  }

  /** `files`: the object list element, `None` when the document has none. */
  function Files(lib: Library): (r: Option<Element>)
    ensures r.Some? <==> ListIndex(lib).Some?
    ensures r.Some? ==> r.value.tag == NS(lib) + lib.listTag
  {
    match ListIndex(lib)
    case None => None
    case Some(i) => Some(lib.root.children[i])
  }

  /** `fileList`: every entry of every object list. */
  function FileList(lib: Library): seq<Element> {
    FindAll(lib.root, NS(lib), [Tag(lib.listTag), Tag(ChildTag(lib.listTag))])
  }

  /** A child tag is `prefix + local`, with no brace in `local`: the shape
      every tag has in a parsed document. */
  predicate Qualified(tag: string, prefix: string) {
    StartsWith(tag, prefix) && '{' !in tag[|prefix|..]
  }

  predicate ParsedChildren(root: Root) {
    && (Prefix(root) == "" || Prefix(root)[0] == '{')
    && forall k :: 0 <= k < |root.children| ==> Qualified(root.children[k].tag, Prefix(root))
  }

  lemma RemoveQualified(tag: string, prefix: string)
    requires prefix == "" || prefix[0] == '{'
    requires Qualified(tag, prefix)
    ensures RemoveAll(tag, prefix) == tag[|prefix|..]
  {
    var local := tag[|prefix|..];
    assert tag == prefix + local;
    if prefix == "" {
      assert RemoveAll(tag, prefix) == tag;
    } else {
      RemoveAllPrefix(prefix, local);
    }
  }

  /** The object list of a freshly opened, parsed library is the first child
      tagged `Files` or `Objects`, and `Wellformed` holds for it. */
  lemma OpenFindsList(name: string, root: Root, idx: nat)
    requires ParsedChildren(root)
    requires idx < |root.children|
    requires root.children[idx].tag == Prefix(root) + "Files" || root.children[idx].tag == Prefix(root) + "Objects"
    requires forall j :: 0 <= j < idx ==>
      root.children[j].tag != Prefix(root) + "Files" && root.children[j].tag != Prefix(root) + "Objects"
    ensures Wellformed(Open(name, root), idx)
  {
    var p := Prefix(root);
    var cs := root.children;
    forall j | 0 <= j <= idx
      ensures RemoveAll(cs[j].tag, p) == cs[j].tag[|p|..]
      ensures cs[j].tag == p + cs[j].tag[|p|..]
    {
      RemoveQualified(cs[j].tag, p);
    }
    assert IsListLocal(cs[idx].tag, p);
    var k := FirstListIndex(cs, p).value;
    if k < idx {
      assert cs[k].tag == p + RemoveAll(cs[k].tag, p);
    }
  }

  // ---------------------------------------------------------------- dependencies and attributes

  /** One `<Dependency>` element read with the defaults the source uses. */
  function ReadDependency(e: Element): (r: Dependency)
    ensures r.name == if "ObjectName" in e.attrib then e.attrib["ObjectName"] else "Unknown"
    ensures r.minVersion == if "FromVersion" in e.attrib then e.attrib["FromVersion"] else ""
    ensures r.maxVersion == if "ToVersion" in e.attrib then e.attrib["ToVersion"] else ""
  {
    Dependency(Get(e, "ObjectName", "Unknown"), Get(e, "FromVersion", ""), Get(e, "ToVersion", ""))
  }

  /** `dependencies`: every `Dependencies/Dependency` element, in document order. */
  function Dependencies(lib: Library): (r: seq<Dependency>)
    ensures var es := FindAll(lib.root, NS(lib), [Tag("Dependencies"), Tag("Dependency")]);
      |r| == |es| && forall k :: 0 <= k < |es| ==> r[k] == ReadDependency(es[k])
  {
    var es := FindAll(lib.root, NS(lib), [Tag("Dependencies"), Tag("Dependency")]);
    seq(|es|, k requires 0 <= k < |es| => ReadDependency(es[k]))
  }

  /** `dependencyNames` */
  function DependencyNames(lib: Library): (r: seq<string>)
    ensures |r| == |Dependencies(lib)|
    ensures forall k :: 0 <= k < |r| ==> r[k] == Dependencies(lib)[k].name
  {
    var ds := Dependencies(lib);
    seq(|ds|, k requires 0 <= k < |ds| => ds[k].name)
  }

  /** `version`: the root's `Version` attribute, "0" when absent. */
  function Version(lib: Library): (r: string)
    ensures "Version" !in lib.root.attrib ==> r == "0"
    ensures "Version" in lib.root.attrib ==> r == lib.root.attrib["Version"]
  {
    Get(lib.root, "Version", "0")
  }

  /** `description`: the root's `Description` attribute, "" when absent. */
  function Description(lib: Library): string {
    Get(lib.root, "Description", "")
  }

  /** `_createDependencyElement`: `ObjectName` always, the version bounds only
      when they are non-empty. */
  function CreateDependencyElement(d: Dependency): (r: Element)
    ensures r.tag == "Dependency" && r.children == []
    ensures "ObjectName" in r.attrib
    ensures "FromVersion" in r.attrib <==> d.minVersion != ""
    ensures "ToVersion" in r.attrib <==> d.maxVersion != ""
    ensures r.attrib.Keys <= {"ObjectName", "FromVersion", "ToVersion"}
  {
    var a := map["ObjectName" := d.name];
    var a := if d.minVersion != "" then a["FromVersion" := d.minVersion] else a;
    var a := if d.maxVersion != "" then a["ToVersion" := d.maxVersion] else a;
    Element("Dependency", a, None, None, [])
  }

  /** Writing a dependency element and reading it back gives the dependency:
      an omitted bound reads back as the default "". */
  lemma DependencyRoundTrip(d: Dependency)
    ensures ReadDependency(CreateDependencyElement(d)) == d
  {
  }

  // ---------------------------------------------------------------- version string

  /** The integers of a dotted version, or `None` if one does not parse. */
  function ParseAll(parts: seq<string>): (r: Option<seq<int>>)
    ensures r.Some? ==> |r.value| == |parts|
    ensures r.Some? ==> forall k :: 0 <= k < |parts| ==> ParseInt(parts[k]) == Some(r.value[k])
    ensures r.None? <==> exists k :: 0 <= k < |parts| && ParseInt(parts[k]).None?
  {
    if |parts| == 0 then Some([])
    else
      match ParseInt(parts[0])
      case None => None
      case Some(v) =>
        match ParseAll(parts[1..])
        case None =>
          var k :| 0 <= k < |parts| - 1 && ParseInt(parts[1..][k]).None?;
          assert ParseInt(parts[k + 1]).None?;
          None
        case Some(vs) =>
          assert forall k :: 1 <= k < |parts| ==> parts[k] == parts[1..][k - 1];
          Some([v] + vs)
  }

  function ShowAll(vs: seq<int>): (r: seq<string>)
    ensures |r| == |vs|
    ensures forall k :: 0 <= k < |vs| ==> r[k] == ShowInt(vs[k])
  {
    seq(|vs|, k requires 0 <= k < |vs| => ShowInt(vs[k]))
  }

  /** `version.split('.')` */
  function Fields(version: string): seq<string> {
    Split(version, {'.'})
  }

  /** `_formatVersionString`: every dot-separated field put through
      `str(int(field))`; `None` where `int` raises. */
  function FormatVersionString(version: string): (r: Option<string>)
    ensures r.None? <==> exists k :: 0 <= k < |Fields(version)| && ParseInt(Fields(version)[k]).None?
  {
    match ParseAll(Fields(version))
    case None => None
    case Some(vs) => Some(Join(ShowAll(vs), "."))
  }

  lemma ShowIntNoDot(n: int)
    ensures forall i :: 0 <= i < |ShowInt(n)| ==> ShowInt(n)[i] != '.'
  {
    var m: nat := if n < 0 then -n else n;
    var d := ShowNat(m);
    if n < 0 {
      assert forall i :: 1 <= i < |ShowInt(n)| ==> ShowInt(n)[i] == d[i - 1];
    }
  }

  /** A formatted version has the same fields, with the same values. */
  lemma {:induction false} FormatVersionFields(version: string)
    requires FormatVersionString(version).Some?
    ensures var vs := ParseAll(Fields(version)).value;
      Split(FormatVersionString(version).value, {'.'}) == ShowAll(vs)
  {
    var vs := ParseAll(Fields(version)).value;
    var parts := ShowAll(vs);
    forall k | 0 <= k < |parts|
      ensures forall i :: 0 <= i < |parts[k]| ==> parts[k][i] !in {'.'}
    {
      ShowIntNoDot(vs[k]);
    }
    SplitOfJoin(parts, '.', {'.'});
  }

  /** Formatting a formatted version changes nothing: the output is canonical. */
  lemma {:induction false} FormatVersionIdempotent(version: string)
    requires FormatVersionString(version).Some?
    ensures FormatVersionString(FormatVersionString(version).value) == FormatVersionString(version)
  {
    var vs := ParseAll(Fields(version)).value;
    var w := FormatVersionString(version).value;
    FormatVersionFields(version);
    var parts := ShowAll(vs);
    forall k | 0 <= k < |parts|
      ensures ParseInt(parts[k]) == Some(vs[k])
    {
      ParseShow(vs[k]);
    }
    assert ParseAll(parts).Some?;
    assert ParseAll(parts).value == vs;
  }

  /** Each field of a formatted version is the decimal form of the integer
      the input field denotes. */
  lemma FormatVersionValues(version: string)
    requires FormatVersionString(version).Some?
    ensures var fields := Fields(version);
      var out := Split(FormatVersionString(version).value, {'.'});
      |out| == |fields| &&
      forall k :: 0 <= k < |fields| ==> ParseInt(out[k]) == ParseInt(fields[k])
  {
    FormatVersionFields(version);
    var vs := ParseAll(Fields(version)).value;
    forall k | 0 <= k < |vs|
      ensures ParseInt(ShowInt(vs[k])) == Some(vs[k])
    {
      ParseShow(vs[k]);
    }
  }

  // ---------------------------------------------------------------- adding objects

  /** `_createPkgElement`: an entry for a path in the folder. Its `Type` is the
      path's kind, a library or program also records its `Language`, the
      text is the entry's name and the tail a newline. The tag stays bare. */
  function CreatePkgElement(entry: Entry, tag: string): (r: Element)
    ensures r.tag == tag && r.text == Some(entry.name) && r.children == []
    ensures "Type" in r.attrib && r.attrib["Type"] == PkgType(entry.kind)
    ensures "Language" in r.attrib <==> r.attrib["Type"] in {"Library", "Program"}
    ensures r.attrib["Type"] == "Library" ==> r.attrib["Language"] == LibraryType(entry.kind.contents) != "None"
    ensures r.attrib["Type"] == "Program" ==> r.attrib["Language"] == ProgramType(entry.kind.contents) != "None"
  {
    var t := PkgType(entry.kind);
    var a := map["Type" := t];
    var a :=
      if t == "Library" then a["Language" := LibraryType(entry.kind.contents)]
      else if t == "Program" then a["Language" := ProgramType(entry.kind.contents)]
      else a;
    Element(tag, a, Some(entry.name), Some("\n"), [])
  }

  /** One entry of a list being retagged to `to`. When the new list is
      `Objects`, a `Type` of `File` is written: over any existing `Type` when
      `overwrite` is set, only where there is none otherwise. */
  function RetagChild(c: Element, prefix: string, to: ListTag, overwrite: bool): (r: Element)
    ensures r.tag == prefix + ChildTag(to) && r.text == c.text && r.children == c.children
    ensures to == "Files" ==> r.attrib == c.attrib
  {
    var a := if to == "Objects" && (overwrite || "Type" !in c.attrib) then c.attrib["Type" := "File"] else c.attrib;
    c.(tag := prefix + ChildTag(to), attrib := a)
  }

  function RetagList(e: Element, prefix: string, to: ListTag, overwrite: bool): (r: Element)
    ensures r.tag == prefix + to && r.text == e.text && |r.children| == |e.children|
    ensures forall k :: 0 <= k < |e.children| ==> r.children[k] == RetagChild(e.children[k], prefix, to, overwrite)
  {
    e.(tag := prefix + to,
       children := seq(|e.children|, k requires 0 <= k < |e.children| => RetagChild(e.children[k], prefix, to, overwrite)))
  }

  /** `_convertXmlTag(from, to)`: every root child that is a `from` list
      becomes a `to` list, and its entries `to` entries. */
  function ConvertWith(lib: Library, from: ListTag, to: ListTag, overwrite: bool): (r: Library)
    ensures r.name == lib.name && r.root.tag == lib.root.tag && r.listTag == to
    ensures |r.root.children| == |lib.root.children|
    ensures forall k :: 0 <= k < |lib.root.children| ==>
      r.root.children[k] ==
        if lib.root.children[k].tag == NS(lib) + from
        then RetagList(lib.root.children[k], NS(lib), to, overwrite)
        else lib.root.children[k]
  {
    var p := NS(lib);
    var cs := lib.root.children;
    var cs' := seq(|cs|, k requires 0 <= k < |cs| =>
      if cs[k].tag == p + from then RetagList(cs[k], p, to, overwrite) else cs[k]);
    lib.(root := lib.root.(children := cs'), listTag := to)
  }

  /** `_addObjectElement`: the new entry is appended to the object list; a
      package added to a `Files` list converts the library to `Objects`. */
  function AddObjectElementWith(lib: Library, entry: Entry, overwrite: bool): (r: Option<Library>)
    ensures r.Some? <==> ListIndex(lib).Some?
    ensures r.Some? ==> r.value.name == lib.name && r.value.root.tag == lib.root.tag
    ensures r.Some? ==> |r.value.root.children| == |lib.root.children|
    ensures r.Some? && (PkgType(entry.kind) != "Package" || lib.listTag == "Objects") ==> r.value.listTag == lib.listTag
    ensures r.Some? && PkgType(entry.kind) == "Package" ==> r.value.listTag == "Objects"
  {
    match ListIndex(lib)
    case None => None
    case Some(idx) =>
      var el := CreatePkgElement(entry, ChildTag(lib.listTag));
      var lib1 := lib.(root := SetChild(lib.root, idx, Append(lib.root.children[idx], el)));
      if el.attrib["Type"] == "Package" && lib.listTag != "Objects"
      then Some(ConvertWith(lib1, lib.listTag, "Objects", overwrite))
      else Some(lib1)
  }

  /** `_addObjectElement` as the source writes it: the conversion overwrites
      every entry's `Type` with `File`, the new package's included. */
  function AddObjectElementAsWritten(lib: Library, entry: Entry): (r: Option<Library>)
    ensures r.Some? <==> ListIndex(lib).Some?
    ensures r.Some? && PkgType(entry.kind) == "Package" ==> r.value.listTag == "Objects"
    ensures r.Some? && PkgType(entry.kind) != "Package" ==> r.value.listTag == lib.listTag
  {
    AddObjectElementWith(lib, entry, true)
  }

  /** `_addObjectElement` with the conversion adding `Type="File"` only to the
      entries that lack a `Type` (those written in the `Files` form). */
  function AddObjectElement(lib: Library, entry: Entry): (r: Option<Library>)
    ensures r.Some? <==> ListIndex(lib).Some?
    ensures r.Some? ==> r.value.name == lib.name && r.value.root.tag == lib.root.tag
    ensures r.Some? && PkgType(entry.kind) == "Package" ==> r.value.listTag == "Objects"
    ensures r.Some? && PkgType(entry.kind) != "Package" ==> r.value.listTag == lib.listTag
  {
    AddObjectElementWith(lib, entry, false)
  }

  // ---------------------------------------------------------------- the object list invariant

  /** The object list sits at `idx`, carries the current list tag, and no
      earlier child is a `Files` or `Objects` list. */
  predicate Wellformed(lib: Library, idx: nat) {
    && idx < |lib.root.children|
    && lib.root.children[idx].tag == NS(lib) + lib.listTag
    && forall j :: 0 <= j < idx ==>
      lib.root.children[j].tag != NS(lib) + "Files" && lib.root.children[j].tag != NS(lib) + "Objects"
  }

  lemma WellformedIndex(lib: Library, idx: nat)
    requires Wellformed(lib, idx)
    ensures ListIndex(lib) == Some(idx)
  {
    assert Matches(lib.root.children[idx], NS(lib), Tag(lib.listTag));
  }

  /** The texts of a list's entries, in order. */
  function Texts(cs: seq<Element>): (r: seq<Option<string>>)
    ensures |r| == |cs|
    ensures forall k :: 0 <= k < |cs| ==> r[k] == cs[k].text
  {
    seq(|cs|, k requires 0 <= k < |cs| => cs[k].text)
  }

  /** The entries of the object list at `idx`. */
  function ListTexts(lib: Library, idx: nat): seq<Option<string>>
    requires idx < |lib.root.children|
  {
    Texts(lib.root.children[idx].children)
  }

  /** Adding an object keeps the list where it was and appends the entry's name. */
  lemma AddObjectAppends(lib: Library, entry: Entry, overwrite: bool, idx: nat)
    requires Wellformed(lib, idx)
    ensures AddObjectElementWith(lib, entry, overwrite).Some?
    ensures var r := AddObjectElementWith(lib, entry, overwrite).value;
      Wellformed(r, idx) && NS(r) == NS(lib) &&
      ListTexts(r, idx) == ListTexts(lib, idx) + [Some(entry.name)]
  {
    WellformedIndex(lib, idx);
    var el := CreatePkgElement(entry, ChildTag(lib.listTag));
    var lib1 := lib.(root := SetChild(lib.root, idx, Append(lib.root.children[idx], el)));
    assert NS(lib1) == NS(lib);
    assert Texts(lib1.root.children[idx].children) == ListTexts(lib, idx) + [Some(entry.name)];
    if el.attrib["Type"] == "Package" && lib.listTag != "Objects" {
      var r := ConvertWith(lib1, lib.listTag, "Objects", overwrite);
      assert NS(r) == NS(lib);
      assert r.root.children[idx] == RetagList(lib1.root.children[idx], NS(lib), "Objects", overwrite);
      assert Texts(r.root.children[idx].children) == Texts(lib1.root.children[idx].children);
      forall j | 0 <= j < idx
        ensures r.root.children[j] == lib.root.children[j]
      {
        assert lib1.root.children[j] == lib.root.children[j];
      }
    }
  }

  /** Adding anything but a package never converts the list. */
  lemma AddNonPackageKeepsTag(lib: Library, entry: Entry, overwrite: bool, idx: nat)
    requires Wellformed(lib, idx) && PkgType(entry.kind) != "Package"
    ensures var r := AddObjectElementWith(lib, entry, overwrite).value;
      r.listTag == lib.listTag &&
      r.root.children[idx].tag == lib.root.children[idx].tag &&
      r.root.children[idx].children == lib.root.children[idx].children + [CreatePkgElement(entry, ChildTag(lib.listTag))]
  {
    WellformedIndex(lib, idx);
  }

  /** Adding a package to a `Files` list as the source does: the list becomes
      `Objects`, every entry an `Object` whose `Type` is `File`, the package
      just added included. */
  lemma PackageConversionAsWritten(lib: Library, entry: Entry, idx: nat)
    requires Wellformed(lib, idx) && lib.listTag == "Files" && PkgType(entry.kind) == "Package"
    ensures var r := AddObjectElementAsWritten(lib, entry).value;
      var l := r.root.children[idx];
      && r.listTag == "Objects"
      && l.tag == NS(lib) + "Objects"
      && |l.children| == |lib.root.children[idx].children| + 1
      && (forall k :: 0 <= k < |l.children| ==>
        l.children[k].tag == NS(lib) + "Object" && l.children[k].attrib["Type"] == "File")
      && l.children[|l.children| - 1].text == Some(entry.name)
  {
    WellformedIndex(lib, idx);
  }

  /** The corrected conversion keeps the package's `Type`, keeps every
      `Type` already present, and adds `File` where none was. */
  lemma PackageConversion(lib: Library, entry: Entry, idx: nat)
    requires Wellformed(lib, idx) && lib.listTag == "Files" && PkgType(entry.kind) == "Package"
    ensures var r := AddObjectElement(lib, entry).value;
      var l := r.root.children[idx];
      var old_ := lib.root.children[idx].children;
      && r.listTag == "Objects"
      && l.tag == NS(lib) + "Objects"
      && |l.children| == |old_| + 1
      && l.children[|old_|].attrib["Type"] == "Package"
      && l.children[|old_|].text == Some(entry.name)
      && (forall k :: 0 <= k < |l.children| ==> l.children[k].tag == NS(lib) + "Object")
      && (forall k :: 0 <= k < |old_| ==>
        l.children[k].attrib["Type"] == (if "Type" in old_[k].attrib then old_[k].attrib["Type"] else "File"))
  {
    WellformedIndex(lib, idx);
  }

  // ---------------------------------------------------------------- synchronize

  /** The list entries `synchronize` keeps: those whose text names an entry
      of the folder, in their original order. */
  function KeepListed(cs: seq<Element>, names: seq<string>): (r: seq<Element>)
    ensures forall c :: c in r <==> c in cs && c.text.Some? && c.text.value in names
    ensures |r| <= |cs|
  {
    if |cs| == 0 then []
    else if cs[0].text.Some? && cs[0].text.value in names then [cs[0]] + KeepListed(cs[1..], names)
    else KeepListed(cs[1..], names)
  }

  /** Keeping entries preserves their order and multiplicity: it distributes
      over concatenation. */
  lemma {:induction false} KeepListedAppend(a: seq<Element>, b: seq<Element>, names: seq<string>)
    ensures KeepListed(a + b, names) == KeepListed(a, names) + KeepListed(b, names)
  {
    if |a| == 0 {
      assert a + b == b;
    } else {
      assert (a + b)[1..] == a[1..] + b;
      KeepListedAppend(a[1..], b, names);
    }
  }

  /** `usedItems`: the names the kept entries carry. */
  function UsedNames(cs: seq<Element>): (r: seq<string>)
    requires forall k :: 0 <= k < |cs| ==> cs[k].text.Some?
    ensures |r| == |cs|
    ensures forall k :: 0 <= k < |cs| ==> cs[k].text == Some(r[k])
  {
    seq(|cs|, k requires 0 <= k < |cs| => cs[k].text.value)
  }

  /** Folder entries that never go into the object list: the manifest itself
      and the per-target binary folders. */
  predicate Skipped(name: string) {
    Extension(name) == ".lby" || name in {"SG4", "SG3", "SGC"}
  }

  /** The folder names `synchronize` appends, in listing order. */
  function Added(items: seq<Entry>, used: seq<string>): (r: seq<string>)
    ensures forall n :: n in r <==> n in Names(items) && n !in used && !Skipped(n)
  {
    if |items| == 0 then []
    else
      assert Names(items) == [items[0].name] + Names(items[1..]);
      var rest := Added(items[1..], used);
      if items[0].name !in used && !Skipped(items[0].name) then [items[0].name] + rest else rest
  }

  /** One name per added entry, in listing order: `Added` distributes over
      concatenation, and a single entry adds its own name or nothing. */
  lemma {:induction false} AddedAppend(a: seq<Entry>, b: seq<Entry>, used: seq<string>)
    ensures Added(a + b, used) == Added(a, used) + Added(b, used)
    ensures |a| == 1 ==>
      Added(a, used) == if a[0].name !in used && !Skipped(a[0].name) then [a[0].name] else []
  {
    if |a| == 0 {
      assert a + b == b;
    } else {
      assert (a + b)[1..] == a[1..] + b;
      AddedAppend(a[1..], b, used);
      if |a| == 1 {
        assert a[1..] == [];
      }
    }
  }

  function Somes(ns: seq<string>): (r: seq<Option<string>>)
    ensures |r| == |ns| && forall k :: 0 <= k < |ns| ==> r[k] == Some(ns[k])
  {
    seq(|ns|, k requires 0 <= k < |ns| => Some(ns[k]))
  }

  /** The loop adding every folder entry not yet listed. */
  function AddMissing(lib: Library, items: seq<Entry>, used: seq<string>): (r: Option<Library>)
    ensures r.Some? ==> r.value.name == lib.name && r.value.root.tag == lib.root.tag
    decreases |items|
  {
    if |items| == 0 then Some(lib)
    else if items[0].name !in used && !Skipped(items[0].name) then
      match AddObjectElement(lib, items[0])
      case None => None
      case Some(l) => AddMissing(l, items[1..], used)
    else AddMissing(lib, items[1..], used)
  }

  /** What the add-missing loop keeps between the library it starts from and
      the one it reaches. */
  predicate Grown(lib: Library, r: Library, idx: nat, added: seq<string>)
    requires idx < |lib.root.children|
  {
    && Wellformed(r, idx) && NS(r) == NS(lib) && r.name == lib.name && r.root.tag == lib.root.tag
    && ListTexts(r, idx) == ListTexts(lib, idx) + Somes(added)
  }

  lemma {:induction false} AddMissingAppends(lib: Library, items: seq<Entry>, used: seq<string>, idx: nat)
    requires Wellformed(lib, idx)
    ensures AddMissing(lib, items, used).Some?
    ensures Grown(lib, AddMissing(lib, items, used).value, idx, Added(items, used))
    decreases |items|
  {
    if |items| > 0 {
      if items[0].name !in used && !Skipped(items[0].name) {
        AddMissingAddStep(lib, items, used, idx);
      } else {
        AddMissingAppends(lib, items[1..], used, idx);
        assert AddMissing(lib, items, used) == AddMissing(lib, items[1..], used);
        assert Added(items, used) == Added(items[1..], used);
      }
    } else {
      assert Somes([]) == [];
      assert ListTexts(lib, idx) + [] == ListTexts(lib, idx);
    }
  }

  lemma {:induction false} AddMissingAddStep(lib: Library, items: seq<Entry>, used: seq<string>, idx: nat)
    requires Wellformed(lib, idx)
    requires |items| > 0 && items[0].name !in used && !Skipped(items[0].name)
    ensures AddMissing(lib, items, used).Some?
    ensures Grown(lib, AddMissing(lib, items, used).value, idx, Added(items, used))
    decreases |items|, 0
  {
    AddObjectAppends(lib, items[0], false, idx);
    var l := AddObjectElement(lib, items[0]).value;
    AddMissingUnfold(lib, items, used);
    AddMissingAppends(l, items[1..], used, idx);
    var rest := Added(items[1..], used);
    assert Added(items, used) == [items[0].name] + rest;
    GrownTrans(lib, l, AddMissing(l, items[1..], used).value, idx, items[0].name, rest);
  }

  lemma AddMissingUnfold(lib: Library, items: seq<Entry>, used: seq<string>)
    requires |items| > 0 && items[0].name !in used && !Skipped(items[0].name)
    requires AddObjectElement(lib, items[0]).Some?
    ensures AddMissing(lib, items, used) == AddMissing(AddObjectElement(lib, items[0]).value, items[1..], used)
  {
  }

  lemma GrownTrans(lib: Library, l: Library, r: Library, idx: nat, n: string, rest: seq<string>)
    requires idx < |lib.root.children|
    requires Wellformed(l, idx) && NS(l) == NS(lib) && l.name == lib.name && l.root.tag == lib.root.tag
    requires ListTexts(l, idx) == ListTexts(lib, idx) + [Some(n)]
    requires Grown(l, r, idx, rest)
    ensures Grown(lib, r, idx, [n] + rest)
  {
    assert Somes([n] + rest) == [Some(n)] + Somes(rest);
  }

  /** When every entry is already listed or skipped, nothing is added. */
  lemma {:induction false} AddMissingNothing(lib: Library, items: seq<Entry>, used: seq<string>)
    requires forall k :: 0 <= k < |items| ==> items[k].name in used || Skipped(items[k].name)
    ensures AddMissing(lib, items, used) == Some(lib)
    decreases |items|
  {
    if |items| > 0 {
      AddMissingNothing(lib, items[1..], used);
    }
  }

  /** The library with its object list at `idx` cut down to the listed entries. */
  function Pruned(lib: Library, idx: nat, names: seq<string>): (r: Library)
    requires idx < |lib.root.children|
    ensures r.name == lib.name && r.listTag == lib.listTag && r.root.tag == lib.root.tag
    ensures |r.root.children| == |lib.root.children|
    ensures forall j :: 0 <= j < |lib.root.children| && j != idx ==> r.root.children[j] == lib.root.children[j]
    ensures r.root.children[idx].tag == lib.root.children[idx].tag
    ensures r.root.children[idx].children == KeepListed(lib.root.children[idx].children, names)
  {
    var l := lib.root.children[idx];
    lib.(root := SetChild(lib.root, idx, l.(children := KeepListed(l.children, names))))
  }

  function KeptNames(lib: Library, idx: nat, names: seq<string>): seq<string>
    requires idx < |lib.root.children|
  {
    UsedNames(KeepListed(lib.root.children[idx].children, names))
  }

  /** `synchronize(listing)`: entries naming nothing in the folder are
      removed, then every folder entry not yet listed (and not skipped) is
      appended in listing order. `None` when the library has no object list
      (iterating `None` raises). */
  function Synchronize(lib: Library, listing: seq<Entry>): (r: Option<Library>)
    ensures ListIndex(lib).None? ==> r.None?
    ensures r.Some? ==> r.value.name == lib.name && r.value.root.tag == lib.root.tag
  {
    match ListIndex(lib)
    case None => None
    case Some(idx) =>
      var names := Names(listing);
      AddMissing(Pruned(lib, idx, names), listing, KeptNames(lib, idx, names))
  }

  /** What synchronising a well-formed library yields: the object list stays
      in place and holds the kept entries, in their old order, followed by
      the added ones, in listing order. */
  lemma SynchronizeShape(lib: Library, listing: seq<Entry>, idx: nat)
    requires Wellformed(lib, idx)
    ensures Synchronize(lib, listing).Some?
    ensures var r := Synchronize(lib, listing).value;
      var names := Names(listing);
      && Wellformed(r, idx) && NS(r) == NS(lib) && r.name == lib.name && r.root.tag == lib.root.tag
      && ListTexts(r, idx) ==
        Texts(KeepListed(lib.root.children[idx].children, names))
        + Somes(Added(listing, KeptNames(lib, idx, names)))
  {
    WellformedIndex(lib, idx);
    var names := Names(listing);
    var p := Pruned(lib, idx, names);
    assert Wellformed(p, idx);
    AddMissingAppends(p, listing, KeptNames(lib, idx, names), idx);
  }

  /** After synchronising, every entry of the object list names something in
      the folder, and every folder entry that is not skipped is listed. */
  lemma SynchronizeMatchesFolder(lib: Library, listing: seq<Entry>, idx: nat)
    requires Wellformed(lib, idx)
    ensures Synchronize(lib, listing).Some? && Wellformed(Synchronize(lib, listing).value, idx)
    ensures var r := Synchronize(lib, listing).value;
      var ts := ListTexts(r, idx);
      && (forall k :: 0 <= k < |ts| ==> ts[k].Some? && ts[k].value in Names(listing))
      && (forall e :: e in listing && !Skipped(e.name) ==> Some(e.name) in ts)
  {
    SynchronizeListsFolder(lib, listing, idx);
    SynchronizeListsAll(lib, listing, idx);
  }

  lemma SynchronizeListsFolder(lib: Library, listing: seq<Entry>, idx: nat)
    requires Wellformed(lib, idx)
    ensures Synchronize(lib, listing).Some? && Wellformed(Synchronize(lib, listing).value, idx)
    ensures var ts := ListTexts(Synchronize(lib, listing).value, idx);
      forall k :: 0 <= k < |ts| ==> ts[k].Some? && ts[k].value in Names(listing)
  {
    SynchronizeShape(lib, listing, idx);
    var names := Names(listing);
    var r := Synchronize(lib, listing).value;
    var kept := KeepListed(lib.root.children[idx].children, names);
    var added := Added(listing, KeptNames(lib, idx, names));
    var ts := ListTexts(r, idx);
    assert ts == Texts(kept) + Somes(added);
    forall k | 0 <= k < |ts|
      ensures ts[k].Some? && ts[k].value in names
    {
      if k < |kept| {
        assert kept[k] in kept;
      } else {
        assert added[k - |kept|] in added;
      }
    }
  }

  lemma SynchronizeListsAll(lib: Library, listing: seq<Entry>, idx: nat)
    requires Wellformed(lib, idx)
    ensures Synchronize(lib, listing).Some? && Wellformed(Synchronize(lib, listing).value, idx)
    ensures var ts := ListTexts(Synchronize(lib, listing).value, idx);
      forall e :: e in listing && !Skipped(e.name) ==> Some(e.name) in ts
  {
    SynchronizeShape(lib, listing, idx);
    var names := Names(listing);
    var r := Synchronize(lib, listing).value;
    var kept := KeepListed(lib.root.children[idx].children, names);
    var used := KeptNames(lib, idx, names);
    var added := Added(listing, used);
    var ts := ListTexts(r, idx);
    assert ts == Texts(kept) + Somes(added);
    forall e | e in listing && !Skipped(e.name)
      ensures Some(e.name) in ts
    {
      var i :| 0 <= i < |listing| && listing[i] == e;
      assert names[i] == e.name;
      ListedOrAdded(kept, used, added, e.name);
    }
  }

  /** A name the kept entries carry, or one that was added, is listed. */
  lemma ListedOrAdded(kept: seq<Element>, used: seq<string>, added: seq<string>, n: string)
    requires |used| == |kept| && forall k :: 0 <= k < |kept| ==> kept[k].text == Some(used[k])
    requires n in used || n in added
    ensures Some(n) in Texts(kept) + Somes(added)
  {
    var ts := Texts(kept) + Somes(added);
    if n in used {
      var k :| 0 <= k < |used| && used[k] == n;
      assert ts[k] == Some(n);
    } else {
      var k :| 0 <= k < |added| && added[k] == n;
      assert ts[|kept| + k] == Some(n);
    }
  }

  /** Synchronising twice against the same folder is synchronising once. */
  lemma SynchronizeIdempotent(lib: Library, listing: seq<Entry>, idx: nat)
    requires Wellformed(lib, idx)
    ensures Synchronize(lib, listing).Some?
    ensures Synchronize(Synchronize(lib, listing).value, listing) == Synchronize(lib, listing)
  {
    SynchronizeMatchesFolder(lib, listing, idx);
    var r := Synchronize(lib, listing).value;
    SynchronizeFixed(r, listing, idx);
    assert Synchronize(r, listing) == Some(r);
  }

  /** A library whose object list already matches the folder is left alone. */
  lemma SynchronizeFixed(r: Library, listing: seq<Entry>, idx: nat)
    requires Wellformed(r, idx)
    requires var ts := ListTexts(r, idx);
      && (forall k :: 0 <= k < |ts| ==> ts[k].Some? && ts[k].value in Names(listing))
      && (forall e :: e in listing && !Skipped(e.name) ==> Some(e.name) in ts)
    ensures Synchronize(r, listing) == Some(r)
  {
    WellformedIndex(r, idx);
    var names := Names(listing);
    var ts := ListTexts(r, idx);
    PrunedAll(r, idx, names);
    var used := KeptNames(r, idx, names);
    assert forall k :: 0 <= k < |ts| ==> ts[k] == Some(used[k]);
    forall k | 0 <= k < |listing|
      ensures listing[k].name in used || Skipped(listing[k].name)
    {
      if !Skipped(listing[k].name) {
        assert listing[k] in listing;
        var j :| 0 <= j < |ts| && ts[j] == Some(listing[k].name);
        assert used[j] == listing[k].name;
      }
    }
    AddMissingNothing(r, listing, used);
  }

  lemma PrunedAll(r: Library, idx: nat, names: seq<string>)
    requires idx < |r.root.children|
    requires forall k :: 0 <= k < |ListTexts(r, idx)| ==> ListTexts(r, idx)[k].Some? && ListTexts(r, idx)[k].value in names
    ensures Pruned(r, idx, names) == r
    ensures KeptNames(r, idx, names) == UsedNames(r.root.children[idx].children)
  {
    var l := r.root.children[idx];
    assert forall k :: 0 <= k < |l.children| ==> l.children[k].text == ListTexts(r, idx)[k];
    KeepAllListed(l.children, names);
    assert l.(children := l.children) == l;
    assert r.root.children[idx := l] == r.root.children;
  }

  /** Entries that all name something are all kept. */
  lemma {:induction false} KeepAllListed(cs: seq<Element>, names: seq<string>)
    requires forall k :: 0 <= k < |cs| ==> cs[k].text.Some? && cs[k].text.value in names
    ensures KeepListed(cs, names) == cs
  {
    if |cs| > 0 {
      KeepAllListed(cs[1..], names);
    }
  }
}
