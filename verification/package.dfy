/** A package manifest (`Package.pkg`): its `<Objects>` list, reconciled
    with the folder the package lives in. */
module PackageFile {

  import opened Wrappers
  import opened Xml
  import opened Directory
  import opened LibraryFile

  /** An opened package: its document and the file name of the manifest
      itself, which the folder listing also shows. */
  datatype Package = Package(root: Root, fileName: string)

  /** Where `objects` (the `<Objects>` element) sits among the root's children. */
  function ObjectsIndex(pkg: Package): Option<nat> {
    FirstIndex(pkg.root.children, Prefix(pkg.root), Tag("Objects"))
  }

  /** `_createElement` for a path in the package folder: an `Object` entry. */
  function CreateObject(entry: Entry): Element {
    CreatePkgElement(entry, "Object")
  }

  /** The package with the entries of its `<Objects>` element replaced. */
  function WithObjects(pkg: Package, idx: nat, cs: seq<Element>): (r: Package)
    requires idx < |pkg.root.children|
    ensures r.fileName == pkg.fileName && r.root.tag == pkg.root.tag
    ensures |r.root.children| == |pkg.root.children|
    ensures r.root.children[idx] == pkg.root.children[idx].(children := cs)
    ensures forall j :: 0 <= j < |pkg.root.children| && j != idx ==> r.root.children[j] == pkg.root.children[j]
  {
    var l := pkg.root.children[idx];
    pkg.(root := SetChild(pkg.root, idx, l.(children := cs)))
  }

  // ---------------------------------------------------------------- as written

  /** `_removePkgObject(name)` on the live list: walking forward by index,
      every entry whose text equals `name` is removed, and the entry that
      slides into the removed one's place is not looked at. */
  function RemoveByText(cs: seq<Element>, name: Option<string>, j: nat): (r: seq<Element>)
    ensures |r| <= |cs|
    ensures forall x :: x in cs && x.text != name ==> x in r
    ensures forall x :: x in r ==> x in cs
    decreases |cs| - j
  {
    if j >= |cs| then cs
    else if cs[j].text == name then
      var cs' := cs[..j] + cs[j + 1..];
      assert forall x :: x in cs && x != cs[j] ==> x in cs' by {
        forall x | x in cs && x != cs[j] ensures x in cs' {
          var i :| 0 <= i < |cs| && cs[i] == x;
          if i < j { assert cs'[i] == x; } else { assert cs'[i - 1] == x; }
        }
      }
      RemoveByText(cs', name, j + 1)
    else RemoveByText(cs, name, j + 1)
  }

  /** The first loop of `synchPackageFile`, walking the live list by index:
      an entry whose text is not in the folder has every entry of that text
      removed (and the next entry slides past the walk); an entry whose text
      is in the folder is recorded in `seen`. */
  function Scan(cs: seq<Element>, k: nat, names: seq<string>, seen: set<string>): (r: (seq<Element>, set<string>))
    ensures forall n :: n in r.1 ==> n in seen || n in names
    ensures seen <= r.1
    decreases |cs| - k
  {
    if k >= |cs| then (cs, seen)
    else
      var e := cs[k];
      if e.text.None? || e.text.value !in names then Scan(RemoveByText(cs, e.text, 0), k + 1, names, seen)
      else Scan(cs, k + 1, names, seen + {e.text.value})
  }

  /** The second loop: every folder entry that is not the manifest and was
      not seen gets a new `Object` entry, in listing order. */
  function AddUnseen(items: seq<Entry>, fileName: string, seen: set<string>): (r: seq<Element>)
    ensures forall e :: e in items && e.name != fileName && e.name !in seen ==> CreateObject(e) in r
    ensures forall x :: x in r ==> x.text.Some? && x.text.value in Names(items) && x.text.value !in seen
    ensures forall x :: x in r ==> x.text.value != fileName
  {
    if |items| == 0 then []
    else
      assert Names(items) == [items[0].name] + Names(items[1..]);
      var rest := AddUnseen(items[1..], fileName, seen);
      if items[0].name == fileName || items[0].name in seen then rest
      else [CreateObject(items[0])] + rest
  }

  /** One new entry per unseen folder entry, in listing order: `AddUnseen`
      distributes over concatenation. */
  lemma {:induction false} AddUnseenAppend(a: seq<Entry>, b: seq<Entry>, fileName: string, seen: set<string>)
    ensures AddUnseen(a + b, fileName, seen) == AddUnseen(a, fileName, seen) + AddUnseen(b, fileName, seen)
  {
    if |a| == 0 {
      assert a + b == b;
    } else {
      var ab := a + b;
      assert ab[0] == a[0] && ab[1..] == a[1..] + b;
      AddUnseenAppend(a[1..], b, fileName, seen);
      var front := AddUnseen(a[1..], fileName, seen);
      var back := AddUnseen(b, fileName, seen);
      assert AddUnseen(ab[1..], fileName, seen) == front + back;
      if !(a[0].name == fileName || a[0].name in seen) {
        var x := CreateObject(a[0]);
        assert [x] + (front + back) == ([x] + front) + back;
      }
    }
  }

  /** A single folder entry gives its own `Object`, or nothing when it is the
      manifest or already seen. */
  lemma AddUnseenOne(e: Entry, fileName: string, seen: set<string>)
    ensures AddUnseen([e], fileName, seen) == if e.name == fileName || e.name in seen then [] else [CreateObject(e)]
  {
    assert [e][1..] == [];
  }

  /** The entry list `synchPackageFile` leaves, as the source computes it. */
  function SynchObjectsAsWritten(cs: seq<Element>, listing: seq<Entry>, fileName: string): seq<Element> {
    var scanned := Scan(cs, 0, Names(listing), {});
    scanned.0 + AddUnseen(listing, fileName, scanned.1)
  }

  /** `synchPackageFile` as the source writes it; `None` when the package has
      no `<Objects>` element (iterating `None` raises). */
  function SynchPackageFileAsWritten(pkg: Package, listing: seq<Entry>): (r: Option<Package>)
    ensures r.Some? <==> ObjectsIndex(pkg).Some?
  {
    match ObjectsIndex(pkg)
    case None => None
    case Some(idx) =>
      Some(WithObjects(pkg, idx, SynchObjectsAsWritten(pkg.root.children[idx].children, listing, pkg.fileName)))
  }

  /** Every name the scan records stays on the list: removals only take
      entries whose text is not in the folder. */
  lemma {:induction false} ScanKeepsSeen(cs: seq<Element>, k: nat, names: seq<string>, seen: set<string>)
    requires forall n :: n in seen ==> n in names && exists x :: x in cs && x.text == Some(n)
    ensures var r := Scan(cs, k, names, seen);
      forall n :: n in r.1 ==> exists x :: x in r.0 && x.text == Some(n)
    decreases |cs| - k
  {
    if k < |cs| {
      var e := cs[k];
      if e.text.None? || e.text.value !in names {
        var cs' := RemoveByText(cs, e.text, 0);
        forall n | n in seen
          ensures exists x :: x in cs' && x.text == Some(n)
        {
          var x :| x in cs && x.text == Some(n);
          assert x.text != e.text;
        }
        ScanKeepsSeen(cs', k + 1, names, seen);
      } else {
        assert e in cs;
        ScanKeepsSeen(cs, k + 1, names, seen + {e.text.value});
      }
    }
  }

  /** Even as written, every folder entry other than the manifest is listed
      afterwards. */
  lemma SynchAsWrittenCovers(cs: seq<Element>, listing: seq<Entry>, fileName: string)
    ensures forall e :: e in listing && e.name != fileName ==>
      exists x :: x in SynchObjectsAsWritten(cs, listing, fileName) && x.text == Some(e.name)
  {
    var scanned := Scan(cs, 0, Names(listing), {});
    ScanKeepsSeen(cs, 0, Names(listing), {});
    var r := SynchObjectsAsWritten(cs, listing, fileName);
    forall e | e in listing && e.name != fileName
      ensures exists x :: x in r && x.text == Some(e.name)
    {
      if e.name in scanned.1 {
        var x :| x in scanned.0 && x.text == Some(e.name);
        assert x in r;
      } else {
        assert CreateObject(e) in r;
      }
    }
  }

  function Obj(name: string): Element {
    Element("Object", map["Type" := "File"], Some(name), Some("\n"), [])
  }

  /** The removal inside the walk skips the entry after a removed one: with
      `gone` no longer in the folder, `kept` is never recorded and is added a
      second time. */
  lemma SynchAsWrittenDuplicates()
    ensures var listing := [Entry("kept", FileKind), Entry("Package.pkg", FileKind)];
      Texts(SynchObjectsAsWritten([Obj("gone"), Obj("kept")], listing, "Package.pkg")) == [Some("kept"), Some("kept")]
  {
    var listing := [Entry("kept", FileKind), Entry("Package.pkg", FileKind)];
    var names := Names(listing);
    assert names == ["kept", "Package.pkg"];
    var cs := [Obj("gone"), Obj("kept")];
    assert "gone" !in names;
    var cs1 := RemoveByText(cs, Some("gone"), 0);
    assert cs1 == RemoveByText([Obj("kept")], Some("gone"), 1);
    assert cs1 == [Obj("kept")];
    assert Scan(cs, 0, names, {}) == Scan(cs1, 1, names, {});
    assert Scan(cs, 0, names, {}) == ([Obj("kept")], {});
    var added := AddUnseen(listing, "Package.pkg", {});
    assert AddUnseen(listing[1..], "Package.pkg", {}) == AddUnseen([], "Package.pkg", {});
    assert added == [CreateObject(listing[0])];
  }

  /** Two neighbouring entries that both left the folder: the second slides
      past the walk and stays on the list, naming nothing. */
  lemma SynchAsWrittenKeepsStale()
    ensures Texts(SynchObjectsAsWritten([Obj("a"), Obj("b")], [], "Package.pkg")) == [Some("b")]
  {
    var names := Names([]);
    assert names == [];
    var cs := [Obj("a"), Obj("b")];
    var cs1 := RemoveByText(cs, Some("a"), 0);
    assert cs1 == RemoveByText([Obj("b")], Some("a"), 1);
    assert cs1 == [Obj("b")];
    assert Scan(cs, 0, names, {}) == Scan(cs1, 1, names, {});
  }

  // ---------------------------------------------------------------- corrected

  /** `synchPackageFile` with removal done after the walk, as the library
      reconciliation does it: entries naming nothing in the folder go, then
      every unlisted folder entry other than the manifest is appended. */
  function SynchObjects(cs: seq<Element>, listing: seq<Entry>, fileName: string): (r: seq<Element>)
    ensures forall x :: x in r ==> x.text.Some? && x.text.value in Names(listing)
    ensures forall x :: x in cs && x.text.Some? && x.text.value in Names(listing) ==> x in r
  {
    var kept := KeepListed(cs, Names(listing));
    kept + AddUnseen(listing, fileName, NameSet(kept))
  }

  /** The names the kept entries carry. */
  function NameSet(cs: seq<Element>): (r: set<string>)
    ensures forall n :: n in r <==> exists x :: x in cs && x.text == Some(n)
  {
    set x | x in cs && x.text.Some? :: x.text.value
  }

  function SynchPackageFile(pkg: Package, listing: seq<Entry>): (r: Option<Package>)
    ensures r.Some? <==> ObjectsIndex(pkg).Some?
  {
    match ObjectsIndex(pkg)
    case None => None
    case Some(idx) =>
      Some(WithObjects(pkg, idx, SynchObjects(pkg.root.children[idx].children, listing, pkg.fileName)))
  }

  /** After the corrected reconciliation every entry names something in the
      folder, and everything in the folder but the manifest is listed. */
  lemma SynchObjectsMatchesFolder(cs: seq<Element>, listing: seq<Entry>, fileName: string)
    ensures var r := SynchObjects(cs, listing, fileName);
      && (forall x :: x in r ==> x.text.Some? && x.text.value in Names(listing))
      && (forall e :: e in listing && e.name != fileName ==> exists x :: x in r && x.text == Some(e.name))
  {
    var kept := KeepListed(cs, Names(listing));
    var r := SynchObjects(cs, listing, fileName);
    forall e | e in listing && e.name != fileName
      ensures exists x :: x in r && x.text == Some(e.name)
    {
      if e.name in NameSet(kept) {
        var x :| x in kept && x.text == Some(e.name);
        assert x in r;
      } else {
        assert CreateObject(e) in r;
      }
    }
  }

  predicate DistinctTexts(cs: seq<Element>) {
    forall i, j :: 0 <= i < j < |cs| ==> cs[i].text != cs[j].text
  }

  lemma {:induction false} KeepListedDistinct(cs: seq<Element>, names: seq<string>)
    requires DistinctTexts(cs)
    ensures DistinctTexts(KeepListed(cs, names))
  {
    if |cs| > 0 {
      KeepListedDistinct(cs[1..], names);
      var rest := KeepListed(cs[1..], names);
      if cs[0].text.Some? && cs[0].text.value in names {
        forall j | 0 <= j < |rest|
          ensures cs[0].text != rest[j].text
        {
          assert rest[j] in cs[1..];
        }
      }
    }
  }

  lemma {:induction false} AddUnseenDistinct(items: seq<Entry>, fileName: string, seen: set<string>)
    requires Unique(items)
    ensures DistinctTexts(AddUnseen(items, fileName, seen))
  {
    if |items| > 0 {
      AddUnseenDistinct(items[1..], fileName, seen);
      var rest := AddUnseen(items[1..], fileName, seen);
      forall j | 0 <= j < |rest|
        ensures rest[j].text != Some(items[0].name)
      {
        assert rest[j] in rest;
        var n := rest[j].text.value;
        assert n in Names(items[1..]);
        var i :| 0 <= i < |items| - 1 && Names(items[1..])[i] == n;
        assert items[i + 1].name == n;
      }
    }
  }

  /** With the removal done after the walk, a list without repeated names
      stays without repeated names. */
  lemma SynchObjectsDistinct(cs: seq<Element>, listing: seq<Entry>, fileName: string)
    requires DistinctTexts(cs) && Unique(listing)
    ensures DistinctTexts(SynchObjects(cs, listing, fileName))
  {
    var kept := KeepListed(cs, Names(listing));
    var added := AddUnseen(listing, fileName, NameSet(kept));
    KeepListedDistinct(cs, Names(listing));
    AddUnseenDistinct(listing, fileName, NameSet(kept));
    var r := kept + added;
    forall i, j | 0 <= i < j < |r|
      ensures r[i].text != r[j].text
    {
      if i < |kept| && j >= |kept| {
        assert r[i] in kept;
        assert added[j - |kept|] in added;
      }
    }
  }

  /** The corrected reconciliation changes nothing the second time. */
  lemma SynchObjectsIdempotent(cs: seq<Element>, listing: seq<Entry>, fileName: string)
    ensures SynchObjects(SynchObjects(cs, listing, fileName), listing, fileName) == SynchObjects(cs, listing, fileName)
  {
    var r := SynchObjects(cs, listing, fileName);
    SynchObjectsMatchesFolder(cs, listing, fileName);
    forall k | 0 <= k < |r|
      ensures r[k].text.Some? && r[k].text.value in Names(listing)
    {
      assert r[k] in r;
    }
    KeepAllListed(r, Names(listing));
    NoneUnseen(listing, fileName, NameSet(r));
  }

  lemma {:induction false} NoneUnseen(items: seq<Entry>, fileName: string, seen: set<string>)
    requires forall e :: e in items && e.name != fileName ==> e.name in seen
    ensures AddUnseen(items, fileName, seen) == []
  {
    if |items| > 0 {
      assert items[0] in items;
      NoneUnseen(items[1..], fileName, seen);
    }
  }
}
