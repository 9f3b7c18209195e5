/** The file-system facts the project files are reconciled against: a folder
    listing, and the classification of a folder by the marker files it holds
    (`ANSIC.lby`, `IEC.prg`, ...). */
module Directory {

  import opened Wrappers

  /** A file, or a folder together with the names it contains. */
  datatype Kind = FileKind | FolderKind(contents: set<string>)

  /** One name returned by `os.listdir`. */
  datatype Entry = Entry(name: string, kind: Kind)

  /** The languages a library or program can be written in, in the order
      the source looks for their marker files. */
  const Languages: seq<string> := ["ANSIC", "IEC", "Binary"]

  /** The names of a listing. */
  function Names(listing: seq<Entry>): (r: seq<string>)
    ensures |r| == |listing|
    ensures forall k :: 0 <= k < |listing| ==> r[k] == listing[k].name
  {
    seq(|listing|, k requires 0 <= k < |listing| => listing[k].name)
  }

  /** `os.listdir` never repeats a name. */
  predicate Unique(listing: seq<Entry>) {
    forall j, k :: 0 <= j < k < |listing| ==> listing[j].name != listing[k].name
  }

  /** The entry at `k` is the first one called `name`. */
  predicate FirstNamed(listing: seq<Entry>, name: string, k: int) {
    0 <= k < |listing| && listing[k].name == name &&
    forall j :: 0 <= j < k ==> listing[j].name != name
  }

  /** The entry called `name`, if the listing has one. */
  function Lookup(listing: seq<Entry>, name: string): (r: Option<Entry>)
    ensures r.Some? ==> r.value in listing && r.value.name == name
    ensures r.None? <==> name !in Names(listing)
  {
    if |listing| == 0 then None
    else if listing[0].name == name then Some(listing[0])
    else
      assert Names(listing) == [listing[0].name] + Names(listing[1..]);
      Lookup(listing[1..], name)
  }

  /** The entry found is the first one called `name`. */
  lemma {:induction false} LookupFirst(listing: seq<Entry>, name: string)
    ensures Lookup(listing, name).Some? ==>
      exists k :: FirstNamed(listing, name, k) && listing[k] == Lookup(listing, name).value
  {
    if |listing| > 0 {
      if listing[0].name == name {
        assert FirstNamed(listing, name, 0);
      } else {
        LookupFirst(listing[1..], name);
        var r := Lookup(listing, name);
        if r.Some? {
          var k :| FirstNamed(listing[1..], name, k) && listing[1..][k] == r.value;
          assert FirstNamed(listing, name, k + 1);
        }
      }
    }
  }

  /** `getLibraryType` (extension `.lby`) and `getProgramType` (`.prg`): the
      first language whose marker file the folder holds, or "None". */
  function LanguageOf(contents: set<string>, ext: string): (r: string)
    ensures r == "None" <==> forall l :: l in Languages ==> l + ext !in contents
    ensures r != "None" ==> r in Languages && r + ext in contents
    ensures forall k :: 0 <= k < |Languages| && Languages[k] == r ==>
      forall j :: 0 <= j < k ==> Languages[j] + ext !in contents
  {
    if "ANSIC" + ext in contents then "ANSIC"
    else if "IEC" + ext in contents then "IEC"
    else if "Binary" + ext in contents then "Binary"
    else "None"
  }

  function LibraryType(contents: set<string>): string {
    LanguageOf(contents, ".lby")
  }

  function ProgramType(contents: set<string>): string {
    LanguageOf(contents, ".prg")
  }

  predicate HasLibraryMarker(contents: set<string>) {
    exists l :: l in Languages && l + ".lby" in contents
  }

  predicate HasProgramMarker(contents: set<string>) {
    exists l :: l in Languages && l + ".prg" in contents
  }

  /** `getPkgType` of an existing path: a folder is a library if it holds a
      library marker, else a program if it holds a program marker, else a
      package; anything else is a file. */
  function PkgType(kind: Kind): (r: string)
    ensures r in {"Library", "Program", "Package", "File"}
    ensures r == "File" <==> kind.FileKind?
    ensures r == "Library" <==> kind.FolderKind? && HasLibraryMarker(kind.contents)
    ensures r == "Program" <==>
      kind.FolderKind? && !HasLibraryMarker(kind.contents) && HasProgramMarker(kind.contents)
  {
    match kind
    case FileKind => "File"
    case FolderKind(c) =>
      if LibraryType(c) != "None" then "Library"
      else if ProgramType(c) != "None" then "Program"
      else "Package"
  }

  /** `getPkgType` of a name in a listing: a missing path raises
      `FileNotFoundError`, modelled as `None`. */
  function PkgTypeAt(listing: seq<Entry>, name: string): (r: Option<string>)
    ensures r.None? <==> name !in Names(listing)
    ensures r.Some? ==> exists k :: FirstNamed(listing, name, k) && r.value == PkgType(listing[k].kind)
  {
    LookupFirst(listing, name);
    match Lookup(listing, name)
    case None => None
    case Some(e) => Some(PkgType(e.kind))
  }
}
