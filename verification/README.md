# ASTools core in Dafny

A model of the deterministic core of `ASTools.py`, the Python layer over
B&R Automation Studio project files. The model covers:

- Package manifests (`.pkg`), library manifests (`.lby`), the project's
  configurations and the software deployment table (`Cpu.sw`).
- The library export with its dependency closure.
- The build command line and the version strings.

XML documents are immutable element trees: tag, attribute map, text, tail and
children. Directories are snapshots: a sequence of named entries, each a file
or a folder with the set of names it holds. Every mutating method of the
source becomes a pure function from the old tree to the new one. Most of
these methods end by calling `write()`, which re-indents the tree before
saving it. The functions return the tree before that step. `Xml.Write`
models the re-indentation on its own, and its lemmas show that it changes
only white space. `SwDeploymentTable`'s constructor is the one place where
the write and the read-back are part of the modelled result.

Modules, one per concern:

- `Wrappers` holds `Option` and `Result`.
- `Text` and `Paths` hold the string and Windows path helpers the source
  borrows from Python.
- `Xml` holds the element tree, the namespace handling, `find`/`findall`,
  `_indentXml` and the write/read-back.
- `Directory` holds the listings and `getLibraryType`/`getProgramType`/`getPkgType`.
- `LibraryFile` holds the `Library` class's manifest side: list tag,
  dependencies, version format, `Files`→`Objects` conversion and `synchronize`.
- `PackageFile` holds `Package.synchPackageFile`.
- `Config` holds `_getConfigs` and `getConfigType`.
- `Export` holds `LibExportInfo`/`ProjectExportInfo`, `Library.export`,
  `exportLibraries` and `exportLibrary`.
- `Deployment` holds `SwDeploymentTable`.
- `Build` holds the build command line, the batch build, the version strings
  and the ignore rule of the source copy.

Things outside the program become parameters:

- The file system of an export is an oracle that says which paths exist and
  what each copy, rename or removal raises.
- The builder is an oracle giving the return code of a configuration.
- `fnmatch` is an uninterpreted predicate.
- The folder listing behind `getHardwareFolderFromConfig` is a function from
  a configuration path to its sub-folders. It returns `None` when the folder
  does not exist.

## Model

| member | source | states |
|---|---|---|
| Xml.Namespace | ASTools.py:355-363 | `None` exactly when the root tag is empty or starts with `}` (the source raises IndexError then); for a qualified tag, the text after `{` up to the first `}` or the end of the tag, holding no `}`; the empty string for a bare tag |
| Xml.NamespaceOfQualified | ASTools.py:355-363 | the namespace of `{ns}local` is `ns` whenever `ns` holds no `}` |
| Xml.NamespaceOfBare | ASTools.py:355-363 | a bare tag has the empty namespace |
| Xml.Formatted | ASTools.py:301-305 | the formatted namespace is empty exactly when the namespace is |
| Xml.FirstIndex | ASTools.py:286-291 | `find`'s step: the first child matching the qualified tag and optional attribute; `None` exactly when no child matches |
| Xml.Filter | ASTools.py:293-298 | `findall`'s step keeps exactly the matching children, none added |
| Xml.FilterAppend | ASTools.py:293-298 | the step keeps document order: filtering two runs of children is filtering each and concatenating |
| Xml.FindOneStep | ASTools.py:286-291 | a one-step `find` succeeds exactly when some child matches, and yields the first one |
| Xml.FilterFirst | ASTools.py:286-298 | `findall` is non-empty exactly when `find` succeeds, and `find` yields the head of `findall` |
| Xml.SelectAll | ASTools.py:293-298 | no steps select the elements themselves; otherwise everything selected matches the last step |
| Xml.FindAll | ASTools.py:293-298 | everything `findall` yields matches the last step of the path |
| Xml.Find | ASTools.py:286-291 | `find` yields nothing exactly when `findall` yields nothing, and otherwise one of `findall`'s results, matching the last step |
| Xml.SelectMember | ASTools.py:293-298 | an element is selected exactly when it is a matching child of one of the elements searched |
| Xml.FindAllTwoStepsMember | ASTools.py:293-298 | a two-level `findall` yields exactly the matching grandchildren under matching children |
| Xml.FindTwoSteps | ASTools.py:293-298 | a two-level `findall` is non-empty exactly when a matching child has a matching grandchild |
| Xml.Append | ASTools.py:1114 | `append` adds the element last and changes nothing else |
| Xml.Insert | ASTools.py:1172-1179 | `insert(index, e)` puts `e` at `min(index, len)` and shifts the later children by one |
| Xml.Indent | ASTools.py:337-352 | `_indentXml` keeps tag, attributes and the number of children, changes text and tail only where they are blank, and gives every element with children a text and a tail |
| Xml.IndentAll | ASTools.py:346-347 | every child is indented one level deeper |
| Xml.ResetLastTail | ASTools.py:348-349 | only the last child's tail changes, and only when it is blank |
| Xml.Write | ASTools.py:276-284 | writing keeps the root tag and the number of root children |
| Xml.IndentKeepsContent | ASTools.py:337-352 | indentation changes only whitespace-only text and tails: the tree with blank text normalised is unchanged |
| Xml.IndentIdempotent | ASTools.py:337-352 | indenting an indented element again changes nothing |
| Xml.WriteIdempotent | ASTools.py:276-284 | writing a written tree again yields the same tree |
| Xml.Reload | ASTools.py:270-284 | writing and parsing back qualifies bare tags with the default namespace and keeps the root tag and namespace |
| Xml.ReloadFinds | ASTools.py:270-291 | a child added with a bare tag is found by a namespaced `find` once the tree is written and read back |
| Xml.AppendUnderMember | ASTools.py:293-298 | after appending under one child, `findall` two levels down yields the old matches plus the new element exactly when it and its parent match |
| Directory.Names | ASTools.py:484 | the names of a listing, in order |
| Directory.Lookup | ASTools.py:1286-1287 | finds the entry of a name, `None` exactly when the name is not in the listing |
| Directory.LanguageOf | ASTools.py:1266-1284 | the first of ANSIC, IEC, Binary whose marker file is in the folder, `None` exactly when there is none |
| Directory.PkgType | ASTools.py:1286-1301 | `File` exactly for files; `Library` for a folder with a library marker; `Program` for a folder with a program marker and no library marker; `Package` for any other folder |
| Directory.PkgTypeAt | ASTools.py:1286-1301 | `None` (FileNotFoundError) exactly when the path is not in the listing; otherwise `getPkgType` of the first entry with that name |
| Directory.LookupFirst | ASTools.py:1286-1287 | the entry found for a name is the first one carrying it |
| LibraryFile.ChildTag | ASTools.py:390 | the child tag is the list tag without its trailing `s` |
| LibraryFile.FirstListIndex | ASTools.py:587-592 | the first root child whose tag, with the namespace removed, is `Files` or `Objects`; `None` exactly when there is none |
| LibraryFile.DetectListTag | ASTools.py:587-592 | `_getXmlTag`: that child's local tag, `Files` when there is none |
| LibraryFile.Open | ASTools.py:382-390 | a library opened from a tree keeps the tree and the detected list tag |
| LibraryFile.OpenFindsList | ASTools.py:382-395 | in a parsed manifest whose first list child sits at `idx`, that child is the `files` element |
| LibraryFile.Files | ASTools.py:393-395 | `files` exists exactly when the list is found, with the qualified list tag |
| LibraryFile.ReadDependency | ASTools.py:408 | each field is its attribute when present, else `Unknown` for the name and the empty string for the versions |
| LibraryFile.Dependencies | ASTools.py:404-411 | one dependency per `Dependencies/Dependency` element, in document order, the k-th read from the k-th element |
| LibraryFile.Version | ASTools.py:421-422 | the root's `Version` attribute, `0` when it has none |
| LibraryFile.DependencyNames | ASTools.py:413-418 | the names of the dependencies, in order |
| LibraryFile.CreateDependencyElement | ASTools.py:576-584 | a `Dependency` element with `ObjectName`, and `FromVersion`/`ToVersion` exactly when those versions are non-empty |
| LibraryFile.DependencyRoundTrip | ASTools.py:404-411 | reading back an element made by `_createDependencyElement` yields the dependency, using the `Unknown`/empty defaults |
| LibraryFile.ParseAll | ASTools.py:557-558 | every field parsed as `int()` parses it, `None` exactly when some field does not parse |
| LibraryFile.FormatVersionString | ASTools.py:555-559 | fails (ValueError) exactly when some dot-separated field is not an integer |
| LibraryFile.FormatVersionValues | ASTools.py:555-559 | the result has one field per input field, each the decimal form of the parsed value |
| LibraryFile.FormatVersionIdempotent | ASTools.py:555-559 | formatting a formatted version changes nothing |
| LibraryFile.FormatVersionFields | ASTools.py:555-559 | the formatted version's fields are the decimal forms of the parsed fields |
| LibraryFile.CreatePkgElement | ASTools.py:562-574 | an element with the entry's name as text, `Type` from `getPkgType` and `Language` exactly for libraries and programs |
| LibraryFile.RetagChild | ASTools.py:513-518 | a list child gets the new child tag and keeps its text and children |
| LibraryFile.RetagList | ASTools.py:511-518 | the list and every child are retagged |
| LibraryFile.ConvertWith | ASTools.py:509-522 | only the list children of the root are retagged, and the library's list tag becomes the new one |
| LibraryFile.AddObjectElementWith | ASTools.py:443-447 | fails exactly when there is no list; a package added to a non-`Objects` list converts the list to `Objects`; other additions keep the tag |
| LibraryFile.AddObjectElementAsWritten | ASTools.py:443-447 | as written: fails exactly when there is no list; adding a package makes the list `Objects`, adding anything else keeps the list tag |
| LibraryFile.AddObjectElement | ASTools.py:443-447 | corrected: fails exactly when there is no list, keeps the library name and root tag, and converts the list to `Objects` exactly for a package |
| LibraryFile.AddObjectAppends | ASTools.py:443-447 | in a well-formed library exactly one element, the new entry, is appended to the list |
| LibraryFile.AddNonPackageKeepsTag | ASTools.py:443-447 | adding a non-package never converts the list |
| LibraryFile.PackageConversionAsWritten | ASTools.py:509-522 | adding a package to a `Files` list as the source does: the list becomes `Objects` and every child, the new package included, gets `Type="File"` |
| LibraryFile.PackageConversion | ASTools.py:443-447 | the corrected conversion: the new package keeps `Type="Package"`, existing `Type`s are kept, and `File` is added where none was |
| LibraryFile.KeepListed | ASTools.py:488-499 | keeps exactly the list entries whose text names a folder entry |
| LibraryFile.KeepListedAppend | ASTools.py:488-499 | keeping is done entry by entry, in list order: keeping two runs is keeping each and concatenating |
| LibraryFile.Added | ASTools.py:501-504 | appends exactly the folder names not already used, not ending in `.lby` and not `SG4`/`SG3`/`SGC` |
| LibraryFile.AddedAppend | ASTools.py:501-504 | names are added in listing order, one per entry: adding for two runs is adding for each and concatenating, and a single entry adds its own name or nothing |
| LibraryFile.AddMissingAppends | ASTools.py:501-504 | the add loop appends one entry per added name, in listing order, and keeps the list in place |
| LibraryFile.Synchronize | ASTools.py:480-507 | fails when the manifest has no list, and keeps the library name and root tag |
| LibraryFile.SynchronizeShape | ASTools.py:480-507 | the list becomes the kept entries in their old order, followed by the added names in listing order |
| LibraryFile.SynchronizeMatchesFolder | ASTools.py:480-507 | afterwards every list entry names a folder entry, and every folder entry that is not skipped is listed |
| LibraryFile.SynchronizeIdempotent | ASTools.py:480-507 | synchronising again against the same folder changes nothing |
| LibraryFile.SynchronizeListsFolder | ASTools.py:488-499 | after synchronising, every list entry names a folder entry |
| LibraryFile.SynchronizeListsAll | ASTools.py:501-504 | after synchronising, every folder entry that is not skipped is listed |
| LibraryFile.SynchronizeFixed | ASTools.py:480-507 | a list that already matches the folder is left unchanged |
| LibraryFile.Pruned | ASTools.py:497-498 | removing the stale entries touches only the list |
| PackageFile.WithObjects | ASTools.py:1033-1046 | replacing the `Objects` children leaves every other root child alone |
| PackageFile.RemoveByText | ASTools.py:1027-1031 | `_removePkgObject`'s walk drops only entries with that text, and adds none |
| PackageFile.Scan | ASTools.py:976-980 | the walk over the live list records only names it saw in the folder |
| PackageFile.AddUnseen | ASTools.py:983-986 | appends an object for every folder entry other than the manifest that was not recorded, and for nothing else |
| PackageFile.AddUnseenAppend | ASTools.py:983-986 | objects are appended in listing order: adding for two runs is adding for each and concatenating |
| PackageFile.AddUnseenOne | ASTools.py:983-986 | a single entry adds its object exactly when it is neither the manifest nor recorded |
| PackageFile.SynchPackageFileAsWritten | ASTools.py:967-990 | fails exactly when the package has no `Objects` element |
| PackageFile.SynchAsWrittenCovers | ASTools.py:967-990 | as written, every folder entry but the manifest still ends up listed |
| PackageFile.SynchAsWrittenDuplicates | ASTools.py:976-978 | as written, an entry after a removed one is skipped by the walk and appended again |
| PackageFile.SynchAsWrittenKeepsStale | ASTools.py:1027-1031 | as written, of two neighbouring stale entries the second survives |
| PackageFile.SynchPackageFile | ASTools.py:967-990 | corrected: fails exactly when the package has no `Objects` element |
| PackageFile.SynchObjects | ASTools.py:967-990 | corrected: every entry afterwards names a folder entry, and every old entry naming one survives |
| PackageFile.SynchObjectsMatchesFolder | ASTools.py:967-990 | corrected: every entry names a folder entry and every folder entry but the manifest is listed |
| PackageFile.SynchObjectsDistinct | ASTools.py:967-990 | corrected: no name is listed twice when none was and the listing is free of duplicates |
| PackageFile.SynchObjectsIdempotent | ASTools.py:967-990 | corrected: reconciling twice is reconciling once |
| Config.LookupCpu | ASTools.py:1260-1264 | the value of the first table row whose key prefixes the hardware name, `sg4` when none does |
| Config.ConfigType | ASTools.py:1246-1264 | `sg4_arm` exactly when the lower-cased hardware name starts with `x20cp04`, `sg4` for everything else |
| Config.HardwareFolder | ASTools.py:1507-1513 | the first sub-folder of a configuration folder; FileNotFoundError exactly when the folder does not exist, IndexError exactly when it has no sub-folder |
| Config.ConfigObjects | ASTools.py:944-946 | exactly the objects whose `Type` is `configuration` ignoring case |
| Config.ConfigsOf | ASTools.py:940-950 | the only errors are TypeError (an object without text) and the hardware lookup's FileNotFoundError and IndexError; every configuration's path is the physical path joined with its name, and its type comes from its hardware |
| Config.ConfigsOfFails | ASTools.py:940-950 | reading fails exactly when some configuration object raises, and then with the error of the first one in document order |
| Config.ConfigsOfReads | ASTools.py:940-950 | on success there is one configuration per configuration object, in document order, each named by its text, at the joined path, with the hardware folder found there and the type that hardware gives |
| Config.GetConfigs | ASTools.py:940-950 | `_getConfigs` over `Objects/Object`: one configuration per configuration object, in order, each read from its object; only TypeError, FileNotFoundError and IndexError escape |
| Config.FirstOfType | ASTools.py:530-533 | the configuration chosen for a type has that type |
| Config.FirstOfTypeFinds | ASTools.py:530-533 | nothing is chosen exactly when no configuration has the type; otherwise the one chosen is the first of its type |
| Config.FirstOfTypeAppend | ASTools.py:530-533 | later configurations never displace the first of a type |
| Export.AddLibInfo | ASTools.py:228-232 | the info goes to `success` exactly when its exception is `None`, else to `failed`; the total grows by one and earlier entries stay put |
| Export.Extend | ASTools.py:234-237 | the other report's lists are appended after the existing entries, which stay untouched |
| Export.ExtendAll | ASTools.py:234-237 | extending by several reports keeps every existing entry |
| Export.ExtendAllTotal | ASTools.py:234-237 | the total after extending is the sum of the totals |
| Export.LibOf | ASTools.py:404-430 | the export's view of a manifest: name and folder carried over, the `Version` attribute or `0` without one, the dependency names in manifest order, and the type `getLibraryType` reads from the folder: the first of ANSIC, IEC, Binary whose marker the folder holds, `None` when it holds none |
| Export.ExportPath | ASTools.py:456-458 | `join(dest, name)`, and `join(join(dest, name), 'V' + version)` when the version is included |
| Export.CollectBinary | ASTools.py:524-549 | `_collectBinaryLibrary`'s steps: the source copy with the binary excludes first, then the binaries, then renaming `<library type>.lby` to `Binary.lby`, and its synchronisation last |
| Export.LibOfIgnoresStray | ASTools.py:429-430 | a folder with `IEC.lby` and a stray `Old.lby` is an `IEC` library whichever manifest was opened; a folder with only `Old.lby` has type `None`, so a binary export of it renames `None.lby` |
| Export.ExportSteps | ASTools.py:460-472 | the export starts with removing the old tree exactly when overwriting an existing one; a source export is then a single plain copy; a binary export has at least three steps |
| Export.ExportStepsBinary | ASTools.py:468-469 | a binary export ends with renaming `<library type>.lby` to `Binary.lby` and synchronising it |
| Export.CopyFirst | ASTools.py:538-541 | at most one copy per type, from the chosen configuration |
| Export.BinaryCopies | ASTools.py:530-541 | at most two copies, each of this library from the build folder, from a configuration in the list of type `sg4` or `sg4_arm` |
| Export.CopiesInto | ASTools.py:530-541 | with the two destination folders given: at most two copies, each of this library from the build folder, from a configuration in the list of type `sg4` or `sg4_arm` |
| Export.BinaryCopiesAt | ASTools.py:530-541 | the sg4 copy goes to `SG4` and comes first, the sg4_arm copy goes to `SG4\Arm` and comes last |
| Export.BinaryCopiesCover | ASTools.py:530-541 | a binary of a type is copied exactly when some configuration has that type |
| Export.BinaryCopiesFrom | ASTools.py:530-541 | each copied binary comes from the first configuration of its type |
| Export.FirstError | ASTools.py:460-476 | the first failing step's error, `None` exactly when every step succeeds |
| Export.ExportOne | ASTools.py:455-478 | the record carries the library name and export path; a captured error is FileNotFound or FileExists, and any other error escapes |
| Export.ExportOneOutcome | ASTools.py:455-478 | an export succeeds cleanly exactly when every step succeeds, and fails exactly when the first failing step raises something other than FileNotFound/FileExists |
| Export.RecordOutcome | ASTools.py:474-476 | a record is clean exactly when every step succeeds, and an error escapes exactly when the first failing step raises an uncaptured one |
| Export.KeepLibs | ASTools.py:742-754 | keeps exactly the libraries passing the filter, in project order |
| Export.SelectExports | ASTools.py:739-754 | a non-empty whitelist selects exactly the libraries whose lower-cased name is in the lower-cased whitelist; otherwise a non-empty blacklist keeps exactly those not in it; otherwise all; in project order |
| Export.ExportEach | ASTools.py:756-759 | one record per selected library, earlier records kept |
| Export.ExportLibrariesAsWritten | ASTools.py:731-761 | as written: a finished export holds one record per selected library, each in the list its exception selects |
| Export.ExportLibraries | ASTools.py:731-761 | corrected: a finished export holds one record per selected library, each in the list its exception selects |
| Export.ExportLibrariesCount | ASTools.py:731-761 | exactly one record is added per selected library |
| Export.ExportLibrariesAsWrittenIgnoresConfigs | ASTools.py:758 | as written, the configurations passed in make no difference to the export |
| Export.ExportLibrariesConfigChoice | ASTools.py:530-541 | the configurations passed in can matter: two lists that choose different binaries |
| Export.ExportLibrariesUsesConfigs | ASTools.py:731-732 | corrected: the configurations passed in are the ones exported with, and the project's own when none are passed |
| Export.DropMatching | ASTools.py:691-695 | one pattern's pass keeps only names from the list that do not match it |
| Export.DropIgnored | ASTools.py:691-695 | the passes keep only names from the list, never more than there were |
| Export.DropMatchingMembers | ASTools.py:691-695 | `_checkIgnore` with one pattern keeps exactly the names not matching it |
| Export.DropIgnoredMembers | ASTools.py:691-695 | with several patterns it keeps exactly the names matching none of them |
| Export.LibrariesByName | ASTools.py:855-861 | only project libraries whose name is listed, never more than the project has |
| Export.LibrariesByNameMembers | ASTools.py:855-861 | the libraries whose name is in the list, in project order, matched exactly |
| Export.ExportDependencies | ASTools.py:766-770 | every dependency followed is a project library named as a dependency |
| Export.ExportDependenciesMembers | ASTools.py:766-770 | the dependencies exported are exactly the project libraries named as dependencies and matching neither the caller's ignores nor the project's ignore list, in project order |
| Export.ExportLibrary | ASTools.py:763-780 | with no recursion budget left the export fails with RecursionError; a finished export holds at least one record |
| Export.Combine | ASTools.py:772-778 | the dependencies' records come first, then the library's own; an error escaping either ends the export |
| Export.ExportLibraryRecords | ASTools.py:763-780 | a successful recursive export records at least one library, each in the list its exception selects |
| Export.ExportLibraryOwnLast | ASTools.py:777-778 | the library's own record is the last of its list |
| Export.ExportLibraryAlone | ASTools.py:763-780 | without dependencies the result is the library's own record |
| Export.ExportLibraryFailsWithDeps | ASTools.py:772-775 | an error escaping a dependency's export escapes the library's |
| Export.DepsFailWith | ASTools.py:772-775 | when any one dependency's export fails, the export of all the dependencies fails |
| Export.FailingDependency | ASTools.py:772-775 | a library one of whose followed dependencies fails fails too |
| Export.SelfFollowed | ASTools.py:766-770 | a library naming itself as a dependency follows itself unless the project's ignore list matches it |
| Export.SelfDependencyFails | ASTools.py:763-780 | a library depending on itself never finishes: the recursion limit is hit |
| Export.ChainOrder | ASTools.py:763-780 | a chain X→Y→Z records Z, Y, X |
| Export.ExportLeaf | ASTools.py:763-780 | a library without dependencies yields only its own record |
| Export.ExportOneDep | ASTools.py:772-778 | one dependency: its records, then the library's own |
| Export.ExportTwoDeps | ASTools.py:772-778 | two dependencies: the first's records, the second's, then the library's own |
| Export.DiamondSides | ASTools.py:763-780 | two libraries sharing one dependency each record it before themselves |
| Export.DiamondTwice | ASTools.py:763-780 | a dependency shared by two dependencies is exported once along each path |
| Deployment.EnsureClass | ASTools.py:1095-1099 | a missing `Cyclic#i` task class is inserted, every existing child is kept |
| Deployment.EnsureClasses | ASTools.py:1095-1099 | the constructor loop keeps the root tag, the namespace and every existing child |
| Deployment.EnsureClassesHasAll | ASTools.py:1095-1099 | after the constructor loop all eight task classes are present |
| Deployment.EnsureLibraries | ASTools.py:1100-1103 | a missing `Libraries` element is appended, every existing child is kept |
| Deployment.OpenComplete | ASTools.py:1089-1104 | after opening, `find` locates all eight task classes and the library list |
| Deployment.Open | ASTools.py:1089-1104 | opening keeps the root tag and the namespace |
| Deployment.OpenFindsClass | ASTools.py:1095-1099 | after opening, `find` locates each of the eight task classes |
| Deployment.OpenFindsLibraries | ASTools.py:1100-1103 | after opening, `find` locates the library list |
| Deployment.LibraryNames | ASTools.py:1181-1186 | the `Name` of each deployed library, `Unknown` when absent |
| Deployment.DeployedMember | ASTools.py:1108-1111 | a library is deployed exactly when some entry's name equals it ignoring case |
| Deployment.LibraryAttributes | ASTools.py:1130-1146 | `Name`, `Source`, `Memory`, `Language` and `Debugging` defaults, with every override replacing its default |
| Deployment.LibrarySource | ASTools.py:1132-1138 | `Libraries.<last folder component>.<name>.lby` |
| Deployment.DeployLibraryWith | ASTools.py:1106-1115 | keeps the root tag and the number of root children; a deployed library leaves the table unchanged; fails exactly when the library is new and there is no library list |
| Deployment.DeployLibraryAsWritten | ASTools.py:1106-1115 | as written: a deployed library leaves the table unchanged; fails exactly when the library is new and there is no library list |
| Deployment.DeployLibrary | ASTools.py:1106-1115 | corrected: a deployed library leaves the table unchanged; fails exactly when the library is new and there is no library list |
| Deployment.DeployLibraryNoop | ASTools.py:1108-1111 | a library already deployed under any capitalisation leaves the table unchanged |
| Deployment.DeployLibraryAppends | ASTools.py:1106-1115 | otherwise exactly one element is appended under `Libraries`; with no library list the call fails |
| Deployment.AppendedEntries | ASTools.py:1182-1186 | the deployed entries afterwards are the old ones plus the new element exactly when it carries the qualified tag |
| Deployment.DeployLibraryAsWrittenInvisible | ASTools.py:1143 | as written, the bare-tagged element is invisible to the next lookup in a namespaced table |
| Deployment.DeployLibraryAsWrittenTwice | ASTools.py:1106-1115 | as written, deploying the same library twice in one session appends it twice |
| Deployment.DeployLibraryTwice | ASTools.py:1106-1115 | corrected: deploying a library again is a no-op |
| Deployment.FirstDigit | ASTools.py:1119 | the first digit of the class string, `None` (IndexError) exactly when it has none |
| Deployment.TaskLanguage | ASTools.py:1074-1086 | ANSIC when `ANSIC.prg` is in the folder, else IEC when `IEC.prg` is, else none |
| Deployment.TaskSourceOfPlain | ASTools.py:1152-1158 | the task source is the normalised folder segments, the task name and `prg`, joined by dots |
| Deployment.CreateTaskElement | ASTools.py:1148-1164 | `Name` is the first ten characters of the task name, `Source` keeps the full name, with `UserROM` and `true` defaults |
| Deployment.DeployTaskWith | ASTools.py:1117-1128 | keeps the root tag and the number of root children; fails only with IndexError, AttributeError or TypeError, and with IndexError whenever the class has no digit |
| Deployment.DeployTaskAsWritten | ASTools.py:1117-1128 | as written: fails only with IndexError, AttributeError or TypeError, and with IndexError whenever the class has no digit |
| Deployment.DeployTask | ASTools.py:1117-1128 | corrected: fails only with IndexError, AttributeError or TypeError, and with IndexError whenever the class has no digit |
| Deployment.DeployTaskAppends | ASTools.py:1117-1128 | a task not yet deployed is appended once, under the `Cyclic#` class of the first digit |
| Deployment.DeployTaskNoopOrFail | ASTools.py:1117-1126 | no digit fails; a task already present under its truncated name leaves the table unchanged |
| Deployment.DeployTaskAsWrittenTwice | ASTools.py:1117-1128 | as written, deploying the same task twice in one session appends it twice |
| Deployment.DeployTaskTwice | ASTools.py:1117-1128 | corrected: deploying a task again is a no-op |
| Build.Opt | ASTools.py:121-138 | a flag and its value exactly when the value is non-empty |
| Build.ModeArgs | ASTools.py:126-130 | `-buildMode <mode>`, followed by `-all` exactly when the capitalised mode is `Rebuild` |
| Build.ParseOptOf | ASTools.py:121-138 | an optional flag and its value are read back from the command line |
| Build.ParseModeOf | ASTools.py:126-130 | the build mode, with or without `-all`, is read back from the command line |
| Build.CommandLine | ASTools.py:115-149 | the builder path comes first and the quoted project second |
| Build.ParseCommandLine | ASTools.py:115-149 | a line read back has the builder first and the quoted project second |
| Build.CommandLineShape | ASTools.py:115-149 | the builder and the quoted project come first, `-buildRUCPackage` and the trailing arguments come last |
| Build.ParseCommandLineOf | ASTools.py:115-149 | the command line is read back into the request that built it |
| Build.CommandLineOfParse | ASTools.py:115-149 | whatever is read back builds the very same command line |
| Build.BatchBuild | ASTools.py:100-113 | configurations are built in order until a return code above `Warnings` (1); the last build's result is returned; UnboundLocalError exactly when the list is empty, success otherwise |
| Build.ASVersion | ASTools.py:898-901 | `AS` followed by the first two dot-separated version fields |
| Build.PviVersion | ASTools.py:797-799 | `V`, the first character, a dot, the rest |
| Build.VersionRoundTrip | ASTools.py:797-799 | a project version `x.y.z` with a one-character major becomes `ASxy` in `_parseASVersion` and then `Vx.y` |
| Build.ASVersionOf | ASTools.py:898-901 | the `AS` version keeps the first two version fields, whatever follows |
| Build.PviVersionOf | ASTools.py:797-799 | removing the first `AS` and inserting a dot after the major gives `Vx.y` |
| Build.MatchingExcludes | ASTools.py:626-629 | the name once per exclude it ends with, ignoring case |
| Build.IgnorePatterns | ASTools.py:623-634 | every name ignored is one of the names given |
| Build.IgnorePatternsMembers | ASTools.py:623-634 | a name is ignored exactly when it ends with an exclude ignoring case, or it is a folder and folders are ignored |
| Text.SplitJoin | ASTools.py:557-559 | splitting on a character and joining with it gives the string back |
| Text.ParseShow | ASTools.py:558 | `int(str(n)) == n` |
| Paths.TailOfJoinPath | ASTools.py:1132-1133 | the last component of `join(a, name)` is `name` |
| Paths.NormSegmentsOfPlain | ASTools.py:1152 | normalising and splitting a joined path of plain segments gives the segments back |
| Text.Lower | ASTools.py:629 | every character is mapped to its lower-case form, the length is kept |
| Text.Capitalize | ASTools.py:129 | the first character upper-cased, the rest lower-cased |
| Text.Split | ASTools.py:557 | every piece is free of separators, and the first piece is the prefix up to the first separator |
| Text.SplitOfJoin | ASTools.py:557-559 | joining separator-free pieces and splitting again gives the pieces back |
| Text.ReplaceFirst | ASTools.py:798 | a string starting with the pattern has that prefix replaced once |
| Text.LastIndexOf | ASTools.py:502 | the last position of a character, `None` exactly when it does not occur |
| Text.Extension | ASTools.py:502 | `splitext`'s extension: empty, or a dot-led dot-free suffix shorter than the name |
| Text.LbyExtension | ASTools.py:502 | the extension is `.lby` exactly when the name ends with `.lby` and has a character other than a dot before it |
| Text.Strip | ASTools.py:558 | the white space `int()` skips: the result is the input with white-space runs removed at both ends and none left there; a string without white space is unchanged |
| Text.ParseInt | ASTools.py:558 | `int()` succeeds only on a string with something besides white space |
| Text.ParseIntAccepts | ASTools.py:558 | `int()` succeeds exactly when the stripped string is an optional sign followed by a decimal numeral, whose value it returns, negative only after a `-` |
| Text.ShowNatValue | ASTools.py:558 | the decimal form of `n` is a well-formed numeral whose value is `n` |
| Paths.JoinPath | ASTools.py:456 | the joined path starts with the first part and ends with the second; a backslash is put between them exactly when the first part is non-empty and ends in neither a separator nor a bare drive `X:` |
| Paths.Tail | ASTools.py:571 | the last component: a separator-free suffix of the path that starts right after a separator, after a bare drive, or at the start of a drive-free path |
| Paths.ResolvePlain | ASTools.py:1152 | resolving plain components (no `.`, `..` or empty) keeps them all, in order |

## Left out

- Process execution, log scraping and the `PVIReturnCodeText` lookup are left out: they run external tools.
- PVITransfer, PIP and ARSim creation are left out for the same reason. Only the `ASxy`→`Vx.y` string conversion is modelled.
- File operations are left out. `copytree`, `copy2`, `rmtree` with its `chmod` retry, `os.rename` and `os.walk` become steps run against an oracle. `cacheProject`'s discovery is not modelled; a project is given as its list of libraries.
- ElementTree byte parsing and serialisation, and the global `register_namespace`, are left out. Writing is modelled as indentation plus the qualification of bare tags on reading back.
- The `write()` that ends most mutating methods (ASTools.py:282) is not part of their result: `Synchronize`, `SynchPackageFile`, `AddObjectElement`, `DeployLibrary` and `DeployTask` return the tree before it is re-indented. `Xml.IndentKeepsContent` shows that the re-indentation changes only white space.
- `fnmatch` is a parameter: its case folding depends on the platform.
- Regular expressions are left out. This covers `getConstantValue`, the match inside `_parseASVersion` (the version attribute is given), `configparser`, `setHardwareParameter` and the `CpuConfig` accessors.
- The deprecated module-level duplicates of the class methods are left out, and so are `toDict` and the other scripts of the repository.
- `Library.addObject` is left out: it copies into the `.lby` path itself.
- `addDependency` is left out: it always raises TypeError.
- `Package.addObject`, `addEmptyPackage` and `removeObject` are left out: they are file operations around `_addPkgObject`/`_removePkgObject`, whose list effect is modelled.
- Text.Lower: case mapping and `isdigit` cover ASCII only.
- Paths.JoinPath: Windows paths are simplified. A bare drive `X:` is joined without a separator, but UNC prefixes are not recognised, and an absolute or drive-qualified second part does not replace the first as it does in `ntpath.join`. `abspath` is taken as given.
- Paths.NormSegments: a drive prefix `X:` counts as an ordinary component, so a following `..` removes it. `ntpath.normpath("C:\\..\\a")` keeps the drive and gives `C:\a`; the model gives `a`.
- Directory.LanguageOf: marker files are looked up by exact name. `os.path.exists` on Windows ignores case, so a folder holding `ansic.lby` is a C library there but is not one in the model. `Directory.PkgType` shares this. `Deployment.TaskLanguage` is exact, as the `os.listdir` membership it models is.
- LibraryFile.Synchronize: adds new entries through the corrected `AddObjectElement`. The source's `synchronize` (ASTools.py:504, through 446 and 519) stamps `Type="File"` on every child when a sub-folder converts a `Files` list, including the new package. That behaviour is modelled only by `LibraryFile.AddObjectElementAsWritten` and `LibraryFile.PackageConversionAsWritten`; there is no as-written `Synchronize`.
- Deployment.Open: the table is always written and read back. The source writes only when a task class or the library list was missing (ASTools.py:1172-1179). Otherwise it only reads the file again, so an untouched file keeps its own white space. A missing file, which leaves the table empty, is not modelled.
- `Library.name` (the folder name) is passed in rather than derived from the manifest path.
- Export.ExportLibrary: Python's recursion limit is a `depth` budget. Running out of it is the RecursionError that ends a cyclic dependency.
- Export.SelfDependencyFails: states only that such an export fails, not which error escapes first.
- Build.PviVersion: the round trip holds only for a one-character major version, as in the source.

## Findings

| source | as written | input that shows it | evidently intended | confidence | as-written member | corrected member |
|---|---|---|---|---|---|---|
| ASTools.py:967-990 | `synchPackageFile` removes entries from the list it is iterating | objects `gone`, `kept` with only `kept` in the folder: `kept` is skipped by the walk and appended again | every entry naming nothing is removed, and nothing is listed twice | not executed | PackageFile.SynchAsWrittenDuplicates | PackageFile.SynchObjectsDistinct |
| ASTools.py:758 | `exportLibraries` exports with `self.buildConfigs`, ignoring its `buildConfigs` argument | configurations `[Intel sg4 X20CP1586, Arm sg4 X20CP1584]` versus `[Arm]` pick different sg4 binaries, yet the export is the same | the configurations passed in are used | not executed | Export.ExportLibrariesAsWrittenIgnoresConfigs | Export.ExportLibrariesUsesConfigs |
| ASTools.py:1106-1115 | `deployLibrary` appends a `LibraryObject` with a bare tag, which the namespaced lookup of the same session does not see | a table with namespace `ns` and no library `L`: deploying `L` twice appends two entries | a second deployment is a no-op | not executed | Deployment.DeployLibraryAsWrittenTwice | Deployment.DeployLibraryTwice |
| ASTools.py:1117-1128 | `deployTask` appends a `Task` with a bare tag, which the namespaced lookup of the same session does not see | a table with namespace `ns` and task class `Cyclic#1`: deploying the same task twice appends two entries | a second deployment is a no-op | not executed | Deployment.DeployTaskAsWrittenTwice | Deployment.DeployTaskTwice |
| ASTools.py:509-522 | `_convertXmlTag` sets `Type="File"` on every child after the new package element has been appended | adding a folder without markers (a package) to a `Files` list: the new entry is listed with `Type="File"` | the package keeps `Type="Package"` and only entries without a type get `File` | not executed | LibraryFile.PackageConversionAsWritten | LibraryFile.PackageConversion |

The rest of the model uses the corrected definitions:

- `LibraryFile.Synchronize` adds through `AddObjectElement`.
- `Deployment.DeployLibrary` and `DeployTask` append qualified tags.
- `PackageFile.SynchPackageFile` removes the stale entries after the walk.
- `Export.ExportLibraries` uses the configurations it is given.
