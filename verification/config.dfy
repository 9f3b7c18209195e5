/** Build configurations: the `Configuration` objects of `Physical.pkg`,
    each typed by the CPU its hardware names. */
module Config {

  import opened Wrappers
  import opened Text
  import opened Paths
  import opened Xml

  /** `BuildConfig(name, path, typ, hardware)` */
  datatype BuildConfig = BuildConfig(name: string, path: string, typ: string, hardware: string)

  /** `getConfigType`'s table: a hardware name is matched against each
      prefix in this order. */
  const CpuTable: seq<(string, string)> := [
    ("x20cp04", "sg4_arm"),
    ("x20cp13", "sg4"),
    ("x20cp14", "sg4"),
    ("x20cp3", "sg4"),
    ("apc", "sg4"),
    ("5pc", "sg4")
  ]

  /** The value of the first table row whose key starts `hw`, `sg4` when
      none does. */
  function LookupCpu(table: seq<(string, string)>, hw: string): (r: string)
    ensures r == "sg4" || exists k :: 0 <= k < |table| && table[k].1 == r
    ensures forall k :: 0 <= k < |table| && StartsWith(hw, table[k].0) ==>
      (forall j :: 0 <= j < k ==> !StartsWith(hw, table[j].0)) ==> r == table[k].1
    ensures (forall k :: 0 <= k < |table| ==> !StartsWith(hw, table[k].0)) ==> r == "sg4"
  {
    if |table| == 0 then "sg4"
    else if StartsWith(hw, table[0].0) then table[0].1
    else
      var r := LookupCpu(table[1..], hw);
      assert forall k :: 1 <= k < |table| ==> table[1..][k - 1] == table[k];
      r
  }

  /** `getConfigType`: the hardware name is lower-cased before the lookup. */
  function ConfigType(hardware: string): (r: string)
    ensures r == "sg4" || r == "sg4_arm"
    ensures r == "sg4_arm" <==> StartsWith(Lower(hardware), "x20cp04")
  {
    var hw := Lower(hardware);
    var r := LookupCpu(CpuTable, hw);
    assert StartsWith(hw, CpuTable[0].0) ==> r == "sg4_arm";
    r
  }

  /** An object of `Physical.pkg` that is a configuration: its `Type`,
      compared case-insensitively, is `configuration`. */
  predicate IsConfiguration(o: Element) {
    Lower(Get(o, "Type", "")) == "configuration"
  }

  /** `getHardwareFolderFromConfig`: the first sub-folder of a configuration
      folder. `folders` is the folder's sub-folders in listing order, `None`
      when the folder does not exist; `os.listdir` then raises
      `FileNotFoundError`, and an empty list makes `[0]` raise `IndexError`. */
  function HardwareFolder(folders: Option<seq<string>>): (r: Result<string, string>)
    ensures r.Failure? <==> folders.None? || folders.value == []
    ensures r.Failure? ==> r.error == if folders.None? then "FileNotFoundError" else "IndexError"
    ensures r.Success? ==> r.value == folders.value[0]
  {
    match folders
    case None => Failure("FileNotFoundError")
    case Some(ds) => if |ds| == 0 then Failure("IndexError") else Success(ds[0])
  }

  /** The objects of `Physical.pkg` that are configurations, in document order. */
  function ConfigObjects(objects: seq<Element>): (r: seq<Element>)
    ensures forall o :: o in r <==> o in objects && IsConfiguration(o)
  {
    if |objects| == 0 then []
    else if IsConfiguration(objects[0]) then [objects[0]] + ConfigObjects(objects[1..])
    else ConfigObjects(objects[1..])
  }

  /** Why reading a configuration object raises, if it does: a missing text
      makes `os.path.join` raise `TypeError`; otherwise the hardware lookup
      may fail. */
  function ConfigError(o: Element, physicalPath: string, foldersOf: string -> Option<seq<string>>): Option<string> {
    if o.text.None? then Some("TypeError")
    else
      match HardwareFolder(foldersOf(JoinPath(physicalPath, o.text.value)))
      case Failure(e) => Some(e)
      case Success(_) => None
  }

  /** `configurations[k]` was read from the configuration object `o`. */
  predicate ReadFrom(c: BuildConfig, o: Element, physicalPath: string, foldersOf: string -> Option<seq<string>>) {
    && o.text == Some(c.name)
    && c.path == JoinPath(physicalPath, c.name)
    && HardwareFolder(foldersOf(c.path)) == Success(c.hardware)
    && c.typ == ConfigType(c.hardware)
  }

  /** The configuration object at `k` raises, and none before it does. */
  predicate FirstFailing(objects: seq<Element>, physicalPath: string, foldersOf: string -> Option<seq<string>>, k: int) {
    && 0 <= k < |objects|
    && IsConfiguration(objects[k]) && ConfigError(objects[k], physicalPath, foldersOf).Some?
    && forall j :: 0 <= j < k && IsConfiguration(objects[j]) ==> ConfigError(objects[j], physicalPath, foldersOf).None?
  }

  /** The loop of `_getConfigs` over `objects`: each configuration object is
      read in document order, and the first one that raises ends the loop
      with its error. `foldersOf` lists a configuration folder's sub-folders. */
  function ConfigsOf(objects: seq<Element>, physicalPath: string, foldersOf: string -> Option<seq<string>>): (r: Result<seq<BuildConfig>, string>)
    ensures r.Failure? ==> r.error in {"TypeError", "FileNotFoundError", "IndexError"}
    ensures r.Success? ==> forall c :: c in r.value ==>
      c.path == JoinPath(physicalPath, c.name) && c.typ == ConfigType(c.hardware)
  {
    if |objects| == 0 then Success([])
    else
      var o := objects[0];
      if !IsConfiguration(o) then ConfigsOf(objects[1..], physicalPath, foldersOf)
      else if o.text.None? then Failure("TypeError")
      else
        var path := JoinPath(physicalPath, o.text.value);
        var hw :- HardwareFolder(foldersOf(path));
        var rest :- ConfigsOf(objects[1..], physicalPath, foldersOf);
        Success([BuildConfig(o.text.value, path, ConfigType(hw), hw)] + rest)
  }

  /** Reading fails exactly when some configuration object raises, and then
      with the error of the first one in document order. */
  lemma {:induction false} ConfigsOfFails(objects: seq<Element>, physicalPath: string, foldersOf: string -> Option<seq<string>>)
    ensures ConfigsOf(objects, physicalPath, foldersOf).Failure? <==>
      (exists k :: 0 <= k < |objects| && IsConfiguration(objects[k]) && ConfigError(objects[k], physicalPath, foldersOf).Some?)
    ensures var r := ConfigsOf(objects, physicalPath, foldersOf);
      r.Failure? ==> exists k :: FirstFailing(objects, physicalPath, foldersOf, k) && r.error == ConfigError(objects[k], physicalPath, foldersOf).value
  {
    if |objects| > 0 {
      var tail := objects[1..];
      ConfigsOfFails(tail, physicalPath, foldersOf);
      assert forall k :: 1 <= k < |objects| ==> objects[k] == tail[k - 1];
      var r := ConfigsOf(objects, physicalPath, foldersOf);
      var o := objects[0];
      if IsConfiguration(o) && ConfigError(o, physicalPath, foldersOf).Some? {
        assert FirstFailing(objects, physicalPath, foldersOf, 0);
      } else if r.Failure? {
        var k :| FirstFailing(tail, physicalPath, foldersOf, k) &&
          r.error == ConfigError(tail[k], physicalPath, foldersOf).value;
        assert FirstFailing(objects, physicalPath, foldersOf, k + 1);
      }
    }
  }

  /** On success there is one configuration per configuration object, in
      document order, each read from its object. */
  lemma {:induction false} ConfigsOfReads(objects: seq<Element>, physicalPath: string, foldersOf: string -> Option<seq<string>>)
    ensures var r := ConfigsOf(objects, physicalPath, foldersOf);
      r.Success? ==> (|r.value| == |ConfigObjects(objects)| &&
        forall i :: 0 <= i < |r.value| ==> ReadFrom(r.value[i], ConfigObjects(objects)[i], physicalPath, foldersOf))
  {
    if |objects| > 0 {
      ConfigsOfReads(objects[1..], physicalPath, foldersOf);
    }
  }

  /** `_getConfigs`: the configurations listed under `Objects` in the
      physical package. */
  function GetConfigs(physical: Root, physicalPath: string, foldersOf: string -> Option<seq<string>>): (r: Result<seq<BuildConfig>, string>)
    ensures var objects := FindAll(physical, Prefix(physical), [Tag("Objects"), Tag("Object")]);
      r.Success? ==> (|r.value| == |ConfigObjects(objects)| &&
        forall i :: 0 <= i < |r.value| ==> ReadFrom(r.value[i], ConfigObjects(objects)[i], physicalPath, foldersOf))
    ensures r.Failure? ==> r.error in {"TypeError", "FileNotFoundError", "IndexError"}
  {
    var objects := FindAll(physical, Prefix(physical), [Tag("Objects"), Tag("Object")]);
    ConfigsOfReads(objects, physicalPath, foldersOf);
    ConfigsOf(objects, physicalPath, foldersOf)
  }

  /** The first configuration of a type. */
  function FirstOfType(configs: seq<BuildConfig>, typ: string): (r: Option<BuildConfig>)
    ensures r.Some? ==> r.value.typ == typ && r.value in configs
  {
    if |configs| == 0 then None
    else if configs[0].typ == typ then Some(configs[0])
    else FirstOfType(configs[1..], typ)
  }

  /** There is a configuration of the type exactly when one is found, and
      the one found comes before every other of its type. */
  lemma {:induction false} FirstOfTypeFinds(configs: seq<BuildConfig>, typ: string)
    ensures var r := FirstOfType(configs, typ);
      r.None? <==> forall k :: 0 <= k < |configs| ==> configs[k].typ != typ
    ensures var r := FirstOfType(configs, typ);
      r.Some? ==> exists k :: (0 <= k < |configs| && configs[k] == r.value &&
        forall j :: 0 <= j < k ==> configs[j].typ != typ)
  {
    if |configs| > 0 && configs[0].typ != typ {
      var r := FirstOfType(configs[1..], typ);
      FirstOfTypeFinds(configs[1..], typ);
      assert forall k :: 1 <= k < |configs| ==> configs[k] == configs[1..][k - 1];
      if r.Some? {
        var k :| 0 <= k < |configs| - 1 && configs[1..][k] == r.value &&
          forall j :: 0 <= j < k ==> configs[1..][j].typ != typ;
        assert configs[k + 1] == r.value;
      }
    }
  }

  /** Adding configurations after one of a type does not change which one
      of that type is chosen. */
  lemma {:induction false} FirstOfTypeAppend(configs: seq<BuildConfig>, more: seq<BuildConfig>, typ: string)
    requires FirstOfType(configs, typ).Some?
    ensures FirstOfType(configs + more, typ) == FirstOfType(configs, typ)
  {
    if configs[0].typ != typ {
      assert (configs + more)[1..] == configs[1..] + more;
      FirstOfTypeAppend(configs[1..], more, typ);
    }
  }
}
