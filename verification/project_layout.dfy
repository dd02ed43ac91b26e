/** Where a project keeps its files: the storage scheme, the paths derived
    from the project root, the module inventory and the project-file
    inventory. */
module ProjectLayout {
  import opened Wrappers
  import opened ProjectFiles
  import opened Seqs

  /** A project stored in one `.ipr` file, or in a `.idea` directory. */
  datatype StorageScheme = Default | DirectoryBased

  /** Platform constants: the settings folder of a directory-based project,
      the extensions of project and workspace files, and the names used by
      the module manager's component. */
  const DirectoryStoreFolder := ".idea"
  const ProjectExtension := ".ipr"
  const WorkspaceExtension := ".iws"
  const ModuleManagerComponent := "ProjectModuleManager"
  const ModulesElement := "modules"
  const ModuleElement := "module"
  const FilePathAttribute := "filepath"

  /** The subdirectories of the settings folder whose `.xml` files belong to
      the project. */
  const SettingsSubdirectories := ["libraries", "artifacts", "runConfigurations"]

  /** The paths fixed at construction. `settingsDir` is only set for a
      directory-based project; `baseDir` is null for a root without parent. */
  datatype Layout = Layout(
    scheme: StorageScheme,
    projectFile: Path,
    baseDir: Option<Path>,
    settingsDir: Option<Path>,
    modulesFile: Path,
    workspaceFile: Path)

  /** The constructor's choice of storage scheme and paths. */
  function ResolveLayout(fs: FileSystem, projectPath: Path): (l: Layout)
    ensures l.projectFile == projectPath
    ensures l.scheme == DirectoryBased <==> projectPath in fs.directories
    ensures l.scheme == DirectoryBased ==> l.baseDir == Some(projectPath) && l.settingsDir.Some?
    ensures l.scheme == Default ==>
              && l.baseDir == Parent(projectPath)
              && l.settingsDir.None?
              && l.modulesFile == projectPath
  {
    if projectPath in fs.directories then
      var settingsDir := Resolve(projectPath, DirectoryStoreFolder);
      Layout(DirectoryBased, projectPath, Some(projectPath), Some(settingsDir),
             Resolve(settingsDir, "modules.xml"), Resolve(settingsDir, "workspace.xml"))
    else
      Layout(Default, projectPath, Parent(projectPath), None, projectPath,
             TrimEnd(projectPath, ProjectExtension) + WorkspaceExtension)
  }

  /** A directory-based project keeps the module list and the workspace in
      its settings folder, which sits directly in the project directory. */
  lemma DirectoryLayoutPaths(fs: FileSystem, projectPath: Path)
    requires projectPath in fs.directories && NormalDir(projectPath)
    ensures var l := ResolveLayout(fs, projectPath);
            && Parent(l.settingsDir.value) == Some(projectPath)
            && FileName(l.settingsDir.value) == DirectoryStoreFolder
            && Parent(l.modulesFile) == l.settingsDir && FileName(l.modulesFile) == "modules.xml"
            && Parent(l.workspaceFile) == l.settingsDir && FileName(l.workspaceFile) == "workspace.xml"
  {
    var settingsDir := Resolve(projectPath, DirectoryStoreFolder);
    ResolveParts(projectPath, DirectoryStoreFolder);
    assert NormalDir(settingsDir) by {
      assert settingsDir[|settingsDir| - 1] == 'a';
    }
    ResolveParts(settingsDir, "modules.xml");
    ResolveParts(settingsDir, "workspace.xml");
  }

  /** The workspace file of a single-file project: the `.ipr` extension, if
      present, replaced by `.iws`; otherwise `.iws` appended. */
  lemma WorkspaceFileName(fs: FileSystem, stem: Path)
    requires stem + ProjectExtension !in fs.directories
    requires !EndsWith(stem, ProjectExtension) ==> stem !in fs.directories
    ensures ResolveLayout(fs, stem + ProjectExtension).workspaceFile == stem + WorkspaceExtension
    ensures !EndsWith(stem, ProjectExtension) ==> ResolveLayout(fs, stem).workspaceFile == stem + WorkspaceExtension
  {
    TrimEndAppended(stem, ProjectExtension);
  }

  /** The `filepath` attribute of a module entry. */
  function FilePathOf(entry: Element): Option<string> {
    Attribute(entry, FilePathAttribute)
  }

  /** The expanded `filepath` of every `module` element that has one, in
      document order. */
  function ModulePaths(modules: seq<Element>, expand: string -> string): (r: seq<Path>)
    ensures |r| <= |modules|
  {
    if |modules| == 0 then []
    else
      var rest := ModulePaths(modules[1..], expand);
      match FilePathOf(modules[0])
      case None => rest
      case Some(filePath) => [expand(filePath)] + rest
  }

  predicate HasFilePath(entry: Element) {
    FilePathOf(entry).Some?
  }

  /** The module files are the expanded `filepath`s of the entries that have
      one, one per entry and in document order. */
  lemma {:induction false} ModulePathsInOrder(modules: seq<Element>, expand: string -> string)
    ensures var kept := Filter(modules, HasFilePath);
            var r := ModulePaths(modules, expand);
            && |r| == |kept|
            && forall i | 0 <= i < |r| :: r[i] == expand(FilePathOf(kept[i]).value)
  {
    if |modules| > 0 {
      ModulePathsInOrder(modules[1..], expand);
      var kept := Filter(modules[1..], HasFilePath);
      var rest := ModulePaths(modules[1..], expand);
      if HasFilePath(modules[0]) {
        assert Filter(modules, HasFilePath) == [modules[0]] + kept;
        assert ModulePaths(modules, expand) == [expand(FilePathOf(modules[0]).value)] + rest;
      } else {
        assert Filter(modules, HasFilePath) == kept;
        assert ModulePaths(modules, expand) == rest;
      }
    }
  }

  /** Exactly the entries with a `filepath` contribute a module file. */
  lemma {:induction false} ModulePathsMembers(modules: seq<Element>, expand: string -> string)
    ensures forall i | 0 <= i < |modules| && FilePathOf(modules[i]).Some? ::
              expand(FilePathOf(modules[i]).value) in ModulePaths(modules, expand)
    ensures forall p | p in ModulePaths(modules, expand) :: exists i | 0 <= i < |modules| ::
              FilePathOf(modules[i]).Some? && p == expand(FilePathOf(modules[i]).value)
  {
    if |modules| > 0 {
      var rest := modules[1..];
      ModulePathsMembers(rest, expand);
      forall i | 1 <= i < |modules| ensures modules[i] == rest[i - 1] { }
      forall p | p in ModulePaths(modules, expand)
        ensures exists i | 0 <= i < |modules| :: FilePathOf(modules[i]).Some? && p == expand(FilePathOf(modules[i]).value)
      {
        if p in ModulePaths(rest, expand) {
          var j :| 0 <= j < |rest| && FilePathOf(rest[j]).Some? && p == expand(FilePathOf(rest[j]).value);
          assert modules[j + 1] == rest[j];
        }
      }
    }
  }

  /** The `modules` element of the module manager's component. */
  function ModulesElementOf(root: Element): Option<Element> {
    match FindComponent(root, ModuleManagerComponent)
    case None => None
    case Some(modulesManager) => GetChild(modulesManager, ModulesElement)
  }

  /** `findModuleFiles`: the module inventory recorded in the module
      manager's component; empty when the component or its `modules` element
      is missing. `expand` is the project's macro expansion. */
  function FindModuleFiles(root: Element, expand: string -> string): (r: seq<Path>)
    ensures ModulesElementOf(root).None? ==> r == []
    ensures ModulesElementOf(root).Some? ==>
              var entries := GetChildren(ModulesElementOf(root).value, ModuleElement);
              && |r| <= |entries|
              && (forall i | 0 <= i < |entries| && FilePathOf(entries[i]).Some? :: expand(FilePathOf(entries[i]).value) in r)
              && (forall p | p in r :: exists i | 0 <= i < |entries| ::
                    FilePathOf(entries[i]).Some? && p == expand(FilePathOf(entries[i]).value))
    ensures ModulesElementOf(root).Some? ==>
              var kept := Filter(GetChildren(ModulesElementOf(root).value, ModuleElement), HasFilePath);
              && |r| == |kept|
              && forall i | 0 <= i < |r| :: r[i] == expand(FilePathOf(kept[i]).value)
  {
    match ModulesElementOf(root)
    case None => []
    case Some(modules) =>
      var entries := GetChildren(modules, ModuleElement);
      ModulePathsMembers(entries, expand);
      ModulePathsInOrder(entries, expand);
      ModulePaths(entries, expand)
  }

  /** `addXmlFilesFromDirectory` as written: the listing filter tests the
      name of the DIRECTORY, not of the child, for a leading dot. */
  function XmlFilesAsWritten(fs: FileSystem, dir: Path): (r: set<Path>)
    ensures StartsWith(FileName(dir), ".") ==> r == {}
  {
    match fs.listing(dir)
    case None => {}
    case Some(children) =>
      set c | c in children && c in fs.regularFiles && EndsWith(c, ".xml") && !StartsWith(FileName(dir), ".")
  }

  /** The `.xml` regular files listed directly in `dir`, skipping hidden
      (dot-named) files. */
  function XmlFiles(fs: FileSystem, dir: Path): (r: set<Path>)
    ensures forall c :: c in r <==>
              fs.listing(dir).Some? && c in fs.listing(dir).value && c in fs.regularFiles
              && EndsWith(c, ".xml") && !StartsWith(FileName(c), ".")
  {
    match fs.listing(dir)
    case None => {}
    case Some(children) =>
      set c | c in children && c in fs.regularFiles && EndsWith(c, ".xml") && !StartsWith(FileName(c), ".")
  }

  /** As written, no file directly in the settings folder is ever part of the
      inventory: a listed, regular `/p/.idea/misc.xml` is dropped. */
  lemma XmlFilesAsWrittenSkipsSettingsFolder(fs: FileSystem)
    requires fs.listing("/p/.idea") == Some(["/p/.idea/misc.xml"])
    requires "/p/.idea/misc.xml" in fs.regularFiles
    ensures "/p/.idea/misc.xml" !in XmlFilesAsWritten(fs, "/p/.idea")
    ensures "/p/.idea/misc.xml" in XmlFiles(fs, "/p/.idea")
  {
    var dir := "/p/.idea";
    var misc := "/p/.idea/misc.xml";
    LastSlashAt(dir, 2);
    assert FileName(dir) == ".idea";
    assert StartsWith(FileName(dir), ".");
    LastSlashAt(misc, 8);
    assert FileName(misc) == "misc.xml";
    assert !StartsWith(FileName(misc), ".") by {
      assert FileName(misc)[..1] == "m";
    }
    assert EndsWith(misc, ".xml") by {
      assert misc[|misc| - 4..] == ".xml";
    }
    assert misc in fs.listing(dir).value;
  }

  /** `getAllProjectFiles`: the module files plus, for a single-file project,
      the project and workspace files, or, for a directory-based one, the
      `.xml` files of the settings folder and of its `libraries`,
      `artifacts` and `runConfigurations` subdirectories. */
  function GetAllProjectFiles(fs: FileSystem, layout: Layout, moduleFiles: seq<Path>): (r: set<Path>)
    requires layout.scheme == DirectoryBased ==> layout.settingsDir.Some?
    ensures forall i | 0 <= i < |moduleFiles| :: moduleFiles[i] in r
    ensures layout.scheme == Default ==>
              forall p :: p in r <==> p in moduleFiles || p == layout.projectFile || p == layout.workspaceFile
    ensures layout.scheme == DirectoryBased ==>
              var dir := layout.settingsDir.value;
              forall p :: p in r <==>
                || p in moduleFiles
                || p in XmlFiles(fs, dir)
                || exists k | 0 <= k < |SettingsSubdirectories| :: p in XmlFiles(fs, Resolve(dir, SettingsSubdirectories[k]))
  {
    var files := set p | p in moduleFiles;
    match layout.scheme
    case Default => files + {layout.projectFile, layout.workspaceFile}
    case DirectoryBased =>
      var dir := layout.settingsDir.value;
      files + XmlFiles(fs, dir) + SubdirectoryXmlFiles(fs, dir)
  }

  /** The `.xml` files of the settings folder's `libraries`, `artifacts`
      and `runConfigurations` subdirectories. */
  function SubdirectoryXmlFiles(fs: FileSystem, dir: Path): (r: set<Path>)
    ensures forall p :: p in r <==>
              exists k | 0 <= k < |SettingsSubdirectories| :: p in XmlFiles(fs, Resolve(dir, SettingsSubdirectories[k]))
  {
    var a := XmlFiles(fs, Resolve(dir, SettingsSubdirectories[0]));
    var b := XmlFiles(fs, Resolve(dir, SettingsSubdirectories[1]));
    var c := XmlFiles(fs, Resolve(dir, SettingsSubdirectories[2]));
    assert forall p :: (exists k | 0 <= k < |SettingsSubdirectories| :: p in XmlFiles(fs, Resolve(dir, SettingsSubdirectories[k])))
                       <==> (p in a || p in b || p in c);
    a + b + c
  }
}
