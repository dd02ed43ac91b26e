/** `ConversionContextImpl`: the state a project conversion works on. The
    caches that give settings objects a stable identity are maps in an
    immutable `Context`; each created object gets a fresh `id`, so "the same
    instance" is "the same id". */
module ConversionContext {
  import opened Wrappers
  import opened Seqs
  import opened ProjectFiles
  import opened ProjectLayout
  import opened ConversionLedger

  /** `CannotConvertException`: a settings file could not be read. */
  datatype CannotConvert = CannotConvert(path: Path)

  /** What the context reads from outside and does not compute itself. */
  datatype Environment = Environment(
    fs: FileSystem,
    /** Parsing a settings file: its document, or None when it cannot be read. */
    load: Path -> Option<Element>,
    /** The project's macro expansion (`ExpandMacroToPathMap.substitute`). */
    expandMacros: string -> string,
    /** The module name a module settings object derives from its file. */
    moduleName: Path -> string,
    /** `XmlSerializer.deserialize` of the ledger component: the stored IDs. */
    storedConversionIds: Element -> seq<string>,
    /** The library elements of the project-libraries settings, or None when
        they cannot be read. */
    projectLibraries: Option<seq<Element>>,
    /** `PathManager.getOptionsFile("applicationLibraries")`. */
    applicationLibrariesFile: Path,
    /** `VfsUtilCore.urlToPath` of a possibly absent `url` attribute. */
    urlToPath: Option<string> -> string,
    /** `PathUtil.getLocalPath`. */
    localPath: string -> string)

  /** A cached settings file: one instance per path for the context's
      lifetime. */
  datatype SettingsXmlFile = SettingsXmlFile(path: Path, id: nat)

  /** A component-backed settings view: the cached file it reads and writes,
      and that file's root element. */
  datatype ComponentSettings = ComponentSettings(file: SettingsXmlFile, root: Element, id: nat)

  /** The settings view of one module file, backed by the cached file. */
  datatype ModuleSettings = ModuleSettings(file: SettingsXmlFile, name: string, id: nat)

  /** The memoized project settings groups and the file each lives in. */
  datatype Group = Compiler | ProjectRootManager | Modules | ProjectFileVersion {
    function FileName(): string {
      match this
      case Compiler => "compiler.xml"
      case ProjectRootManager => "misc.xml"
      case Modules => "modules.xml"
      case ProjectFileVersion => "misc.xml"
    }
  }

  const ProjectFileVersionComponent := "ProjectFileVersion"
  const ProjectLevel := "project"
  const ApplicationLevel := "application"

  datatype Context = Context(
    layout: Layout,
    moduleFiles: seq<Path>,
    performedConversionIds: set<string>,
    settingsFiles: map<Path, SettingsXmlFile>,
    file2ModuleSettings: map<Path, ModuleSettings>,
    name2ModuleSettings: map<string, ModuleSettings>,
    groups: map<Group, ComponentSettings>,
    nextId: nat)

  /** A result together with the context the call left behind. */
  datatype Got<+T> = Got(ctx: Context, value: T)

  /** The file `createProjectSettings` reads `fileName` from: the project
      file of a single-file project, `fileName` in the settings folder
      otherwise. */
  function SettingsPath(layout: Layout, fileName: string): Path
    requires layout.scheme == DirectoryBased ==> layout.settingsDir.Some?
  {
    if layout.scheme == Default then layout.projectFile else Resolve(layout.settingsDir.value, fileName)
  }

  /** The settings file the ledger lives in. */
  function LedgerFile(layout: Layout): Path
    requires layout.scheme == DirectoryBased ==> layout.settingsDir.Some?
  {
    SettingsPath(layout, ProjectFileVersion.FileName())
  }

  /** A view reads the file cached for its path, whose document is its root. */
  predicate ViewOf(ctx: Context, env: Environment, view: ComponentSettings) {
    && view.file.path in ctx.settingsFiles
    && ctx.settingsFiles[view.file.path] == view.file
    && env.load(view.file.path) == Some(view.root)
    && view.id < ctx.nextId
  }

  /** The cache invariant: every entry is keyed by what it was created for,
      every id was handed out, every view reads the cached file of its path,
      and the two module indices agree. */
  predicate Valid(ctx: Context, env: Environment) {
    && (ctx.layout.scheme == DirectoryBased ==> ctx.layout.settingsDir.Some?)
    && (forall p | p in ctx.settingsFiles ::
          && ctx.settingsFiles[p].path == p
          && ctx.settingsFiles[p].id < ctx.nextId
          && env.load(p).Some?)
    && (forall g | g in ctx.groups ::
          && ViewOf(ctx, env, ctx.groups[g])
          && ctx.groups[g].file.path == SettingsPath(ctx.layout, g.FileName())
          && (ctx.layout.scheme == DirectoryBased ==> env.fs.Exists(ctx.groups[g].file.path)))
    && (forall f | f in ctx.file2ModuleSettings ::
          && f in ctx.settingsFiles
          && ctx.file2ModuleSettings[f].file == ctx.settingsFiles[f]
          && ctx.file2ModuleSettings[f].name == env.moduleName(f)
          && ctx.file2ModuleSettings[f].id < ctx.nextId
          && ctx.file2ModuleSettings[f].name in ctx.name2ModuleSettings)
    && (forall n | n in ctx.name2ModuleSettings ::
          && ctx.name2ModuleSettings[n].name == n
          && ctx.name2ModuleSettings[n].file.path in ctx.file2ModuleSettings
          && ctx.file2ModuleSettings[ctx.name2ModuleSettings[n].file.path] == ctx.name2ModuleSettings[n])
  }

  /** `next` keeps every cached file of `ctx` and hands out no id twice. */
  predicate Extends(ctx: Context, next: Context) {
    && ctx.nextId <= next.nextId
    && (forall p | p in ctx.settingsFiles :: p in next.settingsFiles && next.settingsFiles[p] == ctx.settingsFiles[p])
  }

  /** `getOrCreateFile`: the cached file for `path`, created and cached on
      first use; a file that cannot be read is an error and is not cached. */
  function GetOrCreateFile(ctx: Context, env: Environment, path: Path): (r: Result<Got<SettingsXmlFile>, CannotConvert>)
    requires Valid(ctx, env)
    ensures path in ctx.settingsFiles ==> r == Ok(Got(ctx, ctx.settingsFiles[path]))
    ensures r.Err? <==> path !in ctx.settingsFiles && env.load(path).None?
    ensures r.Ok? ==>
              && Valid(r.value.ctx, env)
              && r.value.value.path == path
              && r.value.ctx.settingsFiles == ctx.settingsFiles[path := r.value.value]
              && r.value.ctx == ctx.(settingsFiles := r.value.ctx.settingsFiles, nextId := r.value.ctx.nextId)
              && ctx.nextId <= r.value.ctx.nextId
    ensures r.Ok? && path !in ctx.settingsFiles ==>
              forall p | p in ctx.settingsFiles :: ctx.settingsFiles[p].id != r.value.value.id
  {
    if path in ctx.settingsFiles then Ok(Got(ctx, ctx.settingsFiles[path]))
    else if env.load(path).None? then Err(CannotConvert(path))
    else
      var file := SettingsXmlFile(path, ctx.nextId);
      var next := ctx.(settingsFiles := ctx.settingsFiles[path := file], nextId := ctx.nextId + 1);
      NewFileValid(ctx, env, path, next);
      Ok(Got(next, file))
  }

  lemma NewFileValid(ctx: Context, env: Environment, path: Path, next: Context)
    requires Valid(ctx, env)
    requires path !in ctx.settingsFiles && env.load(path).Some?
    requires next == ctx.(settingsFiles := ctx.settingsFiles[path := SettingsXmlFile(path, ctx.nextId)], nextId := ctx.nextId + 1)
    ensures Valid(next, env)
  {
    forall p | p in next.settingsFiles
      ensures next.settingsFiles[p].path == p && next.settingsFiles[p].id < next.nextId && env.load(p).Some?
    {
      if p != path {
        assert next.settingsFiles[p] == ctx.settingsFiles[p];
      }
    }
    NewFileKeepsViews(ctx, env, path, next);
  }

  /** The views of `NewFileValid`: every group and module view still reads
      the cached file of its path, since a new path leaves those alone. */
  lemma NewFileKeepsViews(ctx: Context, env: Environment, path: Path, next: Context)
    requires Valid(ctx, env)
    requires path !in ctx.settingsFiles
    requires next == ctx.(settingsFiles := ctx.settingsFiles[path := SettingsXmlFile(path, ctx.nextId)], nextId := ctx.nextId + 1)
    ensures forall g | g in next.groups :: ViewOf(next, env, next.groups[g])
    ensures forall f | f in next.file2ModuleSettings ::
              f in next.settingsFiles && next.file2ModuleSettings[f].file == next.settingsFiles[f]
  {
    forall g | g in next.groups ensures ViewOf(next, env, next.groups[g]) {
      var view := ctx.groups[g];
      assert ViewOf(ctx, env, view);
      assert view.file.path != path;
    }
    forall f | f in next.file2ModuleSettings
      ensures f in next.settingsFiles && next.file2ModuleSettings[f].file == next.settingsFiles[f]
    {
      assert f in ctx.settingsFiles && f != path;
    }
  }

  /** Asking for the same path again returns the same instance and changes
      nothing. */
  lemma GetOrCreateFileStable(ctx: Context, env: Environment, path: Path)
    requires Valid(ctx, env)
    requires GetOrCreateFile(ctx, env, path).Ok?
    ensures var first := GetOrCreateFile(ctx, env, path).value;
            GetOrCreateFile(first.ctx, env, path) == Ok(first)
  {
  }

  /** `createProjectSettings`: the settings view of `fileName`, reading its
      file through the file cache. A single-file project keeps every group in
      the project file; a directory-based one in `fileName` under the
      settings folder, and has none when that file does not exist. A file
      that cannot be read also gives none. */
  function CreateProjectSettings(ctx: Context, env: Environment, fileName: string): (r: Got<Option<ComponentSettings>>)
    requires Valid(ctx, env)
    ensures Valid(r.ctx, env)
    ensures r.value.None? ==> r.ctx == ctx
    ensures r.value.Some? ==>
              var view := r.value.value;
              && ViewOf(r.ctx, env, view)
              && view.file.path == SettingsPath(ctx.layout, fileName)
              && view.id >= ctx.nextId
              && r.ctx.settingsFiles == ctx.settingsFiles[view.file.path := view.file]
              && (view.file.path in ctx.settingsFiles ==> view.file == ctx.settingsFiles[view.file.path])
              && r.ctx == ctx.(settingsFiles := r.ctx.settingsFiles, nextId := r.ctx.nextId)
              && ctx.nextId <= r.ctx.nextId
    ensures ctx.layout.scheme == Default ==>
              (r.value.Some? <==> env.load(ctx.layout.projectFile).Some?)
    ensures ctx.layout.scheme == DirectoryBased ==>
              var file := Resolve(ctx.layout.settingsDir.value, fileName);
              (r.value.Some? <==> env.fs.Exists(file) && env.load(file).Some?)
  {
    var file := SettingsPath(ctx.layout, fileName);
    if ctx.layout.scheme == DirectoryBased && !env.fs.Exists(file) then Got(ctx, None)
    else
      match GetOrCreateFile(ctx, env, file)
      case Err(_) => Got(ctx, None)
      case Ok(got) =>
        var view := ComponentSettings(got.value, env.load(file).value, got.ctx.nextId);
        var next := got.ctx.(nextId := got.ctx.nextId + 1);
        NextIdValid(got.ctx, env, next);
        Got(next, Some(view))
  }

  /** Handing out one more id keeps the invariant. */
  lemma NextIdValid(ctx: Context, env: Environment, next: Context)
    requires Valid(ctx, env)
    requires next == ctx.(nextId := ctx.nextId + 1)
    ensures Valid(next, env)
  {
    forall g | g in next.groups ensures ViewOf(next, env, next.groups[g]) {
      assert ViewOf(ctx, env, ctx.groups[g]);
    }
  }

  /** The memoized getters of the settings groups (`getCompilerSettings`,
      `getProjectRootManagerSettings`, `getModulesSettings`,
      `getProjectFileVersionSettings`): a cached view is returned as it is;
      a missing one is not cached, so the next call tries again. */
  function GetGroupSettings(ctx: Context, env: Environment, group: Group): (r: Got<Option<ComponentSettings>>)
    requires Valid(ctx, env)
    ensures Valid(r.ctx, env)
    ensures group in ctx.groups ==> r == Got(ctx, Some(ctx.groups[group]))
    ensures r.value.Some? <==> group in r.ctx.groups
    ensures r.value.Some? ==>
              && r.ctx.groups[group] == r.value.value
              && r.value.value.file.path == SettingsPath(ctx.layout, group.FileName())
              && r.ctx.settingsFiles == ctx.settingsFiles[r.value.value.file.path := r.value.value.file]
    ensures r.value.None? ==> r.ctx == ctx
    ensures Extends(ctx, r.ctx)
    ensures r.ctx.file2ModuleSettings == ctx.file2ModuleSettings
    ensures r.ctx.name2ModuleSettings == ctx.name2ModuleSettings
    ensures r.ctx.performedConversionIds == ctx.performedConversionIds
    ensures r.ctx.layout == ctx.layout && r.ctx.moduleFiles == ctx.moduleFiles
    ensures forall g | g in ctx.groups :: g in r.ctx.groups && r.ctx.groups[g] == ctx.groups[g]
  {
    if group in ctx.groups then
      assert ViewOf(ctx, env, ctx.groups[group]);
      assert ctx.settingsFiles[ctx.groups[group].file.path := ctx.groups[group].file] == ctx.settingsFiles;
      Got(ctx, Some(ctx.groups[group]))
    else
      var created := CreateProjectSettings(ctx, env, group.FileName());
      match created.value
      case None => created
      case Some(settings) =>
        var next := created.ctx.(groups := created.ctx.groups[group := settings]);
        NewGroupValid(created.ctx, env, group, settings, next);
        Got(next, Some(settings))
  }

  lemma NewGroupValid(ctx: Context, env: Environment, group: Group, view: ComponentSettings, next: Context)
    requires Valid(ctx, env)
    requires ViewOf(ctx, env, view) && view.file.path == SettingsPath(ctx.layout, group.FileName())
    requires ctx.layout.scheme == DirectoryBased ==> env.fs.Exists(view.file.path)
    requires next == ctx.(groups := ctx.groups[group := view])
    ensures Valid(next, env)
  {
  }

  /** Once a group's view exists, every later request returns that instance. */
  lemma GetGroupSettingsStable(ctx: Context, env: Environment, group: Group)
    requires Valid(ctx, env)
    requires GetGroupSettings(ctx, env, group).value.Some?
    ensures var first := GetGroupSettings(ctx, env, group);
            GetGroupSettings(first.ctx, env, group) == first
  {
  }

  /** Two groups kept in the same file share one cached file instance: a
      change made through one view is the change the other sees and the one
      `saveFiles` writes. Both `misc.xml` groups, for one. */
  lemma GroupsShareFile(ctx: Context, env: Environment, g1: Group, g2: Group)
    requires Valid(ctx, env)
    requires g1.FileName() == g2.FileName()
    requires GetGroupSettings(ctx, env, g1).value.Some?
    ensures var first := GetGroupSettings(ctx, env, g1);
            var second := GetGroupSettings(first.ctx, env, g2);
            second.value.Some? && second.value.value.file == first.value.value.file
  {
    var first := GetGroupSettings(ctx, env, g1);
    var path := first.value.value.file.path;
    assert first.ctx.settingsFiles[path] == first.value.value.file;
    if g2 !in first.ctx.groups {
      var created := CreateProjectSettings(first.ctx, env, g2.FileName());
      assert env.load(path).Some?;
      if ctx.layout.scheme == DirectoryBased {
        assert env.fs.Exists(path);
      }
      assert created.value.Some?;
    } else {
      assert ViewOf(first.ctx, env, first.ctx.groups[g2]);
    }
  }

  /** `loadPerformedConversionIds`: the IDs stored in the ledger component of
      the project-file-version settings; none when the settings or the
      component are missing. Its only effect is materializing those
      settings. */
  function LoadPerformedConversionIds(ctx: Context, env: Environment): (r: Got<set<string>>)
    requires Valid(ctx, env)
    ensures Valid(r.ctx, env)
    ensures r.ctx == GetGroupSettings(ctx, env, ProjectFileVersion).ctx
    ensures var settings := GetGroupSettings(ctx, env, ProjectFileVersion).value;
            && (settings.None? ==> r.value == {})
            && (settings.Some? && FindComponent(settings.value.root, ProjectFileVersionComponent).None? ==> r.value == {})
            && (settings.Some? && FindComponent(settings.value.root, ProjectFileVersionComponent).Some? ==>
                  forall x :: x in r.value <==>
                    x in env.storedConversionIds(FindComponent(settings.value.root, ProjectFileVersionComponent).value))
  {
    var got := GetGroupSettings(ctx, env, ProjectFileVersion);
    match got.value
    case None => Got(got.ctx, {})
    case Some(component) =>
      match FindComponent(component.root, ProjectFileVersionComponent)
      case None => Got(got.ctx, {})
      case Some(componentElement) =>
        var stored := env.storedConversionIds(componentElement);
        Got(got.ctx, set i | 0 <= i < |stored| :: stored[i])
  }

  /** The context before the ledger is loaded. */
  function Initial(layout: Layout, moduleFiles: seq<Path>): Context {
    Context(layout, moduleFiles, {}, map[], map[], map[], map[], 0)
  }

  /** The constructor: the layout, the module inventory read from the
      modules file when it exists, and the performed conversions. A modules
      file that exists but cannot be read aborts the construction. Loading
      the ledger materializes the project-file-version settings, so the
      ledger's file is the one file cached afterwards. */
  function Create(env: Environment, projectPath: Path): (r: Result<Context, CannotConvert>)
    ensures var layout := ResolveLayout(env.fs, projectPath);
            r.Err? <==> env.fs.Exists(layout.modulesFile) && env.load(layout.modulesFile).None?
    ensures r.Ok? ==>
              var layout := ResolveLayout(env.fs, projectPath);
              && Valid(r.value, env)
              && r.value.layout == layout
              && (!env.fs.Exists(layout.modulesFile) ==> r.value.moduleFiles == [])
              && (env.fs.Exists(layout.modulesFile) ==>
                    r.value.moduleFiles == FindModuleFiles(env.load(layout.modulesFile).value, env.expandMacros))
              && r.value.file2ModuleSettings == map[] && r.value.name2ModuleSettings == map[]
    ensures r.Ok? ==>
              var layout := ResolveLayout(env.fs, projectPath);
              var ledger := LedgerFile(layout);
              && (forall p | p in r.value.settingsFiles :: p == ledger)
              && (ledger in r.value.settingsFiles <==>
                    (layout.scheme == DirectoryBased ==> env.fs.Exists(ledger)) && env.load(ledger).Some?)
              && (ledger in r.value.settingsFiles ==>
                    ProjectFileVersion in r.value.groups
                    && r.value.groups[ProjectFileVersion].file == r.value.settingsFiles[ledger])
  {
    var layout := ResolveLayout(env.fs, projectPath);
    var modules: Result<seq<Path>, CannotConvert> :=
      if !env.fs.Exists(layout.modulesFile) then Ok([])
      else match env.load(layout.modulesFile)
        case None => Err(CannotConvert(layout.modulesFile))
        case Some(root) => Ok(FindModuleFiles(root, env.expandMacros));
    var moduleFiles :- modules;
    InitialLoadedValid(env, layout, moduleFiles);
    InitialLoadedCache(env, layout, moduleFiles);
    Ok(WithLedger(env, layout, moduleFiles))
  }

  /** A fresh context with the performed conversions loaded into it. */
  function WithLedger(env: Environment, layout: Layout, moduleFiles: seq<Path>): Context
    requires layout.scheme == DirectoryBased ==> layout.settingsDir.Some?
  {
    var ctx := Initial(layout, moduleFiles);
    var loaded := LoadPerformedConversionIds(ctx, env);
    loaded.ctx.(performedConversionIds := loaded.value)
  }

  /** The invariant does not look at the ledger. */
  lemma ValidWithIds(ctx: Context, env: Environment, ids: set<string>)
    requires Valid(ctx, env)
    ensures Valid(ctx.(performedConversionIds := ids), env)
  {
    var next := ctx.(performedConversionIds := ids);
    forall g | g in next.groups ensures ViewOf(next, env, next.groups[g]) {
      assert ViewOf(ctx, env, ctx.groups[g]);
    }
  }

  /** Loading the ledger into a fresh context keeps the invariant and
      indexes no module. */
  lemma InitialLoadedValid(env: Environment, layout: Layout, moduleFiles: seq<Path>)
    requires layout.scheme == DirectoryBased ==> layout.settingsDir.Some?
    ensures var loaded := WithLedger(env, layout, moduleFiles);
            && Valid(loaded, env)
            && loaded.layout == layout && loaded.moduleFiles == moduleFiles
            && loaded.file2ModuleSettings == map[] && loaded.name2ModuleSettings == map[]
  {
    var ctx := Initial(layout, moduleFiles);
    var got := GetGroupSettings(ctx, env, ProjectFileVersion);
    var loaded := LoadPerformedConversionIds(ctx, env);
    LedgerGroupOfInitial(env, layout, moduleFiles);
    assert WithLedger(env, layout, moduleFiles) == got.ctx.(performedConversionIds := loaded.value);
    ValidWithIds(got.ctx, env, loaded.value);
  }

  /** Loading the ledger into a fresh context caches at most the ledger's
      file, and with it the project-file-version settings. */
  lemma InitialLoadedCache(env: Environment, layout: Layout, moduleFiles: seq<Path>)
    requires layout.scheme == DirectoryBased ==> layout.settingsDir.Some?
    ensures var loaded := WithLedger(env, layout, moduleFiles);
            var ledger := LedgerFile(layout);
            && (forall p | p in loaded.settingsFiles :: p == ledger)
            && (ledger in loaded.settingsFiles <==>
                  (layout.scheme == DirectoryBased ==> env.fs.Exists(ledger)) && env.load(ledger).Some?)
            && (ledger in loaded.settingsFiles ==>
                  ProjectFileVersion in loaded.groups && loaded.groups[ProjectFileVersion].file == loaded.settingsFiles[ledger])
  {
    var ctx := Initial(layout, moduleFiles);
    var got := GetGroupSettings(ctx, env, ProjectFileVersion);
    LedgerGroupOfInitial(env, layout, moduleFiles);
    var w := WithLedger(env, layout, moduleFiles);
    assert w.settingsFiles == got.ctx.settingsFiles && w.groups == got.ctx.groups;
  }

  /** The project-file-version settings of a fresh context: present exactly
      when the ledger's file can be read, and then the only cached file and
      the only group. */
  lemma LedgerGroupOfInitial(env: Environment, layout: Layout, moduleFiles: seq<Path>)
    requires layout.scheme == DirectoryBased ==> layout.settingsDir.Some?
    ensures var got := GetGroupSettings(Initial(layout, moduleFiles), env, ProjectFileVersion);
            var ledger := LedgerFile(layout);
            && Valid(got.ctx, env)
            && (got.value.Some? <==> (layout.scheme == DirectoryBased ==> env.fs.Exists(ledger)) && env.load(ledger).Some?)
            && got.ctx.settingsFiles == (if got.value.Some? then map[ledger := got.value.value.file] else map[])
            && got.ctx.groups == (if got.value.Some? then map[ProjectFileVersion := got.value.value] else map[])
            && got.ctx.layout == layout && got.ctx.moduleFiles == moduleFiles
            && got.ctx.file2ModuleSettings == map[] && got.ctx.name2ModuleSettings == map[]
  {
    var ctx := Initial(layout, moduleFiles);
    var created := CreateProjectSettings(ctx, env, ProjectFileVersion.FileName());
    if created.value.Some? {
      assert GetGroupSettings(ctx, env, ProjectFileVersion).ctx
             == created.ctx.(groups := map[ProjectFileVersion := created.value.value]);
    }
  }

  /** The ledger is empty when the project has no readable settings file for
      it: for a directory-based project, `misc.xml` in the settings folder. */
  lemma NoLedgerWithoutMisc(env: Environment, projectPath: Path)
    requires Create(env, projectPath).Ok?
    requires var layout := ResolveLayout(env.fs, projectPath);
             layout.scheme == DirectoryBased && !env.fs.Exists(Resolve(layout.settingsDir.value, "misc.xml"))
    ensures Create(env, projectPath).value.performedConversionIds == {}
  {
    var layout := ResolveLayout(env.fs, projectPath);
    var moduleFiles := if !env.fs.Exists(layout.modulesFile) then []
                       else FindModuleFiles(env.load(layout.modulesFile).value, env.expandMacros);
    assert Create(env, projectPath).value == WithLedger(env, layout, moduleFiles);
    var ctx := Initial(layout, moduleFiles);
    assert LedgerFile(layout) == Resolve(layout.settingsDir.value, "misc.xml");
    LedgerGroupOfInitial(env, layout, moduleFiles);
    assert GetGroupSettings(ctx, env, ProjectFileVersion).value.None?;
    assert WithLedger(env, layout, moduleFiles).performedConversionIds == LoadPerformedConversionIds(ctx, env).value;
  }

  /** `isConversionAlreadyPerformed`: the provider's ID is in the ledger
      loaded at construction. */
  function IsConversionAlreadyPerformed(ctx: Context, provider: Provider): (r: bool)
  {
    provider.id in ctx.performedConversionIds
  }

  /** Right after construction a provider counts as already performed exactly
      when its ID is stored in the ledger component of the project's
      settings file. */
  lemma AlreadyPerformedIffStored(env: Environment, projectPath: Path, provider: Provider)
    requires Create(env, projectPath).Ok?
    ensures var layout := ResolveLayout(env.fs, projectPath);
            var file := LedgerFile(layout);
            IsConversionAlreadyPerformed(Create(env, projectPath).value, provider) <==>
              && (layout.scheme == DirectoryBased ==> env.fs.Exists(file))
              && env.load(file).Some?
              && FindComponent(env.load(file).value, ProjectFileVersionComponent).Some?
              && provider.id in env.storedConversionIds(FindComponent(env.load(file).value, ProjectFileVersionComponent).value)
  {
    var layout := ResolveLayout(env.fs, projectPath);
    var moduleFiles := if !env.fs.Exists(layout.modulesFile) then []
                       else FindModuleFiles(env.load(layout.modulesFile).value, env.expandMacros);
    var ctx := Initial(layout, moduleFiles);
    assert Create(env, projectPath).value == WithLedger(env, layout, moduleFiles);
    var created := CreateProjectSettings(ctx, env, ProjectFileVersion.FileName());
    assert GetGroupSettings(ctx, env, ProjectFileVersion).value == created.value;
  }

  /** `getModuleSettings(File)`: the cached view of a module file, created on
      first use through the file cache and then also indexed by the module's
      name. */
  function GetModuleSettingsByFile(ctx: Context, env: Environment, moduleFile: Path): (r: Result<Got<ModuleSettings>, CannotConvert>)
    requires Valid(ctx, env)
    ensures moduleFile in ctx.file2ModuleSettings ==> r == Ok(Got(ctx, ctx.file2ModuleSettings[moduleFile]))
    ensures r.Err? <==> moduleFile !in ctx.file2ModuleSettings && env.load(moduleFile).None?
    ensures r.Ok? ==>
              && Valid(r.value.ctx, env)
              && r.value.value.file.path == moduleFile
              && r.value.value.name == env.moduleName(moduleFile)
              && r.value.ctx.file2ModuleSettings == ctx.file2ModuleSettings[moduleFile := r.value.value]
              && r.value.ctx.settingsFiles == ctx.settingsFiles[moduleFile := r.value.value.file]
              && (moduleFile in ctx.settingsFiles ==> r.value.value.file == ctx.settingsFiles[moduleFile])
              && Extends(ctx, r.value.ctx)
              && r.value.ctx.moduleFiles == ctx.moduleFiles
              && r.value.ctx.groups == ctx.groups
    ensures r.Ok? && moduleFile !in ctx.file2ModuleSettings ==>
              r.value.ctx.name2ModuleSettings == ctx.name2ModuleSettings[r.value.value.name := r.value.value]
  {
    if moduleFile in ctx.file2ModuleSettings then
      assert ctx.settingsFiles[moduleFile := ctx.file2ModuleSettings[moduleFile].file] == ctx.settingsFiles;
      Ok(Got(ctx, ctx.file2ModuleSettings[moduleFile]))
    else
      match GetOrCreateFile(ctx, env, moduleFile)
      case Err(e) => Err(e)
      case Ok(got) =>
        var settings := ModuleSettings(got.value, env.moduleName(moduleFile), got.ctx.nextId);
        var next := got.ctx.(file2ModuleSettings := got.ctx.file2ModuleSettings[moduleFile := settings],
                             name2ModuleSettings := got.ctx.name2ModuleSettings[settings.name := settings],
                             nextId := got.ctx.nextId + 1);
        NewModuleValid(got.ctx, env, moduleFile, settings, next);
        Ok(Got(next, settings))
  }

  lemma NewModuleValid(ctx: Context, env: Environment, moduleFile: Path, settings: ModuleSettings, next: Context)
    requires Valid(ctx, env)
    requires moduleFile !in ctx.file2ModuleSettings && moduleFile in ctx.settingsFiles
    requires settings == ModuleSettings(ctx.settingsFiles[moduleFile], env.moduleName(moduleFile), ctx.nextId)
    requires next == ctx.(file2ModuleSettings := ctx.file2ModuleSettings[moduleFile := settings],
                          name2ModuleSettings := ctx.name2ModuleSettings[settings.name := settings],
                          nextId := ctx.nextId + 1)
    ensures Valid(next, env)
  {
    forall g | g in next.groups ensures ViewOf(next, env, next.groups[g]) {
      assert ViewOf(ctx, env, ctx.groups[g]);
    }
    forall f | f in next.file2ModuleSettings
      ensures f in next.settingsFiles
      ensures next.file2ModuleSettings[f].file == next.settingsFiles[f]
      ensures next.file2ModuleSettings[f].name == env.moduleName(f)
      ensures next.file2ModuleSettings[f].id < next.nextId
      ensures next.file2ModuleSettings[f].name in next.name2ModuleSettings
    {
    }
    NewModuleIndexAgrees(ctx, env, moduleFile, settings, next);
  }

  /** The name index of `NewModuleValid`: every indexed name still leads to
      the file index's entry for its file. */
  lemma NewModuleIndexAgrees(ctx: Context, env: Environment, moduleFile: Path, settings: ModuleSettings, next: Context)
    requires Valid(ctx, env)
    requires moduleFile !in ctx.file2ModuleSettings && settings.name == env.moduleName(moduleFile)
    requires settings.file.path == moduleFile
    requires next.file2ModuleSettings == ctx.file2ModuleSettings[moduleFile := settings]
    requires next.name2ModuleSettings == ctx.name2ModuleSettings[settings.name := settings]
    ensures forall n | n in next.name2ModuleSettings ::
              && next.name2ModuleSettings[n].name == n
              && next.name2ModuleSettings[n].file.path in next.file2ModuleSettings
              && next.file2ModuleSettings[next.name2ModuleSettings[n].file.path] == next.name2ModuleSettings[n]
  {
    forall n | n in next.name2ModuleSettings
      ensures next.name2ModuleSettings[n].name == n
      ensures next.name2ModuleSettings[n].file.path in next.file2ModuleSettings
      ensures next.file2ModuleSettings[next.name2ModuleSettings[n].file.path] == next.name2ModuleSettings[n]
    {
      if n != settings.name {
        var m := ctx.name2ModuleSettings[n];
        assert m.file.path in ctx.file2ModuleSettings;
        assert m.file.path != moduleFile;
      }
    }
  }

  /** The names every module file in `files` that can be read would index. */
  predicate Indexable(env: Environment, files: seq<Path>, name: string) {
    exists i | 0 <= i < |files| :: env.load(files[i]).Some? && env.moduleName(files[i]) == name
  }

  /** The loop of `getModuleSettings(String)`: materializes every module file
      in turn, ignoring those that cannot be read. */
  function LoadAllModules(ctx: Context, env: Environment, files: seq<Path>): (r: Context)
    requires Valid(ctx, env)
    ensures Valid(r, env)
    ensures r.moduleFiles == ctx.moduleFiles && Extends(ctx, r)
    ensures forall n :: n in r.name2ModuleSettings <==> n in ctx.name2ModuleSettings || Indexable(env, files, n)
    decreases |files|
  {
    if |files| == 0 then ctx
    else
      var next := match GetModuleSettingsByFile(ctx, env, files[0])
                  case Ok(got) => got.ctx
                  case Err(_) => ctx;
      var r := LoadAllModules(next, env, files[1..]);
      IndexableStep(ctx, env, files, next, r);
      r
  }

  lemma IndexableStep(ctx: Context, env: Environment, files: seq<Path>, next: Context, r: Context)
    requires Valid(ctx, env) && |files| > 0
    requires next == match GetModuleSettingsByFile(ctx, env, files[0])
                     case Ok(got) => got.ctx
                     case Err(_) => ctx
    requires forall n :: n in r.name2ModuleSettings <==> n in next.name2ModuleSettings || Indexable(env, files[1..], n)
    ensures forall n :: n in r.name2ModuleSettings <==> n in ctx.name2ModuleSettings || Indexable(env, files, n)
  {
    ModuleNamesStep(ctx, env, files[0], next);
    forall n
      ensures Indexable(env, files, n) <==>
                (env.load(files[0]).Some? && env.moduleName(files[0]) == n) || Indexable(env, files[1..], n)
    {
      IndexableCons(env, files, n);
    }
  }

  /** One module file materialized: its name is indexed when it can be
      read, and no other name is added. */
  lemma ModuleNamesStep(ctx: Context, env: Environment, f: Path, next: Context)
    requires Valid(ctx, env)
    requires next == match GetModuleSettingsByFile(ctx, env, f)
                     case Ok(got) => got.ctx
                     case Err(_) => ctx
    ensures forall n :: n in next.name2ModuleSettings <==>
              n in ctx.name2ModuleSettings || (env.load(f).Some? && env.moduleName(f) == n)
  {
    if f in ctx.file2ModuleSettings {
      assert ctx.file2ModuleSettings[f].name in ctx.name2ModuleSettings;
      assert env.load(f).Some? by { assert f in ctx.settingsFiles; }
    }
  }

  /** `Indexable` on a non-empty list: the first file, or one of the rest. */
  lemma IndexableCons(env: Environment, files: seq<Path>, n: string)
    requires |files| > 0
    ensures Indexable(env, files, n) <==>
              (env.load(files[0]).Some? && env.moduleName(files[0]) == n) || Indexable(env, files[1..], n)
  {
    if Indexable(env, files, n) && !(env.load(files[0]).Some? && env.moduleName(files[0]) == n) {
      var i :| 0 <= i < |files| && env.load(files[i]).Some? && env.moduleName(files[i]) == n;
      assert files[1..][i - 1] == files[i];
    }
    if Indexable(env, files[1..], n) {
      var i :| 0 <= i < |files[1..]| && env.load(files[1..][i]).Some? && env.moduleName(files[1..][i]) == n;
      assert files[i + 1] == files[1..][i];
    }
  }

  /** `getModuleSettings(String)`: a known name is answered from the index;
      an unknown one first materializes the whole module inventory. The
      result is null when the name is still unknown. */
  function GetModuleSettingsByName(ctx: Context, env: Environment, moduleName: string): (r: Got<Option<ModuleSettings>>)
    requires Valid(ctx, env)
    ensures Valid(r.ctx, env)
    ensures Extends(ctx, r.ctx) && r.ctx.moduleFiles == ctx.moduleFiles
    ensures moduleName in ctx.name2ModuleSettings ==> r == Got(ctx, Some(ctx.name2ModuleSettings[moduleName]))
    ensures r.value.Some? ==> moduleName in r.ctx.name2ModuleSettings && r.ctx.name2ModuleSettings[moduleName] == r.value.value
    ensures r.value.Some? <==> moduleName in ctx.name2ModuleSettings || Indexable(env, ctx.moduleFiles, moduleName)
    ensures r.value.Some? ==> r.value.value.name == moduleName && env.moduleName(r.value.value.file.path) == moduleName
  {
    var loaded := if moduleName in ctx.name2ModuleSettings then ctx else LoadAllModules(ctx, env, ctx.moduleFiles);
    if moduleName in loaded.name2ModuleSettings then Got(loaded, Some(loaded.name2ModuleSettings[moduleName]))
    else Got(loaded, None)
  }

  /** Asking for a module by name again returns the same instance and
      changes nothing. */
  lemma GetModuleSettingsByNameStable(ctx: Context, env: Environment, moduleName: string)
    requires Valid(ctx, env)
    requires GetModuleSettingsByName(ctx, env, moduleName).value.Some?
    ensures var first := GetModuleSettingsByName(ctx, env, moduleName);
            GetModuleSettingsByName(first.ctx, env, moduleName) == first
  {
  }

  /** What `saveFiles` does to the outside world. */
  datatype Effect =
      /** The ledger component of the project-file-version settings rewritten. */
    | WriteLedger(settings: ComponentSettings, ids: seq<string>)
      /** A cached settings file saved. */
    | SaveFile(file: SettingsXmlFile)

  /** Reference definition: the cached files among `files`, in the given
      order; the others are skipped. */
  function CachedAmong(cache: map<Path, SettingsXmlFile>, files: seq<Path>): (r: seq<SettingsXmlFile>)
    ensures |r| <= |files|
    ensures forall i | 0 <= i < |r| :: r[i] in cache.Values
  {
    if |files| == 0 then []
    else if files[0] in cache then [cache[files[0]]] + CachedAmong(cache, files[1..])
    else CachedAmong(cache, files[1..])
  }

  /** The ledger update of `saveFiles`: nothing when no provider needs
      recording; otherwise the merged ID list, written into the
      project-file-version settings when those exist. */
  method RecordProviders(ctx: Context, env: Environment, usedProviders: seq<Provider>)
      returns (r: Context, ledger: Option<Effect>)
    requires Valid(ctx, env)
    ensures Valid(r, env)
    ensures Extends(ctx, r)
    ensures r.performedConversionIds == ctx.performedConversionIds
    ensures NewIds(usedProviders) == {} ==> ledger.None? && r == ctx
    ensures NewIds(usedProviders) != {} ==> r == GetGroupSettings(ctx, env, ProjectFileVersion).ctx
    ensures ledger.Some? ==>
              && ledger.value.WriteLedger?
              && GetGroupSettings(ctx, env, ProjectFileVersion).value == Some(ledger.value.settings)
              && ViewOf(r, env, ledger.value.settings)
              && Sorted(ledger.value.ids)
              && Distinct(ledger.value.ids)
              && forall x :: x in ledger.value.ids <==> x in NewIds(usedProviders) || x in ctx.performedConversionIds
    ensures NewIds(usedProviders) != {} ==>
              (ledger.Some? <==> GetGroupSettings(ctx, env, ProjectFileVersion).value.Some?)
  {
    r := ctx;
    ledger := None;
    var written := MergeLedger(ctx.performedConversionIds, usedProviders);
    if written.Some? {
      var got := GetGroupSettings(ctx, env, ProjectFileVersion);
      r := got.ctx;
      if got.value.Some? {
        ledger := Some(WriteLedger(got.value.value, written.value));
      }
    }
  }

  /** The saving loop of `saveFiles`: the cached files among `files`. */
  method SaveCached(cache: map<Path, SettingsXmlFile>, files: seq<Path>) returns (saved: seq<SettingsXmlFile>)
    ensures saved == CachedAmong(cache, files)
  {
    saved := [];
    var i := 0;
    while i < |files|
      invariant 0 <= i <= |files|
      invariant saved + CachedAmong(cache, files[i..]) == CachedAmong(cache, files)
    {
      assert files[i..][1..] == files[i + 1..];
      if files[i] in cache {
        saved := saved + [cache[files[i]]];
      }
      i := i + 1;
    }
  }

  /** `saveFiles`: records the providers that need it in the ledger, then
      saves the cached files among `files`, in order. */
  method SaveFiles(ctx: Context, env: Environment, files: seq<Path>, usedProviders: seq<Provider>)
      returns (r: Context, ledger: Option<Effect>, saved: seq<SettingsXmlFile>)
    requires Valid(ctx, env)
    ensures Valid(r, env)
    ensures Extends(ctx, r)
    ensures r.performedConversionIds == ctx.performedConversionIds
    ensures NewIds(usedProviders) == {} ==> ledger.None? && r == ctx
    ensures NewIds(usedProviders) != {} ==> r == GetGroupSettings(ctx, env, ProjectFileVersion).ctx
    ensures ledger.Some? ==>
              && ledger.value.WriteLedger?
              && GetGroupSettings(ctx, env, ProjectFileVersion).value == Some(ledger.value.settings)
              && Sorted(ledger.value.ids)
              && Distinct(ledger.value.ids)
              && forall x :: x in ledger.value.ids <==> x in NewIds(usedProviders) || x in ctx.performedConversionIds
    ensures NewIds(usedProviders) != {} ==>
              (ledger.Some? <==> GetGroupSettings(ctx, env, ProjectFileVersion).value.Some?)
    ensures saved == CachedAmong(r.settingsFiles, files)
    ensures forall i | 0 <= i < |files| && files[i] in ctx.settingsFiles :: ctx.settingsFiles[files[i]] in saved
    ensures ledger.Some? && ledger.value.WriteLedger? && ledger.value.settings.file.path in files ==> ledger.value.settings.file in saved
  {
    r, ledger := RecordProviders(ctx, env, usedProviders);
    saved := SaveCached(r.settingsFiles, files);
    forall i | 0 <= i < |files| && files[i] in ctx.settingsFiles
      ensures ctx.settingsFiles[files[i]] in saved
    {
      CachedAmongHas(r.settingsFiles, files, i);
    }
    if ledger.Some? && ledger.value.WriteLedger? && ledger.value.settings.file.path in files {
      var i :| 0 <= i < |files| && files[i] == ledger.value.settings.file.path;
      CachedAmongHas(r.settingsFiles, files, i);
    }
  }

  /** Every requested file that is cached is among those saved. */
  lemma {:induction false} CachedAmongHas(cache: map<Path, SettingsXmlFile>, files: seq<Path>, i: int)
    requires 0 <= i < |files| && files[i] in cache
    ensures cache[files[i]] in CachedAmong(cache, files)
  {
    if i > 0 {
      assert files[1..][i - 1] == files[i];
      CachedAmongHas(cache, files[1..], i - 1);
    }
  }

  /** Right after construction, a ledger written by `saveFiles` is saved
      whenever the ledger's file is among the files to save. */
  lemma LedgerFileSavedAfterCreate(env: Environment, projectPath: Path)
    requires Create(env, projectPath).Ok?
    requires var layout := ResolveLayout(env.fs, projectPath);
             (layout.scheme == DirectoryBased ==> env.fs.Exists(LedgerFile(layout)))
             && env.load(LedgerFile(layout)).Some?
    ensures var ctx := Create(env, projectPath).value;
            var ledger := LedgerFile(ctx.layout);
            && ledger in ctx.settingsFiles
            && CachedAmong(ctx.settingsFiles, [ledger]) == [ctx.settingsFiles[ledger]]
            && GetGroupSettings(ctx, env, ProjectFileVersion).value.Some?
            && GetGroupSettings(ctx, env, ProjectFileVersion).value.value.file == ctx.settingsFiles[ledger]
  {
    var ctx := Create(env, projectPath).value;
    var ledger := LedgerFile(ctx.layout);
    assert [ledger][1..] == [];
  }

  /** The `root` children of a library's `CLASSES` element as local paths,
      expanded with the project's macros (`getClassRoots`). */
  function ClassRoots(env: Environment, library: Element): (r: seq<Path>)
    ensures GetChild(library, "CLASSES").None? ==> r == []
    ensures GetChild(library, "CLASSES").Some? ==>
              var roots := GetChildren(GetChild(library, "CLASSES").value, "root");
              && |r| == |roots|
              && forall i | 0 <= i < |r| :: r[i] == env.localPath(env.expandMacros(env.urlToPath(Attribute(roots[i], "url"))))
  {
    match GetChild(library, "CLASSES")
    case None => []
    case Some(classes) =>
      var roots := GetChildren(classes, "root");
      seq(|roots|, i requires 0 <= i < |roots| =>
        env.localPath(env.expandMacros(env.urlToPath(Attribute(roots[i], "url")))))
  }

  /** `libraries[i]` is a `library` element called `name`. */
  predicate IsLibrary(libraries: seq<Element>, i: int, name: string)
    requires 0 <= i < |libraries|
  {
    HasTagAndAttribute(libraries[i], "library", "name", name)
  }

  /** `r` is the first library called `name` in `libraries`, or None when
      there is none. */
  predicate FirstLibrary(libraries: seq<Element>, name: string, r: Option<Element>) {
    && (r.None? <==> forall i | 0 <= i < |libraries| :: !IsLibrary(libraries, i, name))
    && (r.Some? ==> exists i | 0 <= i < |libraries| ::
          && libraries[i] == r.value
          && IsLibrary(libraries, i, name)
          && forall j | 0 <= j < i :: !IsLibrary(libraries, j, name))
  }

  /** The library of that name in a library table (`ContainerUtil.find`,
      `JDomConvertingUtil.findChild`): its first `library` element whose
      `name` attribute matches. */
  function FindLibrary(libraries: seq<Element>, name: string): (r: Option<Element>)
    ensures r.Some? ==> HasTagAndAttribute(r.value, "library", "name", name)
    ensures FirstLibrary(libraries, name, r)
  {
    var test := (e: Element) => HasTagAndAttribute(e, "library", "name", name);
    var r := FindFirst(libraries, test);
    assert forall i | 0 <= i < |libraries| :: IsLibrary(libraries, i, name) == test(libraries[i]);
    r
  }

  /** The library element `getLibraryClassRoots` looks at: in the project's
      library settings for the project level, in the `libraryTable`
      component of the application's library file for the application
      level; a settings file that cannot be read counts as no library. */
  function FindLibraryElement(env: Environment, name: string, level: string): (r: Option<Element>)
    ensures level != ProjectLevel && level != ApplicationLevel ==> r.None?
    ensures level == ProjectLevel && env.projectLibraries.None? ==> r.None?
    ensures level == ProjectLevel && env.projectLibraries.Some? ==>
              FirstLibrary(env.projectLibraries.value, name, r)
    ensures level == ApplicationLevel ==>
              var file := env.applicationLibrariesFile;
              if env.fs.Exists(file) && env.load(file).Some?
                 && FindComponent(env.load(file).value, "libraryTable").Some?
              then FirstLibrary(FindComponent(env.load(file).value, "libraryTable").value.children, name, r)
              else r.None?
  {
    if level == ProjectLevel then
      match env.projectLibraries
      case None => None
      case Some(libraries) => FindLibrary(libraries, name)
    else if level == ApplicationLevel then
      if !env.fs.Exists(env.applicationLibrariesFile) then None
      else match env.load(env.applicationLibrariesFile)
        case None => None
        case Some(root) =>
          match FindComponent(root, "libraryTable")
          case None => None
          case Some(table) => FindLibrary(table.children, name)
    else None
  }

  /** `getLibraryClassRoots`: the class roots of the library found at the
      given level; empty for an unknown level, a library that is not found,
      or settings that cannot be read. */
  function GetLibraryClassRoots(env: Environment, name: string, level: string): (r: seq<Path>)
    ensures FindLibraryElement(env, name, level).None? ==> r == []
    ensures |r| > 0 ==> (level == ProjectLevel || level == ApplicationLevel)
    ensures FindLibraryElement(env, name, level).Some? ==>
              var classes := GetChild(FindLibraryElement(env, name, level).value, "CLASSES");
              && |r| == (if classes.None? then 0 else |GetChildren(classes.value, "root")|)
              && (classes.Some? ==>
                    var roots := GetChildren(classes.value, "root");
                    forall i | 0 <= i < |r| ::
                      r[i] == env.localPath(env.expandMacros(env.urlToPath(Attribute(roots[i], "url")))))
  {
    match FindLibraryElement(env, name, level)
    case None => []
    case Some(library) => ClassRoots(env, library)
  }
}
