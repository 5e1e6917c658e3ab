/**
 * The dependency collector of `parseBlockAsset`: the `onResolve` and `onLoad`
 * callbacks of its bundler plugin, written as pure steps over the record
 * `(asset, sources, frontmatter)` that the callbacks mutate in the original,
 * and a fold of those steps over the events the bundler would deliver.
 *
 * The file system, module resolution, the manifest lookup, Node's `path`
 * helpers and the YAML loader are oracles gathered in `Host`.
 */
module BlockCollector {
  import opened Wrappers
  import opened JsText
  import opened Frontmatter
  import RoutePath

  // ----- bundler-facing data -------------------------------------------------------

  /** The bundler's import kinds; only `entry-point` changes what the callbacks do. */
  datatype ImportKind =
    | EntryPoint | ImportStatement | RequireCall | DynamicImport
    | RequireResolve | ImportRule | ComposesFrom | UrlToken

  datatype ResolveArgs = ResolveArgs(path: string, kind: ImportKind, resolveDir: string)

  /** What `onResolve` attaches to an internal module for `onLoad` to read back. */
  datatype PluginData = PluginData(kind: ImportKind, resolveDir: string)

  datatype ResolveReturn =
    | External(path: string)
    | Internal(path: string, pluginData: PluginData)

  datatype LoadArgs = LoadArgs(path: string, pluginData: PluginData)

  /** `NoContents` is the `undefined` returned for unsupported files. */
  datatype LoadReturn = NoContents | Contents(contents: string, loader: string)

  // ----- the collected record ------------------------------------------------------

  /** A dependency is either an npm package with its version or an inlined file. */
  datatype Dependency = Npm(version: string) | File(content: string)

  /**
   * The block asset. `meta` holds the metadata fields copied from the
   * frontmatter: a key is present once assigned, `None` is `undefined`.
   */
  datatype BlockAsset<V> = BlockAsset(
    assetType: string,
    id: string,
    refAtomIds: seq<string>,
    dependencies: map<string, Dependency>,
    meta: map<string, Option<V>>)

  /** The parse result the callbacks fill in. */
  datatype Collected<V> = Collected(
    asset: BlockAsset<V>,
    sources: map<string, string>,
    frontmatter: YamlDoc<V>)

  datatype BuildOptions = BuildOptions(
    fileAbsPath: string,
    id: string,
    refAtomIds: seq<string>,
    entryPointCode: Option<string>)

  /**
   * The collaborators the callbacks call out to: `fs.readFileSync` and
   * `require.resolve` (`None` when they throw), `pkgUp.pkgUpSync` (`None` when
   * no manifest is found), the manifest's `version`, Node's `path.join`,
   * `path.relative`, `path.dirname`, `path.extname`, and `yaml.load`.
   */
  datatype Host<V> = Host(
    readFile: string -> Option<string>,
    resolveModule: (string, string) -> Option<string>,
    pkgUp: string -> Option<string>,
    versionOf: string -> string,
    join: (string, string) -> string,
    relative: (string, string) -> string,
    dirname: string -> string,
    extname: string -> string,
    yaml: string -> Option<YamlDoc<V>>)

  /** The errors that abort the whole build. */
  datatype Fatal = UnresolvableModule(specifier: string, resolveDir: string) | UnreadableFile(path: string)

  const ModuleExts: set<string> := {".js", ".jsx", ".ts", ".tsx"}
  const PlainTextExts: set<string> := {".css", ".less", ".sass", ".scss", ".styl", ".json"}
  const MetaKeys: set<string> := {"description", "title", "snapshot", "keywords"}

  /** The `{}` the result's frontmatter starts as: a truthy object without keys. */
  function EmptyObject<V>(): YamlDoc<V> {
    YamlDoc(true, map[])
  }

  /** The record before the bundler runs. */
  function Init<V>(opts: BuildOptions): Collected<V> {
    Collected(BlockAsset("BLOCK", opts.id, opts.refAtomIds, map[], map[]), map[], EmptyObject())
  }

  // ----- onResolve -------------------------------------------------------------------

  /** A specifier is external unless it is the entry or starts with a dot. */
  predicate IsExternal(args: ResolveArgs) {
    args.kind != EntryPoint && !StartsWith(args.path, ".")
  }

  /** Everything but the dependency map is as before. */
  ghost predicate OnlyDependenciesChange<V>(st: Collected<V>, st': Collected<V>) {
    && st'.sources == st.sources
    && st'.frontmatter == st.frontmatter
    && st'.asset.(dependencies := st.asset.dependencies) == st.asset
  }

  /**
   * `onResolve`: an external specifier is recorded with its package version
   * when a manifest is found above its resolved location, and is left to the
   * bundler as external; anything else resolves against its directory and
   * carries its kind to `onLoad`.
   */
  function OnResolve<V>(host: Host<V>, st: Collected<V>, args: ResolveArgs)
    : (r: Result<(Collected<V>, ResolveReturn), Fatal>)
    ensures !IsExternal(args) ==>
              r == Success((st, Internal(host.join(args.resolveDir, args.path),
                                         PluginData(args.kind, args.resolveDir))))
    ensures IsExternal(args) ==>
              (r.Failure? <==> host.resolveModule(args.path, args.resolveDir).None?)
    ensures IsExternal(args) && r.Success? ==>
              && r.value.1 == External(args.path)
              && OnlyDependenciesChange(st, r.value.0)
              && var deps := st.asset.dependencies;
                 var deps' := r.value.0.asset.dependencies;
                 var pkg := host.pkgUp(host.resolveModule(args.path, args.resolveDir).value);
                 && (forall k :: k != args.path ==> (k in deps' <==> k in deps))
                 && (forall k :: k in deps && k != args.path ==> deps'[k] == deps[k])
                 && (pkg.Some? ==> args.path in deps' && deps'[args.path] == Npm(host.versionOf(pkg.value)))
                 && (pkg.None? ==> deps' == deps)
  {
    if IsExternal(args) then
      match host.resolveModule(args.path, args.resolveDir)
      case None => Failure(UnresolvableModule(args.path, args.resolveDir))
      case Some(location) =>
        var deps := match host.pkgUp(location)
          case Some(manifest) => st.asset.dependencies[args.path := Npm(host.versionOf(manifest))]
          case None => st.asset.dependencies;
        Success((st.(asset := st.asset.(dependencies := deps)), External(args.path)))
    else
      Success((st, Internal(host.join(args.resolveDir, args.path), PluginData(args.kind, args.resolveDir))))
  }

  // ----- onLoad ------------------------------------------------------------------------

  datatype FileClass = Module | PlainText | Unsupported

  /** The extension table: script modules, plain-text assets, everything else. */
  function Classify(ext: string): (c: FileClass)
    ensures c == Module <==> ext in ModuleExts
    ensures c == PlainText <==> ext in PlainTextExts
    ensures c == Unsupported <==> ext !in ModuleExts && ext !in PlainTextExts
    ensures c == Module ==> |ext| >= 2 && ext[0] == '.'
  {
    if ext in ModuleExts then Module else if ext in PlainTextExts then PlainText else Unsupported
  }

  /**
   * The dependency key of a loaded file: `index` plus the extension for the
   * entry, otherwise the path relative to the entry's directory with every
   * backslash turned into a slash.
   */
  function LoadKey<V>(host: Host<V>, opts: BuildOptions, args: LoadArgs): (key: string)
    ensures args.pluginData.kind == EntryPoint ==> key == "index" + host.extname(args.path)
    ensures args.pluginData.kind != EntryPoint ==>
              var rel := host.relative(host.dirname(opts.fileAbsPath), args.path);
              && |key| == |rel|
              && (forall i :: 0 <= i < |rel| ==> key[i] == (if rel[i] == '\\' then '/' else rel[i]))
              && (forall i :: 0 <= i < |key| ==> key[i] != '\\')
  {
    if args.pluginData.kind == EntryPoint then "index" + host.extname(args.path)
    else RoutePath.WinPath(host.relative(host.dirname(opts.fileAbsPath), args.path))
  }

  /** `opts.entryPointCode ?? fs.readFileSync(path)`, for whichever file is loaded. */
  function LoadedText<V>(host: Host<V>, opts: BuildOptions, path: string): Option<string> {
    match opts.entryPointCode
    case Some(code) => Some(code)
    case None => host.readFile(path)
  }

  /** JavaScript truthiness of `opts.entryPointCode`: the empty string counts as absent. */
  predicate CodeSupplied(opts: BuildOptions) {
    opts.entryPointCode.Some? && opts.entryPointCode.value != ""
  }

  /** `asset[key] = frontmatter?.[key]` for the four metadata keys. */
  function MirrorMeta<V>(doc: YamlDoc<V>): (m: map<string, Option<V>>)
    ensures m.Keys == MetaKeys
    ensures forall k :: k in MetaKeys ==> (m[k].Some? <==> k in doc.props)
    ensures forall k :: k in MetaKeys && k in doc.props ==> m[k] == Some(doc.props[k])
  {
    map k | k in MetaKeys :: if k in doc.props then Some(doc.props[k]) else None
  }

  /** The entry's frontmatter, when truthy, replaces the stored code and fills the metadata. */
  function MergeFrontmatter<V>(st: Collected<V>, key: string, parsed: Parsed<V>): Collected<V> {
    if Truthy(parsed.frontmatter) then
      var doc := parsed.frontmatter.value;
      st.(asset := st.asset.(dependencies := st.asset.dependencies[key := File(parsed.code)],
                             meta := st.asset.meta + MirrorMeta(doc)),
          frontmatter := doc)
    else st
  }

  /**
   * What registering a file does to the record: `key` maps to `stored` and no
   * other key changes; the path is recorded when `recordSource`; a merged
   * frontmatter `doc` becomes the result's frontmatter and fills the metadata,
   * otherwise both stay; the asset's identity stays.
   */
  ghost predicate Registered<V>(st: Collected<V>, st': Collected<V>, key: string, path: string,
                                stored: string, merged: Option<YamlDoc<V>>, recordSource: bool)
  {
    && key in st'.asset.dependencies && st'.asset.dependencies[key] == File(stored)
    && (forall k :: k != key ==> (k in st'.asset.dependencies <==> k in st.asset.dependencies))
    && (forall k :: k != key && k in st.asset.dependencies ==>
          st'.asset.dependencies[k] == st.asset.dependencies[k])
    && st'.sources == (if recordSource then st.sources[key := path] else st.sources)
    && (match merged
        case Some(doc) => st'.frontmatter == doc && st'.asset.meta == st.asset.meta + MirrorMeta(doc)
        case None => st'.frontmatter == st.frontmatter && st'.asset.meta == st.asset.meta)
    && st'.asset.assetType == st.asset.assetType
    && st'.asset.id == st.asset.id
    && st'.asset.refAtomIds == st.asset.refAtomIds
  }

  /** The record update of `onLoad` for a supported file, with the loaded text already parsed. */
  function Register<V>(st: Collected<V>, key: string, path: string, text: string,
                       isEntry: bool, parsed: Parsed<V>, recordSource: bool)
    : (st': Collected<V>)
    ensures var merged := isEntry && Truthy(parsed.frontmatter);
            Registered(st, st', key, path, if merged then parsed.code else text,
                       if merged then parsed.frontmatter else None, recordSource)
  {
    var st1 := st.(asset := st.asset.(dependencies := st.asset.dependencies[key := File(text)]));
    var st2 := if isEntry then MergeFrontmatter(st1, key, parsed) else st1;
    if recordSource then st2.(sources := st2.sources[key := path]) else st2
  }

  /** What a successful load of a supported file does to the record, and what it returns. */
  ghost predicate LoadEffect<V>(host: Host<V>, opts: BuildOptions, st: Collected<V>, args: LoadArgs,
                                st': Collected<V>, ret: LoadReturn)
    requires LoadedText(host, opts, args.path).Some?
  {
    var ext := host.extname(args.path);
    var isEntry := args.pluginData.kind == EntryPoint;
    var text := LoadedText(host, opts, args.path).value;
    var parsed := ParseCodeFrontmatter(text, host.yaml);
    var merged := isEntry && Truthy(parsed.frontmatter);
    var stored := if merged then parsed.code else text;
    && Registered(st, st', LoadKey(host, opts, args), args.path, stored,
                  if merged then parsed.frontmatter else None,
                  !isEntry || !CodeSupplied(opts))
    // modules go on to the bundler, plain text stops here
    && ret == (if Classify(ext) == Module then Contents(stored, ext[1..]) else Contents("", "text"))
  }

  /**
   * `onLoad`: classifies the file, registers supported ones as file
   * dependencies, takes the entry's frontmatter, records source paths, and
   * hands module code back to the bundler.
   */
  function OnLoad<V>(host: Host<V>, opts: BuildOptions, st: Collected<V>, args: LoadArgs)
    : (r: Result<(Collected<V>, LoadReturn), Fatal>)
    ensures Classify(host.extname(args.path)) == Unsupported ==> r == Success((st, NoContents))
    ensures Classify(host.extname(args.path)) != Unsupported ==>
              (r.Failure? <==> LoadedText(host, opts, args.path).None?)
    ensures Classify(host.extname(args.path)) != Unsupported && r.Success? ==>
              LoadEffect(host, opts, st, args, r.value.0, r.value.1)
  {
    var ext := host.extname(args.path);
    var cls := Classify(ext);
    if cls == Unsupported then Success((st, NoContents))
    else
      match LoadedText(host, opts, args.path)
      case None => Failure(UnreadableFile(args.path))
      case Some(text) =>
        var isEntry := args.pluginData.kind == EntryPoint;
        var parsed := ParseCodeFrontmatter(text, host.yaml);
        var st' := Register(st, LoadKey(host, opts, args), args.path, text, isEntry, parsed,
                            !isEntry || !CodeSupplied(opts));
        var stored := if isEntry && Truthy(parsed.frontmatter) then parsed.code else text;
        Success((st', if cls == Module then Contents(stored, ext[1..]) else Contents("", "text")))
  }

  // ----- single-load facts ------------------------------------------------------

  /**
   * An entry whose frontmatter parses truthy is stored as the code after its
   * comment; otherwise it is stored as loaded, comment and all.
   */
  lemma EntryStoredWithoutComment<V>(host: Host<V>, opts: BuildOptions, st: Collected<V>, args: LoadArgs)
    requires args.pluginData.kind == EntryPoint
    requires Classify(host.extname(args.path)) != Unsupported
    requires OnLoad(host, opts, st, args).Success?
    ensures var text := LoadedText(host, opts, args.path).value;
            var deps' := OnLoad(host, opts, st, args).value.0.asset.dependencies;
            var key := "index" + host.extname(args.path);
            && key in deps'
            && (Truthy(ParseCodeFrontmatter(text, host.yaml).frontmatter)
                ==> deps'[key] == File(Dissect(text).code))
            && (!Truthy(ParseCodeFrontmatter(text, host.yaml).frontmatter)
                ==> deps'[key] == File(text))
  {
    var text := LoadedText(host, opts, args.path).value;
    if Truthy(ParseCodeFrontmatter(text, host.yaml).frontmatter) {
      CommentNeverInCode(text, host.yaml);
    }
  }

  /**
   * A supplied entry code is what the entry is stored as (before its
   * frontmatter is taken off), and the entry gets no source path.
   */
  lemma SuppliedEntryHasNoSource<V>(host: Host<V>, opts: BuildOptions, st: Collected<V>, args: LoadArgs)
    requires args.pluginData.kind == EntryPoint && CodeSupplied(opts)
    requires Classify(host.extname(args.path)) != Unsupported
    ensures OnLoad(host, opts, st, args).Success?
    ensures var st' := OnLoad(host, opts, st, args).value.0;
            var code := opts.entryPointCode.value;
            var parsed := ParseCodeFrontmatter(code, host.yaml);
            && st'.sources == st.sources
            && st'.asset.dependencies["index" + host.extname(args.path)]
               == File(if Truthy(parsed.frontmatter) then parsed.code else code)
  {
  }

  /**
   * The override is not limited to the entry: with `entryPointCode` given,
   * every supported file that is loaded is stored with that code.
   */
  lemma OverrideReachesEveryFile<V>(host: Host<V>, opts: BuildOptions, st: Collected<V>, args: LoadArgs)
    requires args.pluginData.kind != EntryPoint && opts.entryPointCode.Some?
    requires Classify(host.extname(args.path)) != Unsupported
    ensures OnLoad(host, opts, st, args).Success?
    ensures var st' := OnLoad(host, opts, st, args).value.0;
            var key := LoadKey(host, opts, args);
            && st'.asset.dependencies[key] == File(opts.entryPointCode.value)
            && st'.sources == st.sources[key := args.path]
  {
  }

  // ----- the fold over bundler events ----------------------------------------------

  /** One callback invocation by the bundler. */
  datatype Event = Resolve(resolveArgs: ResolveArgs) | Load(loadArgs: LoadArgs)

  function Step<V>(host: Host<V>, opts: BuildOptions, st: Collected<V>, ev: Event)
    : Result<Collected<V>, Fatal>
  {
    match ev
    case Resolve(a) =>
      (match OnResolve(host, st, a)
       case Success(p) => Success(p.0)
       case Failure(e) => Failure(e))
    case Load(a) =>
      (match OnLoad(host, opts, st, a)
       case Success(p) => Success(p.0)
       case Failure(e) => Failure(e))
  }

  /** The record after the events, or the first fatal error: no partial result. */
  function Collect<V>(host: Host<V>, opts: BuildOptions, st: Collected<V>, events: seq<Event>)
    : Result<Collected<V>, Fatal>
    decreases |events|
  {
    if events == [] then Success(st)
    else
      match Step(host, opts, st, events[0])
      case Failure(e) => Failure(e)
      case Success(st') => Collect(host, opts, st', events[1..])
  }

  /** `parseBlockAsset` over the events the bundler delivers for one entry. */
  function ParseBlockAsset<V>(host: Host<V>, opts: BuildOptions, events: seq<Event>)
    : Result<Collected<V>, Fatal>
  {
    Collect(host, opts, Init(opts), events)
  }

  /**
   * Every recorded source has a registered dependency, and the metadata is
   * either untouched with the frontmatter still `{}`, or mirrors the frontmatter.
   */
  ghost predicate Consistent<V>(st: Collected<V>) {
    && st.sources.Keys <= st.asset.dependencies.Keys
    && (st.asset.meta == map[] ==> st.frontmatter == EmptyObject())
    && (st.asset.meta != map[] ==> st.asset.meta == MirrorMeta(st.frontmatter))
  }

  /** The asset keeps its identity, and no dependency or source key ever disappears. */
  ghost predicate Grows<V>(st: Collected<V>, st': Collected<V>) {
    && st'.asset.assetType == st.asset.assetType
    && st'.asset.id == st.asset.id
    && st'.asset.refAtomIds == st.asset.refAtomIds
    && st.asset.dependencies.Keys <= st'.asset.dependencies.Keys
    && st.sources.Keys <= st'.sources.Keys
  }

  lemma MergeMirrors<V>(st: Collected<V>, doc: YamlDoc<V>)
    requires Consistent(st)
    ensures st.asset.meta + MirrorMeta(doc) == MirrorMeta(doc)
  {
    var m := st.asset.meta + MirrorMeta(doc);
    assert m.Keys == MirrorMeta(doc).Keys;
  }

  lemma RegisteredKeepsConsistent<V>(st: Collected<V>, st': Collected<V>, key: string, path: string,
                                     stored: string, merged: Option<YamlDoc<V>>, recordSource: bool)
    requires Consistent(st) && Registered(st, st', key, path, stored, merged, recordSource)
    ensures Consistent(st') && Grows(st, st')
  {
    if merged.Some? {
      MergeMirrors(st, merged.value);
    }
  }

  lemma StepKeepsConsistent<V>(host: Host<V>, opts: BuildOptions, st: Collected<V>, ev: Event)
    requires Consistent(st) && Step(host, opts, st, ev).Success?
    ensures Consistent(Step(host, opts, st, ev).value)
    ensures Grows(st, Step(host, opts, st, ev).value)
  {
    match ev
    case Resolve(a) =>
    case Load(a) =>
      if Classify(host.extname(a.path)) != Unsupported {
        var text := LoadedText(host, opts, a.path).value;
        var parsed := ParseCodeFrontmatter(text, host.yaml);
        var isEntry := a.pluginData.kind == EntryPoint;
        var merged := isEntry && Truthy(parsed.frontmatter);
        RegisteredKeepsConsistent(st, OnLoad(host, opts, st, a).value.0, LoadKey(host, opts, a), a.path,
                                  if merged then parsed.code else text,
                                  if merged then parsed.frontmatter else None,
                                  !isEntry || !CodeSupplied(opts));
      }
  }

  lemma {:induction false} CollectKeepsConsistent<V>(host: Host<V>, opts: BuildOptions, st: Collected<V>,
                                                     events: seq<Event>)
    requires Consistent(st) && Collect(host, opts, st, events).Success?
    ensures Consistent(Collect(host, opts, st, events).value)
    ensures Grows(st, Collect(host, opts, st, events).value)
    decreases |events|
  {
    if events != [] {
      StepKeepsConsistent(host, opts, st, events[0]);
      CollectKeepsConsistent(host, opts, Step(host, opts, st, events[0]).value, events[1..]);
    }
  }

  /**
   * A finished parse is a `BLOCK` asset with the caller's id and atom ids, its
   * sources all registered, and its metadata mirroring its frontmatter.
   */
  lemma ParseBlockAssetConsistent<V>(host: Host<V>, opts: BuildOptions, events: seq<Event>)
    requires ParseBlockAsset(host, opts, events).Success?
    ensures var res := ParseBlockAsset(host, opts, events).value;
            && Consistent(res)
            && res.asset.assetType == "BLOCK"
            && res.asset.id == opts.id
            && res.asset.refAtomIds == opts.refAtomIds
  {
    CollectKeepsConsistent(host, opts, Init(opts), events);
  }

  predicate IsEntryLoad(ev: Event) {
    ev.Load? && ev.loadArgs.pluginData.kind == EntryPoint
  }

  /** Without an entry load the frontmatter stays `{}` and no metadata is set. */
  lemma {:induction false} NoEntryNoFrontmatter<V>(host: Host<V>, opts: BuildOptions, st: Collected<V>,
                                                   events: seq<Event>)
    requires forall i :: 0 <= i < |events| ==> !IsEntryLoad(events[i])
    requires Collect(host, opts, st, events).Success?
    ensures Collect(host, opts, st, events).value.frontmatter == st.frontmatter
    ensures Collect(host, opts, st, events).value.asset.meta == st.asset.meta
    decreases |events|
  {
    if events != [] {
      var st' := Step(host, opts, st, events[0]).value;
      assert !IsEntryLoad(events[0]);
      assert st'.frontmatter == st.frontmatter && st'.asset.meta == st.asset.meta;
      NoEntryNoFrontmatter(host, opts, st', events[1..]);
    }
  }

  /** The paths of the load events. */
  function LoadedPaths(events: seq<Event>): set<string> {
    if events == [] then {}
    else (if events[0].Load? then {events[0].loadArgs.path} else {}) + LoadedPaths(events[1..])
  }

  /** The specifiers the resolver treats as external. */
  function ExternalSpecifiers(events: seq<Event>): set<string> {
    if events == [] then {}
    else (if events[0].Resolve? && IsExternal(events[0].resolveArgs) then {events[0].resolveArgs.path} else {})
         + ExternalSpecifiers(events[1..])
  }

  function NpmKeys(deps: map<string, Dependency>): set<string> {
    set k | k in deps && deps[k].Npm?
  }

  lemma RegisteredProvenance<V>(st: Collected<V>, st': Collected<V>, key: string, path: string,
                                 stored: string, merged: Option<YamlDoc<V>>, recordSource: bool)
    requires Registered(st, st', key, path, stored, merged, recordSource)
    ensures st'.sources.Values <= st.sources.Values + {path}
    ensures NpmKeys(st'.asset.dependencies) <= NpmKeys(st.asset.dependencies)
  {
    forall v | v in st'.sources.Values
      ensures v in st.sources.Values + {path}
    {
      var k :| k in st'.sources && st'.sources[k] == v;
      if recordSource && k != key {
        assert k in st.sources && st.sources[k] == v;
      }
    }
  }

  lemma ResolveProvenance<V>(host: Host<V>, st: Collected<V>, args: ResolveArgs)
    requires OnResolve(host, st, args).Success?
    ensures var st' := OnResolve(host, st, args).value.0;
            && st'.sources == st.sources
            && NpmKeys(st'.asset.dependencies)
               <= NpmKeys(st.asset.dependencies) + (if IsExternal(args) then {args.path} else {})
  {
  }

  lemma StepProvenance<V>(host: Host<V>, opts: BuildOptions, st: Collected<V>, ev: Event)
    requires Step(host, opts, st, ev).Success?
    ensures var st' := Step(host, opts, st, ev).value;
            && st'.sources.Values <= st.sources.Values + LoadedPaths([ev])
            && NpmKeys(st'.asset.dependencies) <= NpmKeys(st.asset.dependencies) + ExternalSpecifiers([ev])
  {
    match ev
    case Resolve(a) =>
      ResolveProvenance(host, st, a);
      assert ExternalSpecifiers([ev]) == if IsExternal(a) then {a.path} else {};
    case Load(a) =>
      assert LoadedPaths([ev]) == {a.path};
      if Classify(host.extname(a.path)) != Unsupported {
        var text := LoadedText(host, opts, a.path).value;
        var parsed := ParseCodeFrontmatter(text, host.yaml);
        var isEntry := a.pluginData.kind == EntryPoint;
        var merged := isEntry && Truthy(parsed.frontmatter);
        RegisteredProvenance(st, OnLoad(host, opts, st, a).value.0, LoadKey(host, opts, a), a.path,
                             if merged then parsed.code else text,
                             if merged then parsed.frontmatter else None,
                             !isEntry || !CodeSupplied(opts));
      }
  }

  /**
   * Every recorded source path is the path of some load, and every npm
   * dependency is a specifier some resolve treated as external.
   */
  lemma {:induction false} CollectProvenance<V>(host: Host<V>, opts: BuildOptions, st: Collected<V>,
                                                events: seq<Event>)
    requires Collect(host, opts, st, events).Success?
    ensures var st' := Collect(host, opts, st, events).value;
            && st'.sources.Values <= st.sources.Values + LoadedPaths(events)
            && NpmKeys(st'.asset.dependencies) <= NpmKeys(st.asset.dependencies) + ExternalSpecifiers(events)
    decreases |events|
  {
    if events != [] {
      var mid := Step(host, opts, st, events[0]).value;
      StepProvenance(host, opts, st, events[0]);
      CollectProvenance(host, opts, mid, events[1..]);
    }
  }

  /** A parse records only loaded paths as sources and only external specifiers as npm dependencies. */
  lemma ParseBlockAssetProvenance<V>(host: Host<V>, opts: BuildOptions, events: seq<Event>)
    requires ParseBlockAsset(host, opts, events).Success?
    ensures var res := ParseBlockAsset(host, opts, events).value;
            && res.sources.Values <= LoadedPaths(events)
            && NpmKeys(res.asset.dependencies) <= ExternalSpecifiers(events)
  {
    CollectProvenance(host, opts, Init(opts), events);
    assert NpmKeys(Init<V>(opts).asset.dependencies) == {};
  }
}
