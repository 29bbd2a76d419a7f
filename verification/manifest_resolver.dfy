/** Manifest path resolution (TargetFile.context.js): find the project that
    owns a file in the source repository's manifest, then the path that the
    target repository's manifest gives the same project. */
module ManifestResolver {
  import opened Wrappers
  import opened Seqs
  import opened Gitea

  /** One entry of a manifest's `projects` list; either field may be missing. */
  datatype Project = Project(identifier: Option<string>, path: Option<string>)

  /** A fetched `manifest.yaml`, already parsed: its `projects` entry, or
      `None` when the document has none. */
  datatype ManifestState = ManifestState(projects: Option<seq<Project>>)

  /** The path filter: the declared path is the file path, or the file path behind "./" */
  predicate PathMatches(p: Project, filePath: string) {
    p.path == Some(filePath) || p.path == Some("./" + filePath)
  }

  function PathFilter(filePath: string): Project -> bool {
    (p: Project) => PathMatches(p, filePath)
  }

  /** The identifier filter compares with `===`: a missing identifier on
      both sides counts as equal. */
  function IdentifierFilter(identifier: Option<string>): Project -> bool {
    (p: Project) => p.identifier == identifier
  }

  /** `getManifestIdentifierByFilePath`: the identifier of the one project
      whose path matches; nothing when the manifest or its projects are
      missing, or when zero or several projects match. */
  function IdentifierByFilePath(manifestState: Option<ManifestState>, filePath: string): (r: Option<string>)
    ensures manifestState.None? || manifestState.value.projects.None? ==> r == None
    ensures manifestState.Some? && manifestState.value.projects.Some? ==>
      var ps := manifestState.value.projects.value;
      && (forall k :: SoleMatch(ps, PathFilter(filePath), k) ==> r == ps[k].identifier)
      && ((forall k :: !SoleMatch(ps, PathFilter(filePath), k)) ==> r == None)
  {
    match manifestState
    case None => None
    case Some(manifest) =>
      match manifest.projects
      case None => None
      case Some(ps) =>
        var matching := Filter(ps, PathFilter(filePath));
        FilterIsSingleton(ps, PathFilter(filePath));
        if |matching| == 1 then matching[0].identifier else None
  }

  /** `getManifestFilePathByIdentifier`: the path of the one project whose
      identifier equals `identifier`; nothing when the manifest or its
      projects are missing, or when zero or several projects match. */
  function FilePathByIdentifier(manifestState: Option<ManifestState>, identifier: Option<string>): (r: Option<string>)
    ensures manifestState.None? || manifestState.value.projects.None? ==> r == None
    ensures manifestState.Some? && manifestState.value.projects.Some? ==>
      var ps := manifestState.value.projects.value;
      && (forall k :: SoleMatch(ps, IdentifierFilter(identifier), k) ==> r == ps[k].path)
      && ((forall k :: !SoleMatch(ps, IdentifierFilter(identifier), k)) ==> r == None)
  {
    match manifestState
    case None => None
    case Some(manifest) =>
      match manifest.projects
      case None => None
      case Some(ps) =>
        var matching := Filter(ps, IdentifierFilter(identifier));
        FilterIsSingleton(ps, IdentifierFilter(identifier));
        if |matching| == 1 then matching[0].path else None
  }

  /** `getTargetFilePath`: nothing unless the source repository, the source
      file and the target repository are all present; otherwise the source
      manifest's identifier for the source file's path (possibly missing,
      and passed on as it is) looked up in the target manifest. */
  function TargetFilePath(
    sourceRepository: Option<Repository>, sourceFile: Option<FileState>, targetRepository: Option<Repository>,
    sourceManifestState: Option<ManifestState>, targetManifestState: Option<ManifestState>): (r: Option<string>)
    ensures sourceRepository.None? || sourceFile.None? || targetRepository.None? ==> r == None
    ensures targetManifestState.None? || targetManifestState.value.projects.None? ==> r == None
  {
    if sourceRepository.Some? && sourceFile.Some? && targetRepository.Some? then
      var identifier := IdentifierByFilePath(sourceManifestState, sourceFile.value.path);
      FilePathByIdentifier(targetManifestState, identifier)
    else
      None
  }

  /** A resolved target path always comes from exactly one target project
      carrying the identifier that the source lookup returned, and the result
      is that project's path. That identifier is either the one of the single
      source project owning the file's path, or, when no single source
      project owns it, the missing identifier, which then matches the one
      target project that has none. */
  lemma TargetFilePathIsUniqueChain(
    sourceRepository: Option<Repository>, sourceFile: Option<FileState>, targetRepository: Option<Repository>,
    sourceManifestState: Option<ManifestState>, targetManifestState: Option<ManifestState>, path: string)
    requires TargetFilePath(sourceRepository, sourceFile, targetRepository,
                            sourceManifestState, targetManifestState) == Some(path)
    ensures sourceRepository.Some? && sourceFile.Some? && targetRepository.Some?
    ensures targetManifestState.Some? && targetManifestState.value.projects.Some?
    ensures
      var identifier := IdentifierByFilePath(sourceManifestState, sourceFile.value.path);
      var ps := targetManifestState.value.projects.value;
      exists k :: SoleMatch(ps, IdentifierFilter(identifier), k) && ps[k].path == Some(path)
    ensures
      var identifier := IdentifierByFilePath(sourceManifestState, sourceFile.value.path);
      || (&& sourceManifestState.Some? && sourceManifestState.value.projects.Some?
          && exists i :: SoleMatch(sourceManifestState.value.projects.value, PathFilter(sourceFile.value.path), i)
                      && sourceManifestState.value.projects.value[i].identifier == identifier)
      || (&& identifier == None
          && (|| sourceManifestState.None? || sourceManifestState.value.projects.None?
              || forall i :: !SoleMatch(sourceManifestState.value.projects.value, PathFilter(sourceFile.value.path), i)))
  {
  }

  /** When both manifests resolve uniquely and the identifiers line up, the
      target path is the target project's declared path. */
  lemma TargetFilePathFollowsIdentifier(
    sourceRepository: Repository, sourceFile: FileState, targetRepository: Repository,
    source: seq<Project>, target: seq<Project>, i: nat, j: nat)
    requires SoleMatch(source, PathFilter(sourceFile.path), i)
    requires SoleMatch(target, IdentifierFilter(source[i].identifier), j)
    ensures TargetFilePath(Some(sourceRepository), Some(sourceFile), Some(targetRepository),
                           Some(ManifestState(Some(source))), Some(ManifestState(Some(target)))) == target[j].path
  {
  }

  /** The identifier of the source file is not short-circuited when it is
      missing: a source file that no source project claims is then resolved
      to the one target project that has no identifier. */
  lemma MissingIdentifierMatchesUnnamedProject(
    sourceRepository: Repository, sourceFile: FileState, targetRepository: Repository,
    sourceManifestState: Option<ManifestState>, target: seq<Project>, j: nat)
    requires IdentifierByFilePath(sourceManifestState, sourceFile.path) == None
    requires j < |target| && target[j].identifier == None
    requires forall k :: 0 <= k < |target| && k != j ==> target[k].identifier.Some?
    ensures TargetFilePath(Some(sourceRepository), Some(sourceFile), Some(targetRepository),
                           sourceManifestState, Some(ManifestState(Some(target)))) == target[j].path
  {
    assert SoleMatch(target, IdentifierFilter(None), j);
  }

  /** Two projects claiming the same path (one with and one without "./")
      make the lookup fail closed rather than pick one. */
  lemma AmbiguousPathResolvesToNothing(projects: seq<Project>, filePath: string, a: nat, b: nat)
    requires a < |projects| && b < |projects| && a != b
    requires PathMatches(projects[a], filePath) && PathMatches(projects[b], filePath)
    ensures IdentifierByFilePath(Some(ManifestState(Some(projects))), filePath) == None
  {
    forall k ensures !SoleMatch(projects, PathFilter(filePath), k) {
      assert PathFilter(filePath)(projects[a]) && PathFilter(filePath)(projects[b]);
    }
  }

  /** Worked example: "tn_GEN.tsv" owned by "gen" in the source manifest maps
      to "./tn_GEN.tsv" in a target manifest that declares it with "./". */
  lemma ResolutionExample(sourceRepository: Repository, sourceFile: FileState, targetRepository: Repository)
    requires sourceFile.path == "tn_GEN.tsv"
    ensures TargetFilePath(Some(sourceRepository), Some(sourceFile), Some(targetRepository),
                           Some(ManifestState(Some([Project(Some("gen"), Some("tn_GEN.tsv"))]))),
                           Some(ManifestState(Some([Project(Some("gen"), Some("./tn_GEN.tsv"))]))))
            == Some("./tn_GEN.tsv")
  {
    var source := [Project(Some("gen"), Some("tn_GEN.tsv"))];
    var target := [Project(Some("gen"), Some("./tn_GEN.tsv"))];
    assert SoleMatch(source, PathFilter("tn_GEN.tsv"), 0);
    assert SoleMatch(target, IdentifierFilter(Some("gen")), 0);
  }
}
