/**
 * What ThinPropertiesModelProcessor does to a model, as functions on model values: the pure
 * helpers of the Java class (`isParentBom`, `dependency`, `bom`, `exclusion`), the effect of each
 * override directive, the repository injection and the whole `process` pass. The methods in
 * module Processor are proved to change the model exactly as these functions say.
 */
module Rewrite {
  import opened Wrappers
  import opened Coordinates
  import opened MavenModel

  /** One override property, in the order the configuration enumerates its names. */
  datatype Property = Property(name: string, value: string)

  /** A model after a pass, and the message of the exception that ended it early, if any. */
  datatype Outcome = Outcome(model: Pom, error: Option<string>)

  const BomsPrefix: string := "boms."
  const DependenciesPrefix: string := "dependencies."
  const ExclusionsPrefix: string := "exclusions."

  const StarterParent: string := "spring-boot-starter-parent"
  const BootDependencies: string := "spring-boot-dependencies"

  const CentralId: string := "central"
  const CentralUrl: string := "https://repo1.maven.org/maven2"
  const SnapshotsId: string := "spring-snapshots"
  const SnapshotsUrl: string := "https://repo.spring.io/snapshot"
  const LocalId: string := "default"
  const LocalUrl: string := "file:///${user.home}/repository"

  /** `ObjectUtils.nullSafeEquals` of a nullable model field with a non-null name. */
  predicate SameName(field: Option<string>, name: string) {
    field == Some(name)
  }

  /** The dependency carries the coordinate's (group, artifact): the identity used for merging. */
  predicate SameArtifact(d: Dependency, a: DefaultArtifact) {
    SameName(d.artifactId, a.artifactId) && SameName(d.groupId, a.groupId)
  }

  /** How many dependencies carry the coordinate's (group, artifact). */
  function Count(deps: seq<Dependency>, a: DefaultArtifact): nat {
    if deps == [] then 0 else (if SameArtifact(deps[0], a) then 1 else 0) + Count(deps[1..], a)
  }

  /** The parent has the coordinate's (group, artifact). */
  predicate SameArtifactAsParent(p: Parent, a: DefaultArtifact) {
    SameName(p.artifactId, a.artifactId) && SameName(p.groupId, a.groupId)
  }

  /** `isParentBom`: the coordinate names the model's parent, directly or as the Boot pair. */
  function IsParentBom(parent: Option<Parent>, a: DefaultArtifact): (r: bool)
    ensures parent.None? ==> !r
    ensures parent.Some? && SameArtifactAsParent(parent.value, a) ==> r
    ensures (parent.Some? && parent.value.artifactId == Some(StarterParent)
             && a.artifactId == BootDependencies) ==> r
    ensures r ==> parent.Some? && (SameArtifactAsParent(parent.value, a)
                                   || (parent.value.artifactId == Some(StarterParent) && a.artifactId == BootDependencies))
  {
    if parent.None? then false
    else if SameArtifactAsParent(parent.value, a) then true
    else if SameName(parent.value.artifactId, StarterParent) && a.artifactId == BootDependencies then true
    else false
  }

  /** A version as the processor stores it: an empty one becomes null. */
  function Stored(version: Option<string>): (r: Option<string>)
    ensures r.Some? ==> r == version && |r.value| > 0
    ensures HasLength(version) ==> r == version
  {
    if HasLength(version) then version else None
  }

  /** `dependency`: a new dependency built from a coordinate. */
  function DependencyOf(a: DefaultArtifact): (d: Dependency)
    ensures SameArtifact(d, a) && Count([d], a) == 1
    ensures d.version == Stored(a.version)
    ensures d.classifier.Some? <==> a.classifier != ""
    ensures d.classifier.Some? ==> d.classifier.value == a.classifier
    ensures d.kind == a.extension && d.scope.None? && d.exclusions == []
  {
    Dependency(
      Some(a.groupId), Some(a.artifactId), Stored(a.version), a.extension,
      if HasLength(Some(a.classifier)) then Some(a.classifier) else None,
      None, [])
  }

  /** `bom`: a dependency-management import of a coordinate. */
  function BomOf(a: DefaultArtifact): (d: Dependency)
    ensures SameArtifact(d, a) && d.version == Stored(a.version)
    ensures d.kind == "pom" && d.scope == Some("import")
    ensures d.classifier == DependencyOf(a).classifier && d.exclusions == []
  {
    DependencyOf(a).(kind := "pom", scope := Some("import"))
  }

  /** `exclusion`: the (group, artifact) of a coordinate, or the parse failure. */
  function ExclusionOf(coordinates: string): (r: Result<Exclusion, string>)
    ensures r.Failure? <==> Artifact(coordinates).Failure?
    ensures r.Failure? ==> r.error == BadCoordinates(coordinates)
    ensures r.Success? ==> (r.value.groupId == Some(Artifact(coordinates).value.groupId)
                            && r.value.artifactId == Some(Artifact(coordinates).value.artifactId))
  {
    match Artifact(coordinates)
    case Failure(e) => Failure(e)
    case Success(a) => Success(Exclusion(Some(a.groupId), Some(a.artifactId)))
  }

  /** Every dependency with the coordinate's (group, artifact) gets version `v`; the rest stay. */
  function WithVersion(deps: seq<Dependency>, a: DefaultArtifact, v: Option<string>): seq<Dependency> {
    seq(|deps|, i requires 0 <= i < |deps| =>
      if SameArtifact(deps[i], a) then deps[i].(version := v) else deps[i])
  }

  /** The dependency-management entries, or none before the section exists. */
  function ManagedOf(p: Pom): seq<Dependency> {
    if p.dependencyManagement.Some? then p.dependencyManagement.value else []
  }

  /**
   * A `boms.` directive: re-versions matching managed entries, then either moves the parent to
   * the coordinate's version or appends an import, even when a managed entry already matched.
   */
  function BomDirective(p: Pom, a: DefaultArtifact): (r: Pom)
    ensures r.dependencyManagement.Some?
    ensures r.dependencies == p.dependencies && r.repositories == p.repositories
    ensures |ManagedOf(r)| == |ManagedOf(p)| + (if IsParentBom(p.parent, a) then 0 else 1)
    ensures forall i :: 0 <= i < |ManagedOf(p)| && SameArtifact(ManagedOf(p)[i], a) ==>
              ManagedOf(r)[i] == ManagedOf(p)[i].(version := a.version)
    ensures forall i :: 0 <= i < |ManagedOf(p)| && !SameArtifact(ManagedOf(p)[i], a) ==>
              ManagedOf(r)[i] == ManagedOf(p)[i]
    ensures IsParentBom(p.parent, a) ==> r.parent == Some(p.parent.value.(version := a.version))
    ensures !IsParentBom(p.parent, a) ==> r.parent == p.parent && ManagedOf(r)[|ManagedOf(p)|] == BomOf(a)
  {
    var managed := WithVersion(ManagedOf(p), a, a.version);
    if IsParentBom(p.parent, a) then
      p.(dependencyManagement := Some(managed), parent := Some(p.parent.value.(version := a.version)))
    else
      p.(dependencyManagement := Some(managed + [BomOf(a)]))
  }

  /** The loop of a `dependencies.` directive sets `replaced`: a versioned coordinate matched. */
  predicate Replaces(deps: seq<Dependency>, a: DefaultArtifact) {
    a.version.Some? && exists i :: 0 <= i < |deps| && SameArtifact(deps[i], a)
  }

  /**
   * A `dependencies.` directive: with a version, matching dependencies take it (empty clears
   * it); a new dependency is appended exactly when nothing was replaced.
   */
  function DependencyDirective(p: Pom, a: DefaultArtifact): (r: Pom)
    ensures r.dependencyManagement == p.dependencyManagement && r.parent == p.parent
    ensures r.repositories == p.repositories
    ensures |p.dependencies| <= |r.dependencies| <= |p.dependencies| + 1
    ensures Replaces(p.dependencies, a) ==> |r.dependencies| == |p.dependencies|
    ensures Replaces(p.dependencies, a) ==> forall i :: 0 <= i < |p.dependencies| ==>
              r.dependencies[i] == if SameArtifact(p.dependencies[i], a)
                                   then p.dependencies[i].(version := Stored(a.version))
                                   else p.dependencies[i]
    ensures !Replaces(p.dependencies, a) ==> r.dependencies == p.dependencies + [DependencyOf(a)]
  {
    if Replaces(p.dependencies, a) then
      p.(dependencies := WithVersion(p.dependencies, a, Stored(a.version)))
    else
      p.(dependencies := p.dependencies + [DependencyOf(a)])
  }

  /** An `exclusions.` directive: every dependency gets the exclusion appended, without dedup. */
  function ExclusionDirective(p: Pom, e: Exclusion): (r: Pom)
    ensures r.dependencyManagement == p.dependencyManagement && r.parent == p.parent
    ensures r.repositories == p.repositories
    ensures |r.dependencies| == |p.dependencies|
    ensures forall i :: 0 <= i < |p.dependencies| ==>
              r.dependencies[i] == p.dependencies[i].(exclusions := p.dependencies[i].exclusions + [e])
  {
    p.(dependencies := seq(|p.dependencies|, i requires 0 <= i < |p.dependencies| =>
      p.dependencies[i].(exclusions := p.dependencies[i].exclusions + [e])))
  }

  /** Some repository already has the url or the id. */
  predicate Covers(repos: seq<Repository>, id: string, url: string) {
    exists i :: 0 <= i < |repos| && (repos[i].url == Some(url) || repos[i].id == Some(id))
  }

  /** `addRepositoryIfMissing` on the repository list. */
  function WithRepository(repos: seq<Repository>, id: string, url: string, releases: bool, snapshots: bool)
    : (r: seq<Repository>)
    ensures Covers(r, id, url)
    ensures r == repos <==> Covers(repos, id, url)
    ensures repos <= r && |r| <= |repos| + 1
    ensures |r| == |repos| + 1 ==> r[|repos|] == Repository(Some(id), Some(url), "default", releases, snapshots)
  {
    if Covers(repos, id, url) then repos
    else
      var r := repos + [Repository(Some(id), Some(url), "default", releases, snapshots)];
      assert r[|repos|].url == Some(url);
      r
  }

  /**
   * The repositories `process` adds after the directives: afterwards `central` and
   * `spring-snapshots` are covered, and the local repository when asked for; nothing is removed.
   */
  function Injected(repos: seq<Repository>, rootPresent: bool): (r: seq<Repository>)
    ensures repos <= r && |r| <= |repos| + 3
    ensures Covers(r, CentralId, CentralUrl) && Covers(r, SnapshotsId, SnapshotsUrl)
    ensures rootPresent ==> Covers(r, LocalId, LocalUrl)
  {
    var withCentral := WithRepository(repos, CentralId, CentralUrl, true, false);
    var withSnapshots := WithRepository(withCentral, SnapshotsId, SnapshotsUrl, true, true);
    if rootPresent then WithRepository(withSnapshots, LocalId, LocalUrl, true, true) else withSnapshots
  }

  /** `Properties.containsKey`. */
  predicate HasKey(properties: seq<Property>, key: string) {
    exists j :: 0 <= j < |properties| && properties[j].name == key
  }

  /** The name has one of the three directive prefixes. */
  predicate Routed(name: string) {
    BomsPrefix <= name || DependenciesPrefix <= name || ExclusionsPrefix <= name
  }

  /** One property of the `process` loop, routed by the prefix of its name. */
  function Step(p: Pom, property: Property): (r: Result<Pom, string>)
    ensures r.Failure? <==> Routed(property.name) && Artifact(property.value).Failure?
    ensures r.Failure? ==> r.error == BadCoordinates(property.value)
    ensures !Routed(property.name) ==> r == Success(p)
  {
    if BomsPrefix <= property.name then
      match Artifact(property.value)
      case Failure(e) => Failure(e)
      case Success(a) => Success(BomDirective(p, a))
    else if DependenciesPrefix <= property.name then
      match Artifact(property.value)
      case Failure(e) => Failure(e)
      case Success(a) => Success(DependencyDirective(p, a))
    else if ExclusionsPrefix <= property.name then
      match ExclusionOf(property.value)
      case Failure(e) => Failure(e)
      case Success(e) => Success(ExclusionDirective(p, e))
    else
      Success(p)
  }

  /** The directive loop of `process`: stops at the first malformed coordinate. */
  function Directives(p: Pom, properties: seq<Property>): (o: Outcome)
    ensures o.error.Some? ==> exists k :: 0 <= k < |properties| && o.error == Some(BadCoordinates(properties[k].value))
    decreases |properties|
  {
    if properties == [] then Outcome(p, None)
    else match Step(p, properties[0])
      case Failure(e) => Outcome(p, Some(e))
      case Success(q) => Directives(q, properties[1..])
  }

  /** `process`: the directives, then the repository injection; nothing without properties. */
  function ProcessSpec(p: Pom, globals: Option<seq<Property>>, rootKey: string): (o: Outcome)
    ensures globals.None? ==> o == Outcome(p, None)
    ensures globals.Some? && o.error.None? ==>
              o.model.repositories == Injected(Directives(p, globals.value).model.repositories, HasKey(globals.value, rootKey))
  {
    if globals.None? then Outcome(p, None)
    else
      var d := Directives(p, globals.value);
      if d.error.Some? then d
      else Outcome(d.model.(repositories := Injected(d.model.repositories, HasKey(globals.value, rootKey))), None)
  }
}
