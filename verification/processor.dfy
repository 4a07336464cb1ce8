/**
 * ThinPropertiesModelProcessor's `process` and `addRepositoryIfMissing`: loops that update the
 * model object in place. Each method is proved to leave the model exactly as the matching
 * function of module Rewrite describes.
 */
module Processor {
  import opened Wrappers
  import opened Coordinates
  import opened MavenModel
  import opened Rewrite

  /** `addRepositoryIfMissing`: appends the repository unless one has the same url or id. */
  method AddRepositoryIfMissing(model: Model, id: string, url: string, releases: bool, snapshots: bool)
    modifies model
    ensures model.Value() == old(model.Value()).(repositories :=
              WithRepository(old(model.repositories), id, url, releases, snapshots))
  {
    var i := 0;
    while i < |model.repositories|
      invariant 0 <= i <= |model.repositories|
      invariant forall j :: 0 <= j < i ==>
                  model.repositories[j].url != Some(url) && model.repositories[j].id != Some(id)
    {
      var repo := model.repositories[i];
      if repo.url == Some(url) {
        return;
      }
      if repo.id == Some(id) {
        return;
      }
      i := i + 1;
    }
    model.repositories := model.repositories + [Repository(Some(id), Some(url), "default", releases, snapshots)];
  }

  /** The body of the `boms.` branch once its coordinate is parsed. */
  method ApplyBom(model: Model, artifact: DefaultArtifact)
    modifies model
    ensures model.Value() == BomDirective(old(model.Value()), artifact)
  {
    if model.dependencyManagement.None? {
      model.dependencyManagement := Some([]);
    }
    ghost var managed := model.dependencyManagement.value;
    var replaced := false;
    var i := 0;
    while i < |model.dependencyManagement.value|
      invariant model.dependencyManagement.Some? && |model.dependencyManagement.value| == |managed|
      invariant 0 <= i <= |managed|
      invariant forall j :: 0 <= j < i ==>
                  (model.dependencyManagement.value[j] ==
                   if SameArtifact(managed[j], artifact) then managed[j].(version := artifact.version) else managed[j])
      invariant forall j :: i <= j < |managed| ==> model.dependencyManagement.value[j] == managed[j]
      invariant model.dependencies == old(model.dependencies) && model.parent == old(model.parent)
      invariant model.repositories == old(model.repositories)
    {
      var dependency := model.dependencyManagement.value[i];
      if SameName(dependency.artifactId, artifact.artifactId) && SameName(dependency.groupId, artifact.groupId) {
        model.dependencyManagement := Some(model.dependencyManagement.value[i := dependency.(version := artifact.version)]);
      }
      i := i + 1;
    }
    assert model.dependencyManagement.value == WithVersion(managed, artifact, artifact.version);
    if IsParentBom(model.parent, artifact) {
      model.parent := Some(model.parent.value.(version := artifact.version));
      replaced := true;
    }
    if !replaced {
      model.dependencyManagement := Some(model.dependencyManagement.value + [BomOf(artifact)]);
    }
  }

  /** The body of the `dependencies.` branch once its coordinate is parsed. */
  method ApplyDependency(model: Model, artifact: DefaultArtifact)
    modifies model
    ensures model.Value() == DependencyDirective(old(model.Value()), artifact)
  {
    ghost var deps := model.dependencies;
    var replaced := false;
    var i := 0;
    while i < |model.dependencies|
      invariant |model.dependencies| == |deps| && 0 <= i <= |deps|
      invariant replaced <==> artifact.version.Some? && exists j :: 0 <= j < i && SameArtifact(deps[j], artifact)
      invariant forall j :: 0 <= j < i ==>
                  (model.dependencies[j] ==
                   if SameArtifact(deps[j], artifact) && artifact.version.Some?
                   then deps[j].(version := Stored(artifact.version)) else deps[j])
      invariant forall j :: i <= j < |deps| ==> model.dependencies[j] == deps[j]
      invariant model.dependencyManagement == old(model.dependencyManagement)
      invariant model.parent == old(model.parent) && model.repositories == old(model.repositories)
    {
      var dependency := model.dependencies[i];
      if SameName(dependency.artifactId, artifact.artifactId) && SameName(dependency.groupId, artifact.groupId)
         && artifact.version.Some?
      {
        model.dependencies := model.dependencies[i := dependency.(version :=
          if HasLength(artifact.version) then artifact.version else None)];
        replaced := true;
      }
      i := i + 1;
    }
    if !replaced {
      model.dependencies := model.dependencies + [DependencyOf(artifact)];
    } else {
      assert model.dependencies == WithVersion(deps, artifact, Stored(artifact.version));
    }
  }

  /** The loop of the `exclusions.` branch once its exclusion is built. */
  method ApplyExclusion(model: Model, exclusion: Exclusion)
    modifies model
    ensures model.Value() == ExclusionDirective(old(model.Value()), exclusion)
  {
    ghost var deps := model.dependencies;
    var i := 0;
    while i < |model.dependencies|
      invariant |model.dependencies| == |deps| && 0 <= i <= |deps|
      invariant forall j :: 0 <= j < i ==>
                  model.dependencies[j] == deps[j].(exclusions := deps[j].exclusions + [exclusion])
      invariant forall j :: i <= j < |deps| ==> model.dependencies[j] == deps[j]
      invariant model.dependencyManagement == old(model.dependencyManagement)
      invariant model.parent == old(model.parent) && model.repositories == old(model.repositories)
    {
      var dependency := model.dependencies[i];
      model.dependencies := model.dependencies[i := dependency.(exclusions := dependency.exclusions + [exclusion])];
      i := i + 1;
    }
  }

  /**
   * One pass of the `process` loop: routes the property by the prefix of its name, parses its
   * coordinate and applies the directive. A malformed coordinate is reported before the model
   * is touched.
   */
  method ApplyProperty(model: Model, property: Property) returns (error: Option<string>)
    modifies model
    ensures error.None? ==> Step(old(model.Value()), property) == Success(model.Value())
    ensures error.Some? ==> Step(old(model.Value()), property) == Failure(error.value)
                            && model.Value() == old(model.Value())
  {
    error := None;
    var name := property.name;
    if BomsPrefix <= name {
      var artifact := Artifact(property.value);
      if artifact.Failure? {
        return Some(artifact.error);
      }
      ApplyBom(model, artifact.value);
    } else if DependenciesPrefix <= name {
      var artifact := Artifact(property.value);
      if artifact.Failure? {
        return Some(artifact.error);
      }
      ApplyDependency(model, artifact.value);
    } else if ExclusionsPrefix <= name {
      var exclusion := ExclusionOf(property.value);
      if exclusion.Failure? {
        return Some(exclusion.error);
      }
      ApplyExclusion(model, exclusion.value);
    }
  }

  /**
   * `process`: applies every override property in the given order, then injects the
   * repositories. `globals` is the process-wide configuration (`None` when there is none) and
   * `rootKey` the name of the key that asks for the local repository. A malformed coordinate
   * ends the pass with its message and leaves the earlier directives' effects in place.
   */
  method Process(model: Model, globals: Option<seq<Property>>, rootKey: string) returns (error: Option<string>)
    modifies model
    ensures Outcome(model.Value(), error) == ProcessSpec(old(model.Value()), globals, rootKey)
  {
    error := None;
    if globals.Some? {
      var properties := globals.value;
      var k := 0;
      while k < |properties|
        invariant 0 <= k <= |properties| && error.None?
        invariant Directives(old(model.Value()), properties) == Directives(model.Value(), properties[k..])
      {
        assert properties[k..][0] == properties[k] && properties[k..][1..] == properties[k + 1..];
        ghost var before := model.Value();
        error := ApplyProperty(model, properties[k]);
        if error.Some? {
          assert Directives(before, properties[k..]) == Outcome(model.Value(), error);
          return;
        }
        assert Directives(before, properties[k..]) == Directives(model.Value(), properties[k + 1..]);
        k := k + 1;
      }
      assert properties[k..] == [];
      ghost var directed := model.Value();
      assert Directives(old(model.Value()), properties) == Outcome(directed, None);
      AddRepositoryIfMissing(model, CentralId, CentralUrl, true, false);
      AddRepositoryIfMissing(model, SnapshotsId, SnapshotsUrl, true, true);
      if exists j | 0 <= j < |properties| :: properties[j].name == rootKey {
        AddRepositoryIfMissing(model, LocalId, LocalUrl, true, true);
      }
      assert model.Value() == directed.(repositories := Injected(directed.repositories, HasKey(properties, rootKey)));
    }
  }
}
