/**
 * The parts of Maven's build model (`org.apache.maven.model`) that the processor reads or
 * writes. Fields Maven allows to be null are `Option`s; everything else Maven carries is left out.
 */
module MavenModel {
  import opened Wrappers

  /** An exclusion: the (group, artifact) of a transitive dependency to leave out. */
  datatype Exclusion = Exclusion(groupId: Option<string>, artifactId: Option<string>)

  /** A dependency; `kind` is Maven's `type` field. */
  datatype Dependency = Dependency(
    groupId: Option<string>,
    artifactId: Option<string>,
    version: Option<string>,
    kind: string,
    classifier: Option<string>,
    scope: Option<string>,
    exclusions: seq<Exclusion>)

  /** The parent reference. */
  datatype Parent = Parent(groupId: Option<string>, artifactId: Option<string>, version: Option<string>)

  /** A remote repository; each policy is reduced to its `enabled` flag. */
  datatype Repository = Repository(
    id: Option<string>,
    url: Option<string>,
    layout: string,
    releasesEnabled: bool,
    snapshotsEnabled: bool)

  /** The value of a model at one moment: what `Model.Value` reads off the object. */
  datatype Pom = Pom(
    dependencies: seq<Dependency>,
    dependencyManagement: Option<seq<Dependency>>,
    parent: Option<Parent>,
    repositories: seq<Repository>)

  /**
   * Maven's `Model`, the object the processor rewrites in place. `dependencyManagement` is
   * `None` until a dependency-management section is created.
   */
  class Model {
    var dependencies: seq<Dependency>
    var dependencyManagement: Option<seq<Dependency>>
    var parent: Option<Parent>
    var repositories: seq<Repository>

    /** The model's current contents as a value. */
    function Value(): Pom
      reads this
    {
      Pom(dependencies, dependencyManagement, parent, repositories)
    }
  }
}
