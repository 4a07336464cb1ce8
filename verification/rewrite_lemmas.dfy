/**
 * Properties of the rewrite pass that relate several calls or a whole pass: duplicates, the
 * missing dedup, repository idempotence, ignored keys, failure midway, and the examples.
 */
module RewriteLemmas {
  import opened Wrappers
  import opened Coordinates
  import opened MavenModel
  import opened Rewrite

  lemma {:induction false} CountAppend(deps: seq<Dependency>, d: Dependency, a: DefaultArtifact)
    ensures Count(deps + [d], a) == Count(deps, a) + (if SameArtifact(d, a) then 1 else 0)
    decreases |deps|
  {
    if deps == [] {
      assert [d][1..] == [];
    } else {
      assert (deps + [d])[1..] == deps[1..] + [d];
      CountAppend(deps[1..], d, a);
    }
  }

  /** Re-versioning keeps every (group, artifact). */
  lemma {:induction false} CountWithVersion(deps: seq<Dependency>, a: DefaultArtifact, v: Option<string>)
    ensures Count(WithVersion(deps, a, v), a) == Count(deps, a)
    decreases |deps|
  {
    if deps != [] {
      assert WithVersion(deps, a, v)[1..] == WithVersion(deps[1..], a, v);
      CountWithVersion(deps[1..], a, v);
    }
  }

  lemma {:induction false} CountPositive(deps: seq<Dependency>, a: DefaultArtifact)
    ensures Count(deps, a) > 0 <==> exists i :: 0 <= i < |deps| && SameArtifact(deps[i], a)
    decreases |deps|
  {
    if deps != [] {
      CountPositive(deps[1..], a);
      if exists i :: 0 <= i < |deps| && SameArtifact(deps[i], a) {
        var i :| 0 <= i < |deps| && SameArtifact(deps[i], a);
        if i > 0 {
          assert SameArtifact(deps[1..][i - 1], a);
        }
      }
      if exists i :: 0 <= i < |deps[1..]| && SameArtifact(deps[1..][i], a) {
        var i :| 0 <= i < |deps[1..]| && SameArtifact(deps[1..][i], a);
        assert SameArtifact(deps[i + 1], a);
      }
    }
  }

  /**
   * A versioned `dependencies.` directive leaves exactly one dependency with its
   * (group, artifact) if there was at most one, and never adds a second one.
   */
  lemma DependencyDirectiveNoDuplicate(p: Pom, a: DefaultArtifact)
    requires a.version.Some?
    ensures var n := Count(p.dependencies, a);
            Count(DependencyDirective(p, a).dependencies, a) == if n == 0 then 1 else n
  {
    CountPositive(p.dependencies, a);
    if Replaces(p.dependencies, a) {
      CountWithVersion(p.dependencies, a, Stored(a.version));
    } else {
      CountAppend(p.dependencies, DependencyOf(a), a);
    }
  }

  /**
   * A `dependencies.` directive without a version never re-versions; it appends a new
   * dependency even when one with the same (group, artifact) exists.
   */
  lemma UnversionedDependencyDirectiveAppends(p: Pom, a: DefaultArtifact)
    requires a.version.None?
    ensures Count(DependencyDirective(p, a).dependencies, a) == Count(p.dependencies, a) + 1
  {
    CountAppend(p.dependencies, DependencyOf(a), a);
  }

  /**
   * Unless the coordinate names the parent, a `boms.` directive adds one more managed entry
   * with its (group, artifact), also when one is already managed: it is not an upsert.
   */
  lemma BomDirectiveAppendsEvenWhenManaged(p: Pom, a: DefaultArtifact)
    requires !IsParentBom(p.parent, a)
    ensures Count(ManagedOf(BomDirective(p, a)), a) == Count(ManagedOf(p), a) + 1
  {
    CountWithVersion(ManagedOf(p), a, a.version);
    CountAppend(WithVersion(ManagedOf(p), a, a.version), BomOf(a), a);
  }

  /** A `boms.` directive that names the parent adds no managed entry and keeps their identities. */
  lemma ParentBomDirectiveAddsNothing(p: Pom, a: DefaultArtifact)
    requires IsParentBom(p.parent, a)
    ensures Count(ManagedOf(BomDirective(p, a)), a) == Count(ManagedOf(p), a)
    ensures BomDirective(p, a).parent.value.version == a.version
  {
    CountWithVersion(ManagedOf(p), a, a.version);
  }

  /** Exclusions are not deduplicated: the same directive twice adds the exclusion twice. */
  lemma ExclusionDirectiveTwice(p: Pom, e: Exclusion)
    ensures var r := ExclusionDirective(ExclusionDirective(p, e), e);
            |r.dependencies| == |p.dependencies|
            && forall i :: 0 <= i < |p.dependencies| ==>
                 r.dependencies[i].exclusions == p.dependencies[i].exclusions + [e, e]
  {
    var once := ExclusionDirective(p, e);
    forall i | 0 <= i < |p.dependencies|
      ensures ExclusionDirective(once, e).dependencies[i].exclusions == p.dependencies[i].exclusions + [e, e]
    {
      assert p.dependencies[i].exclusions + [e] + [e] == p.dependencies[i].exclusions + [e, e];
    }
  }

  /** Adding the same repository a second time changes nothing, whatever the policy flags. */
  lemma WithRepositoryTwice(repos: seq<Repository>, id: string, url: string,
                            releases: bool, snapshots: bool, releases2: bool, snapshots2: bool)
    ensures var once := WithRepository(repos, id, url, releases, snapshots);
            WithRepository(once, id, url, releases2, snapshots2) == once && |once| <= |repos| + 1
  {
  }

  /** No two repositories share a present id or a present url. */
  predicate DistinctRepositories(repos: seq<Repository>) {
    forall i, j :: 0 <= i < j < |repos| ==>
      (repos[i].id.Some? ==> repos[i].id != repos[j].id) && (repos[i].url.Some? ==> repos[i].url != repos[j].url)
  }

  /** The injector never introduces a second repository with the same id or url. */
  lemma WithRepositoryKeepsDistinct(repos: seq<Repository>, id: string, url: string, releases: bool, snapshots: bool)
    requires DistinctRepositories(repos)
    ensures DistinctRepositories(WithRepository(repos, id, url, releases, snapshots))
  {
    var r := WithRepository(repos, id, url, releases, snapshots);
    if !Covers(repos, id, url) {
      forall i, j | 0 <= i < j < |r|
        ensures (r[i].id.Some? ==> r[i].id != r[j].id) && (r[i].url.Some? ==> r[i].url != r[j].url)
      {
        if j == |repos| {
          assert !(repos[i].url == Some(url) || repos[i].id == Some(id));
        }
      }
    }
  }

  /** A repository already covered stays covered when another is added. */
  lemma CoversKept(repos: seq<Repository>, id: string, url: string,
                   id2: string, url2: string, releases: bool, snapshots: bool)
    requires Covers(repos, id, url)
    ensures Covers(WithRepository(repos, id2, url2, releases, snapshots), id, url)
  {
    var i :| 0 <= i < |repos| && (repos[i].url == Some(url) || repos[i].id == Some(id));
    assert WithRepository(repos, id2, url2, releases, snapshots)[i] == repos[i];
  }

  /**
   * After a successful pass, `central` and `spring-snapshots` (or a repository with their url)
   * are present, and the local one too when the root key is present.
   */
  lemma ProcessInjectsRepositories(p: Pom, globals: Option<seq<Property>>, rootKey: string)
    requires globals.Some? && ProcessSpec(p, globals, rootKey).error.None?
    ensures var repos := ProcessSpec(p, globals, rootKey).model.repositories;
            Covers(repos, CentralId, CentralUrl) && Covers(repos, SnapshotsId, SnapshotsUrl)
            && (HasKey(globals.value, rootKey) ==> Covers(repos, LocalId, LocalUrl))
  {
    var d := Directives(p, globals.value).model.repositories;
    var withCentral := WithRepository(d, CentralId, CentralUrl, true, false);
    var withSnapshots := WithRepository(withCentral, SnapshotsId, SnapshotsUrl, true, true);
    CoversKept(withCentral, CentralId, CentralUrl, SnapshotsId, SnapshotsUrl, true, true);
    if HasKey(globals.value, rootKey) {
      CoversKept(withSnapshots, CentralId, CentralUrl, LocalId, LocalUrl, true, true);
      CoversKept(withSnapshots, SnapshotsId, SnapshotsUrl, LocalId, LocalUrl, true, true);
    }
  }

  /** Adding a repository with another id and url does not make a third one covered. */
  lemma CoversOnlyIfCovered(repos: seq<Repository>, id: string, url: string,
                            id2: string, url2: string, releases: bool, snapshots: bool)
    requires id != id2 && url != url2
    ensures Covers(WithRepository(repos, id2, url2, releases, snapshots), id, url) <==> Covers(repos, id, url)
  {
    var r := WithRepository(repos, id2, url2, releases, snapshots);
    if Covers(repos, id, url) {
      CoversKept(repos, id, url, id2, url2, releases, snapshots);
    }
    if Covers(r, id, url) {
      var i :| 0 <= i < |r| && (r[i].url == Some(url) || r[i].id == Some(id));
      assert i < |repos| && r[i] == repos[i];
    }
  }

  /**
   * The local repository is only considered when the root key is present: without it, a
   * repository with id `default` or the local url is present afterwards exactly when it was
   * present after the directives.
   */
  lemma ProcessWithoutRootKey(p: Pom, globals: Option<seq<Property>>, rootKey: string)
    requires globals.Some? && !HasKey(globals.value, rootKey)
    requires ProcessSpec(p, globals, rootKey).error.None?
    ensures var after := ProcessSpec(p, globals, rootKey).model.repositories;
            var before := Directives(p, globals.value).model.repositories;
            Covers(after, LocalId, LocalUrl) <==> Covers(before, LocalId, LocalUrl)
  {
    var d := Directives(p, globals.value).model.repositories;
    var withCentral := WithRepository(d, CentralId, CentralUrl, true, false);
    assert LocalId != CentralId && LocalUrl != CentralUrl by {
      assert LocalId[0] != CentralId[0] && LocalUrl[0] != CentralUrl[0];
    }
    assert LocalId != SnapshotsId && LocalUrl != SnapshotsUrl by {
      assert LocalId[0] != SnapshotsId[0] && LocalUrl[0] != SnapshotsUrl[0];
    }
    CoversOnlyIfCovered(d, LocalId, LocalUrl, CentralId, CentralUrl, true, false);
    CoversOnlyIfCovered(withCentral, LocalId, LocalUrl, SnapshotsId, SnapshotsUrl, true, true);
  }

  /** Keys with none of the three prefixes change nothing. */
  lemma {:induction false} DirectivesIgnoreUnrelatedKeys(p: Pom, properties: seq<Property>)
    requires forall i :: 0 <= i < |properties| ==> !Routed(properties[i].name)
    ensures Directives(p, properties) == Outcome(p, None)
    decreases |properties|
  {
    if properties != [] {
      DirectivesIgnoreUnrelatedKeys(p, properties[1..]);
    }
  }

  /**
   * A routed property whose coordinate is malformed makes the pass fail: the pass stops at it
   * or at an earlier malformed one, and no repositories are injected.
   */
  lemma {:induction false} DirectivesStopAtMalformed(p: Pom, properties: seq<Property>, k: nat, rootKey: string)
    requires k < |properties| && Routed(properties[k].name) && Artifact(properties[k].value).Failure?
    ensures Directives(p, properties).error.Some?
    ensures ProcessSpec(p, Some(properties), rootKey) == Directives(p, properties)
    decreases k
  {
    match Step(p, properties[0])
    case Failure(e) =>
    case Success(q) =>
      assert k > 0;
      DirectivesStopAtMalformed(q, properties[1..], k - 1, rootKey);
  }

  /**
   * A malformed coordinate fails at some property k: the model is what the properties before
   * k made of it (their effects stay), and property k changed nothing.
   */
  lemma {:induction false} DirectivesFailure(p: Pom, properties: seq<Property>) returns (k: nat)
    requires Directives(p, properties).error.Some?
    ensures k < |properties|
    ensures Directives(p, properties[..k]) == Outcome(Directives(p, properties).model, None)
    ensures Step(Directives(p, properties).model, properties[k]).Failure?
    ensures Directives(p, properties).error == Some(BadCoordinates(properties[k].value))
    decreases |properties|
  {
    var o := Directives(p, properties);
    match Step(p, properties[0])
    case Failure(e) =>
      k := 0;
      assert properties[..0] == [];
    case Success(q) =>
      var j := DirectivesFailure(q, properties[1..]);
      k := j + 1;
      assert properties[..k][1..] == properties[1..][..j];
      assert properties[..k][0] == properties[0];
  }

  // Examples of the behaviour, on concrete coordinates.

  lemma AcmeTokens()
    ensures Token("com.acme") && Token("bom") && Token("lib") && Token("1.0") && Token("2.0") && Token("3.0")
  {
  }

  /** The artifact `com.acme:<name>:<version>` parses to. */
  function Acme(name: string, version: string): DefaultArtifact {
    DefaultArtifact("com.acme", name, DefaultExtension, EmptyClassifier, Some(version))
  }

  lemma AcmeBom1()
    ensures Artifact("com.acme:bom:1.0") == Success(Acme("bom", "1.0"))
  {
    AcmeTokens();
    ArtifactShortForm("com.acme", "bom", "1.0");
    assert "com.acme" + ":" + "bom" + ":" + "1.0" == "com.acme:bom:1.0";
  }

  lemma AcmeBom2()
    ensures Artifact("com.acme:bom:2.0") == Success(Acme("bom", "2.0"))
  {
    AcmeTokens();
    ArtifactShortForm("com.acme", "bom", "2.0");
    assert "com.acme" + ":" + "bom" + ":" + "2.0" == "com.acme:bom:2.0";
  }

  lemma AcmeLib3()
    ensures Artifact("com.acme:lib:3.0") == Success(Acme("lib", "3.0"))
  {
    AcmeTokens();
    ArtifactShortForm("com.acme", "lib", "3.0");
    assert "com.acme" + ":" + "lib" + ":" + "3.0" == "com.acme:lib:3.0";
  }

  /** A property routed to the `boms.` branch. */
  lemma BomStep(p: Pom, property: Property)
    requires BomsPrefix <= property.name
    ensures Step(p, property) == match Artifact(property.value)
                                 case Failure(e) => Failure(e)
                                 case Success(a) => Success(BomDirective(p, a))
  {
  }

  /** A BOM on a model without dependency management adds one `pom`/`import` entry at 1.0. */
  lemma BomExampleAppends(p: Pom)
    requires p.dependencyManagement.None? && p.parent.None?
    ensures Step(p, Property("boms.x", "com.acme:bom:1.0")) == Success(p.(dependencyManagement := Some([
              Dependency(Some("com.acme"), Some("bom"), Some("1.0"), "pom", None, Some("import"), [])])))
  {
    AcmeBom1();
    var a := Acme("bom", "1.0");
    BomStep(p, Property("boms.x", "com.acme:bom:1.0"));
    assert ManagedOf(p) == [] && WithVersion([], a, a.version) == [];
    assert !IsParentBom(p.parent, a);
    assert Stored(a.version) == Some("1.0") && !HasLength(Some(a.classifier));
    assert BomOf(a) == Dependency(Some("com.acme"), Some("bom"), Some("1.0"), "pom", None, Some("import"), []);
    assert [] + [BomOf(a)] == [BomOf(a)];
  }

  /** A BOM naming the parent moves the parent's version and adds no managed entry. */
  lemma BomExampleParent(p: Pom)
    requires p.dependencyManagement.None?
    requires p.parent == Some(Parent(Some("com.acme"), Some("bom"), Some("1.0")))
    ensures Step(p, Property("boms.x", "com.acme:bom:2.0")) == Success(p.(dependencyManagement := Some([]),
              parent := Some(Parent(Some("com.acme"), Some("bom"), Some("2.0")))))
  {
    AcmeBom2();
    var a := Acme("bom", "2.0");
    BomStep(p, Property("boms.x", "com.acme:bom:2.0"));
    assert ManagedOf(p) == [] && WithVersion([], a, a.version) == [];
    assert IsParentBom(p.parent, a);
  }

  /** A property routed to the `dependencies.` branch. */
  lemma DependencyStep(p: Pom, property: Property)
    requires DependenciesPrefix <= property.name && property.name[0] == 'd'
    ensures Step(p, property) == match Artifact(property.value)
                                 case Failure(e) => Failure(e)
                                 case Success(a) => Success(DependencyDirective(p, a))
  {
    assert !(BomsPrefix <= property.name) by {
      assert BomsPrefix[0] == 'b';
    }
  }

  /** A versioned directive on a single matching dependency re-versions it in place. */
  lemma DependencyDirectiveOnSingle(p: Pom, d: Dependency, a: DefaultArtifact)
    requires p.dependencies == [d] && SameArtifact(d, a) && a.version.Some?
    ensures DependencyDirective(p, a) == p.(dependencies := [d.(version := Stored(a.version))])
  {
    assert Replaces(p.dependencies, a) by {
      assert SameArtifact(p.dependencies[0], a);
    }
    var updated := WithVersion(p.dependencies, a, Stored(a.version));
    assert |updated| == 1 && updated[0] == d.(version := Stored(a.version));
    assert updated == [d.(version := Stored(a.version))];
  }

  /** A versioned dependency directive moves the existing entry to 3.0 without duplicating it. */
  lemma DependencyExampleReplaces(p: Pom, d: Dependency)
    requires d.groupId == Some("com.acme") && d.artifactId == Some("lib") && d.version == Some("2.0")
    requires p.dependencies == [d]
    ensures Step(p, Property("dependencies.x", "com.acme:lib:3.0"))
              == Success(p.(dependencies := [d.(version := Some("3.0"))]))
  {
    AcmeLib3();
    var a := Acme("lib", "3.0");
    assert DependenciesPrefix <= "dependencies.x";
    DependencyStep(p, Property("dependencies.x", "com.acme:lib:3.0"));
    DependencyDirectiveOnSingle(p, d, a);
    assert Stored(a.version) == Some("3.0");
  }

  /** A malformed coordinate after a good one: the pass fails, the first effect stays. */
  lemma MalformedExampleKeepsEarlierEffects(p: Pom)
    requires p.dependencies == []
    ensures Directives(p, [Property("dependencies.a", "com.acme:lib:3.0"), Property("dependencies.b", "bad coordinate")])
              == Outcome(p.(dependencies := [Dependency(Some("com.acme"), Some("lib"), Some("3.0"), "jar", None, None, [])]),
                         Some(BadCoordinates("bad coordinate")))
  {
    AcmeLib3();
    ArtifactRejects("bad coordinate");
    var a := Acme("lib", "3.0");
    var first := Property("dependencies.a", "com.acme:lib:3.0");
    var second := Property("dependencies.b", "bad coordinate");
    var q := p.(dependencies := [Dependency(Some("com.acme"), Some("lib"), Some("3.0"), "jar", None, None, [])]);
    assert DependenciesPrefix <= first.name && DependenciesPrefix <= second.name;
    DependencyStep(p, first);
    DependencyStep(q, second);
    assert !Replaces(p.dependencies, a);
    assert Stored(a.version) == Some("3.0") && !HasLength(Some(a.classifier));
    assert DependencyDirective(p, a) == q;
    var props := [first, second];
    assert props[1..] == [second];
    assert Directives(q, [second]) == Outcome(q, Some(BadCoordinates("bad coordinate")));
  }
}
