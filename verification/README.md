# ThinPropertiesModelProcessor, modelled in Dafny

A model of `ThinPropertiesModelProcessor` from the Spring Boot thin launcher. The class
rewrites an already parsed Maven build model (the POM object model) using override properties:

- `boms.*` pins or imports a bill of materials;
- `dependencies.*` pins or adds a dependency;
- `exclusions.*` adds a global exclusion to every dependency;
- afterwards the well-known repositories are added unless already present.

Files and modules:

- `wrappers.dfy` (`Wrappers`): `Option` stands for a Java null; `Result` stands for a thrown exception and its message.
- `coordinates.dfy` (`Coordinates`): the coordinate parser `artifact`. The regular expression
  `([^: ]+):([^: ]+)(:([^: ]*)(:([^: ]+))?)?(:([^: ]+))?` is replaced by an explicit parser
  (`Match`) over the `:`-separated segments. That parser returns the capturing groups 1, 2, 4, 6 and 8.
  It is proved to accept exactly the pattern's language (the contract of `Match`, and `MatchComplete`). The groups it
  returns are the ones a backtracking matcher reports, because optional parts are greedy (`Greedy`).
  `Artifact` then builds the coordinate from those groups, following lines 227-242.
- `maven_model.dfy` (`MavenModel`): the Maven `Model` as a class whose fields are updated in place.
  It also holds the records it owns (`Dependency`, `Exclusion`, `Parent`, `Repository`) as datatypes,
  reduced to the fields the processor reads or writes. A field Maven allows to be null is an `Option`.
- `rewrite.dfy` (`Rewrite`): the processor's pure helpers (`isParentBom`, `dependency`, `bom`,
  `exclusion`) and the effect of each directive, of the repository injector and of a whole
  `process` pass, all as functions on model values.
- `processor.dfy` (`Processor`): `process` and `addRepositoryIfMissing` as methods with loops that
  update the `Model` object. Each is proved to leave the model exactly as the `Rewrite` function says.
- `rewrite_lemmas.dfy` (`RewriteLemmas`): properties that relate several calls or a whole pass,
  and worked examples.

Representation choices:

- **Versions.** A coordinate's version is `Option<string>`, and `None` is the null that `artifact`
  passes on (lines 237, 240). The parser never yields a present but empty version. The guard
  `artifact.getVersion() != null` (line 121) and the empty-to-null rule (lines 122-124, 213-214)
  are kept literally (`Replaces`, `Stored`).
- **Properties.** They are given as a sequence of name/value pairs in their enumeration order.
  `None` stands for absent global properties.
- **Root key.** The name of the key that asks for the local repository (`ThinJarLauncher.THIN_ROOT`)
  is a parameter of `Process`. `ThinJarLauncher` is not part of this model.

The merge rules are not upserts:

- A `boms.` directive re-versions matching managed entries but never sets `replaced` in that loop.
  So it appends a `pom`/`import` entry even when one with the same (group, artifact) is already managed.
  It does this unless the coordinate names the parent (`BomDirectiveAppendsEvenWhenManaged`).
- The matching managed entries are re-versioned even when the coordinate names the parent.
- The dependency-management section is created even when the coordinate names the parent.
- A `dependencies.` directive without a version re-versions nothing. It then appends a new
  dependency, even when one with the same (group, artifact) exists
  (`UnversionedDependencyDirectiveAppends`), under the null-version reading (see Left out).
- Exclusions are appended without dedup (`ExclusionDirectiveTwice`). Repeating a BOM import, an
  unversioned dependency or an exclusion therefore adds a second entry.
- Keys are routed by the first prefix that matches, in the order `boms.`, `dependencies.`,
  `exclusions.`. The three prefixes are disjoint.

## Model

| member | source | states |
|---|---|---|
| `Coordinates.Segments` | launcher/src/main/java/org/springframework/boot/loader/thin/ThinPropertiesModelProcessor.java:222-224 | splitting at `:` gives at least one colon-free segment, and joining the segments again gives the input back |
| `Coordinates.Match` | launcher/src/main/java/org/springframework/boot/loader/thin/ThinPropertiesModelProcessor.java:222-225 | whatever the segment parser accepts is a match of the pattern: well-formed groups spanning exactly the input, chosen greedily (group 8 only together with group 6) |
| `Coordinates.MatchComplete` | launcher/src/main/java/org/springframework/boot/loader/thin/ThinPropertiesModelProcessor.java:222-225 | every match of the pattern is accepted, and the greedy one is exactly what the parser returns |
| `Coordinates.Artifact` | launcher/src/main/java/org/springframework/boot/loader/thin/ThinPropertiesModelProcessor.java:221-243 | a rejected coordinate fails with the "Bad artifact coordinates ..., expected format is ..." message; an accepted one has non-empty colon- and space-free group, artifact and extension, and its version is absent or non-empty |
| `Coordinates.ArtifactAcceptsExactlyPattern` | launcher/src/main/java/org/springframework/boot/loader/thin/ThinPropertiesModelProcessor.java:221-226 | `artifact` succeeds exactly on the strings the pattern matches |
| `Coordinates.ArtifactTwoSegments` | launcher/src/main/java/org/springframework/boot/loader/thin/ThinPropertiesModelProcessor.java:227-242 | `g:a` gives no version, extension `jar` and the empty classifier |
| `Coordinates.ArtifactShortForm` | launcher/src/main/java/org/springframework/boot/loader/thin/ThinPropertiesModelProcessor.java:227-242 | in `g:a:x` the third segment is the version (absent if empty), the extension stays `jar` and the classifier empty |
| `Coordinates.ArtifactLongForm` | launcher/src/main/java/org/springframework/boot/loader/thin/ThinPropertiesModelProcessor.java:227-242 | in `g:a:e:c[:v]` the third segment is the extension (`jar` if empty), the fourth the classifier, the fifth the version or absent |
| `Coordinates.ArtifactRoundTrip` | launcher/src/main/java/org/springframework/boot/loader/thin/ThinPropertiesModelProcessor.java:227-242 | a fully specified `g:a:e:c:v` gives back all five fields |
| `Coordinates.ArtifactRejects` | launcher/src/main/java/org/springframework/boot/loader/thin/ThinPropertiesModelProcessor.java:224-226 | a coordinate with a space or without a colon fails with the coordinate-format message |
| `Coordinates.BadCoordinateExample` | launcher/src/main/java/org/springframework/boot/loader/thin/ThinPropertiesModelProcessor.java:224-226 | `"bad coordinate"` is rejected |
| `Rewrite.IsParentBom` | launcher/src/main/java/org/springframework/boot/loader/thin/ThinPropertiesModelProcessor.java:190-207 | false without a parent; true when (group, artifact) equal the parent's; true for parent `spring-boot-starter-parent` with artifact `spring-boot-dependencies`, whatever the group; true only in those cases (so for the starter parent, only with artifact `spring-boot-dependencies`) |
| `Rewrite.Stored` | launcher/src/main/java/org/springframework/boot/loader/thin/ThinPropertiesModelProcessor.java:122-124 | a stored version is never present and empty, and a non-empty version is stored as it is |
| `Rewrite.DependencyOf` | launcher/src/main/java/org/springframework/boot/loader/thin/ThinPropertiesModelProcessor.java:209-219 | the new dependency has the coordinate's (group, artifact). An empty version or classifier becomes absent. The type is the extension. There is no scope and there are no exclusions |
| `Rewrite.BomOf` | launcher/src/main/java/org/springframework/boot/loader/thin/ThinPropertiesModelProcessor.java:183-188 | the import has the coordinate's (group, artifact) and stored version, type `pom` and scope `import` |
| `Rewrite.ExclusionOf` | launcher/src/main/java/org/springframework/boot/loader/thin/ThinPropertiesModelProcessor.java:175-181 | fails exactly when the coordinate is rejected; otherwise carries its group and artifact |
| `Rewrite.BomDirective` | launcher/src/main/java/org/springframework/boot/loader/thin/ThinPropertiesModelProcessor.java:88-110 | afterwards dependency management exists, and every pre-existing entry with equal (group, artifact) has the coordinate's version. If the coordinate names the parent, the parent takes its version and nothing is appended. Otherwise exactly one `bom` entry is appended. Dependencies and repositories are unchanged |
| `Rewrite.DependencyDirective` | launcher/src/main/java/org/springframework/boot/loader/thin/ThinPropertiesModelProcessor.java:112-131 | the list grows by at most one. With a version and a match, the length is kept and the matches take the stored version (an empty version clears it). Otherwise exactly `dependency(artifact)` is appended |
| `Rewrite.ExclusionDirective` | launcher/src/main/java/org/springframework/boot/loader/thin/ThinPropertiesModelProcessor.java:132-138 | the dependency list keeps its length and order; every dependency's exclusions grow by exactly the new exclusion at the end |
| `Rewrite.WithRepository` | launcher/src/main/java/org/springframework/boot/loader/thin/ThinPropertiesModelProcessor.java:152-173 | afterwards some repository has the url or the id. The list is unchanged exactly when one already did. Otherwise exactly one repository is appended with that id and url, layout `default` and the given flags |
| `Rewrite.Injected` | launcher/src/main/java/org/springframework/boot/loader/thin/ThinPropertiesModelProcessor.java:140-147 | afterwards a repository with id `central` or its url and one with id `spring-snapshots` or its url are present, and with the root key one with id `default` or the local url; the list only grows, by at most three entries |
| `Rewrite.Step` | launcher/src/main/java/org/springframework/boot/loader/thin/ThinPropertiesModelProcessor.java:87-138 | a key with none of the three prefixes changes nothing; the step fails exactly when the key has one of the prefixes and its value is rejected by `artifact`, and the failure carries the bad-coordinate message for that value |
| `Rewrite.Directives` | launcher/src/main/java/org/springframework/boot/loader/thin/ThinPropertiesModelProcessor.java:87-139 | a pass that fails reports the bad-coordinate message of one of the properties |
| `Rewrite.ProcessSpec` | launcher/src/main/java/org/springframework/boot/loader/thin/ThinPropertiesModelProcessor.java:84-150 | with no properties the model is returned unchanged. On success the repositories are those left by the directives, plus the injected ones, and the local one only when the root key is present |
| `Processor.AddRepositoryIfMissing` | launcher/src/main/java/org/springframework/boot/loader/thin/ThinPropertiesModelProcessor.java:152-173 | the loop leaves the repository list as `WithRepository` says and changes nothing else |
| `Processor.ApplyBom` | launcher/src/main/java/org/springframework/boot/loader/thin/ThinPropertiesModelProcessor.java:91-110 | the in-place updates leave the model as `BomDirective` says |
| `Processor.ApplyDependency` | launcher/src/main/java/org/springframework/boot/loader/thin/ThinPropertiesModelProcessor.java:115-130 | the loop with its `replaced` flag leaves the model as `DependencyDirective` says |
| `Processor.ApplyExclusion` | launcher/src/main/java/org/springframework/boot/loader/thin/ThinPropertiesModelProcessor.java:134-137 | the loop leaves the model as `ExclusionDirective` says |
| `Processor.ApplyProperty` | launcher/src/main/java/org/springframework/boot/loader/thin/ThinPropertiesModelProcessor.java:88-138 | one loop pass routes the key, parses before touching the model, and leaves the model as `Step` says; on a bad coordinate the model is unchanged and the message is returned |
| `Processor.Process` | launcher/src/main/java/org/springframework/boot/loader/thin/ThinPropertiesModelProcessor.java:84-150 | the final model and the error (if any) are exactly `ProcessSpec` of the initial model |
| `RewriteLemmas.DependencyDirectiveNoDuplicate` | launcher/src/main/java/org/springframework/boot/loader/thin/ThinPropertiesModelProcessor.java:112-131 | after a versioned `dependencies.` directive, the count of entries with its (group, artifact) is 1 if there were none and unchanged otherwise. So it never duplicates an existing pair |
| `RewriteLemmas.UnversionedDependencyDirectiveAppends` | launcher/src/main/java/org/springframework/boot/loader/thin/ThinPropertiesModelProcessor.java:115-130 | without a version the directive adds one more entry with its (group, artifact), even if one exists |
| `RewriteLemmas.BomDirectiveAppendsEvenWhenManaged` | launcher/src/main/java/org/springframework/boot/loader/thin/ThinPropertiesModelProcessor.java:94-110 | unless the coordinate names the parent, a `boms.` directive adds one more managed entry with its (group, artifact), even when one is already managed |
| `RewriteLemmas.ParentBomDirectiveAddsNothing` | launcher/src/main/java/org/springframework/boot/loader/thin/ThinPropertiesModelProcessor.java:104-107 | when the coordinate names the parent, the managed entries with its (group, artifact) do not grow in number, and the parent takes the coordinate's version |
| `RewriteLemmas.ExclusionDirectiveTwice` | launcher/src/main/java/org/springframework/boot/loader/thin/ThinPropertiesModelProcessor.java:132-138 | repeating an exclusion directive adds the exclusion twice to every dependency |
| `RewriteLemmas.WithRepositoryTwice` | launcher/src/main/java/org/springframework/boot/loader/thin/ThinPropertiesModelProcessor.java:152-173 | adding the same id and url a second time changes nothing, so two calls add at most one entry |
| `RewriteLemmas.WithRepositoryKeepsDistinct` | launcher/src/main/java/org/springframework/boot/loader/thin/ThinPropertiesModelProcessor.java:152-173 | if no two repositories share a present id or url before, none do afterwards |
| `RewriteLemmas.ProcessInjectsRepositories` | launcher/src/main/java/org/springframework/boot/loader/thin/ThinPropertiesModelProcessor.java:140-147 | after a successful pass, a repository with id `central` or its url is present, and so is one with id `spring-snapshots` or its url. With the root key present, one with id `default` or the local url is present too |
| `RewriteLemmas.ProcessWithoutRootKey` | launcher/src/main/java/org/springframework/boot/loader/thin/ThinPropertiesModelProcessor.java:144-147 | without the root key, a repository with id `default` or the local url is present after the pass exactly when it was present after the directives |
| `RewriteLemmas.DirectivesIgnoreUnrelatedKeys` | launcher/src/main/java/org/springframework/boot/loader/thin/ThinPropertiesModelProcessor.java:87-139 | properties whose names have none of the three prefixes leave the model unchanged and raise no error |
| `RewriteLemmas.DirectivesFailure` | launcher/src/main/java/org/springframework/boot/loader/thin/ThinPropertiesModelProcessor.java:87-139 | a failing pass stops at some property k with that property's bad-coordinate message. The model keeps exactly the effects of the properties before k, and property k changed nothing |
| `RewriteLemmas.DirectivesStopAtMalformed` | launcher/src/main/java/org/springframework/boot/loader/thin/ThinPropertiesModelProcessor.java:87-139 | a property with one of the three prefixes whose value `artifact` rejects makes the pass fail, and a failed pass injects no repositories |
| `RewriteLemmas.BomExampleAppends` | launcher/src/main/java/org/springframework/boot/loader/thin/ThinPropertiesModelProcessor.java:88-110 | `boms.x=com.acme:bom:1.0` on a model without a parent or dependency management gives exactly one `pom`/`import` entry at `1.0` |
| `RewriteLemmas.BomExampleParent` | launcher/src/main/java/org/springframework/boot/loader/thin/ThinPropertiesModelProcessor.java:104-107 | `boms.x=com.acme:bom:2.0` with parent `com.acme:bom:1.0` moves the parent to `2.0` and adds no managed entry |
| `RewriteLemmas.DependencyExampleReplaces` | launcher/src/main/java/org/springframework/boot/loader/thin/ThinPropertiesModelProcessor.java:116-126 | `dependencies.x=com.acme:lib:3.0` moves an existing `com.acme:lib` from `2.0` to `3.0` without a duplicate |
| `RewriteLemmas.MalformedExampleKeepsEarlierEffects` | launcher/src/main/java/org/springframework/boot/loader/thin/ThinPropertiesModelProcessor.java:112-131 | a good dependency directive followed by `bad coordinate` fails with the coordinate-format message and keeps the added dependency |

## Left out

- The three `read` overloads: they read the model from a file, reader or stream and close it. This is I/O.
- `DependencyResolver.getGlobals()`: the process-wide configuration is passed to `Process` as a parameter.
- The enumeration order of `Properties.stringPropertyNames()` is unspecified, so it is an input: the order of the property sequence.
- The value of `ThinJarLauncher.THIN_ROOT`: `Process` takes the key name as a parameter.
- The `${user.home}` in the local repository url is kept as literal text; expanding it is the resolver's job.
- Aether's `DefaultArtifact` may turn a null version into `""`. If it does, the guard at line 121 always holds. Then a `dependencies.` directive without a version would clear matching versions instead of appending. The model keeps the literal null reading.
- Java's regular-expression engine: the segment parser replaces it and is proved equal to the pattern.
- Exception types: `Assert.isTrue` throws `IllegalArgumentException`. The model keeps only its message, as a `Failure`.
- Object identity: Maven's `Dependency`, `Exclusion` and `Repository` objects are values here. Sharing one object between two lists (aliasing) is not captured.
- `RepositoryPolicy` objects: each is reduced to its `enabled` flag.
- Every other field of Maven's model.
