/**
 * The coordinate parser of ThinPropertiesModelProcessor (its private method `artifact`).
 *
 * The Java code matches the whole string against the pattern
 *   ([^: ]+):([^: ]+)(:([^: ]*)(:([^: ]+))?)?(:([^: ]+))?
 * and reads the capturing groups 1, 2, 4, 6 and 8. Here the match is an explicit parser over
 * the `:`-separated segments (`Match`), proved equal to the pattern's language (the contract of `Match`,
 * `MatchComplete`) and to the group assignment a backtracking matcher reports (the greedy
 * choice, `Greedy`); `Artifact` then builds the coordinate from the groups as the Java code does.
 */
module Coordinates {
  import opened Wrappers

  /**
   * Aether's DefaultArtifact, reduced to the fields the processor reads. `version` is `None`
   * where the Java code passes a null version.
   */
  datatype DefaultArtifact = DefaultArtifact(
    groupId: string,
    artifactId: string,
    extension: string,
    classifier: string,
    version: Option<string>)

  /** The default extension for the artifact. */
  const DefaultExtension: string := "jar"

  /** The empty classifier. */
  const EmptyClassifier: string := ""

  const ExpectedFormat: string := "<groupId>:<artifactId>[:<extension>[:<classifier>]][:<version>]"

  /** The message of the exception thrown for a coordinate the pattern rejects. */
  function BadCoordinates(coordinates: string): string {
    "Bad artifact coordinates " + coordinates + ", expected format is " + ExpectedFormat
  }

  /** Spring's `StringUtils.hasLength`: non-null and non-empty. */
  predicate HasLength(s: Option<string>) {
    s.Some? && |s.value| > 0
  }

  /** The character class `[^: ]`. */
  predicate PlainChar(c: char) {
    c != ':' && c != ' '
  }

  /** `[^: ]*` */
  predicate Field(x: string) {
    forall i :: 0 <= i < |x| ==> PlainChar(x[i])
  }

  /** `[^: ]+` */
  predicate Token(x: string) {
    |x| > 0 && Field(x)
  }

  /** The segments joined again with `:` between them. */
  function JoinColon(segs: seq<string>): string
    requires |segs| >= 1
  {
    if |segs| == 1 then segs[0] else segs[0] + ":" + JoinColon(segs[1..])
  }

  /** The `:`-separated segments of `s`, empty ones included; joining them gives `s` back. */
  function Segments(s: string): (r: seq<string>)
    ensures |r| >= 1
    ensures forall i :: 0 <= i < |r| ==> ':' !in r[i]
    ensures JoinColon(r) == s
    decreases |s|
  {
    if |s| == 0 then [""]
    else
      var rest := Segments(s[1..]);
      assert s == [s[0]] + s[1..];
      if s[0] == ':' then
        assert ([""] + rest)[1..] == rest;
        [""] + rest
      else
        var r := [[s[0]] + rest[0]] + rest[1..];
        assert |rest| > 1 ==> r[1..] == rest[1..] && JoinColon(rest) == rest[0] + ":" + JoinColon(rest[1..]);
        r
  }

  /**
   * The capturing groups the pattern reports: groups 1 and 2 always, groups 4, 6 and 8 only
   * when their optional parts took part in the match (`None` is Java's null group).
   */
  datatype Groups = Groups(
    group1: string,
    group2: string,
    group4: Option<string>,
    group6: Option<string>,
    group8: Option<string>)

  /** Each group has the shape its sub-pattern allows; group 6 is nested inside group 3. */
  predicate WellFormed(g: Groups) {
    && Token(g.group1)
    && Token(g.group2)
    && (g.group4.Some? ==> Field(g.group4.value))
    && (g.group6.Some? ==> g.group4.Some? && Token(g.group6.value))
    && (g.group8.Some? ==> Token(g.group8.value))
  }

  /** The text a match with groups `g` spans, following the pattern piece by piece. */
  function Text(g: Groups): string {
    TextUpTo6(g) + (if g.group8.Some? then ":" + g.group8.value else "")
  }

  /** The text of groups 1 and 2 and of the optional part holding groups 4 and 6. */
  function TextUpTo6(g: Groups): string {
    g.group1 + ":" + g.group2
    + (if g.group4.Some? then
         ":" + g.group4.value + (if g.group6.Some? then ":" + g.group6.value else "")
       else "")
  }

  /** The string lies in the pattern's language. */
  ghost predicate MatchesPattern(s: string) {
    exists g :: WellFormed(g) && Text(g) == s
  }

  /**
   * The choice a backtracking matcher makes: the optional parts are greedy, so the part holding
   * group 3 (and within it group 5) is taken before the one holding group 7; group 8 is thus
   * reported only together with group 6.
   */
  predicate Greedy(g: Groups) {
    g.group8.Some? ==> g.group6.Some?
  }

  /**
   * The explicit parser that replaces the pattern match. Whatever it accepts is a match of the
   * pattern: well-formed groups spanning exactly `s`, chosen as a greedy matcher chooses them.
   */
  function Match(s: string): (r: Option<Groups>)
    ensures r.Some? ==> WellFormed(r.value) && Text(r.value) == s && Greedy(r.value)
  {
    var segs := Segments(s);
    if ' ' in s || |segs| < 2 || |segs| > 5 || segs[0] == "" || segs[1] == ""
       || (|segs| >= 4 && segs[3] == "") || (|segs| == 5 && segs[4] == "")
    then None
    else
      var g := Groups(
        segs[0], segs[1],
        if |segs| >= 3 then Some(segs[2]) else None,
        if |segs| >= 4 then Some(segs[3]) else None,
        if |segs| == 5 then Some(segs[4]) else None);
      SegmentsArePlain(s);
      TextIsJoin(g);
      assert Present(g) == segs;
      Some(g)
  }

  /** The groups present before group 8, in the order they occur in the text. */
  function PresentUpTo6(g: Groups): seq<string> {
    if g.group4.None? then [g.group1, g.group2]
    else if g.group6.None? then [g.group1, g.group2, g.group4.value]
    else [g.group1, g.group2, g.group4.value, g.group6.value]
  }

  /** The groups present in `g`, in the order they occur in the text. */
  function Present(g: Groups): seq<string> {
    PresentUpTo6(g) + (if g.group8.Some? then [g.group8.value] else [])
  }

  lemma {:induction false} JoinAppend(segs: seq<string>, last: string)
    requires |segs| >= 1
    ensures JoinColon(segs + [last]) == JoinColon(segs) + ":" + last
    decreases |segs|
  {
    if |segs| == 1 {
      assert (segs + [last])[1..] == [last];
    } else {
      assert (segs + [last])[1..] == segs[1..] + [last];
      JoinAppend(segs[1..], last);
    }
  }

  lemma TextUpTo6IsJoin(g: Groups)
    ensures |PresentUpTo6(g)| >= 2
    ensures TextUpTo6(g) == JoinColon(PresentUpTo6(g))
  {
    var two := [g.group1, g.group2];
    assert JoinColon(two) == g.group1 + ":" + g.group2 by {
      assert two[1..] == [g.group2];
    }
    if g.group4.Some? {
      var three := two + [g.group4.value];
      JoinAppend(two, g.group4.value);
      if g.group6.Some? {
        JoinAppend(three, g.group6.value);
        assert three + [g.group6.value] == PresentUpTo6(g);
      }
    }
  }

  lemma TextIsJoin(g: Groups)
    ensures |Present(g)| >= 2
    ensures Text(g) == JoinColon(Present(g))
  {
    TextUpTo6IsJoin(g);
    if g.group8.Some? {
      JoinAppend(PresentUpTo6(g), g.group8.value);
    } else {
      assert Present(g) == PresentUpTo6(g);
    }
  }

  /** Every character of a segment occurs in the joined text. */
  lemma {:induction false} SegmentInJoin(segs: seq<string>, i: nat, c: char)
    requires i < |segs| && c in segs[i]
    ensures c in JoinColon(segs)
    decreases i
  {
    if i > 0 {
      SegmentInJoin(segs[1..], i - 1, c);
    }
  }

  /** A colon-free string followed by `:` opens one segment. */
  lemma {:induction false} SegmentsAfterColon(x: string, y: string)
    requires ':' !in x
    ensures Segments(x + ":" + y) == [x] + Segments(y)
    decreases |x|
  {
    var s := x + ":" + y;
    if |x| == 0 {
      assert s[1..] == y;
    } else {
      assert s[1..] == x[1..] + ":" + y;
      SegmentsAfterColon(x[1..], y);
      assert [x[0]] + x[1..] == x;
    }
  }

  /** A colon-free string is a single segment. */
  lemma {:induction false} SegmentsOfField(x: string)
    requires ':' !in x
    ensures Segments(x) == [x]
    decreases |x|
  {
    if |x| > 0 {
      SegmentsOfField(x[1..]);
      assert [x[0]] + x[1..] == x;
    }
  }

  /** Splitting undoes joining, as long as no segment holds a colon. */
  lemma {:induction false} SegmentsOfJoin(segs: seq<string>)
    requires |segs| >= 1
    requires forall i :: 0 <= i < |segs| ==> ':' !in segs[i]
    ensures Segments(JoinColon(segs)) == segs
    decreases |segs|
  {
    if |segs| == 1 {
      SegmentsOfField(segs[0]);
    } else {
      SegmentsOfJoin(segs[1..]);
      SegmentsAfterColon(segs[0], JoinColon(segs[1..]));
      assert [segs[0]] + segs[1..] == segs;
    }
  }

  /** Without spaces in `s`, every segment is made of characters of the class `[^: ]`. */
  lemma SegmentsArePlain(s: string)
    requires ' ' !in s
    ensures forall i :: 0 <= i < |Segments(s)| ==> Field(Segments(s)[i])
  {
    var segs := Segments(s);
    forall i, c | 0 <= i < |segs| && c in segs[i]
      ensures PlainChar(c)
    {
      SegmentInJoin(segs, i, c);
    }
  }

  /** Every match of the pattern is accepted by `Match`, and the greedy one is what it returns. */
  lemma MatchComplete(s: string, g: Groups)
    requires WellFormed(g) && Text(g) == s
    ensures Match(s).Some?
    ensures Greedy(g) ==> Match(s) == Some(g)
  {
    TextIsJoin(g);
    var p := Present(g);
    forall i | 0 <= i < |p|
      ensures ':' !in p[i] && ' ' !in p[i]
    {
    }
    SegmentsOfJoin(p);
  }

  /** `artifact`: the coordinate named by a string, or the exception the Java code throws. */
  function Artifact(coordinates: string): (r: Result<DefaultArtifact, string>)
    ensures r.Failure? ==> r.error == BadCoordinates(coordinates)
    ensures r.Success? ==> Token(r.value.groupId) && Token(r.value.artifactId)
    ensures r.Success? ==> Token(r.value.extension) && Field(r.value.classifier)
    ensures r.Success? && r.value.version.Some? ==> Token(r.value.version.value)
  {
    match Match(coordinates)
    case None => Failure(BadCoordinates(coordinates))
    case Some(m) =>
      if HasLength(m.group6) then
        Success(DefaultArtifact(
          m.group1, m.group2,
          if HasLength(m.group4) then m.group4.value else DefaultExtension,
          m.group6.value,
          if HasLength(m.group8) then m.group8 else None))
      else
        Success(DefaultArtifact(
          m.group1, m.group2, DefaultExtension, EmptyClassifier,
          if HasLength(m.group4) then m.group4 else None))
  }

  /** `artifact` succeeds on exactly the strings of the pattern's language. */
  lemma ArtifactAcceptsExactlyPattern(coordinates: string)
    ensures Artifact(coordinates).Success? <==> MatchesPattern(coordinates)
  {
    if MatchesPattern(coordinates) {
      var g :| WellFormed(g) && Text(g) == coordinates;
      MatchComplete(coordinates, g);
    }
  }

  /** `group:artifact`: no version, the default extension and the empty classifier. */
  lemma ArtifactTwoSegments(group: string, artifact: string)
    requires Token(group) && Token(artifact)
    ensures Artifact(group + ":" + artifact)
              == Success(DefaultArtifact(group, artifact, DefaultExtension, EmptyClassifier, None))
  {
    var g := Groups(group, artifact, None, None, None);
    assert Text(g) == group + ":" + artifact;
    MatchComplete(group + ":" + artifact, g);
  }

  /** `group:artifact:version`: the third segment is the version (absent when empty), not the extension. */
  lemma ArtifactShortForm(group: string, artifact: string, version: string)
    requires Token(group) && Token(artifact) && Field(version)
    ensures Artifact(group + ":" + artifact + ":" + version)
              == Success(DefaultArtifact(group, artifact, DefaultExtension, EmptyClassifier,
                                         if version == "" then None else Some(version)))
  {
    var g := Groups(group, artifact, Some(version), None, None);
    assert Text(g) == group + ":" + artifact + ":" + version;
    MatchComplete(group + ":" + artifact + ":" + version, g);
  }

  /**
   * `group:artifact:extension:classifier[:version]`: the third segment is the extension (the
   * default when empty), the fourth the classifier and the fifth, if any, the version.
   */
  lemma ArtifactLongForm(group: string, artifact: string, extension: string, classifier: string, version: Option<string>)
    requires Token(group) && Token(artifact) && Field(extension) && Token(classifier)
    requires version.Some? ==> Token(version.value)
    ensures Artifact(group + ":" + artifact + ":" + extension + ":" + classifier
                     + (if version.Some? then ":" + version.value else ""))
              == Success(DefaultArtifact(group, artifact, if extension == "" then DefaultExtension else extension,
                                         classifier, version))
  {
    var g := Groups(group, artifact, Some(extension), Some(classifier), version);
    var s := group + ":" + artifact + ":" + extension + ":" + classifier
             + (if version.Some? then ":" + version.value else "");
    assert Text(g) == s;
    MatchComplete(s, g);
  }

  /** A fully specified `group:artifact:extension:classifier:version` gives back all five fields. */
  lemma ArtifactRoundTrip(group: string, artifact: string, extension: string, classifier: string, version: string)
    requires Token(group) && Token(artifact) && Token(extension) && Token(classifier) && Token(version)
    ensures Artifact(group + ":" + artifact + ":" + extension + ":" + classifier + ":" + version)
              == Success(DefaultArtifact(group, artifact, extension, classifier, Some(version)))
  {
    var prefix := group + ":" + artifact + ":" + extension + ":" + classifier;
    assert prefix + ":" + version == prefix + (":" + version);
    ArtifactLongForm(group, artifact, extension, classifier, Some(version));
  }

  /** A string with a space, or without any `:`, is rejected with the coordinate-format message. */
  lemma ArtifactRejects(coordinates: string)
    requires ' ' in coordinates || ':' !in coordinates
    ensures Artifact(coordinates) == Failure(BadCoordinates(coordinates))
  {
    if ' ' !in coordinates {
      SegmentsOfField(coordinates);
    }
  }

  /** The example of a malformed coordinate: a space and no colon. */
  lemma BadCoordinateExample()
    ensures Artifact("bad coordinate").Failure?
  {
    ArtifactRejects("bad coordinate");
  }
}
