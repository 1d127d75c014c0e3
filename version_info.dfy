/** The string helpers of `VersionInfo`: build descriptions, their equality, and how an artifact
  * name leads to the class and resource its build properties are loaded from. */
module VersionInfos {
  import opened Wrappers

  /** A build description. A Java `String` or `Date` that may be `null` is an `Option`; a date is
    * its milliseconds since the epoch. */
  datatype VersionInfo = VersionInfo(
    version: Option<string>,
    revision: Option<string>,
    name: Option<string>,
    branch: Option<string>,
    host: Option<string>,
    production: bool,
    timestamp: Option<int>)

  /** Java's `equals(o)` for a `VersionInfo` receiver: `o` may be `null`. Two descriptions are
    * equal exactly when they agree on all seven fields. */
  function Equals(self: VersionInfo, o: Option<VersionInfo>): (r: bool)
    ensures r <==> o == Some(self)
  {
    && o.Some?
    && self.version == o.value.version
    && self.revision == o.value.revision
    && self.name == o.value.name
    && self.branch == o.value.branch
    && self.host == o.value.host
    && self.production == o.value.production
    && self.timestamp == o.value.timestamp
  }

  /** Equality of descriptions is symmetric. */
  lemma EqualsSymmetric(a: VersionInfo, b: VersionInfo)
    ensures Equals(a, Some(b)) <==> Equals(b, Some(a))
  {
  }

  /** Java's `longest`: a `null` argument yields the other one; otherwise the strictly longer
    * string, and `s2` on a tie. */
  function Longest(s1: Option<string>, s2: Option<string>): (r: Option<string>)
    ensures r == s1 || r == s2
    ensures s1.None? ==> r == s2
    ensures s2.None? ==> r == s1
    ensures s1.Some? && s2.Some? ==>
              r.Some? && |r.value| >= |s1.value| && |r.value| >= |s2.value|
    ensures s1.Some? && s2.Some? && |s1.value| <= |s2.value| ==> r == s2
  {
    if s1.None? then s2
    else if s2.None? then s1
    else if |s1.value| > |s2.value| then s1
    else s2
  }

  /** The artifacts whose build properties live beside a class of another name. */
  const KnownClasses: map<string, string> := map[
    "milib" := "com.milaboratory.util.VersionInfo",
    "mixcr" := "com.milaboratory.mixcr.util.MiXCRVersionInfo",
    "repseqio" := "io.repseq.util.RepseqIOVersionInfo"]

  /** Java's `className`: the class of a known artifact, any other name unchanged; a `switch` on a
    * `null` string throws. */
  function ClassName(resourceName: Option<string>): (r: Outcome<string>)
    ensures r.Throws? <==> resourceName.None?
    ensures r.Throws? ==> r.exception == NullPointer
    ensures r.Ok? && resourceName.value in KnownClasses ==> r.value == KnownClasses[resourceName.value]
    ensures r.Ok? && resourceName.value !in KnownClasses ==> r.value == resourceName.value
  {
    if resourceName.None? then Throws(NullPointer)
    else
      match resourceName.value
      case "milib" => Ok("com.milaboratory.util.VersionInfo")
      case "mixcr" => Ok("com.milaboratory.mixcr.util.MiXCRVersionInfo")
      case "repseqio" => Ok("io.repseq.util.RepseqIOVersionInfo")
      case _ => Ok(resourceName.value)
  }

  /** The resource the build properties of an artifact are read from. */
  const ResourcePrefix := "/"
  const ResourceSuffix := "-build.properties"

  function ResourceName(artifactId: string): (r: string)
    ensures |r| == |artifactId| + |ResourcePrefix| + |ResourceSuffix|
  {
    ResourcePrefix + artifactId + ResourceSuffix
  }

  /** The artifact a resource name was made for. */
  function ArtifactOf(resource: string): string
    requires |resource| >= |ResourcePrefix| + |ResourceSuffix|
  {
    resource[|ResourcePrefix|..|resource| - |ResourceSuffix|]
  }

  /** The resource name gives its artifact back, so distinct artifacts read distinct resources. */
  lemma ArtifactOfResourceName(artifactId: string)
    ensures ArtifactOf(ResourceName(artifactId)) == artifactId
  {
    var r := ResourceName(artifactId);
    assert r[|ResourcePrefix|..|r| - |ResourceSuffix|] == artifactId;
  }

  /** The class and the resource `getVersionInfoForArtifact` loads from; a `null` artifact makes
    * `className` throw before anything is loaded. */
  function ArtifactSource(artifactId: Option<string>): (r: Outcome<(string, string)>)
    ensures r.Throws? <==> artifactId.None?
    ensures r.Throws? ==> r.exception == NullPointer
    ensures r.Ok? ==> ClassName(artifactId) == Ok(r.value.0)
    ensures r.Ok? ==> |r.value.1| >= |ResourcePrefix| + |ResourceSuffix| && ArtifactOf(r.value.1) == artifactId.value
  {
    match ClassName(artifactId)
    case Throws(e) => Throws(e)
    case Ok(className) =>
      ArtifactOfResourceName(artifactId.value);
      Ok((className, ResourceName(artifactId.value)))
  }

  /** Java's `Properties.getProperty`: `null` for a missing key. */
  function GetProperty(properties: map<string, string>, key: string): Option<string> {
    if key in properties then Some(properties[key]) else None
  }

  /** The description `getVersionInfo` builds from loaded build properties. `parseLong` stands for
    * Java's `Long.parseLong`, which throws on a `null` or malformed timestamp; the production flag
    * is set only by the exact text `true`. */
  function FromProperties(properties: map<string, string>, parseLong: string -> Option<int>): (r: Outcome<VersionInfo>)
    ensures r.Throws? <==> "timestamp" !in properties || parseLong(properties["timestamp"]).None?
    ensures r.Throws? ==> r.exception == NumberFormat
    ensures r.Ok? ==> (r.value.production <==> "production" in properties && properties["production"] == "true")
    ensures r.Ok? ==> r.value.timestamp.Some? && Some(r.value.timestamp.value) == parseLong(properties["timestamp"])
    ensures r.Ok? ==> r.value.version == GetProperty(properties, "version") && r.value.revision == GetProperty(properties, "revision")
    ensures r.Ok? ==> r.value.name == GetProperty(properties, "name") && r.value.branch == GetProperty(properties, "branch")
    ensures r.Ok? ==> r.value.host == GetProperty(properties, "host")
  {
    var timestamp := GetProperty(properties, "timestamp");
    if timestamp.None? || parseLong(timestamp.value).None? then Throws(NumberFormat)
    else
      Ok(VersionInfo(
        GetProperty(properties, "version"),
        GetProperty(properties, "revision"),
        GetProperty(properties, "name"),
        GetProperty(properties, "branch"),
        GetProperty(properties, "host"),
        GetProperty(properties, "production") == Some("true"),
        Some(parseLong(timestamp.value).value)))
  }
}
