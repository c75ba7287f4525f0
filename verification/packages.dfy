/**
 The records Brewlet builds from `brew info --json --installed` and the decoder that
 builds them from the flat-array JSON shape. Every missing or mistyped field falls back
 to a fixed default; only unparseable input is an error.
 */
module Packages {
  import opened Wrappers
  import opened Json

  /** Defaults used when a field is missing or has the wrong JSON type. */
  const UnknownName := "Unknown"
  const UnknownStable := "?"
  const UnknownVersion := "Unknown"

  datatype Version = Version(stable: string)

  /** One installation of a package. */
  datatype InstalledPackage = InstalledPackage(
    version: string,
    installedOnRequest: bool,
    installedAsDependency: bool)

  /**
   A package and its installations, most recent first. `installedOnRequest` is derived:
   the decoder sets it when any installation was requested.
   */
  datatype Package = Package(
    name: string,
    desc: Option<string>,
    outdated: bool,
    versions: Version,
    installed: seq<InstalledPackage>,
    installedOnRequest: bool)

  /** `getInstalledVersion`: the version of the latest installation, which is the first one, if any. */
  function InstalledVersion(p: Package): (r: Option<string>)
    ensures r.None? <==> |p.installed| == 0
    ensures r.Some? ==> r.value == p.installed[0].version
  {
    if |p.installed| == 0 then None else Some(p.installed[0].version)
  }

  /** The only hard failure: the bytes are not JSON at all. */
  datatype ParseError = InvalidJson

  /** True when some installation was requested by the user. */
  predicate AnyRequested(installs: seq<InstalledPackage>) {
    exists i :: 0 <= i < |installs| && installs[i].installedOnRequest
  }

  /** True when the derived flag of `p` agrees with its installations. */
  predicate RequestedFlagDerived(p: Package) {
    p.installedOnRequest == AnyRequested(p.installed)
  }

  /** The number of installations requested by the user (`filter{...}.count`). */
  function CountRequested(installs: seq<InstalledPackage>): (n: nat)
    ensures n <= |installs|
    ensures n == 0 <==> !AnyRequested(installs)
  {
    if |installs| == 0 then 0
    else
      var rest := CountRequested(installs[1..]);
      assert forall i :: 1 <= i < |installs| ==> installs[i] == installs[1..][i - 1];
      if installs[0].installedOnRequest then rest + 1 else rest
  }

  function DecodeInstall(obj: Object): InstalledPackage {
    InstalledPackage(
      StringAt(obj, "version").GetOr(UnknownVersion),
      BoolAt(obj, "installed_on_request").GetOr(false),
      BoolAt(obj, "installed_as_dependency").GetOr(false))
  }

  function DecodeVersions(obj: Object): Version {
    match ObjectAt(obj, "versions")
    case None => Version(UnknownStable)
    case Some(v) => Version(StringAt(v, "stable").GetOr(UnknownStable))
  }

  function DecodeInstalls(obj: Object): seq<InstalledPackage> {
    match ArrayOfObjectsAt(obj, "installed")
    case None => []
    case Some(entries) => seq(|entries|, i requires 0 <= i < |entries| => DecodeInstall(entries[i]))
  }

  function DecodePackage(obj: Object): Package {
    var installs := DecodeInstalls(obj);
    Package(
      StringAt(obj, "name").GetOr(UnknownName),
      StringAt(obj, "desc"),
      BoolAt(obj, "outdated").GetOr(false),
      DecodeVersions(obj),
      installs,
      CountRequested(installs) > 0)
  }

  /**
   `packagesFromJson`: malformed input is the only failure; a root that is not an array
   of objects decodes to no packages; otherwise one package per element, in order.
   */
  function PackagesFromJson(doc: Document): (r: Result<seq<Package>, ParseError>)
    ensures r.Failure? <==> doc.Malformed?
    ensures doc.WellFormed? && !(doc.root.JArray? && AllObjects(doc.root.items)) ==>
              r == Success([])
    ensures doc.WellFormed? && doc.root.JArray? && AllObjects(doc.root.items) ==>
              r.Success? && |r.value| == |doc.root.items| &&
              forall i :: 0 <= i < |r.value| ==> r.value[i] == DecodePackage(doc.root.items[i].fields)
  {
    match doc
    case Malformed => Failure(InvalidJson)
    case WellFormed(root) =>
      match ArrayOfObjects(root)
      case None => Success([])
      case Some(elements) =>
        Success(seq(|elements|, i requires 0 <= i < |elements| => DecodePackage(elements[i])))
  }

  /** Each scalar field of a decoded package is the field's value when it has the right type, and its default otherwise. */
  lemma ScalarDefaults(obj: Object)
    ensures var p := DecodePackage(obj);
      && (if "name" in obj && obj["name"].JString? then p.name == obj["name"].s else p.name == "Unknown")
      && (if "desc" in obj && obj["desc"].JString? then p.desc == Some(obj["desc"].s) else p.desc == None)
      && (if "outdated" in obj && obj["outdated"].JBool? then p.outdated == obj["outdated"].b else !p.outdated)
  {
  }

  /**
   `versions.stable` is "?" unless `versions` is an object whose `stable` field is a
   string, in which case it is that string.
   */
  lemma StableDefault(obj: Object)
    ensures var stable := DecodePackage(obj).versions.stable;
      if "versions" in obj && obj["versions"].JObject?
         && "stable" in obj["versions"].fields && obj["versions"].fields["stable"].JString?
      then stable == obj["versions"].fields["stable"].s
      else stable == "?"
  {
  }

  /**
   When `installed` is an array of objects there is one installation per entry, in
   order, each with its own defaults; when it is anything else there are none.
   */
  lemma InstallsDecoded(obj: Object)
    ensures var installs := DecodePackage(obj).installed;
      if "installed" in obj && obj["installed"].JArray? && AllObjects(obj["installed"].items)
      then
        var entries := obj["installed"].items;
        && |installs| == |entries|
        && forall i :: 0 <= i < |entries| ==>
             var e := entries[i].fields;
             && installs[i].version ==
                  (if "version" in e && e["version"].JString? then e["version"].s else "Unknown")
             && installs[i].installedOnRequest ==
                  ("installed_on_request" in e && e["installed_on_request"] == JBool(true))
             && installs[i].installedAsDependency ==
                  ("installed_as_dependency" in e && e["installed_as_dependency"] == JBool(true))
      else installs == []
  {
  }

  /** A decoded package is installed on request iff one of its installations is. */
  lemma DecodedRequestedFlag(obj: Object)
    ensures RequestedFlagDerived(DecodePackage(obj))
  {
  }

  /** A decoded package without installations is neither requested nor has an installed version. */
  lemma DecodedNotInstalled(obj: Object)
    requires DecodePackage(obj).installed == []
    ensures !DecodePackage(obj).installedOnRequest
    ensures InstalledVersion(DecodePackage(obj)) == None
  {
  }

  /**
   The installed version of a decoded package is present iff `installed` is a non-empty
   array of objects, and is then the first entry's `version` string or "Unknown".
   */
  lemma DecodedInstalledVersion(obj: Object)
    ensures var v := InstalledVersion(DecodePackage(obj));
      if "installed" in obj && obj["installed"].JArray? && AllObjects(obj["installed"].items)
         && |obj["installed"].items| > 0
      then
        var e := obj["installed"].items[0].fields;
        v == Some(if "version" in e && e["version"].JString? then e["version"].s else "Unknown")
      else v == None
  {
  }

  // Encoding: the JSON brew emits for a package, used as the decoder's inverse.

  function EncodeInstall(ip: InstalledPackage): Value {
    JObject(map[
      "version" := JString(ip.version),
      "installed_on_request" := JBool(ip.installedOnRequest),
      "installed_as_dependency" := JBool(ip.installedAsDependency)])
  }

  function EncodePackage(p: Package): Value {
    JObject(map[
      "name" := JString(p.name),
      "desc" := (match p.desc case Some(d) => JString(d) case None => JNull),
      "outdated" := JBool(p.outdated),
      "versions" := JObject(map["stable" := JString(p.versions.stable)]),
      "installed" := JArray(seq(|p.installed|, i requires 0 <= i < |p.installed| => EncodeInstall(p.installed[i])))])
  }

  function EncodePackages(ps: seq<Package>): Value {
    JArray(seq(|ps|, i requires 0 <= i < |ps| => EncodePackage(ps[i])))
  }

  lemma DecodeEncodeInstall(ip: InstalledPackage)
    ensures EncodeInstall(ip).JObject?
    ensures DecodeInstall(EncodeInstall(ip).fields) == ip
  {
  }

  /** Decoding the JSON of a package with a consistent derived flag gives the package back. */
  lemma {:induction false} DecodeEncodePackage(p: Package)
    requires RequestedFlagDerived(p)
    ensures EncodePackage(p).JObject?
    ensures DecodePackage(EncodePackage(p).fields) == p
  {
    var obj := EncodePackage(p).fields;
    var entries := seq(|p.installed|, i requires 0 <= i < |p.installed| => EncodeInstall(p.installed[i]));
    assert obj["installed"] == JArray(entries);
    assert AllObjects(entries);
    var fields := ArrayOfObjectsAt(obj, "installed").value;
    var installs := DecodeInstalls(obj);
    assert |installs| == |p.installed|;
    forall i | 0 <= i < |p.installed|
      ensures installs[i] == p.installed[i]
    {
      assert entries[i] == JObject(fields[i]);
      DecodeEncodeInstall(p.installed[i]);
    }
    assert installs == p.installed;
    assert CountRequested(installs) > 0 <==> AnyRequested(p.installed);
  }

  /** Round trip: decoding the encoded list gives back every package, in order. */
  lemma {:induction false} DecodeEncode(ps: seq<Package>)
    requires forall i :: 0 <= i < |ps| ==> RequestedFlagDerived(ps[i])
    ensures PackagesFromJson(WellFormed(EncodePackages(ps))) == Success(ps)
  {
    var root := EncodePackages(ps);
    forall i | 0 <= i < |ps|
      ensures root.items[i].JObject?
      ensures DecodePackage(root.items[i].fields) == ps[i]
    {
      DecodeEncodePackage(ps[i]);
    }
    var r := PackagesFromJson(WellFormed(root));
    assert r.value == ps;
  }
}
