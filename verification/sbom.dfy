/** The pure parts of util/sbom-util.go: purl construction (`makePURL`), the
    split-and-dispatch front of `CompareLatestVersion`, the package filter of
    `FetchDependenciesViaSBOM`, and the lockfile table of
    `detectEcosystemFromLockfile`. */
module SbomUtil {
  import opened Wrappers
  import opened GoStrings
  import opened Seqs

  // ---------------------------------------------------------------------
  // makePURL

  /** `makePURL`: the type is trimmed and lower-cased, name and version are
      only trimmed. */
  function MakePurl(pkgType: string, name: string, version: string): (purl: string)
    ensures HasPrefix(purl, "pkg:")
    ensures |purl| == 6 + |TrimSpace(pkgType)| + |TrimSpace(name)| + |TrimSpace(version)|
  {
    "pkg:" + ToLower(TrimSpace(pkgType)) + "/" + TrimSpace(name) + "@" + TrimSpace(version)
  }

  // ---------------------------------------------------------------------
  // CompareLatestVersion: split and dispatch

  datatype PurlParts = PurlParts(ecosystem: string, name: string, version: string)

  datatype PurlError =
    | InvalidFormat
    | InvalidStructure
    | MissingVersion
    | UnsupportedEcosystem(ecosystem: string)
    | LookupFailed(message: string)

  /** Some `/` comes before some `@`. */
  predicate SlashBeforeAt(s: string) {
    exists a, b | 0 <= a < b < |s| :: s[a] == '/' && s[b] == '@'
  }

  /** With the first `/` at index `i`, an `@` follows some `/` exactly when
      one follows the first. */
  lemma {:induction false} SlashBeforeAtFirst(s: string, i: nat)
    requires i < |s| && s[i] == '/' && '/' !in s[..i]
    ensures SlashBeforeAt(s) <==> '@' in s[i + 1..]
  {
    assert forall j | 0 <= j < i :: s[..i][j] == s[j];
    if SlashBeforeAt(s) {
      var a, b :| 0 <= a < b < |s| && s[a] == '/' && s[b] == '@';
      assert s[i + 1..][b - i - 1] == '@';
    }
    if '@' in s[i + 1..] {
      var k :| 0 <= k < |s| - i - 1 && s[i + 1..][k] == '@';
      assert s[i + 1 + k] == '@';
    }
  }

  /** The split of `CompareLatestVersion`: after the `pkg:` prefix, the
      ecosystem runs to the first `/`, and the rest splits at its last `@`. */
  function SplitPurl(purl: string): (r: Result<PurlParts, PurlError>)
    ensures r == Err(InvalidFormat) <==> !HasPrefix(purl, "pkg:")
    ensures r == Err(InvalidStructure) <==> HasPrefix(purl, "pkg:") && '/' !in purl[4..]
    ensures r == Err(MissingVersion) <==>
      HasPrefix(purl, "pkg:") && '/' in purl[4..] && !SlashBeforeAt(purl[4..])
    ensures r.Ok? <==> HasPrefix(purl, "pkg:") && SlashBeforeAt(purl[4..])
    ensures r.Ok? ==>
      && purl == "pkg:" + r.value.ecosystem + "/" + r.value.name + "@" + r.value.version
      && '/' !in r.value.ecosystem && '@' !in r.value.version
  {
    if !HasPrefix(purl, "pkg:") then Err(InvalidFormat)
    else
      var rest := purl[4..];
      match IndexChar(rest, '/')
      case None =>
        assert !SlashBeforeAt(rest);
        Err(InvalidStructure)
      case Some(i) =>
        var ecosystem := rest[..i];
        var full := rest[i + 1..];
        SlashBeforeAtFirst(rest, i);
        match LastIndexChar(full, '@')
        case None => Err(MissingVersion)
        case Some(j) =>
          Reassemble(purl, ecosystem, full, j);
          Ok(PurlParts(ecosystem, full[..j], full[j + 1..]))
  }

  lemma {:induction false} Reassemble(purl: string, ecosystem: string, full: string, j: nat)
    requires purl == "pkg:" + ecosystem + "/" + full
    requires j < |full| && full[j] == '@'
    ensures purl == "pkg:" + ecosystem + "/" + full[..j] + "@" + full[j + 1..]
  {
    assert full == full[..j] + "@" + full[j + 1..];
  }

  /** Any string of the form `pkg:<e>/<n>@<v>` with no `/` in `e` and no `@`
      in `v` splits back into exactly `e`, `n` and `v`; `n` may hold both `/`
      and `@`, as in an npm scoped name. */
  lemma {:induction false} SplitPurlUnique(e: string, n: string, v: string)
    requires '/' !in e && '@' !in v
    ensures SplitPurl("pkg:" + e + "/" + n + "@" + v) == Ok(PurlParts(e, n, v))
  {
    var purl := "pkg:" + e + "/" + n + "@" + v;
    var full := n + "@" + v;
    var rest := e + "/" + full;
    assert purl == "pkg:" + rest;
    assert HasPrefix(purl, "pkg:") && purl[4..] == rest;
    FirstSlashAt(e, full);
    LastAtAt(n, v);
    SplitPurlFound(purl, |e|, |n|);
  }

  /** The success branch of `SplitPurl`, given where the first `/` and the
      last `@` after it are. */
  lemma {:induction false} SplitPurlFound(purl: string, i: nat, j: nat)
    requires HasPrefix(purl, "pkg:") && IndexChar(purl[4..], '/') == Some(i)
    requires LastIndexChar(purl[4..][i + 1..], '@') == Some(j)
    ensures SplitPurl(purl) == Ok(PurlParts(purl[4..][..i], purl[4..][i + 1..][..j], purl[4..][i + 1..][j + 1..]))
  {
  }

  /** The first `/` of `e + "/" + full` is the one after `e`. */
  lemma {:induction false} FirstSlashAt(e: string, full: string)
    requires '/' !in e
    ensures IndexChar(e + "/" + full, '/') == Some(|e|)
    ensures (e + "/" + full)[..|e|] == e && (e + "/" + full)[|e| + 1..] == full
  {
    var rest := e + "/" + full;
    assert rest[..|e|] == e;
    IndexCharAt(rest, '/', |e|);
  }

  /** The last `@` of `n + "@" + v` is the one before `v`. */
  lemma {:induction false} LastAtAt(n: string, v: string)
    requires '@' !in v
    ensures LastIndexChar(n + "@" + v, '@') == Some(|n|)
    ensures (n + "@" + v)[..|n|] == n && (n + "@" + v)[|n| + 1..] == v
  {
    var full := n + "@" + v;
    assert full[|n| + 1..] == v;
    LastIndexCharAt(full, '@', |n|);
  }

  /** The registries `CompareLatestVersion` consults. */
  datatype Registry = NpmRegistry | PyPIRegistry | GoProxy

  /** The ecosystem string each registry is selected by. */
  function EcosystemName(reg: Registry): string {
    match reg
    case NpmRegistry => "npm"
    case PyPIRegistry => "pypi"
    case GoProxy => "golang"
  }

  /** The `switch` on the ecosystem: exact, case-sensitive matches only. */
  function RegistryFor(ecosystem: string): (r: Result<Registry, PurlError>)
    ensures r.Err? <==> ecosystem != "npm" && ecosystem != "pypi" && ecosystem != "golang"
    ensures r.Err? ==> r.error == UnsupportedEcosystem(ecosystem)
    ensures r.Ok? ==> EcosystemName(r.value) == ecosystem
  {
    match ecosystem
    case "npm" => Ok(NpmRegistry)
    case "pypi" => Ok(PyPIRegistry)
    case "golang" => Ok(GoProxy)
    case _ => Err(UnsupportedEcosystem(ecosystem))
  }

  /** The three ecosystem names are already trimmed and lower-case, and hold
      none of the purl delimiters. */
  lemma {:induction false} EcosystemNameCanonical(reg: Registry)
    ensures ToLower(TrimSpace(EcosystemName(reg))) == EcosystemName(reg)
    ensures '/' !in EcosystemName(reg) && ':' !in EcosystemName(reg) && '@' !in EcosystemName(reg)
  {
    var t := EcosystemName(reg);
    assert forall i | 0 <= i < |t| :: 'a' <= t[i] <= 'z' by {
      match reg
      case NpmRegistry =>
      case PyPIRegistry =>
      case GoProxy =>
    }
    LowerWord(t);
  }

  lemma {:induction false} LowerWord(t: string)
    requires t != [] && forall i | 0 <= i < |t| :: 'a' <= t[i] <= 'z'
    ensures ToLower(TrimSpace(t)) == t && '/' !in t && ':' !in t && '@' !in t
  {
    TrimByNoop(t, IsSpace);
    ToLowerNoUpper(t);
  }

  lemma {:induction false} RegistryForName(reg: Registry)
    ensures RegistryFor(EcosystemName(reg)) == Ok(reg)
  {
  }

  /** `(outdated, latestVersion)` as a registry check reports them. */
  datatype VersionStatus = VersionStatus(outdated: bool, latestVersion: string)

  /** `CompareLatestVersion`; `check` stands for `checkNpm`, `checkPyPI` and
      `checkGo` together with the version comparison they end in. */
  function CompareLatestVersion(purl: string, check: (Registry, string, string) -> Result<VersionStatus, string>)
    : (r: Result<VersionStatus, PurlError>)
    ensures SplitPurl(purl).Err? ==> r == Err(SplitPurl(purl).error)
    ensures r.Err? && r.error.UnsupportedEcosystem? ==>
      SplitPurl(purl).Ok? && r.error.ecosystem == SplitPurl(purl).value.ecosystem
      && r.error.ecosystem != "npm" && r.error.ecosystem != "pypi" && r.error.ecosystem != "golang"
    ensures r.Ok? ==> SplitPurl(purl).Ok? && RegistryFor(SplitPurl(purl).value.ecosystem).Ok?
    ensures SplitPurl(purl).Ok? && RegistryFor(SplitPurl(purl).value.ecosystem).Ok? ==>
      var parts := SplitPurl(purl).value;
      var c := check(RegistryFor(parts.ecosystem).value, parts.name, parts.version);
      r == if c.Ok? then Ok(c.value) else Err(LookupFailed(c.error))
  {
    var parts :- SplitPurl(purl);
    var reg :- RegistryFor(parts.ecosystem);
    match check(reg, parts.name, parts.version)
    case Ok(status) => Ok(status)
    case Err(msg) => Err(LookupFailed(msg))
  }

  /** Round trip: a purl built by `MakePurl` from a supported ecosystem, a
      trimmed name and a trimmed `@`-free version is looked up in that
      ecosystem's registry under exactly that name and version. */
  lemma {:induction false} CompareLatestVersionOfMakePurl(reg: Registry, name: string, version: string,
                                       check: (Registry, string, string) -> Result<VersionStatus, string>)
    requires TrimSpace(name) == name && TrimSpace(version) == version && '@' !in version
    ensures SplitPurl(MakePurl(EcosystemName(reg), name, version)) == Ok(PurlParts(EcosystemName(reg), name, version))
    ensures CompareLatestVersion(MakePurl(EcosystemName(reg), name, version), check)
      == match check(reg, name, version)
         case Ok(status) => Ok(status)
         case Err(msg) => Err(LookupFailed(msg))
  {
    var t := EcosystemName(reg);
    EcosystemNameCanonical(reg);
    var purl := MakePurl(t, name, version);
    assert purl == "pkg:" + t + "/" + name + "@" + version;
    SplitPurlUnique(t, name, version);
    RegistryForName(reg);
  }

  /** Round trip on raw parts: the split of a `makePURL` purl gives back the
      trimmed, lower-cased type and the trimmed name and version, with the
      name's case untouched. */
  lemma {:induction false} MakePurlRoundTrip(pkgType: string, name: string, version: string)
    requires '/' !in ToLower(TrimSpace(pkgType)) && '@' !in TrimSpace(version)
    ensures SplitPurl(MakePurl(pkgType, name, version))
      == Ok(PurlParts(ToLower(TrimSpace(pkgType)), TrimSpace(name), TrimSpace(version)))
  {
    SplitPurlUnique(ToLower(TrimSpace(pkgType)), TrimSpace(name), TrimSpace(version));
  }

  /** A scoped npm name keeps its leading `@`: only the last `@` separates
      the version. */
  lemma {:induction false} ScopedNameKeepsAt(scope: string, pkg: string, version: string)
    requires '@' !in version
    ensures SplitPurl("pkg:npm/@" + scope + "/" + pkg + "@" + version)
      == Ok(PurlParts("npm", "@" + scope + "/" + pkg, version))
  {
    assert "pkg:npm/@" + scope + "/" + pkg + "@" + version
        == "pkg:" + "npm" + "/" + ("@" + scope + "/" + pkg) + "@" + version;
    SplitPurlUnique("npm", "@" + scope + "/" + pkg, version);
  }

  // ---------------------------------------------------------------------
  // FetchDependenciesViaSBOM: the package filter

  /** A package of the dependency-graph SBOM: its name and version info. */
  datatype SbomPackage = SbomPackage(name: string, versionInfo: string)

  /** The repository itself shows up in its own SBOM: a package is skipped
      when its name equals the repo name up to case, or contains it. */
  predicate IsSelfPackage(name: string, repo: string) {
    EqualFold(name, repo) || Contains(name, repo)
  }

  /** What one package contributes: nothing when it is the repository
      itself, its purl otherwise. */
  function PackagePurl(ecosystem: string, repo: string, pkg: SbomPackage): (r: Option<string>)
    ensures r.Some? <==> !IsSelfPackage(pkg.name, repo)
    ensures r.Some? ==> HasPrefix(r.value, "pkg:")
  {
    if IsSelfPackage(pkg.name, repo) then None else Some(MakePurl(ecosystem, pkg.name, pkg.versionInfo))
  }

  /** The loop over the SBOM's packages: every other package becomes a purl
      of the detected ecosystem, in order. */
  function DependencyPurls(ecosystem: string, repo: string, pkgs: seq<SbomPackage>): (purls: seq<string>)
    ensures |purls| <= |pkgs|
    ensures forall p | p in purls :: HasPrefix(p, "pkg:")
  {
    var f := pkg => PackagePurl(ecosystem, repo, pkg);
    forall p | p in FilterMap(f, pkgs) ensures HasPrefix(p, "pkg:") {
      FilterMapMember(f, pkgs, p);
    }
    FilterMap(f, pkgs)
  }

  /** Package `pkg` is kept and becomes purl `p`. */
  predicate Yields(ecosystem: string, repo: string, pkg: SbomPackage, p: string) {
    !IsSelfPackage(pkg.name, repo) && p == MakePurl(ecosystem, pkg.name, pkg.versionInfo)
  }

  /** A purl is produced exactly when some non-self package yields it. */
  lemma {:induction false} DependencyPurlsMember(ecosystem: string, repo: string, pkgs: seq<SbomPackage>, p: string)
    ensures p in DependencyPurls(ecosystem, repo, pkgs) <==>
      exists pkg | pkg in pkgs :: Yields(ecosystem, repo, pkg, p)
  {
    var f := pkg => PackagePurl(ecosystem, repo, pkg);
    FilterMapMember(f, pkgs, p);
    assert forall pkg :: f(pkg) == Some(p) <==> Yields(ecosystem, repo, pkg, p);
  }

  /** When no package names the repo, every package is kept, in order. */
  lemma {:induction false} DependencyPurlsKeepsOthers(ecosystem: string, repo: string, pkgs: seq<SbomPackage>)
    requires forall k | 0 <= k < |pkgs| :: !IsSelfPackage(pkgs[k].name, repo)
    ensures var purls := DependencyPurls(ecosystem, repo, pkgs);
      && |purls| == |pkgs|
      && forall k | 0 <= k < |pkgs| :: purls[k] == MakePurl(ecosystem, pkgs[k].name, pkgs[k].versionInfo)
  {
    FilterMapAllSome(pkg => PackagePurl(ecosystem, repo, pkg), pkgs);
  }

  /** Every name contains the empty string, so an empty repo name drops every package. */
  lemma {:induction false} DependencyPurlsEmptyRepo(ecosystem: string, pkgs: seq<SbomPackage>)
    ensures DependencyPurls(ecosystem, "", pkgs) == []
  {
    forall k | 0 <= k < |pkgs| ensures IsSelfPackage(pkgs[k].name, "") {
      assert OccursAt(pkgs[k].name, "", 0);
    }
    FilterMapAllNone(pkg => PackagePurl(ecosystem, "", pkg), pkgs);
  }

  // ---------------------------------------------------------------------
  // detectEcosystemFromLockfile

  /** The lockfile-to-ecosystem table. */
  const LockfileEcosystems: map<string, string> :=
    map["package-lock.json" := "npm", "go.sum" := "golang", "requirements.txt" := "pypi"]

  datatype DetectError = NoKnownLockfile

  /** The first file of `order` that exists, mapped through the table. */
  function DetectIn(order: seq<string>, lockfileExists: string -> bool): (r: Option<string>)
    requires forall f | f in order :: f in LockfileEcosystems
    ensures r.Some? ==> exists k | 0 <= k < |order| ::
      lockfileExists(order[k]) && r.value == LockfileEcosystems[order[k]]
    ensures r.None? <==> forall f | f in order :: !lockfileExists(f)
    decreases |order|
  {
    if |order| == 0 then None
    else if lockfileExists(order[0]) then Some(LockfileEcosystems[order[0]])
    else
      var r := DetectIn(order[1..], lockfileExists);
      assert forall k | 0 <= k < |order[1..]| :: order[1..][k] == order[k + 1];
      r
  }

  /** `detectEcosystemFromLockfile`: the ranging over the Go map is any
      enumeration `order` of its keys; `lockfileExists` stands for a
      successful contents request. */
  function DetectEcosystemFromLockfile(lockfileExists: string -> bool, order: seq<string>): (r: Result<string, DetectError>)
    requires IsEnumeration(order, LockfileEcosystems.Keys)
    ensures r.Ok? ==> exists f | f in LockfileEcosystems :: lockfileExists(f) && r.value == LockfileEcosystems[f]
    ensures r.Err? <==> forall f | f in LockfileEcosystems :: !lockfileExists(f)
  {
    match DetectIn(order, lockfileExists)
    case Some(e) => Ok(e)
    case None => Err(NoKnownLockfile)
  }

  /** The detected ecosystem is always one the version check supports. */
  lemma {:induction false} DetectedEcosystemSupported(lockfileExists: string -> bool, order: seq<string>)
    requires IsEnumeration(order, LockfileEcosystems.Keys)
    ensures DetectEcosystemFromLockfile(lockfileExists, order).Ok? ==>
      RegistryFor(DetectEcosystemFromLockfile(lockfileExists, order).value).Ok?
  {
  }

  datatype SbomError = LockfileNotSupported | SbomFetchFailed(message: string)

  /** `FetchDependenciesViaSBOM` with the SBOM request's outcome as `sbom`.
      The program panics when no lockfile is found; here that is the
      `LockfileNotSupported` error. */
  function FetchDependenciesViaSbom(repo: string, lockfileExists: string -> bool, order: seq<string>,
                                    sbom: Result<seq<SbomPackage>, string>): (r: Result<seq<string>, SbomError>)
    requires IsEnumeration(order, LockfileEcosystems.Keys)
    ensures r == Err(LockfileNotSupported) <==> forall f | f in LockfileEcosystems :: !lockfileExists(f)
    ensures r.Err? && r.error.SbomFetchFailed? <==>
      (exists f | f in LockfileEcosystems :: lockfileExists(f)) && sbom.Err?
    ensures r.Ok? ==> sbom.Ok? && exists f | f in LockfileEcosystems ::
      lockfileExists(f) && r.value == DependencyPurls(LockfileEcosystems[f], repo, sbom.value)
  {
    match DetectEcosystemFromLockfile(lockfileExists, order)
    case Err(_) => Err(LockfileNotSupported)
    case Ok(ecosystem) =>
      match sbom
      case Err(msg) => Err(SbomFetchFailed(msg))
      case Ok(pkgs) => Ok(DependencyPurls(ecosystem, repo, pkgs))
  }
}
