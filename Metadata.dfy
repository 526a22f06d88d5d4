/** Filling in an asset's licenses and supported Bevy version from the
    outside world: the asset's GitHub repository (its `Cargo.toml` and its
    license endpoint) or a crates.io database dump (the crates that depend
    on `bevy`). The network, the database and the URL and TOML parsers are
    not modelled: their answers are inputs, collected in `Sources`. */
module Metadata {
  import opened Wrappers
  import opened Strings
  import opened Assets

  // ---------------------------------------------------------------------
  // the Bevy version of a dependency
  // ---------------------------------------------------------------------

  datatype DependencyDetail = DependencyDetail(
    version: Option<string>,
    git: Option<string>,
    branch: Option<string>)

  /** `cargo_toml::Dependency`: `bevy = "0.9"` or `bevy = { ... }`. */
  datatype Dependency = Simple(version: string) | Detailed(detail: DependencyDetail)

  /** `get_bevy_version`: the version requirement if there is one; for a git
      dependency, "main" when it tracks the branch `main` and "git"
      otherwise; nothing for a dependency with neither. */
  function BevyVersion(dep: Dependency): (r: Option<string>)
    ensures dep.Simple? ==> r == Some(dep.version)
    ensures dep.Detailed? && dep.detail.version.Some? ==> r == dep.detail.version
    ensures dep.Detailed? && dep.detail.version.None? && dep.detail.git.Some? ==>
              r == Some(if dep.detail.branch == Some("main") then "main" else "git")
    ensures dep.Detailed? && dep.detail.version.None? && dep.detail.git.None? ==> r == None
  {
    match dep
    case Simple(version) => Some(version)
    case Detailed(detail) =>
      if detail.version.Some? then Some(detail.version.value)
      else if detail.git.Some? then
        if detail.branch == Some("main") then Some("main") else Some("git")
      else None
  }

  /** A dependency yields no version exactly when it is detailed and names
      neither a version nor a git repository. */
  lemma BevyVersionAbsent(dep: Dependency)
    ensures BevyVersion(dep).None? <==>
            dep.Detailed? && dep.detail.version.None? && dep.detail.git.None?
  {
  }

  // ---------------------------------------------------------------------
  // GitHub: Cargo.toml and the repository license
  // ---------------------------------------------------------------------

  datatype Package = Package(license: Option<string>)

  /** The parts of a `cargo_toml::Manifest` the builder reads. The
      dependencies are listed in the order the manifest's map yields its keys. */
  datatype Manifest = Manifest(
    package: Option<Package>,
    dependencies: seq<(string, Dependency)>)

  /** What GitHub answers for one repository: the `Cargo.toml` fetched and
      parsed (an error if either step fails), and the license endpoint. */
  datatype GithubRepo = GithubRepo(manifest: Result<Manifest>, license: Result<string>)

  const BevyPrefix: string := "bevy"

  /** The position of the first dependency whose name starts with "bevy"
      (`keys().find(|k| k.starts_with("bevy"))`). */
  function FirstBevyDependency(deps: seq<(string, Dependency)>): (r: Option<nat>)
    ensures r.Some? ==> r.value < |deps| && StartsWith(deps[r.value].0, BevyPrefix)
    ensures r.Some? ==> forall j :: 0 <= j < r.value ==> !StartsWith(deps[j].0, BevyPrefix)
    ensures r.None? ==> forall j :: 0 <= j < |deps| ==> !StartsWith(deps[j].0, BevyPrefix)
  {
    if deps == [] then None
    else if StartsWith(deps[0].0, BevyPrefix) then Some(0)
    else
      match FirstBevyDependency(deps[1..])
      case None => None
      case Some(i) => Some(i + 1)
  }

  /** The version the manifest declares support for: that of the first
      "bevy*" dependency, and only that one. */
  function ManifestBevyVersion(m: Manifest): (r: Option<string>)
    ensures FirstBevyDependency(m.dependencies).None? ==> r == None
    ensures FirstBevyDependency(m.dependencies).Some? ==>
              r == BevyVersion(m.dependencies[FirstBevyDependency(m.dependencies).value].1)
  {
    match FirstBevyDependency(m.dependencies)
    case None => None
    case Some(i) => BevyVersion(m.dependencies[i].1)
  }

  /** The license the GitHub merge applies: the package's own license field
      whenever there is a package (even when that field is absent), and the
      repository's license only when there is no package. */
  function ManifestLicense(m: Manifest, repoLicense: Result<string>): (r: Option<string>)
    ensures m.package.Some? ==> r == m.package.value.license
    ensures m.package.None? && repoLicense.Ok? ==> r == Some(repoLicense.value)
    ensures m.package.None? && repoLicense.Err? ==> r == None
  {
    match m.package
    case Some(p) => p.license
    case None => if repoLicense.Ok? then Some(repoLicense.value) else None
  }

  /** `get_metadata_from_github`, as a function of the repository's answers. */
  function GithubMerge(asset: Asset, repo: GithubRepo): (r: (Asset, Outcome))
    ensures repo.manifest.Err? ==> r == (asset, Fail(repo.manifest.error))
    ensures repo.manifest.Ok? ==> r.1 == Pass
    ensures repo.manifest.Ok? ==> var license := ManifestLicense(repo.manifest.value, repo.license);
              r.0.licenses == if license.Some? then Some(LicensePieces(license.value)) else asset.licenses
    ensures repo.manifest.Ok? ==> var version := ManifestBevyVersion(repo.manifest.value);
              r.0.bevyVersions == if version.Some? then Some([version.value]) else asset.bevyVersions
    ensures r.0 == asset.(licenses := r.0.licenses, bevyVersions := r.0.bevyVersions)
  {
    match repo.manifest
    case Err(e) => (asset, Fail(e))
    case Ok(m) =>
      var license := ManifestLicense(m, repo.license);
      var licensed := if license.Some? then asset.(licenses := Some(LicensePieces(license.value))) else asset;
      var version := ManifestBevyVersion(m);
      (if version.Some? then licensed.(bevyVersions := Some([version.value])) else licensed, Pass)
  }

  /** `get_metadata_from_github`: fails, changing nothing, when the manifest
      cannot be fetched or parsed; otherwise sets the license when one is
      found and the Bevy version when the first "bevy*" dependency names one. */
  method GetMetadataFromGithub(asset: Asset, repo: GithubRepo) returns (updated: Asset, outcome: Outcome)
    ensures (updated, outcome) == GithubMerge(asset, repo)
  {
    if repo.manifest.Err? {
      return asset, Fail(repo.manifest.error);
    }
    var manifest := repo.manifest.value;
    updated := asset;
    var license := ManifestLicense(manifest, repo.license);
    if license.Some? {
      updated := SetLicense(updated, license.value);
    }
    var version := ManifestBevyVersion(manifest);
    if version.Some? {
      updated := updated.(bevyVersions := Some([version.value]));
    }
    outcome := Pass;
  }

  /** A first "bevy*" dependency that names no version hides every later one. */
  lemma FirstBevyDependencyDecides(asset: Asset, repo: GithubRepo, i: nat)
    requires repo.manifest.Ok? && FirstBevyDependency(repo.manifest.value.dependencies) == Some(i)
    requires BevyVersion(repo.manifest.value.dependencies[i].1).None?
    ensures GithubMerge(asset, repo).0.bevyVersions == asset.bevyVersions
  {
  }

  /** Keys strictly ascending, the order a `BTreeMap` yields them in. */
  predicate KeysAscending(deps: seq<(string, Dependency)>) {
    forall i :: 0 <= i < |deps| - 1 ==> LexLess(deps[i].0, deps[i + 1].0)
  }

  lemma {:induction false} AscendingBetween(deps: seq<(string, Dependency)>, i: nat, j: nat)
    requires KeysAscending(deps) && i < j < |deps|
    ensures LexLess(deps[i].0, deps[j].0)
    decreases j - i
  {
    if i + 1 < j {
      AscendingBetween(deps, i + 1, j);
      LexLessTransitive(deps[i].0, deps[i + 1].0, deps[j].0);
    }
  }

  /** With the manifest's dependencies in map order, the dependency consulted
      is the one whose name is the least of all names starting with "bevy". */
  lemma {:induction false} FirstBevyDependencyIsLeast(deps: seq<(string, Dependency)>, j: nat)
    requires KeysAscending(deps) && j < |deps| && StartsWith(deps[j].0, BevyPrefix)
    ensures FirstBevyDependency(deps).Some?
    ensures FirstBevyDependency(deps).value == j || LexLess(deps[FirstBevyDependency(deps).value].0, deps[j].0)
  {
    var i := FirstBevyDependency(deps).value;
    if i < j {
      AscendingBetween(deps, i, j);
    }
  }

  // ---------------------------------------------------------------------
  // crates.io: the crates that depend on bevy
  // ---------------------------------------------------------------------

  /** One row of the reverse-dependency query: the crate's license and the
      version requirements of its `bevy` dependencies (an error when those
      could not be read). */
  datatype RevDependency = RevDependency(license: string, deps: Result<seq<string>>)

  /** The row's effect on the asset: its license always; its first `bevy`
      requirement with every '^' removed, when the row has one. */
  function CratesIoRow(asset: Asset, row: RevDependency): (r: Asset)
    ensures r.licenses == Some(LicensePieces(row.license))
    ensures row.deps.Ok? && row.deps.value != [] ==>
              r.bevyVersions == Some([RemoveChar(row.deps.value[0], '^')])
    ensures !(row.deps.Ok? && row.deps.value != []) ==> r.bevyVersions == asset.bevyVersions
    ensures r == asset.(licenses := r.licenses, bevyVersions := r.bevyVersions)
  {
    var licensed := asset.(licenses := Some(LicensePieces(row.license)));
    if row.deps.Ok? && row.deps.value != [] then
      licensed.(bevyVersions := Some([RemoveChar(row.deps.value[0], '^')]))
    else licensed
  }

  /** The asset after the loop over `rows` in order; rows the query could not
      produce are skipped (the `flatten`). */
  function CratesIoMerge(asset: Asset, rows: seq<Result<RevDependency>>): (r: Asset)
    ensures r == asset.(licenses := r.licenses, bevyVersions := r.bevyVersions)
    decreases |rows|
  {
    if rows == [] then asset
    else
      var before := CratesIoMerge(asset, rows[..|rows| - 1]);
      match rows[|rows| - 1]
      case Err(_) => before
      case Ok(row) => CratesIoRow(before, row)
  }

  /** `get_metadata_from_crates_io_db`, as a function of the query's answer. */
  function CratesIoLookup(asset: Asset, lookup: Result<seq<Result<RevDependency>>>): (r: (Asset, Outcome))
    ensures r.1.Pass? <==> lookup.Ok?
    ensures lookup.Err? ==> r == (asset, Fail(lookup.error))
    ensures lookup.Ok? ==> r.0 == CratesIoMerge(asset, lookup.value)
    ensures r.0 == asset.(licenses := r.0.licenses, bevyVersions := r.0.bevyVersions)
  {
    match lookup
    case Err(e) => (asset, Fail(e))
    case Ok(rows) => (CratesIoMerge(asset, rows), Pass)
  }

  /** `get_metadata_from_crates_io_db`. */
  method GetMetadataFromCratesIoDb(asset: Asset, lookup: Result<seq<Result<RevDependency>>>)
    returns (updated: Asset, outcome: Outcome)
    ensures lookup.Err? ==> updated == asset && outcome == Fail(lookup.error)
    ensures lookup.Ok? ==> updated == CratesIoMerge(asset, lookup.value) && outcome == Pass
    ensures (updated, outcome) == CratesIoLookup(asset, lookup)
  {
    if lookup.Err? {
      return asset, Fail(lookup.error);
    }
    var rows := lookup.value;
    updated := asset;
    var i := 0;
    while i < |rows|
      invariant 0 <= i <= |rows|
      invariant updated == CratesIoMerge(asset, rows[..i])
    {
      assert rows[..i + 1][..i] == rows[..i];
      match rows[i] {
        case Err(_) =>
        case Ok(row) =>
          updated := SetLicense(updated, row.license);
          if row.deps.Ok? && row.deps.value != [] {
            var version := RemoveChar(row.deps.value[0], '^');
            updated := updated.(bevyVersions := Some([version]));
          }
      }
      i := i + 1;
    }
    assert rows[..|rows|] == rows;
    outcome := Pass;
  }

  /** The last row read decides the licenses. */
  lemma {:induction false} CratesIoLastLicenseWins(asset: Asset, rows: seq<Result<RevDependency>>, k: nat)
    requires k < |rows| && rows[k].Ok?
    requires forall m :: k < m < |rows| ==> rows[m].Err?
    ensures CratesIoMerge(asset, rows).licenses == Some(LicensePieces(rows[k].value.license))
    decreases |rows|
  {
    if k < |rows| - 1 {
      var init := rows[..|rows| - 1];
      assert init[k] == rows[k];
      assert forall m :: k < m < |init| ==> init[m] == rows[m];
      CratesIoLastLicenseWins(asset, init, k);
    }
  }

  /** With no row read, the licenses stay as they were. */
  lemma {:induction false} CratesIoNoRowKeepsLicenses(asset: Asset, rows: seq<Result<RevDependency>>)
    requires forall m :: 0 <= m < |rows| ==> rows[m].Err?
    ensures CratesIoMerge(asset, rows) == asset
    decreases |rows|
  {
    if rows != [] {
      var init := rows[..|rows| - 1];
      assert forall m :: 0 <= m < |init| ==> init[m] == rows[m];
      CratesIoNoRowKeepsLicenses(asset, init);
    }
  }

  /** The last row read that has a `bevy` requirement decides the Bevy
      version, stripped of '^'. */
  lemma {:induction false} CratesIoLastVersionWins(asset: Asset, rows: seq<Result<RevDependency>>, k: nat)
    requires k < |rows| && HasRequirement(rows[k])
    requires forall m :: k < m < |rows| ==> !HasRequirement(rows[m])
    ensures CratesIoMerge(asset, rows).bevyVersions == Some([RemoveChar(rows[k].value.deps.value[0], '^')])
    decreases |rows|
  {
    if k < |rows| - 1 {
      var init := rows[..|rows| - 1];
      assert init[k] == rows[k];
      assert forall m :: k < m < |init| ==> init[m] == rows[m];
      CratesIoLastVersionWins(asset, init, k);
    }
  }

  /** With no row that has a `bevy` requirement, the Bevy versions stay. */
  lemma {:induction false} CratesIoNoRequirementKeepsVersions(asset: Asset, rows: seq<Result<RevDependency>>)
    requires forall m :: 0 <= m < |rows| ==> !HasRequirement(rows[m])
    ensures CratesIoMerge(asset, rows).bevyVersions == asset.bevyVersions
    decreases |rows|
  {
    if rows != [] {
      var init := rows[..|rows| - 1];
      assert forall m :: 0 <= m < |init| ==> init[m] == rows[m];
      CratesIoNoRequirementKeepsVersions(asset, init);
    }
  }

  /** A row that carries a first `bevy` requirement. */
  predicate HasRequirement(row: Result<RevDependency>) {
    row.Ok? && row.value.deps.Ok? && row.value.deps.value != []
  }

  // ---------------------------------------------------------------------
  // dispatch on the asset's link
  // ---------------------------------------------------------------------

  /** What `url::Url::parse` makes of a link: its host, and its path
      segments (none for a URL that cannot be a base). */
  datatype Url = Url(host: Option<string>, segments: Option<seq<string>>)

  /** The outside world as the metadata step sees it: the URL parser, the
      GitHub client (if one was configured) answering per user and
      repository, and the crates.io database (if one was loaded) answering
      per crate name. */
  datatype Sources = Sources(
    parseUrl: string -> Result<Url>,
    github: Option<(string, string) -> GithubRepo>,
    cratesIo: Option<string -> Result<seq<Result<RevDependency>>>>)

  const GithubHost: string := "github.com"
  const CratesIoHost: string := "crates.io"
  const NoPathSegments: Error := Panic("called `Option::unwrap()` on a `None` value")
  const SegmentOutOfRange: Error := Panic("index out of bounds")

  /** `get_extra_metadata`, as a function. The only errors are a link that
      does not parse, a link without path segments, and too few segments
      for a source that is configured; whatever the GitHub or crates.io
      step reports is dropped. */
  function ExtraMetadata(asset: Asset, src: Sources): (r: Result<Asset>)
    ensures src.parseUrl(asset.link).Err? ==> r == Err(src.parseUrl(asset.link).error)
    ensures src.parseUrl(asset.link).Ok? && src.parseUrl(asset.link).value.segments.None? ==>
              r == Err(NoPathSegments)
    ensures src.parseUrl(asset.link).Ok? && src.parseUrl(asset.link).value.segments.Some? ==>
              var url := src.parseUrl(asset.link).value;
              var segments := url.segments.value;
              if url.host == Some(GithubHost) && src.github.Some? then
                r == (if |segments| < 2 then Err(SegmentOutOfRange)
                      else Ok(GithubMerge(asset, src.github.value(segments[0], segments[1])).0))
              else if url.host == Some(CratesIoHost) && src.cratesIo.Some? then
                r == (if |segments| < 2 then Err(SegmentOutOfRange)
                      else Ok(CratesIoLookup(asset, src.cratesIo.value(segments[1])).0))
              else r == Ok(asset)
  {
    match src.parseUrl(asset.link)
    case Err(e) => Err(e)
    case Ok(url) =>
      if url.segments.None? then Err(NoPathSegments)
      else
        var segments := url.segments.value;
        if url.host == Some(GithubHost) then
          if src.github.None? then Ok(asset)
          else if |segments| < 2 then Err(SegmentOutOfRange)
          else Ok(GithubMerge(asset, src.github.value(segments[0], segments[1])).0)
        else if url.host == Some(CratesIoHost) then
          if src.cratesIo.None? then Ok(asset)
          else if |segments| < 2 then Err(SegmentOutOfRange)
          else Ok(CratesIoLookup(asset, src.cratesIo.value(segments[1])).0)
        else Ok(asset)
  }

  /** `get_extra_metadata`: the asset is left alone when the step fails. */
  method GetExtraMetadata(asset: Asset, src: Sources) returns (updated: Asset, outcome: Outcome)
    ensures ExtraMetadata(asset, src).Ok? ==> outcome == Pass && updated == ExtraMetadata(asset, src).value
    ensures ExtraMetadata(asset, src).Err? ==> outcome == Fail(ExtraMetadata(asset, src).error) && updated == asset
  {
    var parsed := src.parseUrl(asset.link);
    if parsed.Err? {
      return asset, Fail(parsed.error);
    }
    var url := parsed.value;
    if url.segments.None? {
      return asset, Fail(NoPathSegments);
    }
    var segments := url.segments.value;
    updated := asset;
    if url.host == Some(GithubHost) {
      if src.github.Some? {
        if |segments| < 2 {
          return asset, Fail(SegmentOutOfRange);
        }
        var username, repositoryName := segments[0], segments[1];
        var fetched, ignored := GetMetadataFromGithub(asset, src.github.value(username, repositoryName));
        updated := fetched;
      }
    } else if url.host == Some(CratesIoHost) {
      if src.cratesIo.Some? {
        if |segments| < 2 {
          return asset, Fail(SegmentOutOfRange);
        }
        var crateName := segments[1];
        var fetched, ignored := GetMetadataFromCratesIoDb(asset, src.cratesIo.value(crateName));
        updated := fetched;
      }
    }
    outcome := Pass;
  }

  /** Whatever GitHub or crates.io answer, the step succeeds once the link
      has parsed with at least two path segments. */
  lemma FetchErrorsSwallowed(asset: Asset, src: Sources)
    requires src.parseUrl(asset.link).Ok? && src.parseUrl(asset.link).value.segments.Some?
    requires |src.parseUrl(asset.link).value.segments.value| >= 2
    ensures ExtraMetadata(asset, src).Ok?
  {
  }

  /** The step fails exactly when the link does not parse, has no path
      segments, or has fewer than two for a source that is configured. */
  lemma ExtraMetadataFailsOnlyOnLink(asset: Asset, src: Sources)
    ensures ExtraMetadata(asset, src).Err? <==>
              var url := src.parseUrl(asset.link);
              url.Err? || url.value.segments.None?
              || (|url.value.segments.value| < 2
                  && ((url.value.host == Some(GithubHost) && src.github.Some?)
                      || (url.value.host == Some(CratesIoHost) && src.cratesIo.Some?)))
  {
  }

  /** The metadata step changes no field but the licenses and the Bevy
      versions. */
  lemma ExtraMetadataKeepsFields(asset: Asset, src: Sources)
    ensures ExtraMetadata(asset, src).Ok? ==>
              var r := ExtraMetadata(asset, src).value;
              r == asset.(licenses := r.licenses, bevyVersions := r.bevyVersions)
  {
  }
}
