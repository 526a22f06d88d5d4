# Asset catalogue builder, modelled in Dafny

This project models the crate `generate-assets` of the Bevy website: the part
that turns a directory tree of per-asset TOML files into a catalogue. The
catalogue is a tree of `Section` and `Asset` nodes. The builder then fills in
each asset's licenses and supported Bevy version from GitHub or from a
crates.io database dump.

Modules, one per concern:

- `Wrappers` (Wrappers.dfy): `Option`, `Result`, and `Outcome` (the result of
  an `anyhow::Result<()>` step). A step can fail in two ways:
  - `Failure`: an error returned with `?`;
  - `Panic`: an `unwrap`, an `expect` or an index out of bounds.
- `Strings` (Strings.dfy): the pieces of Rust's `str` the builder relies on:
  - `trim`, with Unicode White_Space;
  - `split` on a substring, taking leftmost non-overlapping occurrences;
  - `starts_with`;
  - `replace` of one character by nothing;
  - `String` ordering.
- `Assets` (Assets.dfy): the `Asset`, `Section` and `AssetNode` values,
  `AssetNode::name` and `AssetNode::order`, and `Asset::set_license`.
- `Metadata` (Metadata.dfy): covers the following.
  - `get_bevy_version`.
  - The GitHub merge (`get_metadata_from_github`).
  - The crates.io merge (`get_metadata_from_crates_io_db`).
  - The host dispatch (`get_extra_metadata`). The URL parser, the GitHub
    client and the crates.io query are inputs, collected in `Sources`.
- `Catalogue` (Catalogue.dfy): the directory walk (`visit_dirs`) and
  `parse_assets`.
  - The directory is an input tree of `Entry` values, listed in the order
    `read_dir` yields them.
  - The TOML deserialisers are inputs, collected in `Env`.

Each imperative operation is a method, proved equal to a specification
function. Lemmas then state what the source promises about that function:
- `SetLicense` / `LicensePieces`;
- `GetMetadataFromGithub` / `GithubMerge`;
- `GetMetadataFromCratesIoDb` / `CratesIoMerge`;
- `GetExtraMetadata` / `ExtraMetadata`;
- `VisitDirs`, `VisitEntry` / `VisitEntries`, `EntryNode`.

## Model

| member | source | states |
|---|---|---|
| Assets.SetLicense | generate-assets/src/lib.rs:29-32 | `licenses` becomes `Some` of the trimmed pieces of the expression. No other field changes. |
| Assets.LicensePieces | generate-assets/src/lib.rs:30 | There is one piece per "OR" occurrence plus one. Piece k is the trim of the k-th text between separators. No piece contains "OR". |
| Assets.LicensePiecesCoverExpression | generate-assets/src/lib.rs:30 | The untrimmed pieces, joined with "OR", give back the expression: the split loses nothing. |
| Assets.SingleLicense | generate-assets/src/lib.rs:30 | An expression without "OR" yields exactly one license, itself trimmed. |
| Strings.Trim | generate-assets/src/lib.rs:30 | The result is a slice of the input with only whitespace around it and no whitespace at either end. |
| Strings.TrimIsUnique | generate-assets/src/lib.rs:30 | Any slice of the input with only whitespace around it and none at its ends equals the trim: the contract determines `trim`. |
| Strings.JoinSplit | generate-assets/src/lib.rs:30 | Joining the result of `split(sep)` with `sep` gives back the input. |
| Strings.SplitOrCount | generate-assets/src/lib.rs:30 | Splitting on "OR" gives one piece more than there are occurrences of "OR". |
| Strings.IndexOf | generate-assets/src/lib.rs:30 | Gives the leftmost occurrence of the separator, or none when the string does not contain it. |
| Strings.Split | generate-assets/src/lib.rs:30 | There is at least one piece. No piece contains the separator. |
| Assets.AssetNode.Name | generate-assets/src/lib.rs:51-56 | The name of the inner section or asset, for both variants. |
| Assets.AssetNode.Order | generate-assets/src/lib.rs:57-62 | The inner node's order when it has one, 99999 otherwise, for both variants. |
| Metadata.BevyVersion | generate-assets/src/lib.rs:235-251 | The decision table: see the note below. |
| Metadata.BevyVersionAbsent | generate-assets/src/lib.rs:235-251 | No version exactly when the dependency is detailed with neither a version nor a git source. |
| Metadata.ManifestLicense | generate-assets/src/lib.rs:201-206 | A package's license is used even when it is absent. The repository license is consulted only without a package. A failed lookup there counts as no license. |
| Metadata.FirstBevyDependency | generate-assets/src/lib.rs:214-217 | The first dependency whose key starts with "bevy": none before it does. None when no key does. |
| Metadata.FirstBevyDependencyIsLeast | generate-assets/src/lib.rs:214-217 | With keys in ascending order, as a `BTreeMap` iterates them, the chosen key is the least "bevy" key. |
| Metadata.ManifestBevyVersion | generate-assets/src/lib.rs:214-223 | The version is `get_bevy_version` of the first "bevy" dependency, and none when there is no such dependency. |
| Metadata.GithubMerge | generate-assets/src/lib.rs:194-229 | See the note below. |
| Metadata.FirstBevyDependencyDecides | generate-assets/src/lib.rs:214-227 | When the first "bevy" dependency yields no version, `bevy_versions` stays as it was, whatever later "bevy" keys say. |
| Metadata.GetMetadataFromGithub | generate-assets/src/lib.rs:188-230 | The method's new asset and outcome are those of `GithubMerge`. |
| Metadata.CratesIoRow | generate-assets/src/lib.rs:272-280 | One row sets the licenses from the row's license. It sets `bevy_versions` to the first requirement with every '^' removed, only when the requirements are `Ok` and non-empty. Nothing else changes. |
| Strings.RemoveChar | generate-assets/src/lib.rs:277 | Every '^' is gone. Other characters keep their counts. A string without '^' is unchanged. |
| Strings.RemoveCharConcat | generate-assets/src/lib.rs:277 | Removal distributes over concatenation, so the kept characters stay in their order. |
| Strings.RemoveCharSingle | generate-assets/src/lib.rs:277 | A single character is dropped when it is '^' and kept otherwise. |
| Metadata.GetMetadataFromCratesIoDb | generate-assets/src/lib.rs:264-283 | A failed query returns its error and leaves the asset alone. Otherwise the loop's result is the fold of the readable rows, in order. |
| Metadata.CratesIoLastLicenseWins | generate-assets/src/lib.rs:272-273 | The licenses are those of the last readable row. |
| Metadata.CratesIoNoRowKeepsLicenses | generate-assets/src/lib.rs:269-281 | With no readable row, the asset is unchanged. |
| Metadata.CratesIoLastVersionWins | generate-assets/src/lib.rs:275-279 | The version comes from the last row that has a requirement. |
| Metadata.CratesIoNoRequirementKeepsVersions | generate-assets/src/lib.rs:275-279 | Without such a row, `bevy_versions` is kept. |
| Metadata.CratesIoMerge | generate-assets/src/lib.rs:269-281 | The in-order fold of the readable rows, skipping the rest (the `flatten`). It changes only the licenses and the Bevy versions. |
| Metadata.CratesIoLookup | generate-assets/src/lib.rs:264-283 | Succeeds exactly when the query does. A failed query returns its error with the asset unchanged; otherwise the result is the merge of the rows. Only licenses and Bevy versions change. |
| Metadata.ExtraMetadata | generate-assets/src/lib.rs:150-186 | See the note below. |
| Metadata.GetExtraMetadata | generate-assets/src/lib.rs:150-186 | The method's new asset and outcome are those of `ExtraMetadata`. On an error the asset is untouched. |
| Metadata.FetchErrorsSwallowed | generate-assets/src/lib.rs:165-179 | Once the link parses with at least two path segments, the step succeeds, whatever GitHub or crates.io answer. |
| Metadata.ExtraMetadataFailsOnlyOnLink | generate-assets/src/lib.rs:157-185 | See the note below. |
| Metadata.ExtraMetadataKeepsFields | generate-assets/src/lib.rs:150-186 | The metadata step changes no field but the licenses and the Bevy versions. |
| Catalogue.Extension | generate-assets/src/lib.rs:110 | See the note below. |
| Catalogue.AsUsize | generate-assets/src/lib.rs:89 | `as usize` of an `i64` is congruent to it modulo 2^64, and equal to it when it is not negative. |
| Catalogue.CategoryOrder | generate-assets/src/lib.rs:86-89 | The order is present exactly when the table's `order` is an integer. It is then that integer cast to `usize`. |
| Catalogue.CategoryReversed | generate-assets/src/lib.rs:90-93 | True exactly when the table's `sort_order_reversed` is the boolean true. |
| Catalogue.CategorySettings | generate-assets/src/lib.rs:80-97 | Without `_category.toml` the settings are `(None, false)`. With one, the call succeeds exactly when the file is readable and parses as TOML, and the settings then come from its table. |
| Catalogue.EntryNode | generate-assets/src/lib.rs:75-121 | See the note below. |
| Catalogue.EntryNodeSucceedsIff | generate-assets/src/lib.rs:80-120 | An accepted directory succeeds exactly when its category file can be read and its own walk succeeds. An accepted file succeeds exactly when it is readable, parses as an asset and its metadata step succeeds. |
| Catalogue.VisitEntries | generate-assets/src/lib.rs:72-122 | The nodes of a listing, in listing order, or the first error. A successful walk has no more nodes than entries. |
| Catalogue.VisitSucceedsIff | generate-assets/src/lib.rs:72-122 | The walk succeeds exactly when every entry does. |
| Catalogue.VisitFirstError | generate-assets/src/lib.rs:72-122 | A failed walk fails with the error of the first entry that fails; every earlier entry succeeds. |
| Catalogue.VisitBuildsAccepted | generate-assets/src/lib.rs:72-122 | A successful walk yields exactly one node per accepted entry, in listing order, each built from its entry. |
| Catalogue.VisitConcat | generate-assets/src/lib.rs:72-122 | The walk over a listing is the walk over its first part followed by the walk over the rest. The first error wins. |
| Catalogue.VisitErrorPersists | generate-assets/src/lib.rs:106-118 | An error met in a prefix of the listing is the error of the whole walk. |
| Catalogue.VisitStep | generate-assets/src/lib.rs:72-122 | One more entry extends the walk by that entry's node, skips it, or stops with its error. |
| Catalogue.SectionWithoutCategory | generate-assets/src/lib.rs:95-105 | A directory without `_category.toml` becomes a section named after it, with default order and not reversed. |
| Catalogue.AssetNodeFromFile | generate-assets/src/lib.rs:115-120 | An asset keeps the path of its file, and the name and order the file declares. |
| Catalogue.VisitEntry | generate-assets/src/lib.rs:73-121 | One loop turn appends the entry's node, or nothing for a skipped entry. On an error it leaves the section as it was. |
| Catalogue.VisitDirs | generate-assets/src/lib.rs:65-125 | See the note below. |
| Catalogue.ParseAssets | generate-assets/src/lib.rs:127-147 | See the note below. |

Notes on the longer rows:

- **Metadata.BevyVersion** gives:
  - `Simple(v)`: `v`.
  - Detailed with a version: that version, git or not.
  - No version, a git source and branch "main": "main".
  - Any other git dependency: "git".
  - No version and no git source: none.
- **Metadata.GithubMerge**:
  - A manifest that fails to fetch or parse is an error, and the asset is unchanged.
  - Otherwise, the licenses are set when the chosen license is present.
  - `bevy_versions` becomes `[version]` when a version is found.
  - No other field changes.
- **Metadata.ExtraMetadata**: the result of `get_extra_metadata`. Dispatch:
  - github.com uses path segments 0 and 1.
  - crates.io uses segment 1.
  - Any other host, or an unconfigured source, changes nothing.
  - A link that does not parse gives the parser's error.
  - A link without path segments panics, and so does one with fewer than two
    segments for a configured source.
- **Metadata.ExtraMetadataFailsOnlyOnLink**: the step fails exactly when one
  of these holds:
  - the link does not parse;
  - it has no path segments;
  - it has fewer than two segments for a configured GitHub or crates.io source.
- **Catalogue.Extension**:
  - It is present only when a '.' has text before it.
  - It is the text after the last '.' and contains no '.'.
  - ".." has none.
- **Catalogue.EntryNode**:
  - `.git` and `.github` are skipped.
  - The file `_category.toml` is skipped, and so is a file with another extension than "toml".
  - A file without an extension panics.
  - On success there is a node exactly for accepted entries, and that node is built from the entry.
  - When an accepted entry succeeds is stated by `EntryNodeSucceedsIff`.
  - A directory becomes a section with its folder name, no template and no header, and the category settings. It contains the walk of its children.
  - A file becomes its parsed asset with `original_path` set and metadata filled in.
- **Catalogue.VisitDirs**:
  - It succeeds exactly when the walk of the listing does.
  - The section's content then grows by exactly the walk's nodes; on an error the walk's error is returned.
  - On an error at entry k, the content has grown by exactly the nodes of the entries before k.
  - Earlier content is never changed, and neither is anything but the content.
  - A path that is not a directory changes nothing.
- **Catalogue.ParseAssets**:
  - The root section is named "Assets", with template "assets.html", header "Assets", no order and not reversed.
  - Its content is the walk of the asset directory.
  - The call fails exactly when the walk does, with the walk's error.

## Left out

- Filesystem access (`fs::read_dir`, `is_dir`, `exists`, `read_to_string`) is replaced by an input tree of entries.
  - The order of the listing is the order of the input sequence, since the platform's `read_dir` order is not specified.
  - A file's text is `None` when it cannot be read as a string.
  - Errors from `read_dir` itself and from a directory entry (the `?` on lines 72-73) are not modelled.
  - A root path that does not exist is represented like a root that is a file: neither is a directory, so the walk adds nothing.
- The parsers are inputs. `Env.parseAsset` is `toml::from_str` for an asset, `Env.parseTable` is `toml::de::from_str` for a category file, and `Sources.parseUrl` is `url::Url::parse`. Parsing `Cargo.toml` into a `cargo_toml::Manifest` is folded into `GithubRepo.manifest`, the answer `Sources.github` gives for a repository.
  - Their internals, including `deny_unknown_fields`, are foreign code.
- The GitHub client and the crates.io dump are inputs as well: a function from user and repository to the repository's answers, and a function from crate name to the query's rows.
  - `github_client.rs`, the HTTP transport, and base64 decoding are not part of this model.
  - Neither is `prepare_crates_db`, which downloads and opens the SQLite dump.
  - Neither is `cratesio_dbdump_lookup::get_rev_dependency`'s query.
- The `println!`/`eprintln!` logging is left out.
- Panics carry approximate messages. Only where a panic happens is modelled; the text of the message is not.
- Names are `string`s, so a directory name that is not valid UTF-8 cannot be represented. The panic of `folder.to_str().unwrap()` (line 99) on such a name is not modelled.
- `usize` is modelled as 64 bits wide, as on the targets the site is built on.
- The manifest's `dependencies` map is a sequence of (key, dependency) pairs.
  - `keys().find(...)` followed by `get(key)` is the dependency at the index found.
  - `FirstBevyDependencyIsLeast` relates this to `BTreeMap`'s ascending key order, under the predicate `KeysAscending`.
- `&mut Asset` and `&mut Section` are modelled on values. Each method takes the old value and returns the new one, since Rust owns these trees uniquely and moves each finished section into its parent.
  - Aliasing therefore cannot arise, and the model does not capture it.
- The changelog and migration-guide template rendering is not implemented in `lib.rs` and is not part of this model.
- Sorting a section's content by `AssetNode::order` is done by the callers of `lib.rs`, which are not part of this model. Only the accessor is modelled.
