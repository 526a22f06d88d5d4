/** Building the catalogue tree from the asset directory (`visit_dirs` and
    `parse_assets`). The directory is an input tree of entries in the order
    the platform's `read_dir` lists them; a file is represented by its text
    (none when it cannot be read as a string), and the TOML deserialisers are
    inputs as well. */
module Catalogue {
  import opened Wrappers
  import opened Strings
  import opened Assets
  import opened Metadata

  /** A TOML integer. */
  type i64 = x: int | -0x8000_0000_0000_0000 <= x < 0x8000_0000_0000_0000

  /** A value of a TOML table, as far as `as_integer` and `as_bool` tell. */
  datatype TomlValue = TomlInteger(i: i64) | TomlBoolean(b: bool) | TomlOther

  /** One entry of a directory listing. */
  datatype Entry = Dir(name: string, entries: seq<Entry>) | File(name: string, text: Option<string>)

  /** The builder's inputs besides the directory: `toml::from_str::<Asset>`,
      `toml::de::from_str::<toml::Value>` for a category file (its top-level
      table), and the metadata sources. */
  datatype Env = Env(
    parseAsset: string -> Option<Asset>,
    parseTable: string -> Option<map<string, TomlValue>>,
    sources: Sources)

  const CategoryFile: string := "_category.toml"
  const TomlExtension: string := "toml"
  const NoExtension: Error := Panic("file must have an extension")
  const UnreadableFile: Error := Panic("called `Result::unwrap()` on an `Err` value: read_to_string")
  const MalformedToml: Error := Panic("called `Result::unwrap()` on an `Err` value: toml")

  /** The section every catalogue starts from. */
  const AssetsRoot: Section := Section("Assets", [], Some("assets.html"), Some("Assets"), None, false)

  // ---------------------------------------------------------------------
  // file names
  // ---------------------------------------------------------------------

  /** Entries never looked at, directories or not. */
  predicate IsIgnored(name: string) {
    name == ".git" || name == ".github"
  }

  function LastDot(s: string): (r: Option<nat>)
    ensures r.Some? ==> r.value < |s| && s[r.value] == '.'
    ensures r.Some? ==> forall j :: r.value < j < |s| ==> s[j] != '.'
    ensures r.None? ==> forall j :: 0 <= j < |s| ==> s[j] != '.'
  {
    if s == [] then None
    else if s[|s| - 1] == '.' then Some(|s| - 1)
    else LastDot(s[..|s| - 1])
  }

  /** `Path::extension` of a file name: the text after the last '.', provided
      something precedes that dot; none for "..". */
  function Extension(name: string): (r: Option<string>)
    ensures r.Some? ==> name != ".." && |r.value| + 1 < |name|
    ensures r.Some? ==> name[|name| - |r.value| - 1] == '.' && name[|name| - |r.value|..] == r.value
    ensures r.Some? ==> forall j :: 0 <= j < |r.value| ==> r.value[j] != '.'
    ensures r.None? ==> name == ".." || forall j :: 0 < j < |name| ==> name[j] != '.'
  {
    if name == ".." then None
    else
      match LastDot(name)
      case None => None
      case Some(i) => if i == 0 then None else Some(name[i + 1..])
  }

  // ---------------------------------------------------------------------
  // category files
  // ---------------------------------------------------------------------

  /** `v as usize` for an `i64` on a 64-bit target: the same bits, read as
      unsigned, so a negative value wraps around. */
  function AsUsize(v: i64): (r: usize)
    ensures r % UsizeModulus == v % UsizeModulus
    ensures 0 <= v ==> r == v
  {
    if v < 0 then v + UsizeModulus else v
  }

  function CategoryOrder(table: map<string, TomlValue>): (r: Option<usize>)
    ensures r.Some? <==> "order" in table && table["order"].TomlInteger?
    ensures r.Some? ==> r.value == AsUsize(table["order"].i)
  {
    if "order" in table && table["order"].TomlInteger? then Some(AsUsize(table["order"].i)) else None
  }

  function CategoryReversed(table: map<string, TomlValue>): (r: bool)
    ensures r <==> "sort_order_reversed" in table && table["sort_order_reversed"] == TomlBoolean(true)
  {
    if "sort_order_reversed" in table && table["sort_order_reversed"].TomlBoolean?
    then table["sort_order_reversed"].b
    else false
  }

  /** The first entry of a listing with the given name. */
  function FindEntry(entries: seq<Entry>, name: string): (r: Option<nat>)
    ensures r.Some? ==> r.value < |entries| && entries[r.value].name == name
    ensures r.Some? ==> forall j :: 0 <= j < r.value ==> entries[j].name != name
    ensures r.None? ==> forall j :: 0 <= j < |entries| ==> entries[j].name != name
  {
    if entries == [] then None
    else if entries[0].name == name then Some(0)
    else
      match FindEntry(entries[1..], name)
      case None => None
      case Some(i) => Some(i + 1)
  }

  /** The `order` and `sort_order_reversed` of a directory's section, read
      from its `_category.toml`; a directory without one gets `(None, false)`. */
  function CategorySettings(entries: seq<Entry>, env: Env): (r: Result<(Option<usize>, bool)>)
    ensures FindEntry(entries, CategoryFile).None? ==> r == Ok((None, false))
    ensures FindEntry(entries, CategoryFile).Some? ==>
              var file := entries[FindEntry(entries, CategoryFile).value];
              (r.Ok? <==> file.File? && file.text.Some? && env.parseTable(file.text.value).Some?)
    ensures r.Ok? && FindEntry(entries, CategoryFile).Some? ==>
              var file := entries[FindEntry(entries, CategoryFile).value];
              file.File? && file.text.Some? && env.parseTable(file.text.value).Some?
              && r.value == (CategoryOrder(env.parseTable(file.text.value).value),
                             CategoryReversed(env.parseTable(file.text.value).value))
  {
    match FindEntry(entries, CategoryFile)
    case None => Ok((None, false))
    case Some(i) =>
      var file := entries[i];
      if file.Dir? || file.text.None? then Err(UnreadableFile)
      else
        match env.parseTable(file.text.value)
        case None => Err(MalformedToml)
        case Some(table) => Ok((CategoryOrder(table), CategoryReversed(table)))
  }

  // ---------------------------------------------------------------------
  // the tree as a function of the directory
  // ---------------------------------------------------------------------

  /** The entries that contribute a node: every directory, and every file
      with extension "toml" other than `_category.toml`, leaving out `.git`
      and `.github`. */
  predicate Accepted(e: Entry) {
    !IsIgnored(e.name) && (e.Dir? || (e.name != CategoryFile && Extension(e.name) == Some(TomlExtension)))
  }

  function AcceptedEntries(entries: seq<Entry>): seq<Entry>
  {
    if entries == [] then []
    else
      var last := entries[|entries| - 1];
      AcceptedEntries(entries[..|entries| - 1]) + (if Accepted(last) then [last] else [])
  }

  /** `n` is the node that `visit_dirs` builds for the entry `e` of the
      directory at `dir`: for a directory, a section named after it, without
      template or header, ordered by its category file and holding what the
      directory yields; for a file, the asset it parses to, with
      `original_path` set and its metadata filled in. */
  ghost predicate BuiltFrom(n: AssetNode, e: Entry, dir: Path, env: Env)
    decreases e, 0
  {
    match e
    case Dir(folder, children) =>
      n.SectionNode? && n.section.name == folder
      && n.section.template == None && n.section.header == None
      && CategorySettings(children, env) == Ok((n.section.order, n.section.sortOrderReversed))
      && VisitEntries(children, dir + [folder], env) == Ok(n.section.content)
    case File(fileName, text) =>
      n.AssetLeaf? && text.Some? && env.parseAsset(text.value).Some?
      && ExtraMetadata(env.parseAsset(text.value).value.(originalPath := Some(dir + [fileName])), env.sources)
         == Ok(n.asset)
  }

  /** The node one entry contributes (none when it is skipped), or the error
      that stops the walk. */
  function EntryNode(e: Entry, dir: Path, env: Env): (r: Result<Option<AssetNode>>)
    ensures IsIgnored(e.name) ==> r == Ok(None)
    ensures e.File? && e.name == CategoryFile ==> r == Ok(None)
    ensures e.File? && !IsIgnored(e.name) && e.name != CategoryFile && Extension(e.name).None? ==>
              r == Err(NoExtension)
    ensures e.File? && Extension(e.name).Some? && Extension(e.name).value != TomlExtension ==> r == Ok(None)
    ensures r.Ok? ==> (r.value.Some? <==> Accepted(e))
    ensures r.Ok? && r.value.Some? ==> BuiltFrom(r.value.value, e, dir, env)
    decreases e, 2
  {
    if IsIgnored(e.name) then Ok(None)
    else
      match e
      case Dir(folder, children) =>
        (match CategorySettings(children, env)
         case Err(err) => Err(err)
         case Ok(settings) =>
           match VisitEntries(children, dir + [folder], env)
           case Err(err) => Err(err)
           case Ok(content) =>
             Ok(Some(SectionNode(Section(folder, content, None, None, settings.0, settings.1)))))
      case File(fileName, text) =>
        if fileName == CategoryFile then Ok(None)
        else
          match Extension(fileName)
          case None => Err(NoExtension)
          case Some(ext) =>
            if ext != TomlExtension then Ok(None)
            else if text.None? then Err(UnreadableFile)
            else
              match env.parseAsset(text.value)
              case None => Err(MalformedToml)
              case Some(parsed) =>
                match ExtraMetadata(parsed.(originalPath := Some(dir + [fileName])), env.sources)
                case Err(err) => Err(err)
                case Ok(asset) => Ok(Some(AssetLeaf(asset)))
  }

  /** The nodes a directory listing yields, in listing order, or the first
      error met. No entry yields more than one node. */
  function VisitEntries(entries: seq<Entry>, dir: Path, env: Env): (r: Result<seq<AssetNode>>)
    ensures r.Ok? ==> |r.value| <= |entries|
    decreases entries, 1
  {
    if entries == [] then Ok([])
    else
      match VisitEntries(entries[..|entries| - 1], dir, env)
      case Err(err) => Err(err)
      case Ok(nodes) =>
        match EntryNode(entries[|entries| - 1], dir, env)
        case Err(err) => Err(err)
        case Ok(None) => Ok(nodes)
        case Ok(Some(n)) => Ok(nodes + [n])
  }

  // ---------------------------------------------------------------------
  // properties of the walk
  // ---------------------------------------------------------------------

  /** One node per accepted entry, in listing order, each built from its
      entry. */
  lemma {:induction false} VisitBuildsAccepted(entries: seq<Entry>, dir: Path, env: Env)
    requires VisitEntries(entries, dir, env).Ok?
    ensures |VisitEntries(entries, dir, env).value| == |AcceptedEntries(entries)|
    ensures forall k :: 0 <= k < |AcceptedEntries(entries)| ==>
              BuiltFrom(VisitEntries(entries, dir, env).value[k], AcceptedEntries(entries)[k], dir, env)
    decreases |entries|
  {
    if entries != [] {
      var init := entries[..|entries| - 1];
      VisitBuildsAccepted(init, dir, env);
    }
  }

  /** When an accepted entry succeeds: a directory when its category file
      can be read and its own walk succeeds; a file when it can be read,
      parses as an asset, and its metadata step succeeds. */
  lemma EntryNodeSucceedsIff(e: Entry, dir: Path, env: Env)
    ensures e.Dir? && !IsIgnored(e.name) ==>
              (EntryNode(e, dir, env).Ok? <==>
                 CategorySettings(e.entries, env).Ok? && VisitEntries(e.entries, dir + [e.name], env).Ok?)
    ensures e.File? && Accepted(e) ==>
              (EntryNode(e, dir, env).Ok? <==>
                 e.text.Some? && env.parseAsset(e.text.value).Some?
                 && ExtraMetadata(env.parseAsset(e.text.value).value.(originalPath := Some(dir + [e.name])),
                                  env.sources).Ok?)
  {
  }

  /** The walk succeeds exactly when every entry does. */
  lemma {:induction false} VisitSucceedsIff(entries: seq<Entry>, dir: Path, env: Env)
    ensures VisitEntries(entries, dir, env).Ok? <==>
              forall k :: 0 <= k < |entries| ==> EntryNode(entries[k], dir, env).Ok?
    decreases |entries|
  {
    if entries != [] {
      var init := entries[..|entries| - 1];
      VisitSucceedsIff(init, dir, env);
      assert forall k :: 0 <= k < |init| ==> init[k] == entries[k];
    }
  }

  /** A failed walk fails with the error of the first entry that fails. */
  lemma {:induction false} VisitFirstError(entries: seq<Entry>, dir: Path, env: Env)
    requires VisitEntries(entries, dir, env).Err?
    ensures exists k :: 0 <= k < |entries| && EntryNode(entries[k], dir, env) == Err(VisitEntries(entries, dir, env).error)
                        && forall j :: 0 <= j < k ==> EntryNode(entries[j], dir, env).Ok?
    decreases |entries|
  {
    var n := |entries| - 1;
    var init := entries[..n];
    assert forall k :: 0 <= k < n ==> init[k] == entries[k];
    if VisitEntries(init, dir, env).Err? {
      VisitFirstError(init, dir, env);
      var k :| 0 <= k < n && EntryNode(init[k], dir, env) == Err(VisitEntries(init, dir, env).error)
               && forall j :: 0 <= j < k ==> EntryNode(init[j], dir, env).Ok?;
      assert EntryNode(entries[k], dir, env) == Err(VisitEntries(entries, dir, env).error);
    } else {
      VisitSucceedsIff(init, dir, env);
      assert EntryNode(entries[n], dir, env) == Err(VisitEntries(entries, dir, env).error);
    }
  }

  /** The walk over a listing is the walk over its first part followed by
      the walk over the rest: nodes of earlier entries come first, and the
      first error wins. */
  lemma {:induction false} VisitConcat(a: seq<Entry>, b: seq<Entry>, dir: Path, env: Env)
    ensures VisitEntries(a + b, dir, env) ==
      match VisitEntries(a, dir, env)
      case Err(err) => Err(err)
      case Ok(x) =>
        match VisitEntries(b, dir, env)
        case Err(err) => Err(err)
        case Ok(y) => Ok(x + y)
    decreases |b|
  {
    if b == [] {
      assert a + b == a;
      if VisitEntries(a, dir, env).Ok? {
        assert VisitEntries(a, dir, env).value + [] == VisitEntries(a, dir, env).value;
      }
    } else {
      var init := b[..|b| - 1];
      assert (a + b)[..|a + b| - 1] == a + init;
      assert (a + b)[|a + b| - 1] == b[|b| - 1];
      VisitConcat(a, init, dir, env);
      match VisitEntries(a, dir, env) {
        case Err(_) =>
        case Ok(x) =>
          match VisitEntries(init, dir, env) {
            case Err(_) =>
            case Ok(y) =>
              assert x + y + [] == x + y;
              match EntryNode(b[|b| - 1], dir, env) {
                case Err(_) =>
                case Ok(None) =>
                case Ok(Some(n)) => assert x + y + [n] == x + (y + [n]);
              }
          }
      }
    }
  }

  /** An error in a prefix of the listing is the error of the whole walk. */
  lemma VisitErrorPersists(entries: seq<Entry>, n: nat, dir: Path, env: Env)
    requires n <= |entries| && VisitEntries(entries[..n], dir, env).Err?
    ensures VisitEntries(entries, dir, env) == VisitEntries(entries[..n], dir, env)
  {
    VisitConcat(entries[..n], entries[n..], dir, env);
    assert entries[..n] + entries[n..] == entries;
  }

  /** The walk over one more entry of the listing. */
  lemma VisitStep(entries: seq<Entry>, i: nat, dir: Path, env: Env)
    requires i < |entries| && VisitEntries(entries[..i], dir, env).Ok?
    ensures VisitEntries(entries[..i + 1], dir, env) ==
      match EntryNode(entries[i], dir, env)
      case Err(err) => Err(err)
      case Ok(None) => VisitEntries(entries[..i], dir, env)
      case Ok(Some(n)) => Ok(VisitEntries(entries[..i], dir, env).value + [n])
  {
    assert entries[..i + 1][..i] == entries[..i];
  }

  /** A directory without `_category.toml` becomes a section that sorts with
      the default order and not reversed. */
  lemma SectionWithoutCategory(n: AssetNode, e: Entry, dir: Path, env: Env)
    requires e.Dir? && FindEntry(e.entries, CategoryFile).None?
    requires BuiltFrom(n, e, dir, env)
    ensures n.Name() == e.name && n.Order() == DefaultOrder && !n.section.sortOrderReversed
  {
  }

  /** An asset node keeps the path of the file it came from, and its name is
      the `name` the file declares. */
  lemma AssetNodeFromFile(n: AssetNode, e: Entry, dir: Path, env: Env)
    requires e.File? && BuiltFrom(n, e, dir, env)
    ensures n.asset.originalPath == Some(dir + [e.name])
    ensures n.Name() == env.parseAsset(e.text.value).value.name
    ensures n.Order() == env.parseAsset(e.text.value).value.order.GetOr(DefaultOrder)
  {
    ExtraMetadataKeepsFields(env.parseAsset(e.text.value).value.(originalPath := Some(dir + [e.name])), env.sources);
  }

  // ---------------------------------------------------------------------
  // the walk itself
  // ---------------------------------------------------------------------

  /** `visit_dirs`: appends to `section` the node of each accepted entry of
      `dir`, in listing order, recursing into sub-directories. On an error
      the nodes appended so far stay and nothing else changes. */
  method VisitDirs(dir: Entry, path: Path, section: Section, env: Env) returns (updated: Section, outcome: Outcome)
    ensures dir.File? ==> updated == section && outcome == Pass
    ensures dir.Dir? ==> (outcome.Pass? <==> VisitEntries(dir.entries, path, env).Ok?)
    ensures dir.Dir? && outcome.Pass? ==>
              updated == section.(content := section.content + VisitEntries(dir.entries, path, env).value)
    ensures dir.Dir? && outcome.Fail? ==> outcome.error == VisitEntries(dir.entries, path, env).error
    ensures dir.Dir? && outcome.Fail? ==>
              exists k :: 0 <= k < |dir.entries| && EntryNode(dir.entries[k], path, env).Err?
                          && VisitEntries(dir.entries[..k], path, env).Ok?
                          && updated == section.(content := section.content + VisitEntries(dir.entries[..k], path, env).value)
    decreases dir, 0
  {
    if dir.File? {
      return section, Pass;
    }
    var entries := dir.entries;
    updated := section;
    var i := 0;
    while i < |entries|
      invariant 0 <= i <= |entries|
      invariant VisitEntries(entries[..i], path, env).Ok?
      invariant updated == section.(content := section.content + VisitEntries(entries[..i], path, env).value)
    {
      VisitStep(entries, i, path, env);
      var next, status := VisitEntry(entries[i], path, updated, env);
      if status.Fail? {
        VisitErrorPersists(entries, i + 1, path, env);
        assert EntryNode(entries[i], path, env).Err? && VisitEntries(entries[..i], path, env).Ok?;
        return updated, status;
      }
      updated := next;
      i := i + 1;
    }
    assert entries[..|entries|] == entries;
    outcome := Pass;
  }

  /** One turn of the loop in `visit_dirs`: the entry is skipped, or its node
      is appended to `section`, or the walk stops with `section` as it was. */
  method VisitEntry(entry: Entry, path: Path, section: Section, env: Env) returns (updated: Section, outcome: Outcome)
    ensures outcome.Fail? <==> EntryNode(entry, path, env).Err?
    ensures outcome.Fail? ==> outcome.error == EntryNode(entry, path, env).error && updated == section
    ensures outcome.Pass? ==>
              var node := EntryNode(entry, path, env).value;
              updated == section.(content := section.content + if node.Some? then [node.value] else [])
    decreases entry, 1
  {
    updated := section;
    if IsIgnored(entry.name) {
      assert section.content + [] == section.content;
      return section, Pass;
    }
    match entry {
      case Dir(folder, children) =>
        var settings := CategorySettings(children, env);
        if settings.Err? {
          return section, Fail(settings.error);
        }
        var order, sortOrderReversed := settings.value.0, settings.value.1;
        var newSection := Section(folder, [], None, None, order, sortOrderReversed);
        var filled, status := VisitDirs(entry, path + [folder], newSection, env);
        if status.Fail? {
          return section, status;
        }
        assert filled.content == VisitEntries(children, path + [folder], env).value;
        updated := section.(content := section.content + [SectionNode(filled)]);
        outcome := Pass;
      case File(fileName, text) =>
        if fileName == CategoryFile {
          assert section.content + [] == section.content;
          return section, Pass;
        }
        var extension := Extension(fileName);
        if extension.None? {
          return section, Fail(NoExtension);
        }
        if extension.value != TomlExtension {
          assert section.content + [] == section.content;
          return section, Pass;
        }
        if text.None? {
          return section, Fail(UnreadableFile);
        }
        var parsed := env.parseAsset(text.value);
        if parsed.None? {
          return section, Fail(MalformedToml);
        }
        var asset := parsed.value.(originalPath := Some(path + [fileName]));
        var enriched, status := GetExtraMetadata(asset, env.sources);
        if status.Fail? {
          return section, status;
        }
        updated := section.(content := section.content + [AssetLeaf(enriched)]);
        outcome := Pass;
    }
  }

  /** `parse_assets`: the catalogue rooted at the "Assets" section, or the
      error that stopped the walk. A root that is not a directory yields the
      empty root section. */
  method ParseAssets(assetDir: string, root: Entry, env: Env) returns (r: Result<Section>)
    ensures r.Ok? ==> r.value.name == "Assets" && r.value.template == Some("assets.html")
    ensures r.Ok? ==> r.value.header == Some("Assets") && r.value.order == None && !r.value.sortOrderReversed
    ensures root.File? ==> r == Ok(AssetsRoot)
    ensures root.Dir? ==> (r.Ok? <==> VisitEntries(root.entries, [assetDir], env).Ok?)
    ensures root.Dir? && r.Ok? ==> r.value.content == VisitEntries(root.entries, [assetDir], env).value
    ensures root.Dir? && r.Err? ==> r.error == VisitEntries(root.entries, [assetDir], env).error
  {
    var assetRootSection := AssetsRoot;
    var updated, outcome := VisitDirs(root, [assetDir], assetRootSection, env);
    if outcome.Fail? {
      return Err(outcome.error);
    }
    return Ok(updated);
  }
}
