/** The catalogue's data model: an `Asset` read from one TOML file, a
    `Section` for one directory, and the `AssetNode` tree that joins them,
    with the license parsing that `Asset::set_license` performs. */
module Assets {
  import opened Wrappers
  import opened Strings

  /** `usize` on a 64-bit target. */
  const UsizeModulus: int := 0x1_0000_0000_0000_0000
  type usize = x: int | 0 <= x < 0x1_0000_0000_0000_0000

  /** A `PathBuf` as the list of its components: the asset directory given to
      the builder, then the names of the nested entries. */
  type Path = seq<string>

  /** The order a node without an explicit `order` sorts with. */
  const DefaultOrder: usize := 99999

  /** The separator `set_license` splits a license expression on. */
  const LicenseSeparator: string := "OR"

  datatype Asset = Asset(
    name: string,
    link: string,
    description: string,
    order: Option<usize>,
    image: Option<string>,
    licenses: Option<seq<string>>,
    bevyVersions: Option<seq<string>>,
    originalPath: Option<Path>)

  datatype Section = Section(
    name: string,
    content: seq<AssetNode>,
    template: Option<string>,
    header: Option<string>,
    order: Option<usize>,
    sortOrderReversed: bool)

  datatype AssetNode = SectionNode(section: Section) | AssetLeaf(asset: Asset)
  {
    /** `AssetNode::name`: the name of the section or asset inside. */
    function Name(): (r: string)
      ensures SectionNode? ==> r == section.name
      ensures AssetLeaf? ==> r == asset.name
    {
      match this
      case SectionNode(s) => s.name
      case AssetLeaf(a) => a.name
    }

    /** `AssetNode::order`: the inner node's order, or 99999 when it has none. */
    function Order(): (r: usize)
      ensures SectionNode? && section.order.Some? ==> r == section.order.value
      ensures AssetLeaf? && asset.order.Some? ==> r == asset.order.value
      ensures SectionNode? && section.order.None? ==> r == DefaultOrder
      ensures AssetLeaf? && asset.order.None? ==> r == DefaultOrder
    {
      match this
      case SectionNode(s) => s.order.GetOr(DefaultOrder)
      case AssetLeaf(a) => a.order.GetOr(DefaultOrder)
    }
  }

  /** The licenses named by a license expression: the pieces between the
      occurrences of "OR", each trimmed. */
  function LicensePieces(license: string): (r: seq<string>)
    ensures |r| == Occurrences(license, LicenseSeparator) + 1
    ensures |r| == |Split(license, LicenseSeparator)|
    ensures forall k :: 0 <= k < |r| ==> r[k] == Trim(Split(license, LicenseSeparator)[k])
    ensures forall k :: 0 <= k < |r| ==> !Contains(r[k], LicenseSeparator)
  {
    var parts := Split(license, LicenseSeparator);
    SplitOrCount(license);
    forall k | 0 <= k < |parts| ensures !Contains(Trim(parts[k]), LicenseSeparator) {
      TrimKeepsAbsence(parts[k], LicenseSeparator);
    }
    seq(|parts|, k requires 0 <= k < |parts| => Trim(parts[k]))
  }

  /** The license pieces, untrimmed, are exactly the text between the
      separators: joined with "OR" they give back the expression. */
  lemma {:induction false} LicensePiecesCoverExpression(license: string)
    ensures |Split(license, LicenseSeparator)| == |LicensePieces(license)|
    ensures Join(Split(license, LicenseSeparator), LicenseSeparator) == license
  {
    JoinSplit(license, LicenseSeparator);
  }

  /** An expression without "OR" names one license: itself, trimmed. */
  lemma SingleLicense(license: string)
    requires !Contains(license, LicenseSeparator)
    ensures LicensePieces(license) == [Trim(license)]
  {
  }

  /** `Asset::set_license`: `licenses` becomes the pieces of `license`; no
      other field changes. */
  method SetLicense(asset: Asset, license: string) returns (updated: Asset)
    ensures updated.licenses == Some(LicensePieces(license))
    ensures updated == asset.(licenses := updated.licenses)
  {
    var licenses := LicensePieces(license);
    updated := asset.(licenses := Some(licenses));
  }
}
