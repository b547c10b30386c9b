/** The canonical reference tables of regions and federal districts, keyed by the normalised name. */
module Reference {
  import opened Strings

  /** A region (subject of the federation): display name, region code, and the code of its federal district. */
  datatype Region = Region(name: string, code: string, districtCode: string)

  /** A federal district; `summary` marks entries whose rows in the form are roll-ups (the national total, district totals). */
  datatype District = District(name: string, code: string, summary: bool)

  datatype Tables = Tables(regions: seq<Region>, districts: seq<District>)

  function RegionKey(g: Region): string { NormKey(g.name) }

  function DistrictKey(d: District): string { NormKey(d.name) }

  function DistrictCode(d: District): string { d.code }

  /** The keys of the district entries flagged as summaries. */
  function SummaryKeys(ds: seq<District>): (ks: set<string>)
    ensures forall k :: k in ks <==> exists i :: 0 <= i < |ds| && ds[i].summary && DistrictKey(ds[i]) == k
  {
    set i | 0 <= i < |ds| && ds[i].summary :: DistrictKey(ds[i])
  }
}
