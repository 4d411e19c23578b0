/** Region hint of the Amazon EC2 plugin: the availability zone without its trailing letter. */
module AmazonEc2 {
  import opened Wrappers
  import opened Http

  const MetadataUrl := "http://169.254.169.254/latest/meta-data/"
  const ZoneInfo := "placement/availability-zone"

  /** Python's `zone[:-1]`: the zone without its last character, empty for an empty zone. */
  function RegionOfZone(zone: string): (r: string)
    ensures |zone| > 0 ==> r + [zone[|zone| - 1]] == zone
    ensures |zone| == 0 ==> r == ""
  {
    if |zone| == 0 then "" else zone[..|zone| - 1]
  }

  /**
   * `generateRegionSrvArgs`: `get` answers the metadata request (`None` when
   * it raises). Only a 200 answer gives a hint.
   */
  function GenerateRegionSrvArgs(get: string -> Option<Response>): (r: Option<string>)
    ensures r.Some? <==> get(MetadataUrl + ZoneInfo).Some? && get(MetadataUrl + ZoneInfo).value.status == 200
    ensures r.Some? ==> r.value == "regionHint=" + RegionOfZone(get(MetadataUrl + ZoneInfo).value.text)
  {
    match get(MetadataUrl + ZoneInfo)
    case None => None
    case Some(zoneResp) =>
      if zoneResp.status == 200 then Some("regionHint=" + RegionOfZone(zoneResp.text)) else None
  }

  /** A zone is its region followed by one letter: the hint names that region. */
  lemma ZoneRoundTrip(region: string, letter: char, get: string -> Option<Response>)
    requires get(MetadataUrl + ZoneInfo) == Some(Response(200, region + [letter]))
    ensures GenerateRegionSrvArgs(get) == Some("regionHint=" + region)
  {
    assert (region + [letter])[..|region|] == region;
  }
}
