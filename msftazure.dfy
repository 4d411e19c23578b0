/**
 * Region hint of the Microsoft Azure plugin: the instance metadata service
 * when it answers, otherwise the `<Location>` the wire server of one of the
 * nameservers reports through the extensions configuration.
 */
module MsftAzure {
  import opened Wrappers
  import opened Text
  import opened Http

  const MetadataUrl := "http://169.254.169.254/metadata/instance/location"
  const ExtensionsTag := "ExtensionsConfig"
  const LocationTag := "Location"

  function GoalStateUrl(nameserver: string): string {
    "http://" + nameserver + "/" + "machine/?comp=goalstate"
  }

  function OpenTag(tag: string): string { "<" + tag + ">" }

  function CloseTag(tag: string): string { "</" + tag + ">" }

  /**
   * Backtracking of the greedy `.*` in `.*<T>(.*?)</T>.*`: tries the opening
   * tag at `p`, `p - 1`, ..., 0 and, for the first one that has a closing tag
   * after it, takes the nearest such closing tag (the lazy group).
   */
  function TagSpanFrom(s: string, open: string, close: string, p: nat): (r: Option<(nat, nat)>)
    decreases p
    ensures r.Some? ==> r.value.0 + |open| <= r.value.1 <= |s|
  {
    var found := if At(s, p, open) then FindFrom(s, close, p + |open|) else None;
    if found.Some? then Some((p, found.value))
    else if p == 0 then None
    else TagSpanFrom(s, open, close, p - 1)
  }

  /** No opening tag at or before `p` has a closing tag after it. */
  ghost predicate NoPairUpTo(s: string, open: string, close: string, p: nat) {
    forall a: nat, b: nat :: a <= p && a + |open| <= b && At(s, a, open) ==> !At(s, b, close)
  }

  /** What `TagSpanFrom` finds: an opening tag, the first closing tag after it, and no later pair. */
  ghost predicate IsTagSpan(s: string, open: string, close: string, p: nat, start: nat, end: nat) {
    && start <= p && At(s, start, open) && start + |open| <= end && At(s, end, close)
    && (forall k: nat :: start + |open| <= k < end ==> !At(s, k, close))
    && (forall a: nat, b: nat :: start < a <= p && a + |open| <= b && At(s, a, open) ==> !At(s, b, close))
  }

  lemma {:induction false} TagSpanFromSpec(s: string, open: string, close: string, p: nat)
    ensures TagSpanFrom(s, open, close, p).Some? ==>
      IsTagSpan(s, open, close, p, TagSpanFrom(s, open, close, p).value.0, TagSpanFrom(s, open, close, p).value.1)
    ensures TagSpanFrom(s, open, close, p).None? ==> NoPairUpTo(s, open, close, p)
    decreases p
  {
    if p > 0 {
      TagSpanFromSpec(s, open, close, p - 1);
    }
  }

  /**
   * Where `re.match('.*<T>(.*?)</T>.*', s, re.S)` puts the group: the last
   * opening tag that has a closing tag after it, and the first closing tag
   * after that one.
   */
  function TagSpan(s: string, tag: string): (r: Option<(nat, nat)>)
    ensures r.Some? ==> r.value.0 + |OpenTag(tag)| <= r.value.1 <= |s|
  {
    TagSpanFrom(s, OpenTag(tag), CloseTag(tag), |s|)
  }

  /** The group the regular expression captures, `None` when it does not match. */
  function MatchTag(s: string, tag: string): Option<string> {
    match TagSpan(s, tag)
    case None => None
    case Some((p, q)) => Some(s[p + |OpenTag(tag)|..q])
  }

  /** No match exactly when no opening tag has a closing tag after it. */
  lemma MatchTagNone(s: string, tag: string)
    ensures MatchTag(s, tag).None? <==>
      forall a: nat, b: nat :: a + |OpenTag(tag)| <= b && At(s, a, OpenTag(tag)) ==> !At(s, b, CloseTag(tag))
  {
    TagSpanFromSpec(s, OpenTag(tag), CloseTag(tag), |s|);
  }

  /**
   * A match is the text between the last opening tag that has a closing tag
   * after it and the first closing tag after that; it never holds the closing tag.
   */
  lemma MatchTagSome(s: string, tag: string)
    requires MatchTag(s, tag).Some?
    ensures Contains(s, OpenTag(tag) + MatchTag(s, tag).value + CloseTag(tag))
    ensures !Contains(MatchTag(s, tag).value, CloseTag(tag))
    ensures exists p: nat :: (p + |OpenTag(tag)| <= |s| && At(s, p, OpenTag(tag) + MatchTag(s, tag).value + CloseTag(tag)) &&
      forall a: nat, b: nat :: p < a && a + |OpenTag(tag)| <= b && At(s, a, OpenTag(tag)) ==> !At(s, b, CloseTag(tag)))
  {
    var open, close := OpenTag(tag), CloseTag(tag);
    TagSpanFromSpec(s, open, close, |s|);
    var (p, q) := TagSpan(s, tag).value;
    var capture := s[p + |open|..q];
    assert s[p..q + |close|] == open + capture + close by {
      assert s[p..q + |close|] == s[p..p + |open|] + s[p + |open|..q] + s[q..q + |close|];
    }
    assert At(s, p, open + capture + close);
    CaptureHasNoClose(s, p + |open|, q, close);
  }

  lemma CaptureHasNoClose(s: string, lo: nat, hi: nat, close: string)
    requires lo <= hi <= |s| && |close| > 0
    requires forall k: nat :: lo <= k < hi ==> !At(s, k, close)
    ensures !Contains(s[lo..hi], close)
  {
    forall i: nat | i <= hi - lo ensures !At(s[lo..hi], i, close) {
      if At(s[lo..hi], i, close) {
        AtInSlice(s, lo, hi, i, close);
      }
    }
  }

  /** The extensions URI a nameserver's goal state leads to, `None` when that request raises, fails or has no tag. */
  function ExtensionsUri(nameserver: string, get: string -> Option<Response>, decode: string -> string): (r: Option<string>)
    ensures r.Some? <==> (get(GoalStateUrl(nameserver)).Some? && get(GoalStateUrl(nameserver)).value.status == 200 &&
                          MatchTag(get(GoalStateUrl(nameserver)).value.text, ExtensionsTag).Some?)
    ensures r.Some? ==> r.value == decode(MatchTag(get(GoalStateUrl(nameserver)).value.text, ExtensionsTag).value)
  {
    match get(GoalStateUrl(nameserver))
    case None => None
    case Some(goal) =>
      if goal.status != 200 then None
      else
        match MatchTag(goal.text, ExtensionsTag)
        case None => None
        case Some(encoded) => Some(decode(encoded))
  }

  /** The location one nameserver yields, `None` at the first step that fails. */
  function WireLocation(nameserver: string, get: string -> Option<Response>, decode: string -> string): (r: Option<string>)
    ensures r.Some? ==> ExtensionsUri(nameserver, get, decode).Some?
  {
    match ExtensionsUri(nameserver, get, decode)
    case None => None
    case Some(uri) =>
      match get(uri)
      case None => None
      case Some(ext) => if ext.status != 200 then None else MatchTag(ext.text, LocationTag)
  }

  /**
   * The requests made for one nameserver: the goal state, then the extensions
   * URI only after a 200 goal state holding `<ExtensionsConfig>`.
   */
  function WireRequests(nameserver: string, get: string -> Option<Response>, decode: string -> string): (r: seq<string>)
    ensures 1 <= |r| <= 2 && r[0] == GoalStateUrl(nameserver)
    ensures |r| == 2 ==> get(GoalStateUrl(nameserver)).Some? && get(GoalStateUrl(nameserver)).value.status == 200
    ensures |r| == 2 ==> MatchTag(get(GoalStateUrl(nameserver)).value.text, ExtensionsTag).Some?
  {
    match ExtensionsUri(nameserver, get, decode)
    case None => [GoalStateUrl(nameserver)]
    case Some(uri) => [GoalStateUrl(nameserver), uri]
  }

  /** The requests made for a sequence of nameservers tried one after another. */
  function AllWireRequests(nameservers: seq<string>, get: string -> Option<Response>, decode: string -> string): seq<string>
    decreases |nameservers|
  {
    if nameservers == [] then []
    else AllWireRequests(nameservers[..|nameservers| - 1], get, decode) + WireRequests(nameservers[|nameservers| - 1], get, decode)
  }

  lemma AllWireRequestsSnoc(nameservers: seq<string>, i: nat, get: string -> Option<Response>, decode: string -> string)
    requires i < |nameservers|
    ensures AllWireRequests(nameservers[..i + 1], get, decode) ==
      AllWireRequests(nameservers[..i], get, decode) + WireRequests(nameservers[i], get, decode)
  {
    assert nameservers[..i + 1][..i] == nameservers[..i];
  }

  /**
   * One pass of the wire-server loop: the goal state, its `<ExtensionsConfig>`
   * URI, then the `<Location>` of the extensions document. Returns the
   * location (`None` at the first step that fails, where the loop moves on
   * to the next nameserver) and the URLs requested.
   */
  method TryNameserver(nameserver: string, get: string -> Option<Response>, decode: string -> string)
    returns (location: Option<string>, requested: seq<string>)
    ensures location == WireLocation(nameserver, get, decode)
    ensures requested == WireRequests(nameserver, get, decode)
  {
    requested := [GoalStateUrl(nameserver)];
    var goalStatResp := get(GoalStateUrl(nameserver));
    if goalStatResp.None? || goalStatResp.value.status != 200 {
      return None, requested;
    }
    var m := MatchTag(goalStatResp.value.text, ExtensionsTag);
    if m.None? {
      return None, requested;
    }
    var extensionsUri := decode(m.value);
    requested := requested + [extensionsUri];
    var extensionsResp := get(extensionsUri);
    if extensionsResp.None? || extensionsResp.value.status != 200 {
      return None, requested;
    }
    location := MatchTag(extensionsResp.value.text, LocationTag);
  }

  /** The metadata service decides alone: an answer that is truthy (per `truthy`). */
  predicate MetadataDecides(get: string -> Option<Response>, truthy: Response -> bool) {
    get(MetadataUrl).Some? && truthy(get(MetadataUrl).value)
  }

  /** No nameserver before position `k` yields a location. */
  ghost predicate NoneLocatedBefore(nameservers: seq<string>, k: nat, get: string -> Option<Response>, decode: string -> string) {
    k <= |nameservers| && forall j :: 0 <= j < k ==> WireLocation(nameservers[j], get, decode).None?
  }

  /** Position `k` holds the first nameserver that yields a location. */
  ghost predicate FirstLocated(nameservers: seq<string>, k: nat, get: string -> Option<Response>, decode: string -> string) {
    k < |nameservers| && NoneLocatedBefore(nameservers, k, get, decode) &&
    WireLocation(nameservers[k], get, decode).Some?
  }

  /**
   * `generateRegionSrvArgs`: `get` answers each URL (`None` when the request
   * raises), `truthy` is the truth value of a response, `nameservers` the
   * resolver's list and `decode` the unescaping and unquoting of the URI.
   * Returns the hint and the URLs requested, in order.
   */
  method GenerateRegionSrvArgs(get: string -> Option<Response>, truthy: Response -> bool,
                               nameservers: seq<string>, decode: string -> string)
    returns (hint: Option<string>, requested: seq<string>)
    ensures |requested| >= 1 && requested[0] == MetadataUrl
    ensures MetadataDecides(get, truthy) ==> requested == [MetadataUrl]
    ensures MetadataDecides(get, truthy) ==>
      hint == if get(MetadataUrl).value.status == 200 then Some("regionHint=" + get(MetadataUrl).value.text) else None
    ensures !MetadataDecides(get, truthy) && hint.None? ==>
      NoneLocatedBefore(nameservers, |nameservers|, get, decode) &&
      requested == [MetadataUrl] + AllWireRequests(nameservers, get, decode)
    ensures !MetadataDecides(get, truthy) && hint.Some? ==>
      exists k: nat {:trigger FirstLocated(nameservers, k, get, decode)} ::
        FirstLocated(nameservers, k, get, decode) &&
        hint == Some("regionHint=" + WireLocation(nameservers[k], get, decode).value) &&
        requested == [MetadataUrl] + AllWireRequests(nameservers[..k + 1], get, decode)
  {
    var zoneResp := get(MetadataUrl);
    if zoneResp.Some? && truthy(zoneResp.value) {
      if zoneResp.value.status == 200 {
        return Some("regionHint=" + zoneResp.value.text), [MetadataUrl];
      }
      return None, [MetadataUrl];
    }
    var wire: seq<string> := [];
    for i := 0 to |nameservers|
      invariant NoneLocatedBefore(nameservers, i, get, decode)
      invariant wire == AllWireRequests(nameservers[..i], get, decode)
    {
      AllWireRequestsSnoc(nameservers, i, get, decode);
      var location, made := TryNameserver(nameservers[i], get, decode);
      wire := wire + made;
      if location.Some? {
        assert FirstLocated(nameservers, i, get, decode);
        return Some("regionHint=" + location.value), [MetadataUrl] + wire;
      }
    }
    assert nameservers[..|nameservers|] == nameservers;
    return None, [MetadataUrl] + wire;
  }
}
