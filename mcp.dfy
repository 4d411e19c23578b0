/**
 * Region hint of the MCP plugin: the region configured for the instance, or
 * the geography prefix of the region server that answered fastest.
 */
module Mcp {
  import opened Wrappers
  import opened Text

  /** A parsed configuration file: section, then option, then value. */
  type Config = map<string, map<string, string>>

  /** The two `configparser` errors `cfg.get` raises. */
  datatype ConfigError = NoSectionError(section: string) | NoOptionError(section: string, option: string)

  /** `cfg.get(section, option)`. */
  function Get(cfg: Config, section: string, option: string): (r: Result<string, ConfigError>)
    ensures r.Ok? <==> section in cfg && option in cfg[section]
    ensures r.Ok? ==> r.value == cfg[section][option]
    ensures r == Err(NoSectionError(section)) <==> section !in cfg
    ensures r == Err(NoOptionError(section, option)) <==> section in cfg && option !in cfg[section]
  {
    if section !in cfg then Err(NoSectionError(section))
    else if option !in cfg[section] then Err(NoOptionError(section, option))
    else Ok(cfg[section][option])
  }

  function ServerUrl(server: string, api: string): string {
    "https://" + server + "/" + api
  }

  /**
   * The `results` list: the elapsed time of each request that did not raise,
   * in server order. `latency` answers a URL with its elapsed time, or `None`
   * for a connection or SSL error.
   */
  function Latencies(servers: seq<string>, api: string, latency: string -> Option<nat>): (r: seq<nat>)
    ensures |r| <= |servers|
    decreases |servers|
  {
    if servers == [] then []
    else
      var init := Latencies(servers[..|servers| - 1], api, latency);
      match latency(ServerUrl(servers[|servers| - 1], api))
      case Some(t) => init + [t]
      case None => init
  }

  /** When every server answers, `results` lines up with `servers`. */
  lemma {:induction false} LatenciesAllAnswered(servers: seq<string>, api: string, latency: string -> Option<nat>)
    requires forall k :: 0 <= k < |servers| ==> latency(ServerUrl(servers[k], api)).Some?
    ensures |Latencies(servers, api, latency)| == |servers|
    ensures forall k :: 0 <= k < |servers| ==>
      Latencies(servers, api, latency)[k] == latency(ServerUrl(servers[k], api)).value
  {
    if servers != [] {
      var init := servers[..|servers| - 1];
      assert forall k :: 0 <= k < |init| ==> init[k] == servers[k];
      LatenciesAllAnswered(init, api, latency);
    }
  }

  /** The number of servers whose request raised. */
  function FailedCount(servers: seq<string>, api: string, latency: string -> Option<nat>): (r: nat)
    ensures r <= |servers|
    decreases |servers|
  {
    if servers == [] then 0
    else
      FailedCount(servers[..|servers| - 1], api, latency) +
      (if latency(ServerUrl(servers[|servers| - 1], api)).None? then 1 else 0)
  }

  /** Every server either adds one entry to `results` or is counted as failed. */
  lemma {:induction false} LatenciesCount(servers: seq<string>, api: string, latency: string -> Option<nat>)
    ensures |Latencies(servers, api, latency)| + FailedCount(servers, api, latency) == |servers|
    decreases |servers|
  {
    if servers != [] {
      LatenciesCount(servers[..|servers| - 1], api, latency);
    }
  }

  /** Probing two lists one after the other appends their `results`. */
  lemma {:induction false} LatenciesAppend(a: seq<string>, b: seq<string>, api: string, latency: string -> Option<nat>)
    ensures Latencies(a + b, api, latency) == Latencies(a, api, latency) + Latencies(b, api, latency)
    decreases |b|
  {
    if b == [] {
      assert a + b == a;
    } else {
      var init := b[..|b| - 1];
      assert (a + b)[..|a + b| - 1] == a + init;
      assert (a + b)[|a + b| - 1] == b[|b| - 1];
      LatenciesAppend(a, init, api, latency);
    }
  }

  /** `results` is empty exactly when every request raised. */
  lemma {:induction false} LatenciesEmpty(servers: seq<string>, api: string, latency: string -> Option<nat>)
    ensures Latencies(servers, api, latency) == [] <==>
      forall k :: 0 <= k < |servers| ==> latency(ServerUrl(servers[k], api)).None?
    decreases |servers|
  {
    if servers != [] {
      var init := servers[..|servers| - 1];
      assert forall k :: 0 <= k < |init| ==> init[k] == servers[k];
      LatenciesEmpty(init, api, latency);
    }
  }

  /** A lower bound on the answering servers' latencies bounds every entry of `results`. */
  lemma {:induction false} LatenciesAtLeast(servers: seq<string>, api: string, latency: string -> Option<nat>, b: nat)
    requires forall k :: 0 <= k < |servers| && latency(ServerUrl(servers[k], api)).Some? ==>
      b <= latency(ServerUrl(servers[k], api)).value
    ensures forall i :: 0 <= i < |Latencies(servers, api, latency)| ==> b <= Latencies(servers, api, latency)[i]
    decreases |servers|
  {
    if servers != [] {
      var init := servers[..|servers| - 1];
      assert forall k :: 0 <= k < |init| ==> init[k] == servers[k];
      LatenciesAtLeast(init, api, latency, b);
    }
  }

  /** `results.index(min(results))`: the first position of the smallest entry. */
  function FirstMinIndex(s: seq<nat>): (i: nat)
    requires |s| > 0
    ensures i < |s|
    ensures forall j :: 0 <= j < |s| ==> s[i] <= s[j]
    ensures forall j :: 0 <= j < i ==> s[i] < s[j]
  {
    if |s| == 1 then 0
    else
      var k := FirstMinIndex(s[1..]);
      if s[0] <= s[1 + k] then 0 else 1 + k
  }

  /** The geography of a region server name: `name[3:5]` after an `rgn` prefix, else `name[0:2]`. */
  function Geo(name: string): (r: string)
    ensures |r| <= 2
    ensures |name| >= 3 && name[..3] == "rgn" ==> r == name[3..if |name| < 5 then |name| else 5]
    ensures !(|name| >= 3 && name[..3] == "rgn") ==> r == name[..if |name| < 2 then |name| else 2]
  {
    if Slice(name, 0, 3) == "rgn" then Slice(name, 3, 5) else Slice(name, 0, 2)
  }

  /**
   * The geography chosen over a list of servers. The index into `results` is
   * used as an index into `servers`, so a server that did not answer shifts
   * the choice onto its neighbour.
   */
  function ClosestGeo(servers: seq<string>, api: string, latency: string -> Option<nat>): (r: string)
    ensures |r| <= 2
    ensures (forall k :: 0 <= k < |servers| ==> latency(ServerUrl(servers[k], api)).None?) ==> r == ""
  {
    var results := Latencies(servers, api, latency);
    LatenciesEmpty(servers, api, latency);
    if results == [] then "" else Geo(servers[FirstMinIndex(results)])
  }

  /** `determine_closest_region`, as a function of the configuration and the latencies. */
  function ClosestRegion(cfg: Config, latency: string -> Option<nat>): (r: Result<string, ConfigError>)
    ensures r.Err? <==> "server" !in cfg || "api" !in cfg["server"] || "regionsrv" !in cfg["server"]
    ensures r.Ok? ==> |r.value| <= 2
  {
    match Get(cfg, "server", "api")
    case Err(e) => Err(e)
    case Ok(api) =>
      match Get(cfg, "server", "regionsrv")
      case Err(e) => Err(e)
      case Ok(list) => Ok(ClosestGeo(Split(list, ','), api, latency))
  }

  /** When every server answers, the geography is that of a fastest server, the first one among ties. */
  lemma ClosestGeoAllAnswered(servers: seq<string>, api: string, latency: string -> Option<nat>)
    requires servers != []
    requires forall k :: 0 <= k < |servers| ==> latency(ServerUrl(servers[k], api)).Some?
    ensures exists i :: (0 <= i < |servers| && ClosestGeo(servers, api, latency) == Geo(servers[i]) &&
      (forall j :: 0 <= j < |servers| ==>
        latency(ServerUrl(servers[i], api)).value <= latency(ServerUrl(servers[j], api)).value) &&
      (forall j :: 0 <= j < i ==>
        latency(ServerUrl(servers[i], api)).value < latency(ServerUrl(servers[j], api)).value))
  {
    LatenciesAllAnswered(servers, api, latency);
    var results := Latencies(servers, api, latency);
    var i := FirstMinIndex(results);
    assert ClosestGeo(servers, api, latency) == Geo(servers[i]);
  }

  /**
   * The index shift in general: when `servers[j]` is the first fastest server
   * that answered, the geography is read from `servers[j - m]`, where `m` is
   * the number of failed servers before `j`. With `m >= 1` that is another,
   * earlier server.
   */
  lemma ClosestGeoMisattributes(servers: seq<string>, api: string, latency: string -> Option<nat>, j: nat)
    requires j < |servers| && latency(ServerUrl(servers[j], api)).Some?
    requires forall k :: 0 <= k < |servers| && latency(ServerUrl(servers[k], api)).Some? ==>
      latency(ServerUrl(servers[j], api)).value <= latency(ServerUrl(servers[k], api)).value
    requires forall k :: 0 <= k < j && latency(ServerUrl(servers[k], api)).Some? ==>
      latency(ServerUrl(servers[j], api)).value < latency(ServerUrl(servers[k], api)).value
    ensures ClosestGeo(servers, api, latency) == Geo(servers[j - FailedCount(servers[..j], api, latency)])
  {
    var t := latency(ServerUrl(servers[j], api)).value;
    var pre, post := servers[..j], servers[j + 1..];
    assert servers == pre + [servers[j]] + post;
    LatenciesAppend(pre + [servers[j]], post, api, latency);
    LatenciesAppend(pre, [servers[j]], api, latency);
    assert [servers[j]][..0] == [];
    var lpre, lpost := Latencies(pre, api, latency), Latencies(post, api, latency);
    var results := Latencies(servers, api, latency);
    assert results == lpre + [t] + lpost;
    LatenciesCount(pre, api, latency);
    assert forall k :: 0 <= k < |pre| ==> pre[k] == servers[k];
    assert forall k :: 0 <= k < |post| ==> post[k] == servers[j + 1 + k];
    LatenciesAtLeast(pre, api, latency, t + 1);
    LatenciesAtLeast(post, api, latency, t);
    var p := |lpre|;
    assert results[p] == t;
    var i := FirstMinIndex(results);
    assert results[i] <= t;
    assert i == p;
  }

  /** The first server fails and the second answers, yet the geography is taken from the first. */
  lemma ClosestGeoMisattributesExample()
    ensures ClosestGeo(["rgnaa", "rgnbb"], "api", u => if u == ServerUrl("rgnbb", "api") then Some(7) else None) == "aa"
  {
    var latency: string -> Option<nat> := u => if u == ServerUrl("rgnbb", "api") then Some(7) else None;
    var servers := ["rgnaa", "rgnbb"];
    assert ServerUrl("rgnaa", "api") != ServerUrl("rgnbb", "api") by {
      assert ServerUrl("rgnaa", "api")[11] != ServerUrl("rgnbb", "api")[11];
    }
    assert servers[..1][..0] == [];
    assert Latencies(servers[..1], "api", latency) == [];
    assert Latencies(servers, "api", latency) == [7];
  }

  /**
   * `determine_closest_region`: probes each server of `server/regionsrv` in
   * order, then picks by the first smallest latency; `""` when none answered.
   */
  method DetermineClosestRegion(cfg: Config, latency: string -> Option<nat>) returns (r: Result<string, ConfigError>)
    ensures r == ClosestRegion(cfg, latency)
    ensures r.Ok? ==> |r.value| <= 2
    ensures r.Err? <==> "server" !in cfg || "api" !in cfg["server"] || "regionsrv" !in cfg["server"]
  {
    var api :- Get(cfg, "server", "api");
    var list :- Get(cfg, "server", "regionsrv");
    var servers := Split(list, ',');
    var results: seq<nat> := [];
    for x := 0 to |servers|
      invariant results == Latencies(servers[..x], api, latency)
    {
      assert servers[..x + 1][..x] == servers[..x];
      match latency(ServerUrl(servers[x], api))
      case Some(elapsed) =>
        results := results + [elapsed];
      case None =>
    }
    assert servers[..|servers|] == servers;
    if results == [] {
      return Ok("");
    }
    var i := FirstMinIndex(results);
    return Ok(Geo(servers[i]));
  }

  /**
   * `generateRegionSrvArgs`: `instance/region` when configured, else the
   * closest region; a missing `instance` section is not caught.
   */
  method GenerateRegionSrvArgs(cfg: Config, latency: string -> Option<nat>) returns (r: Result<string, ConfigError>)
    ensures "instance" in cfg && "region" in cfg["instance"] ==> r == Ok("regionHint=" + cfg["instance"]["region"])
    ensures "instance" !in cfg ==> r == Err(NoSectionError("instance"))
    ensures "instance" in cfg && "region" !in cfg["instance"] ==>
      r == match ClosestRegion(cfg, latency)
           case Ok(geo) => Ok("regionHint=" + geo)
           case Err(e) => Err(e)
  {
    var geo: string;
    var region := Get(cfg, "instance", "region");
    if region.Ok? {
      geo := region.value;
    } else if region.error.NoSectionError? {
      return Err(region.error);
    } else {
      geo :- DetermineClosestRegion(cfg, latency);
    }
    return Ok("regionHint=" + geo);
  }
}
