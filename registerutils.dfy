/**
 * Registration-state utilities of the guest registration client: the
 * `/etc/hosts` entries the client adds for a registration server, the zypper
 * repository, service and credential files it creates, the certificate
 * download retry loop and the small checks around them.
 *
 * The host is a `Host` object holding the lines of `/etc/hosts` and the set of
 * paths that exist; the operations that rewrite files are methods on it, each
 * specified by a pure function of the old state. Network answers and the
 * contents of other files are parameters.
 */
module RegisterUtils {
  import opened Wrappers
  import opened Text
  import opened Http
  import opened SmtServer

  const RegistrationDataDir := "/var/lib/cloudregister/"
  const RegisteredSmtFile := RegistrationDataDir + "currentSMTInfo.obj"
  const NccCredentials := "/etc/zypp/credentials.d/NCCcredentials"
  const SccCredentials := "/etc/zypp/credentials.d/SCCcredentials"
  const CredentialFiles := {NccCredentials, SccCredentials}
  const ReposDir := "/etc/zypp/repos.d/"
  const ServicesDir := "/etc/zypp/services.d/"
  const SuseRelease := "/etc/SuSE-release"
  /** The comment line the client writes above each hosts entry it adds. */
  const SmtMarker := "# Added by SMT"
  const Sles11Marker := "SUSE Linux Enterprise Server 11"

  // ------------------------------------------------------------------
  // Repository and service names

  /** The key used to find a server's repositories and services: the server name with every '.' turned into '_'. */
  function RepoKey(serverName: string): (r: string)
    ensures |r| == |serverName| && '.' !in r
    ensures forall i :: 0 <= i < |r| ==> r[i] == (if serverName[i] == '.' then '_' else serverName[i])
  {
    ReplaceRemoves(serverName, '.', '_');
    Replace(serverName, '.', '_')
  }

  /** Names that differ only by '.' against '_' share a key, so the files of one are taken for the other's. */
  lemma KeyConflatesDotAndUnderscore(a: string, b: string)
    requires |a| == |b|
    requires forall i :: 0 <= i < |a| ==> a[i] == b[i] || (a[i] in "._" && b[i] in "._")
    ensures RepoKey(a) == RepoKey(b)
  {
    var ka, kb := RepoKey(a), RepoKey(b);
    forall i | 0 <= i < |a| ensures ka[i] == kb[i] {
      if a[i] != b[i] {
        assert a[i] in "._" && b[i] in "._";
      }
    }
  }

  /**
   * `glob.glob(dir + '*' + key + '*')`: a non-hidden file directly inside
   * `dir` whose name contains `key`.
   */
  predicate GlobMatch(path: string, dir: string, key: string) {
    dir <= path && var base := path[|dir|..];
    |base| > 0 && base[0] != '.' && '/' !in base && Contains(base, key)
  }

  function Glob(paths: set<string>, dir: string, key: string): set<string> {
    set p | p in paths && GlobMatch(p, dir, key)
  }

  function RepoFiles(paths: set<string>, serverName: string): set<string> {
    Glob(paths, ReposDir, RepoKey(serverName))
  }

  function ServiceFiles(paths: set<string>, serverName: string): set<string> {
    Glob(paths, ServicesDir, RepoKey(serverName))
  }

  /** `has_repos`. */
  predicate HasRepos(paths: set<string>, serverName: string) {
    RepoFiles(paths, serverName) != {}
  }

  /** `has_credentials`. */
  predicate HasCredentials(paths: set<string>) {
    NccCredentials in paths || SccCredentials in paths
  }

  /** Deleting files removes them from every glob and changes nothing else in it. */
  lemma GlobAfterUnlink(paths: set<string>, gone: set<string>, dir: string, key: string)
    ensures Glob(paths - gone, dir, key) == Glob(paths, dir, key) - gone
  {
  }

  // ------------------------------------------------------------------
  // /etc/hosts

  /**
   * The scanner of `clean_hosts_file`: a marker line raises the flag and is
   * dropped; while the flag is up, the next line naming the domain is dropped
   * and lowers it; every other line is kept.
   */
  function CleanFrom(lines: seq<string>, domain: string, announced: bool): seq<string> {
    if lines == [] then []
    else if Contains(lines[0], SmtMarker) then CleanFrom(lines[1..], domain, true)
    else if announced && Contains(lines[0], domain) then CleanFrom(lines[1..], domain, false)
    else [lines[0]] + CleanFrom(lines[1..], domain, announced)
  }

  /** The new contents of `/etc/hosts` after `clean_hosts_file(domain)`. */
  function CleanedHosts(lines: seq<string>, domain: string): seq<string> {
    CleanFrom(lines, domain, false)
  }

  /** `a` is `b` with some elements left out, order kept. */
  ghost predicate IsSubsequence<T>(a: seq<T>, b: seq<T>) {
    if a == [] then true
    else if b == [] then false
    else (a[0] == b[0] && IsSubsequence(a[1..], b[1..])) || IsSubsequence(a, b[1..])
  }

  predicate NoMarker(lines: seq<string>) {
    forall i :: 0 <= i < |lines| ==> !Contains(lines[i], SmtMarker)
  }

  /** No marker line survives cleaning. */
  lemma {:induction false} CleanRemovesMarkers(lines: seq<string>, domain: string, announced: bool)
    ensures NoMarker(CleanFrom(lines, domain, announced))
  {
    if lines != [] {
      CleanRemovesMarkers(lines[1..], domain, true);
      CleanRemovesMarkers(lines[1..], domain, false);
      CleanRemovesMarkers(lines[1..], domain, announced);
    }
  }

  /** Cleaning only drops lines: what is left is the input in its original order. */
  lemma {:induction false} CleanIsSubsequence(lines: seq<string>, domain: string, announced: bool)
    ensures IsSubsequence(CleanFrom(lines, domain, announced), lines)
  {
    if lines != [] {
      CleanIsSubsequence(lines[1..], domain, true);
      CleanIsSubsequence(lines[1..], domain, false);
      CleanIsSubsequence(lines[1..], domain, announced);
    }
  }

  /**
   * With the flag down, a run of lines without a marker is kept whole, domain
   * lines included, wherever markers occur later in the file.
   */
  lemma {:induction false} CleanKeepsUnmarked(mid: seq<string>, rest: seq<string>, domain: string)
    requires NoMarker(mid)
    ensures CleanFrom(mid + rest, domain, false) == mid + CleanFrom(rest, domain, false)
  {
    if mid == [] {
      assert [] + rest == rest;
    } else {
      assert (mid + rest)[0] == mid[0];
      assert (mid + rest)[1..] == mid[1..] + rest;
      CleanKeepsUnmarked(mid[1..], rest, domain);
    }
  }

  /** Cleaning twice is cleaning once, whatever domain the second pass uses. */
  lemma CleanIdempotent(lines: seq<string>, domain: string, other: string)
    ensures CleanedHosts(CleanedHosts(lines, domain), other) == CleanedHosts(lines, domain)
  {
    var once := CleanedHosts(lines, domain);
    CleanRemovesMarkers(lines, domain, false);
    CleanKeepsUnmarked(once, [], other);
    assert once + [] == once;
  }

  predicate Plain(lines: seq<string>, domain: string) {
    forall i :: 0 <= i < |lines| ==> !Contains(lines[i], SmtMarker) && !Contains(lines[i], domain)
  }

  /** With the flag up, lines naming neither marker nor domain are kept and the first domain line is dropped. */
  lemma {:induction false} CleanAnnounced(mid: seq<string>, entry: string, rest: seq<string>, domain: string)
    requires Plain(mid, domain)
    requires !Contains(entry, SmtMarker) && Contains(entry, domain)
    ensures CleanFrom(mid + [entry] + rest, domain, true) == mid + CleanFrom(rest, domain, false)
  {
    if mid == [] {
      assert [] + [entry] + rest == [entry] + rest;
      assert ([entry] + rest)[1..] == rest;
    } else {
      assert (mid + [entry] + rest)[1..] == mid[1..] + [entry] + rest;
      CleanAnnounced(mid[1..], entry, rest, domain);
    }
  }

  /** A marker, then unrelated lines, then the server line: marker and server line go, the rest stays. */
  lemma CleanDropsAnnouncedEntry(marker: string, mid: seq<string>, entry: string, rest: seq<string>, domain: string, announced: bool)
    requires Contains(marker, SmtMarker)
    requires Plain(mid, domain)
    requires !Contains(entry, SmtMarker) && Contains(entry, domain)
    ensures CleanFrom([marker] + mid + [entry] + rest, domain, announced) == mid + CleanFrom(rest, domain, false)
  {
    assert ([marker] + mid + [entry] + rest)[1..] == mid + [entry] + rest;
    CleanAnnounced(mid, entry, rest, domain);
  }

  /** The line `replace_hosts_entry` writes for the new server. */
  function HostsLine(s: Smt): string {
    GetIp(s) + "\t" + GetFqdn(s) + "\t" + GetName(s) + "\n"
  }

  /**
   * `replace_hosts_entry` as written: each line holding the current IP becomes
   * the new server's line, and the first line without it raises `NameError`
   * (the loop appends to the undefined `newHosts`), here `None`.
   */
  function ReplacedHostsAsWritten(lines: seq<string>, ip: string, newSmt: Smt): (r: Option<seq<string>>)
    ensures r.Some? <==> forall i :: 0 <= i < |lines| ==> Contains(lines[i], ip)
    ensures r.Some? ==> |r.value| == |lines| && forall i :: 0 <= i < |lines| ==> r.value[i] == HostsLine(newSmt)
  {
    if lines == [] then Some([])
    else if !Contains(lines[0], ip) then None
    else
      match ReplacedHostsAsWritten(lines[1..], ip, newSmt)
      case None => None
      case Some(tail) => Some([HostsLine(newSmt)] + tail)
  }

  /** What `replace_hosts_entry` evidently intends: replace the lines holding the IP, keep every other line. */
  function ReplacedHosts(lines: seq<string>, ip: string, newSmt: Smt): (r: seq<string>)
    ensures |r| == |lines|
    ensures forall i :: 0 <= i < |lines| ==> r[i] == if Contains(lines[i], ip) then HostsLine(newSmt) else lines[i]
  {
    if lines == [] then []
    else [if Contains(lines[0], ip) then HostsLine(newSmt) else lines[0]] + ReplacedHosts(lines[1..], ip, newSmt)
  }

  /** Where the code as written does not fail, it agrees with the intended rewrite. */
  lemma ReplaceAsWrittenAgrees(lines: seq<string>, ip: string, newSmt: Smt)
    ensures ReplacedHostsAsWritten(lines, ip, newSmt).Some? ==>
      ReplacedHostsAsWritten(lines, ip, newSmt).value == ReplacedHosts(lines, ip, newSmt)
  {
  }

  /** An ordinary hosts file (an IPv6 `localhost` line beside the server's line) makes the code as written fail. */
  lemma ReplaceFailsOnForeignLine()
    ensures var current := Smt("10.100.200.250", "smt.example.com", "AA:BB");
            var next := Smt("10.100.200.251", "smt2.example.com", "AA:BB");
            var lines := ["::1 localhost\n", "10.100.200.250\tsmt.example.com\tsmt\n"];
            ReplacedHostsAsWritten(lines, GetIp(current), next).None? &&
            ReplacedHosts(lines, GetIp(current), next) == [lines[0], HostsLine(next)]
  {
    var ip := "10.100.200.250";
    var lines := ["::1 localhost\n", "10.100.200.250\tsmt.example.com\tsmt\n"];
    assert At(lines[1], 0, ip);
    forall i: nat | i <= |lines[0]| ensures !At(lines[0], i, ip) {
      if i == 0 {
        assert lines[0][0] != ip[0];
      }
    }
  }

  // ------------------------------------------------------------------
  // Removing the registration data of several servers

  /** The files `remove_repos`, `remove_credentials` and `remove_service` delete for one server, in that order. */
  function ServerDataRemoved(paths: set<string>, s: Smt): set<string> {
    var withoutRepos := paths - RepoFiles(paths, GetFqdn(s));
    var withoutCredentials := withoutRepos - CredentialFiles;
    withoutCredentials - ServiceFiles(withoutCredentials, GetFqdn(s))
  }

  /** The paths left after the loop of `remove_registration_data` over `servers`. */
  function AllServerDataRemoved(paths: set<string>, servers: seq<Smt>): set<string>
    decreases |servers|
  {
    if servers == [] then paths
    else ServerDataRemoved(AllServerDataRemoved(paths, servers[..|servers| - 1]), servers[|servers| - 1])
  }

  /** The `/etc/hosts` lines left after the loop of `remove_registration_data` over `servers`. */
  function AllHostsCleaned(lines: seq<string>, servers: seq<Smt>): seq<string>
    decreases |servers|
  {
    if servers == [] then lines
    else CleanedHosts(AllHostsCleaned(lines, servers[..|servers| - 1]), GetDomainName(servers[|servers| - 1]))
  }

  /** A path among the repositories or services of server `s`. */
  predicate OfServer(p: string, s: Smt) {
    GlobMatch(p, ReposDir, RepoKey(GetFqdn(s))) || GlobMatch(p, ServicesDir, RepoKey(GetFqdn(s)))
  }

  /** A path that `remove_registration_data(servers)` deletes, apart from the registered-server file. */
  predicate Doomed(p: string, servers: seq<Smt>) {
    (servers != [] && p in CredentialFiles) || exists k :: 0 <= k < |servers| && OfServer(p, servers[k])
  }

  lemma DoomedSnoc(p: string, servers: seq<Smt>)
    requires servers != []
    ensures Doomed(p, servers) <==>
      Doomed(p, servers[..|servers| - 1]) || p in CredentialFiles || OfServer(p, servers[|servers| - 1])
  {
    var init := servers[..|servers| - 1];
    if exists k :: 0 <= k < |servers| && OfServer(p, servers[k]) {
      var k :| 0 <= k < |servers| && OfServer(p, servers[k]);
      if k < |init| {
        assert init[k] == servers[k];
      }
    }
    if exists k :: 0 <= k < |init| && OfServer(p, init[k]) {
      var k :| 0 <= k < |init| && OfServer(p, init[k]);
      assert init[k] == servers[k];
    }
  }

  /**
   * The loop deletes exactly the credentials (when there is a server) and the
   * repositories and services matching any one of the servers; every other path stays.
   */
  lemma {:induction false} AllServerDataRemovedExactly(paths: set<string>, servers: seq<Smt>)
    ensures AllServerDataRemoved(paths, servers) == set p | p in paths && !Doomed(p, servers)
  {
    if servers != [] {
      var init := servers[..|servers| - 1];
      AllServerDataRemovedExactly(paths, init);
      forall p ensures p in AllServerDataRemoved(paths, servers) <==> p in paths && !Doomed(p, servers) {
        DoomedSnoc(p, servers);
      }
    }
  }

  /**
   * Only the first server's domain matters for `/etc/hosts`: once one pass has
   * removed every marker, the later passes change nothing.
   */
  lemma {:induction false} AllHostsCleanedByFirst(lines: seq<string>, servers: seq<Smt>)
    requires servers != []
    ensures AllHostsCleaned(lines, servers) == CleanedHosts(lines, GetDomainName(servers[0]))
  {
    var init := servers[..|servers| - 1];
    if init == [] {
      assert AllHostsCleaned(lines, init) == lines;
    } else {
      AllHostsCleanedByFirst(lines, init);
      assert init[0] == servers[0];
      CleanIdempotent(lines, GetDomainName(servers[0]), GetDomainName(servers[|servers| - 1]));
    }
  }

  // ------------------------------------------------------------------
  // Certificate download, release check, zypper command line, fingerprint

  /** The answer kept after `n` attempts: the last one that did not raise, `None` if all raised. */
  function LastResponse(attempt: nat -> Option<Response>, n: nat): Option<Response> {
    if n == 0 then None
    else if attempt(n - 1).Some? then attempt(n - 1)
    else LastResponse(attempt, n - 1)
  }

  /** No certificate is returned exactly when every attempt raised. */
  lemma {:induction false} LastResponseNone(attempt: nat -> Option<Response>, n: nat)
    ensures LastResponse(attempt, n).None? <==> forall i :: 0 <= i < n ==> attempt(i).None?
  {
    if n > 0 {
      LastResponseNone(attempt, n - 1);
    }
  }

  /** A later success replaces an earlier one: the result is the answer of the last attempt that succeeded. */
  lemma {:induction false} LastResponseIsLastSuccess(attempt: nat -> Option<Response>, n: nat, i: nat)
    requires i < n && attempt(i).Some?
    requires forall j :: i < j < n ==> attempt(j).None?
    ensures LastResponse(attempt, n) == attempt(i)
  {
    if i < n - 1 {
      LastResponseIsLastSuccess(attempt, n - 1, i);
    }
  }

  /**
   * `get_smt_cert`: `attempt(k)` is what the (k+1)-th request for
   * `http://<ip>/smt.crt` gives (`None` when it raises). The loop does not stop
   * at a success: it always makes `max(retries, 0)` attempts.
   */
  method GetSmtCert(retries: int, attempt: nat -> Option<Response>) returns (cert: Option<Response>, attempts: nat)
    ensures attempts == if retries > 0 then retries else 0
    ensures cert == LastResponse(attempt, attempts)
  {
    cert := None;
    attempts := 0;
    while attempts < retries
      invariant attempts == 0 || attempts <= retries
      invariant cert == LastResponse(attempt, attempts)
      decreases retries - attempts
    {
      attempts := attempts + 1;
      match attempt(attempts - 1)
      case Some(response) =>
        cert := Some(response);
      case None =>
    }
  }

  /** Some line contains `needle`: the scan of `is_sles11`, which returns at the first hit. */
  function AnyLineContains(lines: seq<string>, needle: string): (r: bool)
    ensures r <==> exists i :: 0 <= i < |lines| && Contains(lines[i], needle)
  {
    if lines == [] then false
    else if Contains(lines[0], needle) then true
    else
      var rest := AnyLineContains(lines[1..], needle);
      assert forall i :: 1 <= i < |lines| ==> lines[i] == lines[1..][i - 1];
      rest
  }

  /** `is_sles11`: `release` is the contents of `/etc/SuSE-release`, `None` when the file does not exist. */
  function IsSles11(release: Option<seq<string>>): (r: bool)
    ensures r <==> release.Some? && exists i :: 0 <= i < |release.value| && Contains(release.value[i], Sles11Marker)
  {
    release.Some? && AnyLineContains(release.value, Sles11Marker)
  }

  /**
   * `get_zypper_command`: `zypperPid` is the stripped output of `ps`, and
   * `read` gives the contents of a file under `/proc`. No zypper, no command;
   * otherwise its command line with the NUL separators turned into spaces.
   */
  function GetZypperCommand(zypperPid: string, read: string -> string): (r: Option<string>)
    ensures r.Some? <==> zypperPid != ""
    ensures r.Some? ==> var raw := read("/proc/" + zypperPid + "/cmdline");
      |r.value| == |raw| && '\0' !in r.value &&
      forall i :: 0 <= i < |raw| ==> r.value[i] == if raw[i] == '\0' then ' ' else raw[i]
  {
    if zypperPid == "" then None
    else
      var raw := read("/proc/" + zypperPid + "/cmdline");
      ReplaceRemoves(raw, '\0', ' ');
      Some(Replace(raw, '\0', ' '))
  }

  /**
   * The comparison of `is_x509_fingerprint_valid`: `certFingerprint` is the
   * SHA-1 fingerprint read from the downloaded certificate, `None` when it
   * cannot be read. It must equal the stored fingerprint without its colons.
   */
  function IsX509FingerprintValid(certFingerprint: Option<string>, smt: Smt): (r: bool)
    ensures r ==> certFingerprint.Some? && ':' !in certFingerprint.value
  {
    certFingerprint.Some? && certFingerprint.value == Strip(GetFingerprint(smt), ':')
  }

  /** A fingerprint written in pairs separated by colons (`AB:CD:...`). */
  function Colonized(hex: string): string
    decreases |hex|
  {
    if |hex| <= 2 then hex else hex[..2] + ":" + Colonized(hex[2..])
  }

  /** A stored fingerprint in colon form is accepted for the certificate it was written from. */
  lemma {:induction false} ColonizedAccepted(hex: string, smt: Smt)
    requires ':' !in hex
    requires GetFingerprint(smt) == Colonized(hex)
    ensures IsX509FingerprintValid(Some(hex), smt)
  {
    ColonizedStrips(hex);
  }

  lemma {:induction false} ColonizedStrips(hex: string)
    requires ':' !in hex
    ensures Strip(Colonized(hex), ':') == hex
    decreases |hex|
  {
    if |hex| <= 2 {
      StripFree(hex, ':');
    } else {
      assert ':' !in hex[..2] && ':' !in hex[2..];
      ColonizedStrips(hex[2..]);
      StripConcat(hex[..2] + ":", Colonized(hex[2..]), ':');
      StripConcat(hex[..2], ":", ':');
      StripFree(hex[..2], ':');
      assert hex[..2] + hex[2..] == hex;
    }
  }

  /** Colons in the stored fingerprint never decide the outcome. */
  lemma ColonsIgnored(certFingerprint: Option<string>, a: Smt, b: Smt)
    requires Strip(GetFingerprint(a), ':') == Strip(GetFingerprint(b), ':')
    ensures IsX509FingerprintValid(certFingerprint, a) == IsX509FingerprintValid(certFingerprint, b)
  {
  }

  // ------------------------------------------------------------------
  // The host's files

  class Host {
    /** The lines of `/etc/hosts`, each with its line terminator. */
    var hosts: seq<string>
    /** The paths that exist on the host. */
    var paths: set<string>

    constructor (hosts: seq<string>, paths: set<string>)
      ensures this.hosts == hosts && this.paths == paths
    {
      this.hosts := hosts;
      this.paths := paths;
    }

    /** `clean_hosts_file`: drops the entries the client added for a server of `domainName`. */
    method CleanHostsFile(domainName: string)
      modifies this
      ensures hosts == CleanedHosts(old(hosts), domainName)
      ensures paths == old(paths)
    {
      var content := hosts;
      var newContent: seq<string> := [];
      var announced := false;
      var i := 0;
      while i < |content|
        invariant 0 <= i <= |content|
        invariant newContent + CleanFrom(content[i..], domainName, announced) == CleanedHosts(content, domainName)
        invariant hosts == old(hosts) && paths == old(paths)
      {
        var entry := content[i];
        assert content[i..][1..] == content[i + 1..];
        if Contains(entry, SmtMarker) {
          announced := true;
        } else if announced && Contains(entry, domainName) {
          announced := false;
        } else {
          newContent := newContent + [entry];
        }
        i := i + 1;
      }
      hosts := newContent;
    }

    /**
     * `replace_hosts_entry` as written: fails with `NameError` on the first
     * line that does not hold the current server's IP, before `/etc/hosts`
     * is rewritten.
     */
    method ReplaceHostsEntry(currentSmt: Smt, newSmt: Smt) returns (nameError: bool)
      modifies this
      ensures nameError <==> ReplacedHostsAsWritten(old(hosts), GetIp(currentSmt), newSmt).None?
      ensures hosts == if nameError then old(hosts) else ReplacedHostsAsWritten(old(hosts), GetIp(currentSmt), newSmt).value
      ensures paths == old(paths)
    {
      var knownHosts := hosts;
      var newHosts: seq<string> := [];
      var currentIp := GetIp(currentSmt);
      var i := 0;
      while i < |knownHosts|
        invariant 0 <= i <= |knownHosts|
        invariant forall k :: 0 <= k < i ==> Contains(knownHosts[k], currentIp)
        invariant |newHosts| == i && forall k :: 0 <= k < i ==> newHosts[k] == HostsLine(newSmt)
        invariant hosts == old(hosts) && paths == old(paths)
      {
        if Contains(knownHosts[i], currentIp) {
          newHosts := newHosts + [HostsLine(newSmt)];
        } else {
          return true;
        }
        i := i + 1;
      }
      hosts := newHosts;
      return false;
    }

    /** `replace_hosts_entry` as intended: the lines holding the current IP are replaced, the others kept. */
    method ReplaceHostsEntryCorrected(currentSmt: Smt, newSmt: Smt)
      modifies this
      ensures hosts == ReplacedHosts(old(hosts), GetIp(currentSmt), newSmt)
      ensures paths == old(paths)
    {
      var knownHosts := hosts;
      var newHosts: seq<string> := [];
      var currentIp := GetIp(currentSmt);
      var i := 0;
      while i < |knownHosts|
        invariant 0 <= i <= |knownHosts|
        invariant newHosts == ReplacedHosts(knownHosts[..i], currentIp, newSmt)
        invariant hosts == old(hosts) && paths == old(paths)
      {
        assert knownHosts[..i + 1] == knownHosts[..i] + [knownHosts[i]];
        ReplacedHostsAppend(knownHosts[..i], knownHosts[i], currentIp, newSmt);
        if Contains(knownHosts[i], currentIp) {
          newHosts := newHosts + [HostsLine(newSmt)];
        } else {
          newHosts := newHosts + [knownHosts[i]];
        }
        i := i + 1;
      }
      assert knownHosts[..i] == knownHosts;
      hosts := newHosts;
    }

    /** Deletes each of `files` in turn (the `os.unlink` loops). */
    method UnlinkAll(files: set<string>)
      modifies this
      ensures paths == old(paths) - files
      ensures hosts == old(hosts)
    {
      var remaining := files;
      while remaining != {}
        invariant remaining <= files
        invariant paths == old(paths) - (files - remaining)
        invariant hosts == old(hosts)
        decreases remaining
      {
        var file :| file in remaining;
        paths := paths - {file};
        remaining := remaining - {file};
      }
    }

    /** `remove_repos`: deletes the repository files matching the server's key. */
    method RemoveRepos(serverName: string)
      modifies this
      ensures paths == old(paths) - RepoFiles(old(paths), serverName)
      ensures !HasRepos(paths, serverName)
      ensures hosts == old(hosts)
    {
      UnlinkAll(RepoFiles(paths, serverName));
      GlobAfterUnlink(old(paths), RepoFiles(old(paths), serverName), ReposDir, RepoKey(serverName));
    }

    /** `remove_service`: deletes the service files matching the server's key. */
    method RemoveService(serverName: string)
      modifies this
      ensures paths == old(paths) - ServiceFiles(old(paths), serverName)
      ensures hosts == old(hosts)
    {
      UnlinkAll(ServiceFiles(paths, serverName));
    }

    /** `remove_credentials`: deletes whichever of the two credential files exist. */
    method RemoveCredentials()
      modifies this
      ensures paths == old(paths) - CredentialFiles
      ensures !HasCredentials(paths)
      ensures hosts == old(hosts)
    {
      if NccCredentials in paths {
        paths := paths - {NccCredentials};
      }
      if SccCredentials in paths {
        paths := paths - {SccCredentials};
      }
    }

    /**
     * `check_registration`: registered when both repositories and credentials
     * exist; a lone half is removed, so an unregistered host is left with neither.
     */
    method CheckRegistration(serverName: string) returns (registered: bool)
      modifies this
      ensures registered <==> HasRepos(old(paths), serverName) && HasCredentials(old(paths))
      ensures paths ==
        if HasRepos(old(paths), serverName) && !HasCredentials(old(paths)) then old(paths) - RepoFiles(old(paths), serverName)
        else if HasCredentials(old(paths)) && !HasRepos(old(paths), serverName) then old(paths) - CredentialFiles
        else old(paths)
      ensures !registered ==> !HasRepos(paths, serverName) && !HasCredentials(paths)
      ensures hosts == old(hosts)
    {
      var credentialsExist := HasCredentials(paths);
      var reposExist := HasRepos(paths, serverName);
      if reposExist && credentialsExist {
        return true;
      } else if reposExist && !credentialsExist {
        RemoveRepos(serverName);
      } else if credentialsExist && !reposExist {
        RemoveCredentials();
        GlobAfterUnlink(old(paths), CredentialFiles, ReposDir, RepoKey(serverName));
      }
      return false;
    }

    /** `is_registered`: the registration check for the server's FQDN. */
    method IsRegistered(smt: Smt) returns (registered: bool)
      modifies this
      ensures registered <==> HasRepos(old(paths), GetFqdn(smt)) && HasCredentials(old(paths))
      ensures paths ==
        if HasRepos(old(paths), GetFqdn(smt)) && !HasCredentials(old(paths)) then old(paths) - RepoFiles(old(paths), GetFqdn(smt))
        else if HasCredentials(old(paths)) && !HasRepos(old(paths), GetFqdn(smt)) then old(paths) - CredentialFiles
        else old(paths)
      ensures !registered ==> !HasRepos(paths, GetFqdn(smt)) && !HasCredentials(paths)
      ensures hosts == old(hosts)
    {
      registered := CheckRegistration(GetFqdn(smt));
    }

    /**
     * `remove_registration_data`: deletes the registered-server file, then for
     * each server cleans `/etc/hosts` for its domain and deletes its
     * repositories, the credentials and its services.
     */
    method RemoveRegistrationData(servers: seq<Smt>)
      modifies this
      ensures hosts == AllHostsCleaned(old(hosts), servers)
      ensures paths == AllServerDataRemoved(old(paths) - {RegisteredSmtFile}, servers)
    {
      if RegisteredSmtFile in paths {
        paths := paths - {RegisteredSmtFile};
      }
      ghost var start := paths;
      var i := 0;
      while i < |servers|
        invariant 0 <= i <= |servers|
        invariant start == old(paths) - {RegisteredSmtFile}
        invariant hosts == AllHostsCleaned(old(hosts), servers[..i])
        invariant paths == AllServerDataRemoved(start, servers[..i])
      {
        var smt := servers[i];
        assert servers[..i + 1][..i] == servers[..i];
        CleanHostsFile(GetDomainName(smt));
        RemoveRepos(GetFqdn(smt));
        RemoveCredentials();
        RemoveService(GetFqdn(smt));
        i := i + 1;
      }
      assert servers[..i] == servers;
    }
  }

  lemma ReplacedHostsAppend(lines: seq<string>, line: string, ip: string, newSmt: Smt)
    ensures ReplacedHosts(lines + [line], ip, newSmt) ==
      ReplacedHosts(lines, ip, newSmt) + [if Contains(line, ip) then HostsLine(newSmt) else line]
  {
  }
}
