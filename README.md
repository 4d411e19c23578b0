# cloud-regionsrv-client registration utilities, modelled in Dafny

This project models the guest registration client for SUSE cloud images
(`cloudregister`). It covers the small, sequential rules that the
registration driver relies on:

- the **SMT endpoint record**: the IP, FQDN and fingerprint of a registration
  server, and the split of the FQDN into host name and domain;
- the **registration-state utilities**:
  - the `/etc/hosts` scanner that removes the entries the client added;
  - the hosts-entry rewrite;
  - the repositories/credentials consistency check;
  - repository and service name mangling;
  - removal of a host's registration data;
  - the certificate download retry loop;
  - the SLES 11 check;
  - the zypper command line;
  - the certificate fingerprint comparison;
- the **region-hint plugins** for MCP (lowest-latency region server), Amazon
  EC2 (availability zone without its letter) and Microsoft Azure (metadata
  service, else the wire server's `<Location>`).

The registration driver is not part of this model. That means endpoint
reconciliation, failover and module registration are not modelled here, since
none of them appears in the modelled files. The endpoint record follows the
code: it has a single `IP` field and no separate IPv4/IPv6 addresses.

Modules (one file each): `Wrappers` (Option, Result), `Text` (Python string
operations on `seq<char>`), `Http` (a response: status and text), `SmtServer`,
`RegisterUtils`, `Mcp`, `AmazonEc2`, `MsftAzure`.

How the environment is represented:
- The host is a `RegisterUtils.Host` object. It holds the lines of
  `/etc/hosts` (from `readlines()`, terminators included) and the set of paths
  that exist. `glob` is a set comprehension over those paths.
- Network answers are parameters. Azure and EC2 use a function from URL to
  `Option<Response>`, where `None` means the request raised. MCP uses a
  function from URL to `Option<nat>` latency. The certificate download uses a
  function from attempt number to answer.
- The contents of `/etc/SuSE-release` and `/proc/<pid>/cmdline`, and zypper's
  PID, are also parameters.

Behaviour the model pins down, as written in the source:
- `get_smt_cert` makes `max(retries, 0)` attempts even after a success. It
  returns the answer of the last attempt that did not raise.
- `determine_closest_region` takes the index of the smallest latency in
  `results` and uses it as an index into `servers`. Suppose `servers[j]` is
  the first fastest server that answered, and `m` servers before it failed.
  Then the geography is read from `servers[j - m]`, for every input
  (`Mcp.ClosestGeoMisattributes`; a two-server instance is
  `Mcp.ClosestGeoMisattributesExample`). When every server answers, the choice
  is correct (`Mcp.ClosestGeoAllAnswered`).
- In `remove_registration_data`, only the first server's domain changes
  `/etc/hosts`. The first pass removes every marker line, and with no marker
  left the later passes drop nothing (`RegisterUtils.AllHostsCleanedByFirst`).
- Repository and service keys turn `.` into `_`. As a result, two server names
  that differ only in `.` against `_` share their files
  (`RegisterUtils.KeyConflatesDotAndUnderscore`).
- `replace_hosts_entry` matches the IP as a substring. It raises `NameError`
  on the first line that does not hold the IP (see Findings).

## Model

| member | source | states |
|---|---|---|
| `SmtServer.FromAttributes` | lib/cloudregister/smt.py:20-23 | A record exists exactly when all three XML attributes are present; the getters return them unchanged |
| `SmtServer.GetName` | lib/cloudregister/smt.py:41-43 | The host name never contains `.`, is a prefix of the FQDN, and is the whole FQDN when it has no `.` |
| `SmtServer.GetDomainName` | lib/cloudregister/smt.py:26-28 | The domain is the whole FQDN when it has no `.`; otherwise host name + `.` + domain gives the FQDN back |
| `Text.SplitOnce` | lib/cloudregister/smt.py:28 | `split('.', 1)` gives one piece (the string) iff there is no `.`, else a dot-free head and a tail that rejoin to the string |
| `Text.Split` | lib/cloudregister/mcp.py:36 | `split(',')` gives at least one piece and no piece contains the separator |
| `Text.JoinSplit` | lib/cloudregister/mcp.py:36 | Joining the pieces of `split(',')` with `,` gives the server list back |
| `Text.Replace` | lib/cloudregister/registerutils.py:159 | `str.replace` of one character keeps the length and changes exactly the occurrences of that character |
| `Text.Contains` | lib/cloudregister/registerutils.py:58 | Python's substring test `sub in s`: `sub` occurs at some position of `s` |
| `Text.Strip` | lib/cloudregister/registerutils.py:272 | `replace(':', '')` leaves no `:`, and keeps every other character with its multiplicity |
| `RegisterUtils.RepoKey` | lib/cloudregister/registerutils.py:188 | The glob key has the server name's length, no `.`, and `_` exactly where the name had `.` |
| `RegisterUtils.KeyConflatesDotAndUnderscore` | lib/cloudregister/registerutils.py:323-329 | Names differing only by `.` against `_` get the same key, so each one's repos and services match the other's |
| `RegisterUtils.HasCredentials` | lib/cloudregister/registerutils.py:175-182 | `has_credentials`: whether the NCC or the SCC credentials file exists; `RemoveCredentials` makes it false |
| `RegisterUtils.HasRepos` | lib/cloudregister/registerutils.py:186-192 | `has_repos`: whether some repo file matches the mangled name; `RemoveRepos` makes it false and `KeyConflatesDotAndUnderscore` shows which names share it |
| `RegisterUtils.CleanFrom` | lib/cloudregister/registerutils.py:54-64 | The two-state scanner of `clean_hosts_file`, with the flag as a parameter; characterised by the `Clean…` lemmas below |
| `RegisterUtils.CleanedHosts` | lib/cloudregister/registerutils.py:52-69 | The new `/etc/hosts` lines, the scanner started with the flag down; its idempotence is `CleanIdempotent` |
| `RegisterUtils.CleanRemovesMarkers` | lib/cloudregister/registerutils.py:57-60 | No line containing `# Added by SMT` survives `clean_hosts_file` |
| `RegisterUtils.CleanIsSubsequence` | lib/cloudregister/registerutils.py:54-64 | The new hosts content is the old one with lines dropped, order preserved |
| `RegisterUtils.CleanKeepsUnmarked` | lib/cloudregister/registerutils.py:61-64 | With the flag down, a run of lines without a marker is kept whole, domain lines included, wherever markers occur later in the file |
| `RegisterUtils.CleanIdempotent` | lib/cloudregister/registerutils.py:52-69 | Cleaning the cleaned file again, for any domain, changes nothing |
| `RegisterUtils.CleanAnnounced` | lib/cloudregister/registerutils.py:58-64 | With the flag raised, lines naming neither marker nor domain are kept and the first domain line is dropped and resets the flag |
| `RegisterUtils.CleanDropsAnnouncedEntry` | lib/cloudregister/registerutils.py:57-64 | A marker, then unrelated lines, then the server line: the marker and the server line go, the rest stays |
| `RegisterUtils.HostsLine` | lib/cloudregister/registerutils.py:342-344 | The entry written for the new server: IP, FQDN and host name separated by tabs, ending in a newline |
| `RegisterUtils.ReplacedHostsAsWritten` | lib/cloudregister/registerutils.py:340-346 | The code as written succeeds iff every line holds the IP, and then every line becomes the new server's line |
| `RegisterUtils.ReplacedHosts` | lib/cloudregister/registerutils.py:340-345 | Intended rewrite: same number of lines; a line holding the IP becomes `ip\tfqdn\tname\n`, any other is kept |
| `RegisterUtils.ReplaceAsWrittenAgrees` | lib/cloudregister/registerutils.py:340-346 | Where the code as written does not raise, it agrees with the intended rewrite |
| `RegisterUtils.ReplaceFailsOnForeignLine` | lib/cloudregister/registerutils.py:346 | A hosts file with a `localhost` line beside the server's line makes the code as written fail, while the intended rewrite keeps that line |
| `RegisterUtils.AllServerDataRemoved` | lib/cloudregister/registerutils.py:313-319 | The paths after the loop of `remove_registration_data`, one server after another; `AllServerDataRemovedExactly` says which paths remain |
| `RegisterUtils.AllHostsCleaned` | lib/cloudregister/registerutils.py:313-316 | The `/etc/hosts` lines after cleaning for each server's domain in turn; `AllHostsCleanedByFirst` shows only the first domain matters |
| `RegisterUtils.AllServerDataRemovedExactly` | lib/cloudregister/registerutils.py:308-319 | The removal loop deletes exactly the credentials (if there is a server) and every repo/service matching some server; nothing else |
| `RegisterUtils.AllHostsCleanedByFirst` | lib/cloudregister/registerutils.py:313-316 | Cleaning `/etc/hosts` for each server's domain in turn equals cleaning for the first server's domain alone |
| `RegisterUtils.LastResponse` | lib/cloudregister/registerutils.py:118-130 | The answer `get_smt_cert` ends with after `n` attempts; characterised by the two lemmas below |
| `RegisterUtils.LastResponseNone` | lib/cloudregister/registerutils.py:118-130 | `get_smt_cert` returns None exactly when every attempt raised |
| `RegisterUtils.LastResponseIsLastSuccess` | lib/cloudregister/registerutils.py:120-130 | The returned answer is that of the last attempt that succeeded; later successes replace earlier ones |
| `RegisterUtils.GetSmtCert` | lib/cloudregister/registerutils.py:115-130 | Makes exactly `max(retries, 0)` attempts and returns the last successful answer |
| `RegisterUtils.AnyLineContains` | lib/cloudregister/registerutils.py:254-256 | The early-return scan is true iff some line contains the needle |
| `RegisterUtils.IsSles11` | lib/cloudregister/registerutils.py:250-258 | True iff `/etc/SuSE-release` exists and some line contains `SUSE Linux Enterprise Server 11` |
| `RegisterUtils.GetZypperCommand` | lib/cloudregister/registerutils.py:153-161 | No command iff no zypper PID; else the command line, same length, NULs turned into spaces, nothing else changed |
| `RegisterUtils.IsX509FingerprintValid` | lib/cloudregister/registerutils.py:262-277 | Passing needs a readable certificate fingerprint, and no fingerprint containing `:` ever passes (the stored one is compared with its colons removed) |
| `RegisterUtils.ColonizedAccepted` | lib/cloudregister/registerutils.py:272 | A stored fingerprint written as colon-separated pairs of the certificate's digest is accepted |
| `RegisterUtils.ColonsIgnored` | lib/cloudregister/registerutils.py:272 | Two stored fingerprints equal up to colons give the same verdict |
| `RegisterUtils.Host.CleanHostsFile` | lib/cloudregister/registerutils.py:52-69 | `/etc/hosts` becomes the scanner's output over the old lines; no other file changes |
| `RegisterUtils.Host.ReplaceHostsEntry` | lib/cloudregister/registerutils.py:335-350 | As written, raises (and leaves `/etc/hosts` unchanged) iff some line lacks the IP; else writes the as-written rewrite |
| `RegisterUtils.Host.ReplaceHostsEntryCorrected` | lib/cloudregister/registerutils.py:335-350 | With `new_hosts` in place of `newHosts`, `/etc/hosts` becomes the intended rewrite |
| `RegisterUtils.Host.UnlinkAll` | lib/cloudregister/registerutils.py:327-329 | The `os.unlink` loop over a glob result: exactly those paths go, `/etc/hosts` is unchanged |
| `RegisterUtils.Host.RemoveRepos` | lib/cloudregister/registerutils.py:323-331 | Deletes exactly the repo files matching the mangled name; afterwards `has_repos` is false |
| `RegisterUtils.Host.RemoveService` | lib/cloudregister/registerutils.py:296-304 | Deletes exactly the service files matching the mangled name |
| `RegisterUtils.Host.RemoveCredentials` | lib/cloudregister/registerutils.py:281-292 | Deletes whichever of the NCC/SCC credential files exist; afterwards `has_credentials` is false |
| `RegisterUtils.Host.CheckRegistration` | lib/cloudregister/registerutils.py:35-48 | Registered iff repos and credentials both exist; repos only: repos removed; credentials only: credentials removed; neither: nothing removed; unregistered leaves neither |
| `RegisterUtils.Host.IsRegistered` | lib/cloudregister/registerutils.py:241-246 | The registration check for the server's FQDN, with the same decision table and the same new set of paths as `CheckRegistration` |
| `RegisterUtils.Host.RemoveRegistrationData` | lib/cloudregister/registerutils.py:308-319 | Removes the registered-server file, then cleans hosts and deletes repos, credentials and services server by server |
| `Mcp.Get` | lib/cloudregister/mcp.py:8 | `cfg.get`: the value iff section and option exist; `NoSectionError` iff the section is missing, `NoOptionError` iff only the option is |
| `Mcp.Latencies` | lib/cloudregister/mcp.py:37-45 | `results` has at most one entry per server; the lemmas below give its entries and order |
| `Mcp.FailedCount` | lib/cloudregister/mcp.py:42-45 | The number of servers whose request raised, at most the number of servers |
| `Mcp.LatenciesCount` | lib/cloudregister/mcp.py:37-45 | Each server adds one entry to `results` or counts as failed |
| `Mcp.LatenciesAppend` | lib/cloudregister/mcp.py:37-45 | `results` of two lists probed in turn is the first list's `results` followed by the second's |
| `Mcp.LatenciesEmpty` | lib/cloudregister/mcp.py:37-50 | `results` is empty (so `min` raises `ValueError`) iff every request raised |
| `Mcp.LatenciesAtLeast` | lib/cloudregister/mcp.py:37-45 | A lower bound on the latency of every answering server is a lower bound on every entry of `results` |
| `Mcp.LatenciesAllAnswered` | lib/cloudregister/mcp.py:38-45 | When every server answers, `results[k]` is the latency of `servers[k]` |
| `Mcp.FirstMinIndex` | lib/cloudregister/mcp.py:48 | The index of the first smallest entry: no entry is smaller, every earlier entry is larger |
| `Mcp.Geo` | lib/cloudregister/mcp.py:52-55 | At most two characters: exactly `name[3:5]` after an `rgn` prefix, else `name[0:2]`, clamped as Python clamps slices of short names |
| `Mcp.ClosestGeo` | lib/cloudregister/mcp.py:47-57 | The geography chosen over a server list: at most two characters, `""` when every request raised |
| `Mcp.ClosestGeoAllAnswered` | lib/cloudregister/mcp.py:47-55 | When every server answers, the geography is that of a fastest server, the first among ties |
| `Mcp.ClosestGeoMisattributes` | lib/cloudregister/mcp.py:47-55 | For every input: when `servers[j]` is the first fastest server that answered, the geography is that of `servers[j - m]`, `m` being the number of failed servers before `j` |
| `Mcp.ClosestGeoMisattributesExample` | lib/cloudregister/mcp.py:48-55 | With the first server failing and only the second answering, the geography is taken from the first |
| `Mcp.ClosestRegion` | lib/cloudregister/mcp.py:33-57 | `determine_closest_region` as a function: fails iff `server/api` or `server/regionsrv` is missing, else at most two characters |
| `Mcp.DetermineClosestRegion` | lib/cloudregister/mcp.py:33-57 | Fails iff `server/api` or `server/regionsrv` is missing; otherwise the closest geography, `""` when none answered, at most two characters |
| `Mcp.GenerateRegionSrvArgs` | lib/cloudregister/mcp.py:6-14 | `regionHint=` + `instance/region` when set; a missing option falls back to the closest region; a missing section propagates |
| `AmazonEc2.RegionOfZone` | lib/cloudregister/amazonec2.py:35 | `text[:-1]`: the region plus the zone's last character is the zone; an empty zone gives an empty region |
| `AmazonEc2.GenerateRegionSrvArgs` | lib/cloudregister/amazonec2.py:18-42 | A hint iff the request did not raise and answered 200; the hint is `regionHint=` + the zone without its last character |
| `AmazonEc2.ZoneRoundTrip` | lib/cloudregister/amazonec2.py:32-42 | A 200 answer of region + one letter gives `regionHint=` + region |
| `MsftAzure.TagSpanFrom` | lib/cloudregister/msftazure.py:23-28 | The backtracking search returns an opening position and a closing position within the text, in order |
| `MsftAzure.TagSpanFromSpec` | lib/cloudregister/msftazure.py:23-28 | The search finds the last opening tag with a closing tag after it and the first closing tag after that; or no such pair exists |
| `MsftAzure.TagSpan` | lib/cloudregister/msftazure.py:23-28 | The group's span lies inside the text |
| `MsftAzure.MatchTag` | lib/cloudregister/msftazure.py:23-28 | The group of `.*<T>(.*?)</T>.*` under `re.S`; characterised by `MatchTagNone` and `MatchTagSome` |
| `MsftAzure.MatchTagNone` | lib/cloudregister/msftazure.py:82 | `re.match` fails iff no opening tag has a closing tag after it |
| `MsftAzure.MatchTagSome` | lib/cloudregister/msftazure.py:104 | A match occurs as `<T>`+group+`</T>` in the text, at the last opening tag with a closing tag after it, and never contains the closing tag |
| `MsftAzure.ExtensionsUri` | lib/cloudregister/msftazure.py:67-89 | A URI iff the goal state answered 200 and holds `<ExtensionsConfig>`; the URI is its decoded group |
| `MsftAzure.WireLocation` | lib/cloudregister/msftazure.py:63-110 | A nameserver yields a location only after its extensions request |
| `MsftAzure.WireRequests` | lib/cloudregister/msftazure.py:67-95 | The goal state is requested first; the extensions request follows only after a 200 goal state holding `<ExtensionsConfig>` |
| `MsftAzure.TryNameserver` | lib/cloudregister/msftazure.py:64-108 | One pass of the wire-server loop returns exactly the nameserver's location and makes exactly its goal-state and extensions requests |
| `MsftAzure.GenerateRegionSrvArgs` | lib/cloudregister/msftazure.py:31-113 | A truthy metadata answer decides alone (200: its text, else None) without contacting wire servers; otherwise nameservers are tried in order, the first that yields a location wins, and None when all fail |

## Left out

- The registration driver (reconciliation, failover, module registration) is not part of this model.
- `get_smt_from_store`, `store_smt_data`, `get_available_smt_servers`, `get_current_smt`: pickle files are a foreign format; only the path `RegisterUtils.RegisteredSmtFile` is modelled.
- `exec_subprocess`, `get_zypper_pid`, `update_ca_chain`, `import_smtcert_11`, `import_smtcert_12`, `import_smt_cert`, `write_cert`: these run subprocesses or write certificates. `write_cert` is not modelled.
- `start_logging` and all logging: no effect on results.
- `get_config` in `mcp.py`: reading the file is I/O. The parsed configuration is a parameter, without `DEFAULT`-section inheritance or interpolation.
- `requests.get` and DNS resolution: network I/O. Answers are functions of the URL, so the same URL answers alike within one run. The certificate download is the exception: its answers are indexed by attempt. Timeouts and headers are not modelled.
- `Mcp.DetermineClosestRegion`: only `ConnectionError` and `SSLError` are caught in the source. Other exceptions from `requests.get` propagate and are not modelled. Elapsed times are natural numbers, not `timedelta`.
- `MsftAzure.GenerateRegionSrvArgs`: the truth value of a response is a parameter. The HTML unescaping, URL unquoting and UTF-8 decoding of the extensions URI are one opaque parameter, assumed not to raise.
- `RegisterUtils.IsX509FingerprintValid`: X.509 parsing and SHA-1 fingerprinting (M2Crypto) are a foreign library. The computed fingerprint, or its absence, is a parameter.
- `RegisterUtils.GetZypperCommand`: the PID comes from `ps` and is a parameter. A failure to open `/proc/<pid>/cmdline` is not modelled.
- `RegisterUtils.GlobMatch`: glob metacharacters in a server name are treated literally. A `/` in the name, which `glob` reads as a path separator that can reach into subdirectories of `repos.d`, makes the model match nothing. `glob`'s result order is not modelled, because removal does not depend on it.
- `RegisterUtils.Host`: file permissions, open failures, and `os.unlink` errors are not modelled. `/etc/hosts` is a list of lines, and writing the concatenated string is the same as writing the lines.

## Findings

| source | as written | input that shows it | evidently intended | confidence | as-written member | corrected member |
|---|---|---|---|---|---|---|
| lib/cloudregister/registerutils.py:346 | `newHosts += entry` appends to a name that is never assigned. Any line without the current IP raises `NameError`, so `/etc/hosts` is never rewritten | `::1 localhost` beside `10.100.200.250	smt.example.com	smt` with current IP `10.100.200.250` (`RegisterUtils.ReplaceFailsOnForeignLine`) | `new_hosts += entry`: keep lines not holding the IP | high; not executed | `RegisterUtils.Host.ReplaceHostsEntry` | `RegisterUtils.Host.ReplaceHostsEntryCorrected` |
