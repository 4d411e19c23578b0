/**
 * The endpoint record of a registration (SMT) server: the address, the fully
 * qualified domain name and the certificate fingerprint announced by the
 * region server, with the host-name / domain split the client derives from
 * the FQDN. The record is a value: it is built once and never updated.
 */
module SmtServer {
  import opened Wrappers
  import Text

  datatype Smt = Smt(ip: string, fqdn: string, fingerprint: string)

  /** The attribute names the region server's XML uses for the three fields. */
  const IpAttribute := "SMTserverIP"
  const NameAttribute := "SMTserverName"
  const FingerprintAttribute := "fingerprint"

  /**
   * Builds the record from the attributes of an `<smtInfo>` XML node; a missing
   * attribute is the `KeyError` of the constructor (`None`).
   */
  function FromAttributes(attrib: map<string, string>): (r: Option<Smt>)
    ensures r.Some? <==> IpAttribute in attrib && NameAttribute in attrib && FingerprintAttribute in attrib
    ensures r.Some? ==> GetIp(r.value) == attrib[IpAttribute]
    ensures r.Some? ==> GetFqdn(r.value) == attrib[NameAttribute]
    ensures r.Some? ==> GetFingerprint(r.value) == attrib[FingerprintAttribute]
  {
    if IpAttribute in attrib && NameAttribute in attrib && FingerprintAttribute in attrib then
      Some(Smt(attrib[IpAttribute], attrib[NameAttribute], attrib[FingerprintAttribute]))
    else
      None
  }

  function GetIp(s: Smt): string { s.ip }

  function GetFqdn(s: Smt): string { s.fqdn }

  function GetFingerprint(s: Smt): string { s.fingerprint }

  /** The host name: the FQDN up to its first '.', or the whole FQDN when it has none. */
  function GetName(s: Smt): (r: string)
    ensures '.' !in r
    ensures '.' !in s.fqdn ==> r == s.fqdn
    ensures r <= s.fqdn
  {
    Text.SplitOnce(s.fqdn, '.')[0]
  }

  /**
   * The domain: everything after the first '.', or the whole FQDN when it has
   * none (Python's `split('.', 1)[-1]`). Host name, '.', and domain give the
   * FQDN back.
   */
  function GetDomainName(s: Smt): (r: string)
    ensures '.' !in s.fqdn ==> r == s.fqdn
    ensures '.' in s.fqdn ==> GetName(s) + "." + r == s.fqdn
  {
    var parts := Text.SplitOnce(s.fqdn, '.');
    parts[|parts| - 1]
  }
}
