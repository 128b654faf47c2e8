/** The domain and favicon helpers. `new URL(url).hostname` is the
    parameter `parseHost`: `None` where the constructor throws. */
module Url {
  import opened Values
  import opened Text

  type HostParser = string -> Option<string>

  const FaviconPrefix := "https://www.google.com/s2/favicons?domain="
  const FaviconSuffix := "&sz=32"

  /** `extractDomain(url)`: the hostname with its first "www." removed, or
      "" when the url does not parse. */
  function ExtractDomain(url: string, parseHost: HostParser): string {
    match parseHost(url)
    case None => ""
    case Some(host) => ReplaceFirst(host, "www.", "")
  }

  /** `getFaviconUrl(url)`, with `null` as `None`. */
  function FaviconUrl(url: string, parseHost: HostParser): Option<string> {
    match parseHost(url)
    case None => None
    case Some(host) => Some(FaviconPrefix + host + FaviconSuffix)
  }

  lemma ExtractDomainUnparsable(url: string, parseHost: HostParser)
    requires parseHost(url).None?
    ensures ExtractDomain(url, parseHost) == ""
  {
  }

  /** A hostname without "www." anywhere is returned as it is. */
  lemma ExtractDomainNoWww(url: string, parseHost: HostParser)
    requires parseHost(url).Some? && !Contains(parseHost(url).value, "www.")
    ensures ExtractDomain(url, parseHost) == parseHost(url).value
  {
  }

  /** Otherwise exactly the first "www." is cut out, wherever it is, so the
      result is four characters shorter and still contains any later one. */
  lemma ExtractDomainFirstWww(url: string, parseHost: HostParser)
    requires parseHost(url).Some? && Contains(parseHost(url).value, "www.")
    ensures var host := parseHost(url).value;
      var r := ExtractDomain(url, parseHost);
      exists k: nat :: OccursAt(host, "www.", k)
        && (forall j: nat :: j < k ==> !OccursAt(host, "www.", j))
        && r == host[..k] + host[k + 4..]
    ensures |ExtractDomain(url, parseHost)| == |parseHost(url).value| - 4
  {
    var host := parseHost(url).value;
    var k := IndexOf(host, "www.").value;
    assert OccursAt(host, "www.", k);
  }

  /** A hostname starting with "www." loses exactly those four characters. */
  lemma ExtractDomainLeadingWww(url: string, parseHost: HostParser)
    requires parseHost(url).Some? && StartsWith(parseHost(url).value, "www.")
    ensures ExtractDomain(url, parseHost) == parseHost(url).value[4..]
  {
    var host := parseHost(url).value;
    assert OccursAt(host, "www.", 0);
  }

  /** The domain is never longer than the hostname. */
  lemma ExtractDomainShorter(url: string, parseHost: HostParser)
    requires parseHost(url).Some?
    ensures |ExtractDomain(url, parseHost)| <= |parseHost(url).value|
  {
    if Contains(parseHost(url).value, "www.") {
      ExtractDomainFirstWww(url, parseHost);
    }
  }

  /** The favicon address is `null` exactly when the url does not parse,
      and the hostname can be read back from between the fixed prefix and
      the size parameter. */
  lemma FaviconUrlSpec(url: string, parseHost: HostParser)
    ensures FaviconUrl(url, parseHost).None? <==> parseHost(url).None?
    ensures FaviconUrl(url, parseHost).Some? ==>
      var f := FaviconUrl(url, parseHost).value;
      && StartsWith(f, FaviconPrefix) && EndsWith(f, FaviconSuffix)
      && f[|FaviconPrefix|..|f| - |FaviconSuffix|] == parseHost(url).value
  {
    if parseHost(url).Some? {
      var f := FaviconUrl(url, parseHost).value;
      var host := parseHost(url).value;
      assert f == FaviconPrefix + host + FaviconSuffix;
      assert f[..|FaviconPrefix|] == FaviconPrefix;
      assert f[|f| - |FaviconSuffix|..] == FaviconSuffix;
      assert f[|FaviconPrefix|..|f| - |FaviconSuffix|] == host;
    }
  }
}
