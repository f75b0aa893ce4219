/**
 * The endpoint normaliser of `PublishSettings`: the static helpers that turn the
 * raw `publishUrl` attribute into a Web Management Service URL, the remote-agent
 * enumeration, and the rules behind the `ComputerName` and `AuthenticationType`
 * getters.
 */
module Endpoint {
  import opened Wrappers
  import opened Strings

  /** The port the Web Management Service listens on, with its separator. */
  const DefaultPort := ":8172"
  /** The handler path of the Web Deploy endpoint. */
  const MSDeployHandler := "msdeploy.axd"

  /** `PublishSettingsRemoteAgent`, in declaration order. */
  datatype RemoteAgent = WMSvc | MSDepSvc | TempAgent | None

  /** The member name `Enum.GetNames` reports for an agent. */
  function AgentName(a: RemoteAgent): string {
    match a
    case WMSvc => "WMSvc"
    case MSDepSvc => "MSDepSvc"
    case TempAgent => "TempAgent"
    case None => "None"
  }

  /** The names listed in the "Invalid agent type" message, in declaration order. */
  const AgentNames: seq<string> := ["WMSvc", "MSDepSvc", "TempAgent", "None"]

  /**
   * `Enum.Parse(typeof(PublishSettingsRemoteAgent), v, true)` restricted to member
   * names: the agent whose name equals `v` ignoring case, or nothing.
   */
  function ParseAgentType(v: string): (r: Option<RemoteAgent>)
    ensures forall a :: r == Some(a) <==> EqualsIgnoreCase(v, AgentName(a))
  {
    if EqualsIgnoreCase(v, "WMSvc") then Some(WMSvc)
    else if EqualsIgnoreCase(v, "MSDepSvc") then Some(MSDepSvc)
    else if EqualsIgnoreCase(v, "TempAgent") then Some(TempAgent)
    else if EqualsIgnoreCase(v, "None") then Some(RemoteAgent.None)
    else Option.None
  }

  /** The agents for which the raw URL is normalised and basic authentication is the default. */
  predicate UsesWmsvc(a: RemoteAgent) {
    a == WMSvc || a == RemoteAgent.None
  }

  /** The text before the first ':' contains a '/', so that ':' cannot be a port separator. */
  predicate SlashBeforeColon(s: string) {
    var slash, colon := IndexOf(s, '/'), IndexOf(s, ':');
    slash != -1 && (colon == -1 || slash < colon)
  }

  /** `InsertPortIfNotSpecified`: split on ':', then insert `:8172` where no port can be present. */
  function InsertPortIfNotSpecified(publishUrl: string): string {
    var colonParts := Split(publishUrl, ':');
    if |colonParts| == 1 then
      var slashIndex := IndexOf(publishUrl, '/');
      if slashIndex > -1 then Insert(publishUrl, slashIndex, DefaultPort)
      else publishUrl + DefaultPort
    else
      var slashIndex := IndexOf(colonParts[0], '/');
      if slashIndex > -1 then Join(colonParts[0 := Insert(colonParts[0], slashIndex, DefaultPort)], ':')
      else publishUrl
  }

  /** Inserting into a prefix and putting the rest back is inserting into the whole. */
  lemma InsertSplice(s: string, n: nat, i: nat, t: string)
    requires i <= n <= |s|
    ensures Insert(s[..n], i, t) + s[n..] == Insert(s, i, t)
  {
    assert s[..n][..i] == s[..i];
    assert s[..n][i..] + s[n..] == s[i..];
  }

  /** Without a ':' the port goes before the first '/', or at the end when there is none. */
  lemma InsertPortWithoutColon(s: string)
    requires IndexOf(s, ':') == -1
    ensures InsertPortIfNotSpecified(s)
         == if IndexOf(s, '/') != -1 then Insert(s, IndexOf(s, '/'), DefaultPort) else s + DefaultPort
  {
    SplitFirst(s, ':');
  }

  /** With a ':' the port goes before the first '/' only when that '/' comes first. */
  lemma InsertPortWithColon(s: string)
    requires IndexOf(s, ':') != -1
    ensures InsertPortIfNotSpecified(s) == if SlashBeforeColon(s) then Insert(s, IndexOf(s, '/'), DefaultPort) else s
  {
    var slash, colon := IndexOf(s, '/'), IndexOf(s, ':');
    var parts := Split(s, ':');
    SplitFirst(s, ':');
    IndexOfPrefix(s, '/', colon);
    assert IndexOf(parts[0], '/') == if 0 <= slash < colon then slash else -1;
    if 0 <= slash < colon {
      JoinReplaceFirst(s, ':', Insert(s[..colon], slash, DefaultPort));
      InsertSplice(s, colon, slash, DefaultPort);
    }
  }

  /**
   * The three behaviours of the port rule: before the first '/' when that '/'
   * precedes every ':', at the end when there is neither ':' nor '/', and no
   * change otherwise (the split and re-join on ':' give the input back).
   */
  lemma InsertPortCases(s: string)
    ensures SlashBeforeColon(s) ==> InsertPortIfNotSpecified(s) == Insert(s, IndexOf(s, '/'), DefaultPort)
    ensures IndexOf(s, ':') == -1 && IndexOf(s, '/') == -1 ==> InsertPortIfNotSpecified(s) == s + DefaultPort
    ensures IndexOf(s, ':') != -1 && !SlashBeforeColon(s) ==> InsertPortIfNotSpecified(s) == s
  {
    if IndexOf(s, ':') == -1 {
      InsertPortWithoutColon(s);
    } else {
      InsertPortWithColon(s);
    }
  }

  /** Sufficient conditions for `IndexOf` to answer `k`. */
  lemma IndexOfIs(s: string, c: char, k: int)
    requires -1 <= k < |s|
    requires 0 <= k ==> s[k] == c
    requires forall i :: 0 <= i < |s| && (k == -1 || i < k) ==> s[i] != c
    ensures IndexOf(s, c) == k
  {
  }

  /** After a port was put before the first '/', the first ':' is that port's and the first '/' follows it. */
  lemma InsertedPortFirst(s: string)
    requires SlashBeforeColon(s)
    ensures var slash, t := IndexOf(s, '/'), Insert(s, IndexOf(s, '/'), DefaultPort);
            IndexOf(t, ':') == slash && IndexOf(t, '/') == slash + |DefaultPort|
  {
    var slash := IndexOf(s, '/');
    var t := Insert(s, slash, DefaultPort);
    assert t == s[..slash] + DefaultPort + s[slash..];
    assert forall i :: 0 <= i < slash ==> t[i] == s[i];
    IndexOfIs(t, ':', slash);
    IndexOfIs(t, '/', slash + |DefaultPort|);
  }

  /** After the port was appended to a string without ':' or '/', its ':' is the first and there is no '/'. */
  lemma AppendedPortFirst(s: string)
    requires IndexOf(s, ':') == -1 && IndexOf(s, '/') == -1
    ensures IndexOf(s + DefaultPort, ':') == |s| && IndexOf(s + DefaultPort, '/') == -1
  {
    assert IndexOf(DefaultPort, ':') == 0;
    assert IndexOf(DefaultPort, '/') == -1;
    IndexOfAppend(s, DefaultPort, ':');
    IndexOfAppend(s, DefaultPort, '/');
  }

  /** Inserting the port twice is the same as inserting it once. */
  lemma InsertPortIdempotent(s: string)
    ensures InsertPortIfNotSpecified(InsertPortIfNotSpecified(s)) == InsertPortIfNotSpecified(s)
  {
    var t := InsertPortIfNotSpecified(s);
    InsertPortCases(s);
    if SlashBeforeColon(s) {
      InsertedPortFirst(s);
      InsertPortCases(t);
    } else if IndexOf(s, ':') == -1 {
      AppendedPortFirst(s);
      InsertPortCases(t);
    }
  }

  /** The string ends with a '/' (`EndsWith("/")`). */
  predicate EndsWithSlash(s: string) {
    |s| > 0 && s[|s| - 1] == '/'
  }

  /**
   * `AppendHandlerIfNotSpecified`: the result always ends with the handler; the
   * input is kept as a prefix, returned unchanged exactly when it already ends
   * with the handler, and otherwise followed by one '/' (only when missing) and
   * the handler.
   */
  function AppendHandlerIfNotSpecified(publishUrl: string): (r: string)
    ensures EndsWithIgnoreCase(r, MSDeployHandler)
    ensures publishUrl <= r
    ensures r == publishUrl <==> EndsWithIgnoreCase(publishUrl, MSDeployHandler)
    ensures r != publishUrl ==> r == publishUrl + (if EndsWithSlash(publishUrl) then "" else "/") + MSDeployHandler
  {
    if !EndsWithIgnoreCase(publishUrl, MSDeployHandler) then
      if EndsWithSlash(publishUrl) then publishUrl + MSDeployHandler
      else publishUrl + "/" + MSDeployHandler
    else publishUrl
  }

  /** Appending the handler twice is the same as appending it once. */
  lemma AppendHandlerIdempotent(s: string)
    ensures AppendHandlerIfNotSpecified(AppendHandlerIfNotSpecified(s)) == AppendHandlerIfNotSpecified(s)
  {
  }

  /** The `?site=` query, present only for a non-empty site name. */
  function SiteQuery(siteName: string): string {
    if siteName == "" then "" else "?site=" + siteName
  }

  /**
   * `GetWmsvcUrl`: a URL that already starts with "http" is returned verbatim;
   * anything else becomes an https URL (which itself starts with "http").
   * The result is never empty.
   */
  function GetWmsvcUrl(publishUrl: string, siteName: string): (r: string)
    ensures StartsWithIgnoreCase(publishUrl, "http") ==> r == publishUrl
    ensures !StartsWithIgnoreCase(publishUrl, "http") ==> "https://" <= r && StartsWithIgnoreCase(r, "http")
    ensures !StartsWithIgnoreCase(publishUrl, "http")
            ==> r == "https://" + AppendHandlerIfNotSpecified(InsertPortIfNotSpecified(publishUrl)) + SiteQuery(siteName)
    ensures r != ""
  {
    if !StartsWithIgnoreCase(publishUrl, "http") then
      var computerName := AppendHandlerIfNotSpecified(InsertPortIfNotSpecified(publishUrl));
      "https://" + computerName + SiteQuery(siteName)
    else publishUrl
  }

  /** Normalising an already normalised URL changes nothing. */
  lemma GetWmsvcUrlIdempotent(publishUrl: string, siteName: string)
    ensures GetWmsvcUrl(GetWmsvcUrl(publishUrl, siteName), siteName) == GetWmsvcUrl(publishUrl, siteName)
  {
  }

  /** A bare host name gets the default port, the handler and the site query. */
  lemma GetWmsvcUrlBareHost(host: string, siteName: string)
    requires IndexOf(host, ':') == -1 && IndexOf(host, '/') == -1
    requires !StartsWithIgnoreCase(host, "http")
    ensures GetWmsvcUrl(host, siteName) == "https://" + host + DefaultPort + "/" + MSDeployHandler + SiteQuery(siteName)
  {
    InsertPortCases(host);
    var t := host + DefaultPort;
    assert t[|t| - 1] == '2';
    LastDiffers(t, MSDeployHandler);
    var handled := t + "/" + MSDeployHandler;
    assert AppendHandlerIfNotSpecified(InsertPortIfNotSpecified(host)) == handled;
    calc {
      GetWmsvcUrl(host, siteName);
      "https://" + handled + SiteQuery(siteName);
      { assert "https://" + handled == "https://" + host + DefaultPort + "/" + MSDeployHandler; }
      "https://" + host + DefaultPort + "/" + MSDeployHandler + SiteQuery(siteName);
    }
  }

  /** A host with a port before any '/' and the handler already in place only gains the scheme and the query. */
  lemma GetWmsvcUrlKeepsPortAndHandler(publishUrl: string, siteName: string)
    requires IndexOf(publishUrl, ':') != -1 && !SlashBeforeColon(publishUrl)
    requires EndsWithIgnoreCase(publishUrl, MSDeployHandler)
    requires !StartsWithIgnoreCase(publishUrl, "http")
    ensures GetWmsvcUrl(publishUrl, siteName) == "https://" + publishUrl + SiteQuery(siteName)
  {
    InsertPortCases(publishUrl);
  }

  /** A host with a port and no path (`foo.com:443`) keeps its port and gains the handler path. */
  lemma GetWmsvcUrlPortWithoutHandler(publishUrl: string, siteName: string)
    requires IndexOf(publishUrl, ':') != -1 && IndexOf(publishUrl, '/') == -1
    requires !EndsWithIgnoreCase(publishUrl, MSDeployHandler)
    requires !StartsWithIgnoreCase(publishUrl, "http")
    ensures GetWmsvcUrl(publishUrl, siteName) == "https://" + publishUrl + "/" + MSDeployHandler + SiteQuery(siteName)
  {
    InsertPortCases(publishUrl);
    assert !EndsWithSlash(publishUrl);
    var handled := publishUrl + "/" + MSDeployHandler;
    assert "https://" + handled == "https://" + publishUrl + "/" + MSDeployHandler;
  }

  /** The handler contains no '/', so neither does the end of a string that ends with it. */
  lemma HandlerHasNoSlash(s: string)
    requires EndsWithIgnoreCase(s, MSDeployHandler)
    ensures forall i :: |s| - |MSDeployHandler| <= i < |s| ==> s[i] != '/'
  {
    forall i | |s| - |MSDeployHandler| <= i < |s|
      ensures s[i] != '/'
    {
      EndsWithAt(s, MSDeployHandler, i);
    }
  }

  /** An insertion before the last `n` characters keeps those characters at the end. */
  lemma InsertKeepsSuffix(s: string, i: nat, t: string, n: nat)
    requires n <= |s| && i <= |s| - n
    ensures Insert(s, i, t)[|s| + |t| - n..] == s[|s| - n..]
  {
    var r := Insert(s, i, t);
    assert r == s[..i] + t + s[i..];
    var tail, want := r[|s| + |t| - n..], s[|s| - n..];
    forall k | 0 <= k < n ensures tail[k] == want[k] {
      assert tail[k] == s[i..][|s| - n + k - i];
    }
  }

  /** A host with a handler path but no port gets the default port before the path. */
  lemma GetWmsvcUrlPortBeforePath(publishUrl: string, siteName: string)
    requires IndexOf(publishUrl, ':') == -1 && IndexOf(publishUrl, '/') != -1
    requires EndsWithIgnoreCase(publishUrl, MSDeployHandler)
    requires !StartsWithIgnoreCase(publishUrl, "http")
    ensures GetWmsvcUrl(publishUrl, siteName)
         == "https://" + Insert(publishUrl, IndexOf(publishUrl, '/'), DefaultPort) + SiteQuery(siteName)
  {
    var slash := IndexOf(publishUrl, '/');
    InsertPortCases(publishUrl);
    var t := Insert(publishUrl, slash, DefaultPort);
    assert EndsWithIgnoreCase(t, MSDeployHandler) by {
      HandlerHasNoSlash(publishUrl);
      InsertKeepsSuffix(publishUrl, slash, DefaultPort, |MSDeployHandler|);
    }
  }

  /**
   * The value the `ComputerName` getter caches: the normalised URL for the
   * WMSvc and None agents, the raw URL for every other agent.
   */
  function ComputerNameFor(publishUrlRaw: string, siteName: string, agent: RemoteAgent): (r: string)
    ensures publishUrlRaw != "" ==> r != ""
    ensures StartsWithIgnoreCase(publishUrlRaw, "http") ==> r == publishUrlRaw
    ensures UsesWmsvc(agent) ==> r == GetWmsvcUrl(publishUrlRaw, siteName)
    ensures !UsesWmsvc(agent) ==> r == publishUrlRaw
  {
    if UsesWmsvc(agent) then GetWmsvcUrl(publishUrlRaw, siteName) else publishUrlRaw
  }

  /**
   * The value the `AuthenticationType` getter caches: an explicit `useNTLM`
   * decides it; without one, WMSvc and None default to basic and the other
   * agents to NTLM.
   */
  function DefaultAuthenticationType(useNtlm: Option<bool>, agent: RemoteAgent): (r: string)
    ensures r == "ntlm" || r == "basic"
    ensures useNtlm.Some? ==> (r == "ntlm" <==> useNtlm.value)
    ensures useNtlm.None? ==> (r == "basic" <==> UsesWmsvc(agent))
  {
    if useNtlm.Some? && useNtlm.value then "ntlm"
    else if useNtlm.Some? && !useNtlm.value then "basic"
    else if UsesWmsvc(agent) then "basic"
    else "ntlm"
  }

  /** An explicit `useNTLM` makes the agent type irrelevant. */
  lemma ExplicitNtlmIgnoresAgent(useNtlm: bool, a: RemoteAgent, b: RemoteAgent)
    ensures DefaultAuthenticationType(Some(useNtlm), a) == DefaultAuthenticationType(Some(useNtlm), b)
  {
  }
}
