/**
 * The start of `main`, up to the claim loop: the `AUTH_TOKEN` check, the
 * choice between a direct connection and the first working proxy, and the
 * navigation to the earn page.
 */
module Startup {
  import opened Wrappers
  import opened ProxyList
  import opened ProxyProbe

  datatype StartOutcome =
    | MissingAuthToken       // `AUTH_TOKEN` empty: nothing else happens
    | NoWorkingProxy         // proxies were configured and none works
    | NavigationFailed       // the earn page did not load
    | Started(proxy: Option<string>)  // the claim loop runs, through `proxy` or directly

  /**
   * `main` until the claim loop, given the parsed proxy candidates. An empty
   * token stops everything; with no candidates the browser connects
   * directly; otherwise the first working candidate is used, and when none
   * works `main` gives up. Then the earn page is opened. (`main` parses the
   * list after the token check; the parse has no effects, so receiving it
   * already parsed changes nothing.)
   */
  method Connect(authToken: string, proxyList: seq<string>, probes: seq<ProbeResult>, navigationOk: bool)
    returns (outcome: StartOutcome, probed: nat)
    requires |probes| == |proxyList|
    ensures outcome == MissingAuthToken <==> authToken == ""
    ensures authToken == "" || proxyList == [] ==> probed == 0
    ensures authToken != "" && proxyList == [] ==>
      outcome == if navigationOk then Started(None) else NavigationFailed
    ensures outcome == NoWorkingProxy <==>
      authToken != "" && proxyList != [] && forall j :: 0 <= j < |probes| ==> !Works(probes[j])
    ensures outcome == NavigationFailed ==> !navigationOk
    ensures outcome.Started? ==> navigationOk && (outcome.proxy.None? <==> proxyList == [])
    ensures outcome.Started? && outcome.proxy.Some? ==>
      0 < probed <= |probes| && Works(probes[probed - 1])
      && outcome.proxy.value == proxyList[probed - 1]
      && forall j :: 0 <= j < probed - 1 ==> !Works(probes[j])
  {
    probed := 0;
    if authToken == "" {
      return MissingAuthToken, probed;
    }
    var workingProxy: Option<string> := None;
    if proxyList != [] {
      workingProxy, probed := GetWorkingProxy(proxyList, probes);
      if workingProxy.None? {
        return NoWorkingProxy, probed;
      }
    }
    if !navigationOk {
      return NavigationFailed, probed;
    }
    outcome := Started(workingProxy);
  }

  /**
   * `main` until the claim loop, given the (stripped) `AUTH_TOKEN` and
   * `PROXY_SERVER` values, what probing each parsed proxy candidate
   * observed, and whether navigating to the earn page completed.
   */
  method Start(authToken: string, rawProxies: string, probes: seq<ProbeResult>, navigationOk: bool)
    returns (outcome: StartOutcome, probed: nat)
    requires |probes| == |GetProxyList(rawProxies)|
    ensures outcome == MissingAuthToken <==> authToken == ""
    ensures authToken == "" || GetProxyList(rawProxies) == [] ==> probed == 0
    ensures authToken != "" && GetProxyList(rawProxies) == [] ==>
      outcome == if navigationOk then Started(None) else NavigationFailed
    ensures outcome == NavigationFailed ==> !navigationOk
    ensures outcome == NoWorkingProxy <==>
      authToken != "" && GetProxyList(rawProxies) != []
      && forall j :: 0 <= j < |probes| ==> !Works(probes[j])
    ensures outcome.Started? ==> navigationOk && (outcome.proxy.None? <==> GetProxyList(rawProxies) == [])
    ensures outcome.Started? && outcome.proxy.Some? ==>
      0 < probed <= |probes| && Works(probes[probed - 1])
      && outcome.proxy.value == GetProxyList(rawProxies)[probed - 1]
      && forall j :: 0 <= j < probed - 1 ==> !Works(probes[j])
  {
    var proxyList := GetProxyList(rawProxies);
    outcome, probed := Connect(authToken, proxyList, probes, navigationOk);
  }
}
