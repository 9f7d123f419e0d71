/**
 * `get_working_proxy`: probe the candidates in order and keep the first one
 * through which the site's root page answers with status 200. The browser
 * work of one probe is abstract: the caller supplies what each probe
 * observed.
 */
module ProxyProbe {
  import opened Wrappers

  /**
   * What probing one candidate observed: either launching the browser,
   * opening the page or the navigation raised (a timeout, a refused
   * connection), or the navigation returned (`status` is `None` when it
   * returned no response) and `closed` says whether closing the browser
   * afterwards completed without raising.
   */
  datatype ProbeResult =
    | ProbeRaised
    | Responded(status: Option<int>, closed: bool)

  /**
   * The probe qualifies the candidate: a response with status 200, and a
   * close that did not raise (a raising close lands in the `except` branch,
   * which moves on to the next candidate).
   */
  predicate Works(probe: ProbeResult)
  {
    probe.Responded? && probe.status == Some(200) && probe.closed
  }

  /**
   * Returns the first candidate whose probe works, having probed it and
   * every candidate before it and none after it; returns `None` after
   * probing every candidate when none works, in particular for an empty
   * list.
   */
  method GetWorkingProxy(candidates: seq<string>, probes: seq<ProbeResult>)
    returns (working: Option<string>, probed: nat)
    requires |probes| == |candidates|
    ensures probed <= |candidates|
    ensures forall j :: 0 <= j < probed - 1 ==> !Works(probes[j])
    ensures working.Some? <==> probed > 0 && Works(probes[probed - 1])
    ensures working.Some? ==> working.value == candidates[probed - 1]
    ensures working.None? ==> probed == |candidates|
    ensures working.None? <==> forall j :: 0 <= j < |candidates| ==> !Works(probes[j])
  {
    probed := 0;
    while probed < |candidates|
      invariant probed <= |candidates|
      invariant forall j :: 0 <= j < probed ==> !Works(probes[j])
    {
      var probe := probes[probed];
      probed := probed + 1;
      match probe
      case ProbeRaised =>
      case Responded(status, closed) =>
        if status == Some(200) && closed {
          return Some(candidates[probed - 1]), probed;
        }
    }
    working := None;
  }
}
