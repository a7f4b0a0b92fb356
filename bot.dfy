/**
 * The main flow of bot.js (lines 34-45 and 133-171) with its I/O taken out:
 * start-up, the proxy decision, and one run of the retry loop.
 */
module Bot {
  import opened Wrappers
  import opened Credentials
  import opened Retry
  import opened Proxy

  /** How a run of the program ends. */
  datatype LaunchOutcome =
    | StartupFailed(error: StartupError)     // process.exit(1) before any prompt or request
    | ProxyRejected                          // spinner.fail and return (bot.js:138-142)
    | Attempted(connected: bool, run: Run)   // connectWithRetry ran; `connected` picks the spinner message

  /** How often the network operation was invoked. */
  function Invocations(outcome: LaunchOutcome): nat
  {
    if outcome.Attempted? then outcome.run.attempts else 0
  }

  /**
   * `useProxy` is the operator's answer to the prompt, already compared with
   * `"yes"`; `parses` stands for the URL parser and `succeeds` for the outcomes
   * of the network operation.
   */
  method Launch(tokenText: string, proxyText: string, useProxy: bool, parses: string -> bool, succeeds: nat -> bool)
    returns (outcome: LaunchOutcome)
    ensures outcome.StartupFailed? <==> LoadSettings(tokenText, proxyText).Err?
    ensures outcome.StartupFailed? ==> outcome.error == LoadSettings(tokenText, proxyText).error
    ensures outcome.ProxyRejected? <==>
      LoadSettings(tokenText, proxyText).Ok? && useProxy &&
      !ValidateProxyUrl(LoadSettings(tokenText, proxyText).value.proxyUrl, parses)
    ensures Invocations(outcome) > 0 ==>
      var s := LoadSettings(tokenText, proxyText);
      s.Ok? && s.value.idToken != [] && s.value.userEmail != []
    ensures outcome.Attempted? ==>
      && outcome.run == RetrySchedule(MaxRetries, BackoffUnitMs, succeeds)
      && 1 <= Invocations(outcome) <= MaxRetries
      && (outcome.connected <==> exists i: nat :: i < MaxRetries && succeeds(i))
  {
    var settings := LoadSettings(tokenText, proxyText);
    if settings.Err? {
      return StartupFailed(settings.error);
    }
    if useProxy && !ValidateProxyUrl(settings.value.proxyUrl, parses) {
      return ProxyRejected;
    }
    var result, attempts, waits := ConnectWithRetry(MaxRetries, BackoffUnitMs, succeeds);
    RetryOutcome(MaxRetries, BackoffUnitMs, succeeds);
    outcome := Attempted(result == Some(true), Run(result, attempts, waits));
  }
}
