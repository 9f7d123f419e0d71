/**
 * The claim loop of `main`: per iteration, the cooldown check, captcha
 * detection and solving, the claim click and the confirming OK click, with
 * the counter `i` of completed claims. The page is abstract: each
 * iteration is driven by an `Observation` of what the page calls returned.
 */
module ClaimLoop {
  import opened Wrappers
  import opened ChallengeDetection
  import opened CaptchaSolver

  /**
   * What the page calls of one iteration returned. Fields an iteration
   * does not reach are ignored.
   *  - greenButton: the `.btn-success` text, `None` when there is no such
   *    button, `Threw` when the count or the text look-up raised;
   *  - promptCount, frameCount: the counts of the "Complete the captcha"
   *    prompt and of hCaptcha iframes (the second is asked only when the
   *    first is zero);
   *  - scan: the look-ups of the captcha-kind detection;
   *  - pageUrl: `page.url` when the solver is called;
   *  - createReply, pollReplies: the solving service's replies;
   *  - injected: the token-injection script completed;
   *  - claimClicked, okClicked: the claim click and the OK click succeeded
   *    within their timeouts.
   */
  datatype Observation = Observation(
    greenButton: Probe<Option<string>>,
    promptCount: Probe<nat>,
    frameCount: Probe<nat>,
    scan: WidgetScan,
    pageUrl: string,
    createReply: Reply,
    pollReplies: seq<Reply>,
    injected: bool,
    claimClicked: bool,
    okClicked: bool)

  /** Where an exception escapes the loop (and `main`), because no `try` surrounds it. */
  datatype CrashSite =
    | CaptchaCheckRaised   // a count in the `needs_captcha` test raised
    | MissingSitekey       // `sitekey[:10]` on `None`, at the solver's first line
    | InjectionRaised      // the token-injection script raised

  /** Why the loop ended. */
  datatype StopReason =
    | Cooldown                       // the day's quota is used up: the normal end
    | NoApiKey                       // a captcha is needed and `TWOCAPTCHA_API_KEY` is empty
    | SolveFailed(outcome: Outcome)  // the solver returned no non-empty token
    | ClaimFailed                    // the claim button could not be clicked
    | OkMissing                      // the confirming OK button could not be clicked
    | Crashed(site: CrashSite)

  /**
   * What one iteration did: the solver call it made (if any), whether it
   * tried to click the claim button, and why it ended the loop (`None`
   * when the claim was confirmed and the loop goes on).
   */
  datatype Iteration = Iteration(solve: Option<SolveRun>, claimAttempted: bool, stop: Option<StopReason>)

  /** The `.btn-success` text was read and it announces a cooldown. */
  predicate ShowsCooldown(o: Observation)
  {
    o.greenButton.Returned? && o.greenButton.value.Some? && IsCooldownText(o.greenButton.value.value)
  }

  /**
   * `needs_captcha`: the prompt is present, or else an hCaptcha iframe is;
   * `Threw` when a count raised. The iframe count is asked only when the
   * prompt count is zero, so its exception matters only then.
   */
  function NeedsCaptcha(o: Observation): (r: Probe<bool>)
    ensures r.Threw? <==> o.promptCount.Threw? || (o.promptCount == Returned(0) && o.frameCount.Threw?)
    ensures r == Returned(false) <==> o.promptCount == Returned(0) && o.frameCount == Returned(0)
  {
    match o.promptCount
    case Threw => Threw
    case Returned(prompts) =>
      if prompts > 0 then Returned(true)
      else match o.frameCount
        case Threw => Threw
        case Returned(frames) => Returned(frames > 0)
  }

  /** `if token:` — the solver returned a non-empty token. */
  predicate HasToken(outcome: Outcome)
  {
    outcome.Solved? && outcome.token.Some? && outcome.token.value != ""
  }

  /**
   * The claim click and the OK click, after any captcha is dealt with: the
   * claim is always tried, and the loop goes on exactly when both clicks
   * succeeded.
   */
  function ClaimAndConfirm(o: Observation, solve: Option<SolveRun>): (it: Iteration)
    ensures it.solve == solve && it.claimAttempted
    ensures it.stop.None? <==> o.claimClicked && o.okClicked
    ensures it.stop.Some? ==> it.stop.value in {ClaimFailed, OkMissing}
    ensures it.stop == Some(ClaimFailed) <==> !o.claimClicked
    ensures it.stop == Some(OkMissing) <==> o.claimClicked && !o.okClicked
  {
    if !o.claimClicked then Iteration(solve, true, Some(ClaimFailed))
    else if !o.okClicked then Iteration(solve, true, Some(OkMissing))
    else Iteration(solve, true, None)
  }

  /**
   * One pass of the loop body, as a function of the page's answers. Only a
   * cooldown text stops it with `Cooldown`; no crash happens after the claim
   * click; a solver call is made only with a non-empty key.
   */
  function Iterate(apiKey: string, o: Observation): (it: Iteration)
    ensures it.stop == Some(Cooldown) <==> ShowsCooldown(o)
    ensures it.stop.Some? && it.stop.value.Crashed? ==> !it.claimAttempted && it.stop != Some(Cooldown)
    ensures it.solve.Some? ==> apiKey != ""
  {
    if ShowsCooldown(o) then Iteration(None, false, Some(Cooldown))
    else match NeedsCaptcha(o)
      case Threw => Iteration(None, false, Some(Crashed(CaptchaCheckRaised)))
      case Returned(needed) =>
        if !needed then ClaimAndConfirm(o, None)
        else if apiKey == "" then Iteration(None, false, Some(NoApiKey))
        else
          var detected := Detect(o.scan);
          if detected.sitekey.None? then Iteration(None, false, Some(Crashed(MissingSitekey)))
          else
            var run := Solve(apiKey, detected.sitekey.value, o.pageUrl, detected.captchaType, o.createReply, o.pollReplies);
            if !HasToken(run.outcome) then Iteration(Some(run), false, Some(SolveFailed(run.outcome)))
            else if !o.injected then Iteration(Some(run), false, Some(Crashed(InjectionRaised)))
            else ClaimAndConfirm(o, Some(run))
  }

  /** The OK click of this iteration was made and succeeded. */
  predicate Confirmed(apiKey: string, o: Observation)
  {
    Iterate(apiKey, o).claimAttempted && o.claimClicked && o.okClicked
  }

  /** The number of confirmed claims among the iterations `run`. */
  function CountConfirmed(apiKey: string, run: seq<Observation>): nat
  {
    if run == [] then 0
    else CountConfirmed(apiKey, run[..|run| - 1]) + if Confirmed(apiKey, run[|run| - 1]) then 1 else 0
  }

  /**
   * An iteration goes on to the next one exactly when its OK click was
   * made and succeeded; it tries the claim click exactly when it does not
   * end at the cooldown check, the captcha handling or a crash.
   */
  lemma IterationEnds(apiKey: string, o: Observation)
    ensures Iterate(apiKey, o).stop.None? <==> Confirmed(apiKey, o)
    ensures Iterate(apiKey, o).claimAttempted <==>
      Iterate(apiKey, o).stop in {None, Some(ClaimFailed), Some(OkMissing)}
  {
  }

  /**
   * A cooldown text ends the loop before anything else happens: no
   * solver call, no claim click.
   */
  lemma CooldownStopsFirst(apiKey: string, o: Observation)
    requires ShowsCooldown(o)
    ensures Iterate(apiKey, o) == Iteration(None, false, Some(Cooldown))
  {
  }

  /**
   * With an empty API key the solver is never called, and an iteration
   * that needs a captcha ends the loop without a claim click.
   */
  lemma NoApiKeyNoSolve(o: Observation)
    ensures Iterate("", o).solve.None?
    ensures !ShowsCooldown(o) && NeedsCaptcha(o) == Returned(true) ==>
      Iterate("", o) == Iteration(None, false, Some(NoApiKey))
  {
  }

  /**
   * The solver is called only for a needed captcha with a non-empty key,
   * with the detected sitekey and kind and the page's address; a call that
   * yields no non-empty token ends the loop before the claim click.
   */
  lemma SolverCall(apiKey: string, o: Observation)
    requires Iterate(apiKey, o).solve.Some?
    ensures apiKey != "" && !ShowsCooldown(o) && NeedsCaptcha(o) == Returned(true)
    ensures Detect(o.scan).sitekey.Some?
    ensures Iterate(apiKey, o).solve.value.sent[0] ==
      CreateTask(apiKey, BuildTask(Detect(o.scan).sitekey.value, o.pageUrl, Detect(o.scan).captchaType))
    ensures !HasToken(Iterate(apiKey, o).solve.value.outcome) ==>
      Iterate(apiKey, o).stop == Some(SolveFailed(Iterate(apiKey, o).solve.value.outcome))
      && !Iterate(apiKey, o).claimAttempted
  {
  }

  /**
   * A page with no cooldown text and no captcha goes straight to the claim
   * click and the OK click, without a solver call.
   */
  lemma CleanPageClaims(apiKey: string, o: Observation)
    requires !ShowsCooldown(o) && NeedsCaptcha(o) == Returned(false)
    ensures Iterate(apiKey, o) == ClaimAndConfirm(o, None)
    ensures Iterate(apiKey, o).claimAttempted && Iterate(apiKey, o).solve.None?
    ensures Iterate(apiKey, o).stop.None? <==> o.claimClicked && o.okClicked
  {
  }

  /**
   * A needed captcha, with a key and a detected sitekey, calls the solver
   * with that sitekey, the detected kind, the page's address and the
   * observed replies; a non-empty token that is injected leads on to the
   * claim click and the OK click.
   */
  lemma CaptchaSolvedThenClaims(apiKey: string, o: Observation)
    requires !ShowsCooldown(o) && NeedsCaptcha(o) == Returned(true)
    requires apiKey != "" && Detect(o.scan).sitekey.Some?
    ensures Iterate(apiKey, o).solve ==
      Some(Solve(apiKey, Detect(o.scan).sitekey.value, o.pageUrl, Detect(o.scan).captchaType, o.createReply, o.pollReplies))
    ensures HasToken(Iterate(apiKey, o).solve.value.outcome) && o.injected ==>
      Iterate(apiKey, o) == ClaimAndConfirm(o, Iterate(apiKey, o).solve)
    ensures Iterate(apiKey, o).claimAttempted <==> HasToken(Iterate(apiKey, o).solve.value.outcome) && o.injected
  {
  }

  /**
   * Where each uncaught exception escapes: a raising count in the captcha
   * test, the solver's first line on a missing sitekey, and the
   * token-injection script.
   */
  lemma CrashSites(apiKey: string, o: Observation)
    ensures Iterate(apiKey, o).stop == Some(Crashed(CaptchaCheckRaised)) <==>
      !ShowsCooldown(o) && NeedsCaptcha(o).Threw?
    ensures Iterate(apiKey, o).stop == Some(Crashed(MissingSitekey)) <==>
      !ShowsCooldown(o) && NeedsCaptcha(o) == Returned(true) && apiKey != "" && Detect(o.scan).sitekey.None?
    ensures Iterate(apiKey, o).stop == Some(Crashed(InjectionRaised)) <==>
      !ShowsCooldown(o) && NeedsCaptcha(o) == Returned(true) && apiKey != "" && Detect(o.scan).sitekey.Some?
      && HasToken(Solve(apiKey, Detect(o.scan).sitekey.value, o.pageUrl, Detect(o.scan).captchaType,
                        o.createReply, o.pollReplies).outcome)
      && !o.injected
  {
  }

  lemma CountConfirmedLast(apiKey: string, observations: seq<Observation>, n: nat)
    requires n < |observations|
    ensures CountConfirmed(apiKey, observations[..n + 1]) ==
      CountConfirmed(apiKey, observations[..n]) + if Confirmed(apiKey, observations[n]) then 1 else 0
  {
    assert observations[..n + 1][..n] == observations[..n];
  }

  /**
   * The body of the `while True` loop, statement by statement: it ends the
   * loop (with the reason) or completes a confirmed claim, exactly as
   * `Iterate` describes.
   */
  method Step(apiKey: string, o: Observation) returns (stop: Option<StopReason>)
    ensures stop == Iterate(apiKey, o).stop
  {
    if ShowsCooldown(o) {
      return Some(Cooldown);
    }

    var needsCaptcha := NeedsCaptcha(o);
    if needsCaptcha.Threw? {
      return Some(Crashed(CaptchaCheckRaised));
    }

    if needsCaptcha.value {
      if apiKey == "" {
        return Some(NoApiKey);
      }
      var detected := Detect(o.scan);
      var sitekey, captchaType := detected.sitekey, detected.captchaType;
      if sitekey.None? {
        return Some(Crashed(MissingSitekey));
      }
      var outcome, sent := SolveCaptcha(apiKey, sitekey.value, o.pageUrl, captchaType, o.createReply, o.pollReplies);
      if !HasToken(outcome) {
        return Some(SolveFailed(outcome));
      }
      if !o.injected {
        return Some(Crashed(InjectionRaised));
      }
    }

    if !o.claimClicked {
      return Some(ClaimFailed);
    }
    if !o.okClicked {
      return Some(OkMissing);
    }
    stop := None;
  }

  /**
   * The `while True` loop over the page's answers, iteration by iteration,
   * with `i` starting at 1. It ends at the first iteration that ends it,
   * having completed every earlier one, or runs through all the
   * observations; `i` is one more than the number of confirmed claims.
   */
  method Loop(apiKey: string, observations: seq<Observation>) returns (i: int, stop: Option<StopReason>)
    ensures 1 <= i <= |observations| + 1
    ensures forall j :: 0 <= j < i - 1 ==> Iterate(apiKey, observations[j]).stop.None?
    ensures stop.Some? ==> i - 1 < |observations| && stop == Iterate(apiKey, observations[i - 1]).stop
    ensures stop.None? ==> i == |observations| + 1
    ensures i == 1 + CountConfirmed(apiKey, observations[..if stop.Some? then i else i - 1])
  {
    i := 1;
    stop := None;
    while i - 1 < |observations|
      invariant 1 <= i <= |observations| + 1
      invariant stop.None?
      invariant forall j :: 0 <= j < i - 1 ==> Iterate(apiKey, observations[j]).stop.None?
      invariant i == 1 + CountConfirmed(apiKey, observations[..i - 1])
    {
      var o := observations[i - 1];
      var ended := Step(apiKey, o);
      IterationEnds(apiKey, o);
      CountConfirmedLast(apiKey, observations, i - 1);
      if ended.Some? {
        stop := ended;
        break;
      }
      i := i + 1;
    }
  }
}
