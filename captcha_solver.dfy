/**
 * The client side of the 2Captcha V2 JSON protocol as `solve_captcha_v2`
 * drives it: one `createTask` request, then up to thirty `getTaskResult`
 * polls. The HTTP exchanges are abstract: the caller supplies the reply the
 * service gives to the create request and to each poll attempt.
 */
module CaptchaSolver {
  import opened Wrappers

  /** The poll budget, `for _ in range(30)`. */
  const MaxPolls: nat := 30

  datatype TaskType = HCaptchaTaskProxyless | TurnstileTaskProxyless

  /** The `task` object of a `createTask` body. */
  datatype Task = Task(taskType: TaskType, websiteURL: string, websiteKey: string)

  /** The JSON bodies the client posts, in the order it posts them. */
  datatype Request =
    | CreateTask(clientKey: string, task: Task)
    | GetTaskResult(clientKey: string, taskId: Option<int>)

  /**
   * The `solution` member of a reply: absent (so `.get("solution", {})`
   * yields `{}`), present but not a JSON object (so `.get` on it raises), or
   * an object whose two token fields may each be absent.
   */
  datatype Solution =
    | NoSolution
    | NotAnObject
    | SolutionObject(gRecaptchaResponse: Option<string>, token: Option<string>)

  /**
   * One HTTP exchange as the client sees it: either something raised (a
   * transport error, a timeout, a body that is not a JSON object), or a
   * decoded JSON object. A `None` member is one that is absent; `errorId`
   * is `None` also when it is present but not an integer.
   */
  datatype Reply =
    | Raised
    | Reply(errorId: Option<int>, taskId: Option<int>, status: Option<string>, solution: Solution)

  /** The error half of the `(token, error)` pair; the message texts are not modelled. */
  datatype SolveError =
    | CreateRejected(rejection: Reply)
    | CreateRaised
    | PollRejected(rejection: Reply)
    | PollTimeout

  /** `(token, None)` or `(None, error)`. */
  datatype Outcome = Solved(token: Option<string>) | Failed(error: SolveError)

  /** Everything one call does: what it returns and the requests it posts. */
  datatype SolveRun = SolveRun(outcome: Outcome, sent: seq<Request>)

  /**
   * The `task` object: a Turnstile task exactly when the captcha type is
   * `"turnstile"`, an hCaptcha task for every other value, carrying the
   * page URL and the sitekey unchanged.
   */
  function BuildTask(sitekey: string, url: string, captchaType: string): (t: Task)
    ensures t.taskType == TurnstileTaskProxyless <==> captchaType == "turnstile"
    ensures t.taskType == HCaptchaTaskProxyless <==> captchaType != "turnstile"
    ensures t.websiteURL == url && t.websiteKey == sitekey
  {
    Task(if captchaType == "turnstile" then TurnstileTaskProxyless else HCaptchaTaskProxyless, url, sitekey)
  }

  /** The create step succeeded: a JSON object whose `errorId` is `0`. */
  predicate CreateAccepted(reply: Reply)
  {
    reply.Reply? && reply.errorId == Some(0)
  }

  /** The reply to poll attempt `k`; an attempt the sequence does not cover got no answer, which raises. */
  function ReplyAt(polls: seq<Reply>, k: nat): Reply
  {
    if k < |polls| then polls[k] else Raised
  }

  /**
   * `solution.get("gRecaptchaResponse") or solution.get("token")`: one of
   * the two fields, the first whenever it is a non-empty string; the result
   * is a non-empty string exactly when either field is.
   */
  function PickToken(gRecaptchaResponse: Option<string>, token: Option<string>): (r: Option<string>)
    ensures r == gRecaptchaResponse || r == token
    ensures gRecaptchaResponse.Some? && gRecaptchaResponse.value != "" ==> r == gRecaptchaResponse
    ensures !(gRecaptchaResponse.Some? && gRecaptchaResponse.value != "") ==> r == token
    ensures (r.Some? && r.value != "") <==>
      (gRecaptchaResponse.Some? && gRecaptchaResponse.value != "") || (token.Some? && token.value != "")
  {
    if gRecaptchaResponse.Some? && gRecaptchaResponse.value != "" then gRecaptchaResponse else token
  }

  /**
   * What one poll reply decides: `None` to keep polling, or the value the
   * call returns. A reply that raises, or whose `solution` is not an object,
   * keeps polling; a non-zero (or missing) `errorId` is a failure; a
   * `"ready"` status returns the token.
   */
  function PollVerdict(reply: Reply): (v: Option<Outcome>)
    ensures reply.Raised? ==> v.None?
    ensures v.Some? && v.value.Failed? ==> reply.Reply? && reply.errorId != Some(0) && v.value == Failed(PollRejected(reply))
    ensures v.Some? && v.value.Solved? ==> reply.Reply? && reply.errorId == Some(0) && reply.status == Some("ready")
    ensures reply.Reply? && reply.errorId != Some(0) ==> v == Some(Failed(PollRejected(reply)))
    ensures reply.Reply? && reply.errorId == Some(0) ==>
      (v.None? <==> reply.status != Some("ready") || reply.solution.NotAnObject?)
  {
    match reply
    case Raised => None
    case Reply(errorId, _, status, solution) =>
      if errorId != Some(0) then Some(Failed(PollRejected(reply)))
      else if status != Some("ready") then None
      else match solution
        case NoSolution => Some(Solved(None))
        case NotAnObject => None
        case SolutionObject(g, t) => Some(Solved(PickToken(g, t)))
  }

  /**
   * The first attempt, from `from` on, whose reply decides the call, or
   * `MaxPolls` when none of the remaining attempts does.
   */
  function FirstDecisive(polls: seq<Reply>, from: nat): (k: nat)
    requires from <= MaxPolls
    ensures from <= k <= MaxPolls
    ensures forall j :: from <= j < k ==> PollVerdict(ReplyAt(polls, j)).None?
    ensures k < MaxPolls ==> PollVerdict(ReplyAt(polls, k)).Some?
    decreases MaxPolls - from
  {
    if from == MaxPolls || PollVerdict(ReplyAt(polls, from)).Some? then from
    else FirstDecisive(polls, from + 1)
  }

  /** The requests of a call that made `attempts` polls. */
  function Posted(apiKey: string, task: Task, taskId: Option<int>, attempts: nat): seq<Request>
  {
    [CreateTask(apiKey, task)] + seq(attempts, _ => GetTaskResult(apiKey, taskId))
  }

  /**
   * `solve_captcha_v2(api_key, sitekey, url, captcha_type)` given the
   * reply to the create request and the replies to the poll attempts.
   * It posts the create request first and then only polls for that task;
   * a failed create posts nothing else; it never polls more than
   * `MaxPolls` times; it times out exactly when all `MaxPolls` polls left
   * the captcha undecided.
   */
  function Solve(apiKey: string, sitekey: string, url: string, captchaType: string,
                 create: Reply, polls: seq<Reply>): (run: SolveRun)
    ensures 1 <= |run.sent| <= 1 + MaxPolls
    ensures run.sent[0] == CreateTask(apiKey, BuildTask(sitekey, url, captchaType))
    ensures forall k :: 1 <= k < |run.sent| ==> create.Reply? && run.sent[k] == GetTaskResult(apiKey, create.taskId)
    ensures !CreateAccepted(create) ==>
      |run.sent| == 1 && run.outcome == Failed(if create.Raised? then CreateRaised else CreateRejected(create))
    ensures run.outcome == Failed(PollTimeout) <==>
      CreateAccepted(create) && forall j :: 0 <= j < MaxPolls ==> PollVerdict(ReplyAt(polls, j)).None?
    ensures run.outcome == Failed(PollTimeout) ==> |run.sent| == 1 + MaxPolls
  {
    var task := BuildTask(sitekey, url, captchaType);
    if !CreateAccepted(create) then
      SolveRun(Failed(if create.Raised? then CreateRaised else CreateRejected(create)), Posted(apiKey, task, None, 0))
    else
      var k := FirstDecisive(polls, 0);
      if k < MaxPolls then
        var outcome := PollVerdict(ReplyAt(polls, k)).value;
        assert outcome != Failed(PollTimeout);
        SolveRun(outcome, Posted(apiKey, task, create.taskId, k + 1))
      else
        SolveRun(Failed(PollTimeout), Posted(apiKey, task, create.taskId, MaxPolls))
  }

  /** `FirstDecisive` is the first deciding attempt: pinning it down from its defining facts. */
  lemma {:induction false} FirstDecisiveIs(polls: seq<Reply>, from: nat, k: nat)
    requires from <= k <= MaxPolls
    requires forall j :: from <= j < k ==> PollVerdict(ReplyAt(polls, j)).None?
    requires k < MaxPolls ==> PollVerdict(ReplyAt(polls, k)).Some?
    ensures FirstDecisive(polls, from) == k
    decreases k - from
  {
    if from < k {
      FirstDecisiveIs(polls, from + 1, k);
    }
  }

  /**
   * When the first deciding reply is `"ready"` with a zero `errorId` and a
   * `solution` that is absent or an object, the call ends with the token it
   * carries (the first non-empty of `gRecaptchaResponse` and `token`; none
   * when `solution` is absent), after exactly that many polls.
   */
  lemma ReadyReturnsToken(apiKey: string, sitekey: string, url: string, captchaType: string,
                          create: Reply, polls: seq<Reply>, k: nat)
    requires CreateAccepted(create)
    requires k < MaxPolls && k < |polls|
    requires forall j :: 0 <= j < k ==> PollVerdict(ReplyAt(polls, j)).None?
    requires polls[k].Reply? && polls[k].errorId == Some(0) && polls[k].status == Some("ready")
    requires !polls[k].solution.NotAnObject?
    ensures var run := Solve(apiKey, sitekey, url, captchaType, create, polls);
      |run.sent| == k + 2 &&
      run.outcome == Solved(match polls[k].solution
                            case SolutionObject(g, t) => PickToken(g, t)
                            case _ => None)
  {
    FirstDecisiveIs(polls, 0, k);
  }

  /** The first reply with a non-zero or missing `errorId` fails the call at once. */
  lemma ErrorReplyStops(apiKey: string, sitekey: string, url: string, captchaType: string,
                        create: Reply, polls: seq<Reply>, k: nat)
    requires CreateAccepted(create)
    requires k < MaxPolls && k < |polls|
    requires forall j :: 0 <= j < k ==> PollVerdict(ReplyAt(polls, j)).None?
    requires polls[k].Reply? && polls[k].errorId != Some(0)
    ensures var run := Solve(apiKey, sitekey, url, captchaType, create, polls);
      |run.sent| == k + 2 && run.outcome == Failed(PollRejected(polls[k]))
  {
    FirstDecisiveIs(polls, 0, k);
  }

  lemma {:induction false} FirstDecisiveReadsPrefix(polls: seq<Reply>, other: seq<Reply>, from: nat)
    requires from <= MaxPolls
    requires forall j :: from <= j <= FirstDecisive(polls, from) && j < MaxPolls ==> ReplyAt(other, j) == ReplyAt(polls, j)
    ensures FirstDecisive(other, from) == FirstDecisive(polls, from)
    decreases MaxPolls - from
  {
    if from < MaxPolls && PollVerdict(ReplyAt(polls, from)).None? {
      FirstDecisiveReadsPrefix(polls, other, from + 1);
    }
  }

  /**
   * The call depends only on the replies to the polls it actually made:
   * any other replies to the attempts it did not reach change nothing.
   */
  lemma UnreadRepliesIrrelevant(apiKey: string, sitekey: string, url: string, captchaType: string,
                                create: Reply, polls: seq<Reply>, other: seq<Reply>)
    requires forall j :: 0 <= j < |Solve(apiKey, sitekey, url, captchaType, create, polls).sent| - 1 ==>
      ReplyAt(other, j) == ReplyAt(polls, j)
    ensures Solve(apiKey, sitekey, url, captchaType, create, other) == Solve(apiKey, sitekey, url, captchaType, create, polls)
  {
    if CreateAccepted(create) {
      FirstDecisiveReadsPrefix(polls, other, 0);
    }
  }

  lemma {:induction false} FirstDecisiveIgnoresRaise(polls: seq<Reply>, from: nat, i: nat)
    requires from <= MaxPolls && i < |polls|
    requires PollVerdict(polls[i]).None?
    ensures FirstDecisive(polls[i := Raised], from) == FirstDecisive(polls, from)
    decreases MaxPolls - from
  {
    if from < MaxPolls {
      assert ReplyAt(polls[i := Raised], from).Raised? || ReplyAt(polls[i := Raised], from) == ReplyAt(polls, from);
      FirstDecisiveIgnoresRaise(polls, from + 1, i);
    }
  }

  /**
   * A poll that raises is treated like one that is not ready yet: turning
   * any undecided reply into an exception changes neither the result nor
   * the requests posted.
   */
  lemma RaisedPollIsNotReady(apiKey: string, sitekey: string, url: string, captchaType: string,
                             create: Reply, polls: seq<Reply>, i: nat)
    requires i < |polls| && PollVerdict(polls[i]).None?
    ensures Solve(apiKey, sitekey, url, captchaType, create, polls[i := Raised])
         == Solve(apiKey, sitekey, url, captchaType, create, polls)
  {
    FirstDecisiveIgnoresRaise(polls, 0, i);
  }

  /**
   * The imperative client: post the create request, stop on a failed
   * create, then poll at most `MaxPolls` times, returning on the first
   * deciding reply. It does exactly what `Solve` describes.
   */
  method SolveCaptcha(apiKey: string, sitekey: string, url: string, captchaType: string,
                      create: Reply, polls: seq<Reply>)
    returns (outcome: Outcome, sent: seq<Request>)
    ensures SolveRun(outcome, sent) == Solve(apiKey, sitekey, url, captchaType, create, polls)
  {
    var task := BuildTask(sitekey, url, captchaType);
    sent := [CreateTask(apiKey, task)];
    if create.Raised? {
      outcome := Failed(CreateRaised);
      return;
    }
    if create.errorId != Some(0) {
      outcome := Failed(CreateRejected(create));
      return;
    }
    var taskId := create.taskId;
    var attempt := 0;
    while attempt < MaxPolls
      invariant 0 <= attempt <= MaxPolls
      invariant sent == Posted(apiKey, task, taskId, attempt)
      invariant forall j :: 0 <= j < attempt ==> PollVerdict(ReplyAt(polls, j)).None?
    {
      var reply := ReplyAt(polls, attempt);
      sent := sent + [GetTaskResult(apiKey, taskId)];
      assert sent == Posted(apiKey, task, taskId, attempt + 1);
      if reply.Reply? {
        if reply.errorId != Some(0) {
          outcome := Failed(PollRejected(reply));
          FirstDecisiveIs(polls, 0, attempt);
          return;
        }
        if reply.status == Some("ready") {
          match reply.solution
          case NoSolution =>
            outcome := Solved(None);
            FirstDecisiveIs(polls, 0, attempt);
            return;
          case NotAnObject =>
          case SolutionObject(g, t) =>
            outcome := Solved(PickToken(g, t));
            FirstDecisiveIs(polls, 0, attempt);
            return;
        }
      }
      attempt := attempt + 1;
    }
    outcome := Failed(PollTimeout);
    FirstDecisiveIs(polls, 0, MaxPolls);
  }
}
