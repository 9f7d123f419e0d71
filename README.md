# bot-hosting.net coin claimer, modelled in Dafny

`bot_claimer.py` signs in to the bot-hosting.net earn page with a stored
`AUTH_TOKEN`. It then claims coins repeatedly until the site shows a cooldown
or something goes wrong. The script does three kinds of work:

- **Proxy selection.** `get_proxy_list` parses the `PROXY_SERVER` setting
  into a list of candidates. `get_working_proxy` probes them in order and
  keeps the first one through which the site answers with HTTP 200. With no
  candidates the browser connects directly. With candidates and none
  working, the script gives up.
- **Captcha solving.** `solve_captcha_v2` speaks the 2Captcha V2 JSON
  protocol. It posts one `createTask` request with an hCaptcha or Turnstile
  task, then polls `getTaskResult` at most 30 times. The first deciding
  reply ends the call: one with a non-zero `errorId` fails it, and one that
  is `"ready"` with `errorId` 0 returns its token. Polls that raise, and
  `"ready"` replies whose `solution` is present but not an object, decide
  nothing.
- **The claim loop.** Each iteration does the following in order:
  - stops if the green button says "cooldown" or "cool down", in any case;
  - decides whether a captcha is shown;
  - detects its kind and sitekey: an hCaptcha iframe's `sitekey=` parameter
    or a Turnstile widget's `data-sitekey`, with a built-in hCaptcha sitekey
    as the fallback;
  - solves it;
  - clicks the claim button, then the OK button, and counts the completed
    claim.

  Every failure ends the loop. These steps raise outside any `try`, so an
  exception there ends the whole script:
  - the two counts that decide whether a captcha is needed;
  - the solver's first line, when the sitekey is `None`;
  - the token injection script.

The model is split into these modules:

- `Wrappers` holds `Option`.
- `PyStr` models the Python string built-ins the script uses:
  - `isspace`, `strip`, `replace`, `split`, `lower` and `in`;
  - the full Unicode whitespace set of `str.isspace`;
  - `"".split(",") == [""]`.
- `ProxyList` models `get_proxy_list`.
- `CaptchaSolver` models `solve_captcha_v2`:
  - `Solve` is a specification function;
  - `SolveCaptcha` is the imperative polling loop, proved equal to `Solve`.
- `ProxyProbe` models `get_working_proxy` as a method with a loop.
- `Startup` models `main` up to the claim loop.
- `ChallengeDetection` models the cooldown test, the `sitekey=([^&]+)`
  search (leftmost match, greedy run) and the kind/sitekey detection block.
- `ClaimLoop` models the claim loop in two forms:
  - `Iterate` describes one iteration;
  - `Step` is the loop body as statements, proved to agree with `Iterate`;
  - `Loop` runs the iterations with `break` and the counter `i`.

The model does no I/O. Every browser call and HTTP exchange is replaced by
a value the caller supplies:
- `Reply` is what a 2Captcha request returned or that it raised;
- `ProbeResult` is what probing one proxy observed;
- `WidgetScan` and `Observation` are what the page calls returned.

Python's exception flow becomes explicit cases of these datatypes.

One behaviour of the script is kept as written. A Turnstile widget without a
`data-sitekey` attribute yields a `None` sitekey. The solver's first line
then raises `TypeError`, and `main` ends. `ChallengeDetection.DetectSitekey`
characterises exactly when this happens. `ClaimLoop.CrashSites` states that
the loop then ends with `Crashed(MissingSitekey)`.

## Model

| member | source | states |
|---|---|---|
| `PyStr.LStrip` | bot_claimer.py:20 | The result is a suffix of the input. Everything dropped is whitespace. The result does not start with whitespace. |
| `PyStr.RStrip` | bot_claimer.py:20 | The result is a prefix of the input. Everything dropped is whitespace. The result does not end with whitespace. |
| `PyStr.Strip` | bot_claimer.py:20 | A non-empty stripped string starts and ends with non-whitespace. |
| `PyStr.StripSlice` | bot_claimer.py:20 | `strip()` keeps exactly the slice between the leading and the trailing whitespace. It is empty iff the string is all whitespace. |
| `PyStr.ReplaceChar` | bot_claimer.py:19 | Same length. Each character equal to `from` becomes `to`; every other character is unchanged. |
| `PyStr.Split` | bot_claimer.py:19 | At least one piece, and no piece holds the separator. |
| `PyStr.JoinSplit` | bot_claimer.py:19 | Joining the pieces with the separator gives back the input. |
| `PyStr.SplitJoin` | bot_claimer.py:19 | Splitting a join of separator-free pieces gives back exactly those pieces. This is the other half of the round trip. |
| `PyStr.SplitConcat` | bot_claimer.py:19 | Splitting `a + sep + b` gives the pieces of `a` followed by the pieces of `b`. |
| `PyStr.SplitNoSep` | bot_claimer.py:19 | A string without the separator splits into itself alone. |
| `ProxyList.GetProxyList` | bot_claimer.py:16-20 | An empty setting gives no candidates. Every candidate is non-empty, has no surrounding whitespace and holds no comma or newline. |
| `ProxyList.Clean` | bot_claimer.py:20 | The comprehension itself. Its results are stated by CleanEntries, CleanEmpty, CleanConcat and CleanAvoids. |
| `ProxyList.CleanConcat` | bot_claimer.py:20 | The comprehension over two piece lists is the concatenation of the two results. |
| `ProxyList.CleanAvoids` | bot_claimer.py:20 | A character no piece holds appears in no entry. |
| `ProxyList.CleanEntries` | bot_claimer.py:20 | The filtered comprehension keeps only non-empty stripped pieces. |
| `ProxyList.CleanEmpty` | bot_claimer.py:20 | The comprehension is empty exactly when every piece strips to nothing. |
| `ProxyList.PiecesAgree` | bot_claimer.py:17-20 | The early `return []` for an empty setting agrees with splitting and filtering it, since `"".split(",")` yields one blank piece. |
| `ProxyList.SingleCandidate` | bot_claimer.py:16-20 | A setting without a comma or newline yields its stripped self, or nothing when it is blank. |
| `ProxyList.SeparatorSplits` | bot_claimer.py:19-20 | A comma or a newline splits the setting: candidates of `a + sep + b` are those of `a` then those of `b`, in input order. Together with SingleCandidate this fixes the list for every input. |
| `ProxyList.BlankSetting` | bot_claimer.py:16-20 | No candidate comes out iff the setting is only whitespace and commas. |
| `CaptchaSolver.BuildTask` | bot_claimer.py:28-44 | A Turnstile task iff the type is `"turnstile"`, otherwise an hCaptcha task. The URL and sitekey are carried unchanged. |
| `CaptchaSolver.PickToken` | bot_claimer.py:89 | Python's `g or t`: the result is `gRecaptchaResponse` when it is a non-empty string, and `token` otherwise (an empty or missing first field yields the second as it is). The token is a non-empty string iff either field is. |
| `CaptchaSolver.PollVerdict` | bot_claimer.py:83-92 | A raising poll decides nothing. A non-zero or missing `errorId` fails with that reply. A token is returned only from a `"ready"` reply with `errorId` 0. A reply with `errorId` 0 keeps the polling going iff its status is not `"ready"` or its `solution` is not an object (the `.get` on it raises and is swallowed). |
| `CaptchaSolver.FirstDecisive` | bot_claimer.py:72-92 | The first poll attempt whose reply decides the call, or 30 when none does. Every earlier attempt leaves the captcha undecided. |
| `CaptchaSolver.Solve` | bot_claimer.py:23-94 | The create request is sent first. Only `getTaskResult` for the created task follows. A failed or raising create sends nothing else. There are at most 30 polls. It times out iff all 30 polls were undecided, and then it has made 30 polls. |
| `CaptchaSolver.ReadyReturnsToken` | bot_claimer.py:86-90 | When the first deciding reply is `"ready"` with `errorId` 0 and its `solution` is absent or an object, the call returns its token: `gRecaptchaResponse` if non-empty, else `token`, and none when `solution` is absent. The call then stops after that poll. A `"ready"` reply whose `solution` is not an object decides nothing (PollVerdict). |
| `CaptchaSolver.ErrorReplyStops` | bot_claimer.py:83-84 | The first reply with a non-zero or missing `errorId` fails the call immediately. |
| `CaptchaSolver.UnreadRepliesIrrelevant` | bot_claimer.py:72-94 | The result and the requests sent depend only on the replies to the polls actually made. |
| `CaptchaSolver.RaisedPollIsNotReady` | bot_claimer.py:74-92 | A poll that raises behaves like a poll that is not ready yet: swapping one for the other changes nothing. |
| `CaptchaSolver.SolveCaptcha` | bot_claimer.py:23-94 | The imperative create-then-poll loop returns exactly the outcome and request sequence of `Solve`. |
| `ProxyProbe.GetWorkingProxy` | bot_claimer.py:96-122 | Returns the first candidate whose probe saw status 200 and a clean close. Every earlier candidate was probed and failed; none later was probed. It returns `None` iff no candidate works, after probing all of them. |
| `Startup.Connect` | bot_claimer.py:159-204 | An empty token stops everything. No candidates gives a direct connection. Candidates with none working makes the script give up. Otherwise the first working proxy is used, after every earlier candidate failed. `NavigationFailed` comes only from a failed earn-page navigation, and `Started` only after it loaded. |
| `Startup.Start` | bot_claimer.py:158-204 | The same clauses as `Connect`, stated over the `PROXY_SERVER` setting through `get_proxy_list`. |
| `ChallengeDetection.ContainsLower` | bot_claimer.py:222 | A word without capitals occurs in `text.lower()` iff some window of `text` matches it letter by letter, each letter as written or as its capital. |
| `ChallengeDetection.IsCooldownText` | bot_claimer.py:222 | The cooldown test holds iff "cooldown" or "cool down" occurs in the text, each letter in either case. |
| `ChallengeDetection.CooldownExamples` | bot_claimer.py:222 | "Cooldown" and "COOL DOWN 23:59:59" are cooldown texts. "Click here to claim" is not. |
| `ChallengeDetection.RunToAmp` | bot_claimer.py:246 | Greedy `[^&]*`: the longest prefix without `&`. |
| `ChallengeDetection.FindKey` | bot_claimer.py:246 | The leftmost position where `sitekey=` is followed by a non-`&` character. |
| `ChallengeDetection.SearchSitekeySpec` | bot_claimer.py:246-248 | The search matches iff some `sitekey=` is followed by a non-`&` character. The captured key is the whole non-empty run up to `&` or the end, after the leftmost match. |
| `ChallengeDetection.SearchSitekeyExample` | bot_claimer.py:246-248 | `sitekey=abc&x` captures `abc`. |
| `ChallengeDetection.DetectKind` | bot_claimer.py:239-253 | The kind is `"hcaptcha"` or `"turnstile"`. It is `"turnstile"` iff no hCaptcha iframe was counted and some Turnstile widget was, so an iframe takes precedence. |
| `ChallengeDetection.DetectFromFrame` | bot_claimer.py:244-248 | With an hCaptcha iframe, the sitekey is the one captured from its `src`, or the built-in key when there is no match or the look-up raised. |
| `ChallengeDetection.SearchSitekey` | bot_claimer.py:246-248 | A found key is a non-empty run without `&`, shorter than the address. Its position and maximality are stated by SearchSitekeySpec. |
| `ChallengeDetection.Detect` | bot_claimer.py:239-253 | The kind is `"hcaptcha"` or `"turnstile"`. A missing sitekey happens only with `"turnstile"`. A raising iframe count keeps the built-in key and `"hcaptcha"`. DetectKind, DetectFromFrame and DetectSitekey state the rest. |
| `ChallengeDetection.DetectSitekey` | bot_claimer.py:239-253 | The sitekey is `None` iff a Turnstile widget had no `data-sitekey`. A found widget (and no iframe) gives exactly its `data-sitekey`, or the built-in key when reading it raised. With no iframe, or when a count raised, an hCaptcha result keeps the built-in key. |
| `ClaimLoop.NeedsCaptcha` | bot_claimer.py:230 | It raises iff the prompt count raised, or that count was zero and the iframe count raised. The iframe count is asked only in that case. It is false iff both counts returned zero. |
| `ClaimLoop.Iterate` | bot_claimer.py:207-325 | Only a cooldown text stops the iteration with `Cooldown`. No crash happens after the claim click. The solver is called only with a non-empty key. The progress paths are stated by CleanPageClaims and CaptchaSolvedThenClaims, the crash sites by CrashSites, and the stopping paths by IterationEnds, CooldownStopsFirst, NoApiKeyNoSolve and SolverCall. |
| `ClaimLoop.ClaimAndConfirm` | bot_claimer.py:300-323 | The claim click is always tried. The loop goes on exactly when both the claim click and the OK click succeeded. It stops with `ClaimFailed` iff the claim click failed, and with `OkMissing` iff the claim click succeeded and the OK click failed. |
| `ClaimLoop.CleanPageClaims` | bot_claimer.py:230-323 | A page without a cooldown text and without a captcha goes straight to the claim click and the OK click, without a solver call, and continues iff both clicks succeed. |
| `ClaimLoop.CaptchaSolvedThenClaims` | bot_claimer.py:230-323 | A needed captcha with a key and a detected sitekey calls `Solve` with that sitekey, the detected kind, `page.url` and the observed replies. The claim click is tried iff the token is a non-empty string and its injection completed, and then the iteration is the claim and OK clicks. |
| `ClaimLoop.CrashSites` | bot_claimer.py:230-290 | The loop crashes at the captcha test iff a count there raised; at the solver's first line iff a needed captcha with a key has a `None` sitekey; at the injection iff a non-empty token came back and the injection script raised. |
| `ClaimLoop.Step` | bot_claimer.py:207-325 | The imperative loop body, statement by statement, ends the loop for exactly the reason `Iterate` gives, and continues exactly when `Iterate` does. |
| `ClaimLoop.IterationEnds` | bot_claimer.py:206-325 | An iteration continues iff its OK click succeeded. It tries the claim click iff it ended there or later. |
| `ClaimLoop.CooldownStopsFirst` | bot_claimer.py:218-228 | A cooldown text ends the loop before any solver call or click. |
| `ClaimLoop.NoApiKeyNoSolve` | bot_claimer.py:232-237 | With an empty API key the solver is never called. A needed captcha then ends the loop without a click. |
| `ClaimLoop.SolverCall` | bot_claimer.py:255-296 | The solver is called only for a needed captcha, a non-empty key and a present sitekey. It is called with the detected sitekey, kind and page URL. A call without a non-empty token ends the loop before the claim click. |
| `ClaimLoop.CountConfirmedLast` | bot_claimer.py:314-318 | One more iteration adds one to the count exactly when its OK click was made. |
| `ClaimLoop.Loop` | bot_claimer.py:206-325 | The loop ends at the first iteration that ends it, with every earlier iteration complete. Otherwise it runs through all observations. Afterwards `i` is one more than the number of confirmed claims. |

## Left out

- **I/O.** The Playwright and urllib calls, timeouts and `asyncio.sleep`
  pauses are replaced by caller-supplied results: `Reply`, `ProbeResult`,
  `WidgetScan`, `Observation` and the navigation flag. Console messages,
  screenshots and HTML dumps have no effect on the control flow and are not
  modelled.
- **Environment.** Reading `AUTH_TOKEN`, `PROXY_SERVER` and
  `TWOCAPTCHA_API_KEY` is not modelled: their stripped values are
  parameters.
- **Browser setup.**
  - `inject_token_and_login` (the localStorage injection) is not modelled.
    Its navigation and token write are inside a `try` and cannot change
    which branch `main` takes.
  - Some calls before the claim loop can raise outside any `try`, which
    ends `main`. The model assumes they complete. They are:
    - `chromium.launch` and `browser.new_context` for the main browser;
    - `context.new_page()` and `context.add_init_script` in
      `inject_token_and_login`.
  - The launch arguments are not modelled.
- **Injected script.** The claim loop's JavaScript is modelled only by
  whether it completed (`injected`). Its effect on the page is not modelled.
- **Ad dismissal.** The advert close click at the top of each iteration
  catches every exception and changes nothing the model observes.
- **Error messages.** The second element of the solver's result is reduced
  to the `SolveError` case.
- **JSON values.** Two cases are outside the model:
  - An `errorId` of JSON `false` or `0.0` equals `0` in Python. It must be
    supplied as `Some(0)`.
  - A `taskId` other than an integer or absent, and token fields other than
    strings.
- `PyStr.Lower`: folds only ASCII `A`–`Z`. The cooldown test's Unicode case
  mapping of other letters is not modelled.
- `ClaimLoop.Loop`: the `while True` loop runs over a finite sequence of
  observations. A run that never ends is not modelled; with no more
  observations the loop stops and reports no reason.
- `Startup.Connect`: receives the proxy list already parsed. `main` parses
  it right after the token check, and the parse has no side effects, so the
  order makes no difference.
- `CaptchaSolver.Solve`: a poll attempt beyond the supplied replies counts
  as one that raised.
