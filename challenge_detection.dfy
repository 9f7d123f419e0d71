/**
 * The page heuristics of the claim loop, as functions of what the page
 * showed: the cooldown test on the green button's text, and which captcha
 * kind and sitekey to hand to the solver.
 */
module ChallengeDetection {
  import opened Wrappers
  import opened PyStr

  /** The sitekey used when none can be read from the page. */
  const KnownHCaptchaSitekey: string := "21335a07-5b97-4a79-b1e9-b197dc35017a"

  const HCaptcha: string := "hcaptcha"
  const Turnstile: string := "turnstile"

  // ---------------------------------------------------------------------
  // Cooldown text

  /** `c` with an ASCII lower-case letter raised to upper case. */
  function UpperChar(c: char): char
  {
    if 'a' <= c <= 'z' then (c as int - 'a' as int + 'A' as int) as char else c
  }

  /** `w` holds no ASCII capital letter. */
  predicate LowerCaseWord(w: string)
  {
    forall j :: 0 <= j < |w| ==> !('A' <= w[j] <= 'Z')
  }

  /** `w` occurs at `i`, each of its letters either as written or as its capital. */
  predicate OccursAnyCase(text: string, w: string, i: nat)
  {
    i + |w| <= |text| && forall j :: 0 <= j < |w| ==> text[i + j] == w[j] || text[i + j] == UpperChar(w[j])
  }

  /** `w` occurs in `text` in some mix of upper and lower case. */
  predicate ContainsAnyCase(text: string, w: string)
  {
    exists i | 0 <= i <= |text| - |w| :: OccursAnyCase(text, w, i)
  }

  /** A character lowers to the lower-case `w` exactly when it is `w` or its capital. */
  lemma LowerCharMatch(c: char, w: char)
    requires !('A' <= w <= 'Z')
    ensures LowerChar(c) == w <==> c == w || c == UpperChar(w)
  {
  }

  /**
   * A word without capitals occurs in `text.lower()` exactly when it occurs
   * in `text` in some mix of case.
   */
  lemma ContainsLower(text: string, w: string)
    requires LowerCaseWord(w)
    ensures Contains(Lower(text), w) <==> ContainsAnyCase(text, w)
  {
    forall i: nat | i + |w| <= |text|
      ensures OccursAt(Lower(text), w, i) <==> OccursAnyCase(text, w, i)
    {
      forall j | 0 <= j < |w|
        ensures Lower(text)[i..i + |w|][j] == w[j] <==> text[i + j] == w[j] || text[i + j] == UpperChar(w[j])
      {
        LowerCharMatch(text[i + j], w[j]);
      }
    }
    if Contains(Lower(text), w) {
      var i :| 0 <= i <= |text| - |w| && OccursAt(Lower(text), w, i);
      assert OccursAnyCase(text, w, i);
    }
    if ContainsAnyCase(text, w) {
      var i :| 0 <= i <= |text| - |w| && OccursAnyCase(text, w, i);
      assert OccursAt(Lower(text), w, i);
    }
  }

  /**
   * `"cooldown" in text.lower() or "cool down" in text.lower()`: the test is
   * case-insensitive, holding exactly when "cooldown" or "cool down", in any
   * mix of case, occurs in the text.
   */
  function IsCooldownText(text: string): (r: bool)
    ensures r <==> ContainsAnyCase(text, "cooldown") || ContainsAnyCase(text, "cool down")
  {
    ContainsLower(text, "cooldown");
    ContainsLower(text, "cool down");
    Contains(Lower(text), "cooldown") || Contains(Lower(text), "cool down")
  }

  /** The button labels the site shows on a day whose quota is used up count as cooldown. */
  lemma CooldownExamples()
    ensures IsCooldownText("Cooldown")
    ensures IsCooldownText("COOL DOWN 23:59:59")
    ensures !IsCooldownText("Click here to claim")
  {
    var a := Lower("Cooldown");
    assert forall i | 0 <= i < |a| :: a[i] == "cooldown"[i];
    assert OccursAt(a, "cooldown", 0);
    var b := Lower("COOL DOWN 23:59:59");
    assert forall i | 0 <= i < 9 :: b[i] == "cool down"[i];
    assert b[..9] == "cool down";
    assert OccursAt(b, "cool down", 0);
    var t := Lower("Click here to claim");
    assert forall i | 0 <= i < |t| :: t[i] != 'w';
    forall i | 0 <= i <= |t| - 8 ensures !OccursAt(t, "cooldown", i) {
      assert t[i..i + 8][6] == t[i + 6] != 'w';
      assert "cooldown"[6] == 'w';
    }
    forall i | 0 <= i <= |t| - 9 ensures !OccursAt(t, "cool down", i) {
      assert t[i..i + 9][7] == t[i + 7] != 'w';
      assert "cool down"[7] == 'w';
    }
  }

  // ---------------------------------------------------------------------
  // `re.search(r'sitekey=([^&]+)', src)`

  const KeyPrefix: string := "sitekey="

  /** The pattern matches at `i`: the prefix, then at least one character other than `&`. */
  predicate KeyMatchAt(src: string, i: nat)
  {
    i + |KeyPrefix| < |src| && src[i..i + |KeyPrefix|] == KeyPrefix && src[i + |KeyPrefix|] != '&'
  }

  /** The greedy `[^&]+` run: the longest prefix without `&`. */
  function RunToAmp(s: string): (r: string)
    ensures |r| <= |s| && r == s[..|r|]
    ensures '&' !in r
    ensures |r| == |s| || s[|r|] == '&'
  {
    if s == [] || s[0] == '&' then []
    else
      var rest := RunToAmp(s[1..]);
      assert s[..1 + |rest|] == [s[0]] + rest;
      [s[0]] + rest
  }

  /** The leftmost position, from `from` on, where the pattern matches. */
  function FindKey(src: string, from: nat): (k: Option<nat>)
    ensures k.Some? ==> from <= k.value && KeyMatchAt(src, k.value)
    ensures k.Some? ==> forall j :: from <= j < k.value ==> !KeyMatchAt(src, j)
    ensures k.None? ==> forall j :: from <= j ==> !KeyMatchAt(src, j)
    decreases |src| - from
  {
    if from >= |src| then None
    else if KeyMatchAt(src, from) then Some(from)
    else FindKey(src, from + 1)
  }

  /**
   * `group(1)` of the leftmost match, if there is one: a non-empty run of
   * characters other than `&`, taken from the address.
   */
  function SearchSitekey(src: string): (r: Option<string>)
    ensures r.Some? ==> r.value != [] && '&' !in r.value && |r.value| < |src|
  {
    match FindKey(src, 0)
    case None => None
    case Some(i) => Some(RunToAmp(src[i + |KeyPrefix|..]))
  }

  /**
   * `key` is what the pattern captures when its leftmost match is at `i`:
   * the whole non-empty run of non-`&` characters after `sitekey=`.
   */
  predicate CapturedAt(src: string, i: nat, key: string)
  {
    KeyMatchAt(src, i)
    && (forall j :: 0 <= j < i ==> !KeyMatchAt(src, j))
    && key != [] && '&' !in key
    && i + |KeyPrefix| + |key| <= |src|
    && src[i + |KeyPrefix|..i + |KeyPrefix| + |key|] == key
    && (i + |KeyPrefix| + |key| == |src| || src[i + |KeyPrefix| + |key|] == '&')
  }

  /**
   * The search finds a sitekey exactly when `sitekey=` is followed by a
   * character other than `&` somewhere in the address, and what it returns
   * is the capture of the leftmost such match.
   */
  lemma SearchSitekeySpec(src: string)
    ensures SearchSitekey(src).Some? <==> exists i: nat :: KeyMatchAt(src, i)
    ensures SearchSitekey(src).Some? ==> exists i: nat :: CapturedAt(src, i, SearchSitekey(src).value)
  {
    match FindKey(src, 0)
    case None =>
    case Some(i) =>
      var start := i + |KeyPrefix|;
      var rest := src[start..];
      var key := RunToAmp(rest);
      assert rest[0] != '&';
      assert key != [];
      assert src[start..start + |key|] == rest[..|key|];
      assert start + |key| < |src| ==> src[start + |key|] == rest[|key|];
      assert CapturedAt(src, i, key);
  }

  lemma SearchSitekeyExample()
    ensures SearchSitekey("sitekey=abc&x") == Some("abc")
  {
    var src := "sitekey=abc&x";
    assert KeyMatchAt(src, 0);
    var rest := src[8..];
    assert rest == "abc&x";
    assert RunToAmp(rest[3..]) == [];
    assert RunToAmp(rest) == "abc";
  }

  // ---------------------------------------------------------------------
  // Captcha kind and sitekey

  /** The result of one awaited page call: it raised, or it returned a value. */
  datatype Probe<T> = Threw | Returned(value: T)

  /**
   * What the detection block (the `try` around the iframe and
   * `.cf-turnstile` look-ups) observes, call by call: the count of hCaptcha
   * iframes, the first one's `src`, the count of Turnstile widgets and the
   * first one's `data-sitekey` (absent attribute: `None`). A call that is
   * not reached is ignored.
   */
  datatype WidgetScan = WidgetScan(
    frameCount: Probe<nat>,
    frameSrc: Probe<string>,
    turnstileCount: Probe<nat>,
    turnstileKey: Probe<Option<string>>)

  /** The `captcha_type` and `sitekey` handed to the solver; the sitekey may be `None`. */
  datatype Detected = Detected(captchaType: string, sitekey: Option<string>)

  /**
   * `KNOWN_HCAPTCHA_SITEKEY` and `"hcaptcha"`, then the look-ups; an
   * exception keeps what was assigned so far. The kind is one of the two
   * the solver knows; only a Turnstile widget can leave the sitekey
   * missing; a first look-up that raises keeps both initial values.
   */
  function Detect(scan: WidgetScan): (d: Detected)
    ensures d.captchaType == HCaptcha || d.captchaType == Turnstile
    ensures d.sitekey.None? ==> d.captchaType == Turnstile
    ensures scan.frameCount.Threw? ==> d == Detected(HCaptcha, Some(KnownHCaptchaSitekey))
  {
    var initial := Detected(HCaptcha, Some(KnownHCaptchaSitekey));
    match scan.frameCount
    case Threw => initial
    case Returned(frames) =>
      if frames > 0 then
        match scan.frameSrc
        case Threw => initial
        case Returned(src) =>
          match SearchSitekey(src)
          case Some(key) => Detected(HCaptcha, Some(key))
          case None => initial
      else
        match scan.turnstileCount
        case Threw => initial
        case Returned(widgets) =>
          if widgets == 0 then initial
          else
            match scan.turnstileKey
            case Threw => Detected(Turnstile, Some(KnownHCaptchaSitekey))
            case Returned(key) => Detected(Turnstile, key)
  }

  /**
   * The detected type is always `"hcaptcha"` or `"turnstile"`, and it is
   * `"turnstile"` exactly when the iframe count came back zero and the
   * Turnstile count came back positive: an hCaptcha iframe takes
   * precedence over a Turnstile widget.
   */
  lemma DetectKind(scan: WidgetScan)
    ensures Detect(scan).captchaType == HCaptcha || Detect(scan).captchaType == Turnstile
    ensures Detect(scan).captchaType == Turnstile <==>
      scan.frameCount == Returned(0) && scan.turnstileCount.Returned? && scan.turnstileCount.value > 0
  {
  }

  /**
   * An hCaptcha iframe: the sitekey captured from its `src` when the
   * pattern matches, otherwise the known sitekey.
   */
  lemma DetectFromFrame(scan: WidgetScan)
    requires scan.frameCount.Returned? && scan.frameCount.value > 0
    ensures Detect(scan).captchaType == HCaptcha
    ensures Detect(scan).sitekey ==
      if scan.frameSrc.Returned? && SearchSitekey(scan.frameSrc.value).Some?
      then SearchSitekey(scan.frameSrc.value) else Some(KnownHCaptchaSitekey)
  {
  }

  /**
   * The sitekey is missing only when a Turnstile widget without a
   * `data-sitekey` attribute was found. A found widget gives its attribute
   * (the known sitekey when reading it raised); with neither an iframe nor
   * a widget, or when a count raised, the known sitekey stays; otherwise
   * the key is a non-empty run of non-`&` characters from an iframe address.
   */
  lemma DetectSitekey(scan: WidgetScan)
    ensures Detect(scan).sitekey.None? <==>
      scan.frameCount == Returned(0) && scan.turnstileCount.Returned? && scan.turnstileCount.value > 0
      && scan.turnstileKey == Returned(None)
    ensures Detect(scan).sitekey.Some? ==>
      var key := Detect(scan).sitekey.value;
      key == KnownHCaptchaSitekey
      || (Detect(scan).captchaType == HCaptcha && key != [] && '&' !in key)
      || (Detect(scan).captchaType == Turnstile && scan.turnstileKey == Returned(Some(key)))
    ensures scan.frameCount == Returned(0) && scan.turnstileCount.Returned? && scan.turnstileCount.value > 0 ==>
      Detect(scan) == Detected(Turnstile, if scan.turnstileKey.Threw? then Some(KnownHCaptchaSitekey) else scan.turnstileKey.value)
    ensures !(scan.frameCount.Returned? && scan.frameCount.value > 0) && Detect(scan).captchaType == HCaptcha ==>
      Detect(scan).sitekey == Some(KnownHCaptchaSitekey)
  {
    if scan.frameCount.Returned? && scan.frameCount.value > 0 && scan.frameSrc.Returned? {
      SearchSitekeySpec(scan.frameSrc.value);
    }
  }
}
