/**
 * `sendRealFacebookReaction`: one browser session, from launch to the
 * result record, with every answer of the browser and the site given by a
 * `World`. Each step either fails the session with a message or lets the
 * next one run; nothing runs after a failure.
 */
module Sessions {
  import opened Wrappers
  import opened Cookies
  import opened Reactions
  import opened Verification
  import opened Text

  const LandingUrl: string := "https://m.facebook.com"
  const LoginFailedMessage: string := "Login failed - cookies may be expired or invalid"
  const ButtonNotFoundMessage: string :=
    "React button not found. The post might not be accessible or the selectors need updating."

  /** What the browser and the site answer during one session. */
  datatype World = World(
    /** Error from launching the browser or preparing the page, if any. */
    launchError: Option<string>,
    /** Error from loading the landing page (30 s limit), if any. */
    landingError: Option<string>,
    /** The landing page shows an e-mail or password input. */
    loginFormShown: bool,
    /** Error from loading the post (60 s limit), if any. */
    postError: Option<string>,
    /** One of the candidate selectors matches a visible element. */
    buttonVisible: bool,
    /** Error from clicking that element, if any. */
    buttonClickError: Option<string>,
    /** The reaction menu the click opens. */
    menu: Menu,
    /** The elements the verification scan reads; `None` when the scan fails. */
    page: Option<seq<Element>>)

  /** The result record: a delivered reaction or a failure with its message. */
  datatype Report =
    | Delivered(message: string, reactionType: string, verified: bool, postUrl: string)
    | Failed(message: string)

  /**
   * One session: its result, the pages it navigated to, the diagnostic
   * screenshots it took and the click that chose the reaction.
   */
  datatype Session = Session(report: Report, visited: seq<string>, screenshots: nat, click: Option<Click>)

  function SelectFailedMessage(reactionType: string): string {
    "Could not select " + reactionType + " reaction"
  }

  function DeliveredMessage(reactionType: string): string {
    "Real " + reactionType + " reaction successfully delivered"
  }

  /**
   * The session's steps, in order; the first failing one decides the result.
   * Launching the browser and loading the cookies come first, then `Visit`.
   */
  function SendReaction(cookies: string, postUrl: string, reactionType: string, world: World): (s: Session)
    ensures s.report.Delivered? ==>
      && LoadCookies(cookies).Ok?
      && s.visited == [LandingUrl, postUrl]
      && s.click == SelectReaction(reactionType, world.menu) && s.click.Some?
      && s.report == Delivered(DeliveredMessage(reactionType), reactionType, VerifyReaction(world.page, reactionType), postUrl)
    ensures LoadCookies(cookies).Err? ==> s.report.Failed? && s.visited == [] && s.click == None
    ensures s.screenshots == 1 ==> s.report == Failed(ButtonNotFoundMessage)
    ensures s.screenshots <= 1 && |s.visited| <= 2
    ensures s.report.Failed? ==> s.click == None
  {
    if world.launchError.Some? then Session(Failed(world.launchError.value), [], 0, None)
    else match LoadCookies(cookies)
      case Err(e) => Session(Failed(e), [], 0, None)
      case Ok(_) => Visit(postUrl, reactionType, world)
  }

  /**
   * The steps once the cookies are set: the landing page and its login
   * check, the post, the react button, the selection and the scan.
   */
  function Visit(postUrl: string, reactionType: string, world: World): (s: Session)
    ensures s.report.Delivered? ==>
      && s.visited == [LandingUrl, postUrl]
      && s.click == SelectReaction(reactionType, world.menu) && s.click.Some?
      && s.report == Delivered(DeliveredMessage(reactionType), reactionType, VerifyReaction(world.page, reactionType), postUrl)
    ensures s.screenshots == 1 <==>
      world.landingError.None? && !world.loginFormShown && world.postError.None? && !world.buttonVisible
    ensures s.screenshots == 1 ==> s.report == Failed(ButtonNotFoundMessage)
    ensures s.screenshots <= 1 && 1 <= |s.visited| <= 2 && s.visited[0] == LandingUrl
    ensures s.report.Failed? ==> s.click == None
  {
    if world.landingError.Some? then Session(Failed(world.landingError.value), [LandingUrl], 0, None)
    else if world.loginFormShown then Session(Failed(LoginFailedMessage), [LandingUrl], 0, None)
    else if world.postError.Some? then Session(Failed(world.postError.value), [LandingUrl, postUrl], 0, None)
    else if !world.buttonVisible then Session(Failed(ButtonNotFoundMessage), [LandingUrl, postUrl], 1, None)
    else if world.buttonClickError.Some? then
      Session(Failed(world.buttonClickError.value), [LandingUrl, postUrl], 0, None)
    else match SelectReaction(reactionType, world.menu)
      case None => Session(Failed(SelectFailedMessage(reactionType)), [LandingUrl, postUrl], 0, None)
      case Some(click) =>
        var verified := VerifyReaction(world.page, reactionType);
        Session(Delivered(DeliveredMessage(reactionType), reactionType, verified, postUrl),
                [LandingUrl, postUrl], 0, Some(click))
  }

  /**
   * The reaction is delivered exactly when the browser starts, the cookies
   * parse, the landing page loads without a login form, the post loads, the
   * react button is found and clicked, and either the labelled control or the
   * Like button for the coordinate click is there.
   */
  lemma DeliveredExactlyWhen(cookies: string, postUrl: string, reactionType: string, world: World)
    ensures SendReaction(cookies, postUrl, reactionType, world).report.Delivered? <==>
      && world.launchError.None?
      && ParseCookieString(cookies) != []
      && world.landingError.None? && !world.loginFormShown
      && world.postError.None?
      && world.buttonVisible && world.buttonClickError.None?
      && (LookupReaction(reactionType).selector in world.menu.clickable || world.menu.likeButton.Some?)
  {
    var s := SendReaction(cookies, postUrl, reactionType, world);
    if && world.launchError.None? && LoadCookies(cookies).Ok?
       && world.landingError.None? && !world.loginFormShown && world.postError.None?
       && world.buttonVisible && world.buttonClickError.None?
    {
      assert s.report.Delivered? <==> SelectReaction(reactionType, world.menu).Some?;
    }
  }

  /** With no usable cookie the session fails with `Invalid cookies format` before any navigation. */
  lemma NoCookieNoNavigation(cookies: string, postUrl: string, reactionType: string, world: World)
    requires world.launchError.None?
    requires ParseCookieString(cookies) == []
    ensures SendReaction(cookies, postUrl, reactionType, world) == Session(Failed(InvalidCookiesMessage), [], 0, None)
  {
  }

  /** A login form on the landing page fails the session before the post is opened. */
  lemma LoginFormStopsBeforePost(cookies: string, postUrl: string, reactionType: string, world: World)
    requires world.launchError.None? && ParseCookieString(cookies) != []
    requires world.landingError.None? && world.loginFormShown
    ensures SendReaction(cookies, postUrl, reactionType, world) == Session(Failed(LoginFailedMessage), [LandingUrl], 0, None)
  {
  }

  /** Exactly one screenshot is taken when, and only when, no react button is found. */
  lemma ScreenshotOnlyWhenButtonMissing(cookies: string, postUrl: string, reactionType: string, world: World)
    ensures SendReaction(cookies, postUrl, reactionType, world).screenshots == 1 <==>
      && world.launchError.None? && ParseCookieString(cookies) != []
      && world.landingError.None? && !world.loginFormShown && world.postError.None?
      && !world.buttonVisible
  {
  }

  /** Verification is advisory: what the scan finds never changes whether the session succeeds. */
  lemma VerificationIsAdvisory(cookies: string, postUrl: string, reactionType: string, world: World, page: Option<seq<Element>>)
    ensures SendReaction(cookies, postUrl, reactionType, world).report.Delivered?
        == SendReaction(cookies, postUrl, reactionType, world.(page := page)).report.Delivered?
  {
    DeliveredExactlyWhen(cookies, postUrl, reactionType, world);
    DeliveredExactlyWhen(cookies, postUrl, reactionType, world.(page := page));
  }

  /** `sid=abc123` gives the one record `sid` = `abc123`. */
  lemma SingleCookieParses()
    ensures ParseCookieString("sid=abc123") == [NewCookie("sid", "abc123")]
  {
    var cookie := NewCookie("sid", "abc123");
    assert WellFormed(cookie);
    assert Serialize([cookie]) == "sid=abc123";
    RoundTrip([cookie]);
  }

  /** `Haha` and `HAHA` lower-case to the same text. */
  lemma HahaIgnoringCase()
    ensures Lower("Haha") == Lower("HAHA")
  {
    var mixed, upper := Lower("Haha"), Lower("HAHA");
    forall i | 0 <= i < 4 ensures mixed[i] == upper[i] {
      if i == 0 {
        assert "Haha"[i] == 'H' == "HAHA"[i];
      } else if i == 2 {
        assert "Haha"[i] == 'h' && "HAHA"[i] == 'H';
        assert LowerChar('h') == 'h' == LowerChar('H');
      } else {
        assert "Haha"[i] == 'a' && "HAHA"[i] == 'A';
        assert LowerChar('a') == 'a' == LowerChar('A');
      }
    }
  }

  /**
   * A single cookie `sid=abc123`, a menu offering the Haha control and a page
   * with a `Haha`-labelled element: the session delivers `HAHA` and the scan
   * confirms it.
   */
  lemma SingleCookieHahaScenario(postUrl: string, world: World)
    requires world.launchError.None? && world.landingError.None? && !world.loginFormShown
    requires world.postError.None? && world.buttonVisible && world.buttonClickError.None?
    requires "[aria-label=\"Haha\"]" in world.menu.clickable
    requires world.page == Some([Element(Some("Haha"), None)])
    ensures SendReaction("sid=abc123", postUrl, "HAHA", world).report
         == Delivered(DeliveredMessage("HAHA"), "HAHA", true, postUrl)
    ensures SendReaction("sid=abc123", postUrl, "HAHA", world).click == Some(LabelClick("[aria-label=\"Haha\"]"))
  {
    SingleCookieParses();
    assert LoadCookies("sid=abc123").Ok?;
    HahaSelector();
    assert SelectReaction("HAHA", world.menu) == Some(LabelClick("[aria-label=\"Haha\"]"));
    HahaIgnoringCase();
    LabelNamingKindVerifies([Element(Some("Haha"), None)], 0, "HAHA");
    assert VerifyReaction(world.page, "HAHA");
  }

  /**
   * Kinds are matched case-sensitively: `Haha` is not a table key, so the
   * session clicks the Love control, while the result still echoes `Haha`.
   */
  lemma MixedCaseKindClicksLove(cookies: string, postUrl: string, world: World)
    requires world.launchError.None? && ParseCookieString(cookies) != []
    requires world.landingError.None? && !world.loginFormShown
    requires world.postError.None? && world.buttonVisible && world.buttonClickError.None?
    requires "[aria-label=\"Love\"]" in world.menu.clickable
    ensures SendReaction(cookies, postUrl, "Haha", world)
         == Session(Delivered(DeliveredMessage("Haha"), "Haha", VerifyReaction(world.page, "Haha"), postUrl),
                    [LandingUrl, postUrl], 0, Some(LabelClick("[aria-label=\"Love\"]")))
  {
    MixedCaseSelectsLove(world.menu);
  }

  /** The label-table row `HAHA` resolves to is found by `[aria-label="Haha"]`. */
  lemma HahaSelector()
    ensures LookupReaction("HAHA").selector == "[aria-label=\"Haha\"]"
  {
    assert LookupReaction("HAHA") == Labelled("Haha", "\U{1F606}");
  }
}
