/**
 * The `/api/batch` handler: one session per post, in post order, each with
 * the next kind from a rotating list, a pause between consecutive posts,
 * and a tally of the sessions that succeeded.
 */
module Batch {
  import opened Wrappers
  import opened Cookies
  import opened Sessions

  const DefaultReactions: seq<string> := ["LOVE", "LIKE", "HAHA", "WOW"]
  const DefaultDelay: int := 5000
  const MissingParametersMessage: string := "Missing required parameters"

  /**
   * One element of `results`: the post, the kind assigned to it (`None` when
   * the list of kinds is empty, where JavaScript reads `undefined`) and the
   * session's result.
   */
  datatype Entry = Entry(post: string, reaction: Option<string>, session: Session)

  /** What the handler does, in order: run a session for a post, or pause. */
  datatype Event = Sent(index: nat) | Paused(ms: int)

  /** The response body of a batch that ran. */
  datatype Response = Response(total: nat, successful: nat, results: seq<Entry>)

  /** `reactionList[i % reactionList.length]`, with `reactionList = reactions || default`. */
  function AssignedReaction(reactions: Option<seq<string>>, i: nat): (r: Option<string>)
    ensures var list := reactions.GetOr(DefaultReactions);
      && (r.Some? <==> list != [])
      && (r.Some? ==> r.value in list)
  {
    var list := reactions.GetOr(DefaultReactions);
    if list == [] then None else Some(list[i % |list|])
  }

  /**
   * The kind the session is called with: the assigned one, or `LOVE`, the
   * default of the session's parameter, when it is `undefined`.
   */
  function SentReaction(reactions: Option<seq<string>>, i: nat): (kind: string)
    ensures var list := reactions.GetOr(DefaultReactions);
      if list == [] then kind == "LOVE" else kind in list
  {
    AssignedReaction(reactions, i).GetOr("LOVE")
  }

  /**
   * What the handler records for post `i`; `send(i, cookies, post, kind)` is
   * the result of the `i`-th session the handler starts.
   */
  function EntryFor(cookies: string, posts: seq<string>, reactions: Option<seq<string>>,
                    send: (nat, string, string, string) -> Session, i: nat): (e: Entry)
    requires i < |posts|
    ensures e.post == posts[i]
    ensures e.reaction.Some? ==> e.session == send(i, cookies, posts[i], e.reaction.value)
    ensures e.reaction.None? ==> e.session == send(i, cookies, posts[i], "LOVE")
  {
    Entry(posts[i], AssignedReaction(reactions, i), send(i, cookies, posts[i], SentReaction(reactions, i)))
  }

  /** The session the handler runs: `sendRealFacebookReaction` in the world of the `i`-th call. */
  function SessionsIn(env: nat -> World): (nat, string, string, string) -> Session {
    (i: nat, cookies: string, post: string, kind: string) => SendReaction(cookies, post, kind, env(i))
  }

  /** `results.filter(r => r.success).length`. */
  function SuccessCount(results: seq<Entry>): (n: nat)
    ensures n <= |results|
    ensures n == |results| <==> forall i :: 0 <= i < |results| ==> results[i].session.report.Delivered?
    ensures n == 0 <==> forall i :: 0 <= i < |results| ==> results[i].session.report.Failed?
  {
    if results == [] then 0
    else
      var init := results[..|results| - 1];
      assert forall i :: 0 <= i < |init| ==> init[i] == results[i];
      SuccessCount(init) + (if results[|results| - 1].session.report.Delivered? then 1 else 0)
  }

  /** The events of the first `k` iterations of a loop over `n` posts. */
  function Schedule(k: nat, n: nat, ms: int): seq<Event> {
    if k == 0 then []
    else Schedule(k - 1, n, ms) + [Sent(k - 1)] + (if k - 1 < n - 1 then [Paused(ms)] else [])
  }

  /**
   * `/api/batch`: reject a request without cookies or posts, else run one
   * session per post and report the tally. `send` stands for
   * `sendRealFacebookReaction`; `SessionsIn(env)` is that function when the
   * browser and the site answer the `i`-th session with `env(i)`.
   */
  method RunBatch(cookies: string, posts: Option<seq<string>>, reactions: Option<seq<string>>,
                  delayBetween: Option<int>, send: (nat, string, string, string) -> Session)
    returns (response: Result<Response, string>, events: seq<Event>)
    ensures cookies == [] || posts.None? ==> response == Err(MissingParametersMessage) && events == []
    ensures cookies != [] && posts.Some? ==>
      var ps := posts.value;
      && response.Ok?
      && response.value.total == |ps|
      && |response.value.results| == |ps|
      && (forall i :: 0 <= i < |ps| ==> response.value.results[i] == EntryFor(cookies, ps, reactions, send, i))
      && response.value.successful == SuccessCount(response.value.results)
      && events == Schedule(|ps|, |ps|, delayBetween.GetOr(DefaultDelay))
  {
    if cookies == [] || posts.None? {
      return Err(MissingParametersMessage), [];
    }
    var results;
    results, events := RunPosts(cookies, posts.value, reactions, delayBetween.GetOr(DefaultDelay), send);
    response := Ok(Response(|posts.value|, SuccessCount(results), results));
  }

  /** The handler's loop: one session per post, in order, with a pause after all but the last. */
  method RunPosts(cookies: string, ps: seq<string>, reactions: Option<seq<string>>, ms: int, send: (nat, string, string, string) -> Session)
    returns (results: seq<Entry>, events: seq<Event>)
    ensures |results| == |ps|
    ensures forall i :: 0 <= i < |ps| ==> results[i] == EntryFor(cookies, ps, reactions, send, i)
    ensures events == Schedule(|ps|, |ps|, ms)
  {
    var reactionList := reactions.GetOr(DefaultReactions);
    results, events := [], [];
    for i := 0 to |ps|
      invariant |results| == i
      invariant forall j :: 0 <= j < i ==> results[j] == EntryFor(cookies, ps, reactions, send, j)
      invariant events == Schedule(i, |ps|, ms)
    {
      var post := ps[i];
      var reaction := if reactionList == [] then None else Some(reactionList[i % |reactionList|]);
      assert reaction == AssignedReaction(reactions, i);
      var result := send(i, cookies, post, reaction.GetOr("LOVE"));
      assert Entry(post, reaction, result) == EntryFor(cookies, ps, reactions, send, i);
      results := results + [Entry(post, reaction, result)];
      events := events + [Sent(i)];
      if i < |ps| - 1 {
        events := events + [Paused(ms)];
      }
    }
  }

  /**
   * The handler's events for `n` posts alternate: session 0, pause, session
   * 1, pause, ..., session n-1. So there are exactly n-1 pauses and none
   * after the last post.
   */
  lemma {:induction false} ScheduleAlternates(k: nat, n: nat, ms: int)
    requires k <= n
    ensures |Schedule(k, n, ms)| == if k == 0 then 0 else if k == n then 2 * k - 1 else 2 * k
    ensures forall j :: 0 <= j < |Schedule(k, n, ms)| ==>
      Schedule(k, n, ms)[j] == if j % 2 == 0 then Sent(j / 2) else Paused(ms)
  {
    if k > 0 {
      ScheduleAlternates(k - 1, n, ms);
    }
  }

  /** The number of pauses among `events`. */
  function PauseCount(events: seq<Event>): nat {
    if events == [] then 0
    else PauseCount(events[..|events| - 1]) + (if events[|events| - 1].Paused? then 1 else 0)
  }

  /** After k of n iterations there have been k pauses, or n-1 once the loop is done. */
  lemma {:induction false} PausesSoFar(k: nat, n: nat, ms: int)
    requires k <= n
    ensures PauseCount(Schedule(k, n, ms)) == if k == n && n > 0 then k - 1 else k
  {
    if k > 0 {
      PausesSoFar(k - 1, n, ms);
      var prev := Schedule(k - 1, n, ms);
      PauseCountSnoc(prev, Sent(k - 1));
      if k - 1 < n - 1 {
        assert Schedule(k, n, ms) == (prev + [Sent(k - 1)]) + [Paused(ms)];
        PauseCountSnoc(prev + [Sent(k - 1)], Paused(ms));
      } else {
        assert Schedule(k, n, ms) == prev + [Sent(k - 1)];
      }
    }
  }

  /** Appending one event adds one to the count exactly when it is a pause. */
  lemma PauseCountSnoc(events: seq<Event>, e: Event)
    ensures PauseCount(events + [e]) == PauseCount(events) + if e.Paused? then 1 else 0
  {
    assert (events + [e])[..|events|] == events;
  }

  /** A batch of n > 0 posts ends with the last post's session and holds exactly n-1 pauses. */
  lemma PausesBetweenPostsOnly(n: nat, ms: int)
    requires n > 0
    ensures var events := Schedule(n, n, ms);
      && |events| == 2 * n - 1
      && events[|events| - 1] == Sent(n - 1)
      && PauseCount(events) == n - 1
  {
    ScheduleAlternates(n, n, ms);
    PausesSoFar(n, n, ms);
  }

  /** The list of kinds is used round-robin: post i + |list| gets the same kind as post i. */
  lemma RotationRepeats(reactions: Option<seq<string>>, i: nat)
    ensures AssignedReaction(reactions, i + |reactions.GetOr(DefaultReactions)|) == AssignedReaction(reactions, i)
  {
    var list := reactions.GetOr(DefaultReactions);
    if list != [] {
      ModuloShift(i, |list|);
    }
  }

  /** A positive multiple of m is at least m. */
  lemma {:induction false} MulAtLeast(m: nat, k: nat)
    requires m > 0 && k >= 1
    ensures m * k >= m
  {
    if k > 1 {
      MulAtLeast(m, k - 1);
      assert m * k == m * (k - 1) + m;
    }
  }

  /** Adding the modulus does not change the remainder. */
  lemma ModuloShift(i: nat, m: nat)
    requires m > 0
    ensures (i + m) % m == i % m
  {
    var q, r := i / m, i % m;
    var q', r' := (i + m) / m, (i + m) % m;
    assert i == m * q + r;
    assert i + m == m * q' + r';
    assert m * q' + r' == m * (q + 1) + r;
    var d := q' - (q + 1);
    assert m * q' == m * (q + 1) + m * d;
    assert m * d == r - r';
    if d > 0 {
      MulAtLeast(m, d);
    } else if d < 0 {
      MulAtLeast(m, -d);
    }
  }

  /** The first |list| posts get the kinds in list order; without a list, LOVE, LIKE, HAHA, WOW. */
  lemma FirstRoundInListOrder(reactions: Option<seq<string>>, i: nat)
    requires i < |reactions.GetOr(DefaultReactions)|
    ensures AssignedReaction(reactions, i) == Some(reactions.GetOr(DefaultReactions)[i])
  {
  }

  /** An empty list of kinds gives every post `undefined`, and every session runs with LOVE. */
  lemma EmptyListSendsLove(i: nat)
    ensures AssignedReaction(Some([]), i) == None
    ensures SentReaction(Some([]), i) == "LOVE"
  {
  }

  /**
   * When every session fails, as it does with cookies that give no record,
   * the tally is zero while `total` still counts every post.
   */
  lemma NoUsableCookieNoSuccess(cookies: string, ps: seq<string>, reactions: Option<seq<string>>,
                                send: (nat, string, string, string) -> Session, results: seq<Entry>)
    requires forall i: nat, post: string, kind: string :: send(i, cookies, post, kind).report.Failed?
    requires |results| == |ps|
    requires forall i :: 0 <= i < |ps| ==> results[i] == EntryFor(cookies, ps, reactions, send, i)
    ensures SuccessCount(results) == 0
  {
    forall i | 0 <= i < |results| ensures results[i].session.report.Failed? {
      assert results[i].session == send(i, cookies, ps[i], SentReaction(reactions, i));
    }
  }

  /** With no cookie that parses, every session of `SessionsIn(env)` fails, whatever the post and reaction. */
  lemma UnparsableCookiesFailEverySession(cookies: string, env: nat -> World)
    requires ParseCookieString(cookies) == []
    ensures forall i: nat, post: string, kind: string :: SessionsIn(env)(i, cookies, post, kind).report.Failed?
  {
    assert LoadCookies(cookies).Err?;
    forall i: nat, post: string, kind: string
      ensures SessionsIn(env)(i, cookies, post, kind).report.Failed?
    {
      var s := SendReaction(cookies, post, kind, env(i));
      assert s.report.Failed?;
      assert SessionsIn(env)(i, cookies, post, kind) == s;
    }
  }
}
