/** FilterBot: the cached denylist with its hourly refresh, and the
    per-token decision that `on_message` takes for every message it sees.

    The chat platform is reduced to plain values: whether the author is
    the bot itself, the message text, and the `manage_messages`
    permission. What each delete or send call would do is given by an
    oracle indexed by the token's position and the call. */
module Bot {
  import opened Text
  import opened Denylist

  /** How one call to the chat platform ended: it went through, it raised
      `discord.errors.Forbidden`, or it raised some other exception. */
  datatype Outcome = Done | Forbidden | Failed

  /** The two notices the bot can post: the removal notice after a
      delete, and the warning when it may not delete. */
  datatype Notice = Removed | Warned

  /** The two calls the bot makes on a message: delete it, or post a
      notice in its channel. */
  datatype Call = DeleteMessage | SendMessage(notice: Notice)

  /** One call the bot made, for the token at position `token`. */
  datatype Attempt = Attempt(token: nat, call: Call, outcome: Outcome)

  /** The answer the platform would give to each call, by token position. */
  type Oracle = (nat, Call) -> Outcome

  // ---------------------------------------------------------------------
  // Refresh of the denylist

  /** The two fields that `_update_disallow_list` changes. */
  datatype CacheState = CacheState(denylist: set<string>, lastUpdate: int)

  /** `set(...)` of a list. */
  function ToSet(xs: seq<string>): (r: set<string>) {
    set x | x in xs
  }

  ghost predicate WellFormed(denylist: set<string>) {
    forall e | e in denylist :: IsEntry(e)
  }

  /** What one call of `_update_disallow_list` at time `now` leaves behind:
      nothing changes while less than `interval` has passed since the last
      refresh; otherwise the set is replaced by what the fetch gave (empty
      when the fetch failed) and the time is recorded. */
  function Refresh(s: CacheState, interval: int, now: int, fetched: FetchResult): (r: CacheState) {
    if now - s.lastUpdate < interval then s
    else CacheState(ToSet(FetchDisallowList(fetched)), now)
  }

  /** A refresh that is due replaces the set wholesale: the new set holds
      exactly the fetched entries, so an old entry that was not fetched
      again is gone, and the refresh time becomes `now`. */
  lemma RefreshReplaces(s: CacheState, interval: int, now: int, fetched: FetchResult)
    requires now - s.lastUpdate >= interval
    ensures Refresh(s, interval, now, fetched).lastUpdate == now
    ensures forall e :: e in Refresh(s, interval, now, fetched).denylist
                        <==> e in FetchDisallowList(fetched)
  {
  }

  /** A refresh that is not due changes neither the set nor the time. */
  lemma RefreshNotDue(s: CacheState, interval: int, now: int, fetched: FetchResult)
    requires now - s.lastUpdate < interval
    ensures Refresh(s, interval, now, fetched) == s
  {
  }

  /** A due refresh whose fetch fails (a status other than 200 or an
      exception) empties the denylist and still records the time: the
      code keeps no stale entries. */
  lemma RefreshFailure(s: CacheState, interval: int, now: int, fetched: FetchResult)
    requires now - s.lastUpdate >= interval
    requires !(fetched.Response? && fetched.status == 200)
    ensures Refresh(s, interval, now, fetched) == CacheState({}, now)
  {
    FetchDisallowListSpec(fetched);
  }

  /** A refresh keeps every entry well formed; in particular the empty
      string, which would match every token, never enters the set. */
  lemma RefreshWellFormed(s: CacheState, interval: int, now: int, fetched: FetchResult)
    requires WellFormed(s.denylist)
    ensures WellFormed(Refresh(s, interval, now, fetched).denylist)
    ensures "" !in Refresh(s, interval, now, fetched).denylist
  {
    FetchDisallowListSpec(fetched);
  }

  /** Rate limiting: after a refresh that was due at `t1`, a second call
      at `t2` fetches nothing when less than the interval has passed, and
      installs the second fetch when the interval has passed. */
  lemma RefreshRateLimited(s: CacheState, interval: int, t1: int, f1: FetchResult,
                           t2: int, f2: FetchResult)
    requires t1 - s.lastUpdate >= interval
    ensures var s1 := Refresh(s, interval, t1, f1);
            var s2 := Refresh(s1, interval, t2, f2);
            (t2 - t1 < interval ==> s2 == s1) &&
            (t2 - t1 >= interval ==> s2 == CacheState(ToSet(FetchDisallowList(f2)), t2))
  {
  }

  // ---------------------------------------------------------------------
  // The decision for each token

  /** The calls made for a matching token at position `i`, inside the
      `try`: with `manage_messages`, delete and then post the removal
      notice, where an exception from the delete skips the notice; without
      it, only post the warning. */
  function Respond(i: nat, manageMessages: bool, oracle: Oracle): (r: seq<Attempt>) {
    if manageMessages then
      var deleted := oracle(i, DeleteMessage);
      if deleted == Done then
        var notice := SendMessage(Removed);
        [Attempt(i, DeleteMessage, Done), Attempt(i, notice, oracle(i, notice))]
      else [Attempt(i, DeleteMessage, deleted)]
    else
      var notice := SendMessage(Warned);
      [Attempt(i, notice, oracle(i, notice))]
  }

  /** The calls made for the token at position `i`: its response when it
      matches the denylist, and none when it does not. */
  function Reaction(tokens: seq<string>, denylist: set<string>, manageMessages: bool,
                    oracle: Oracle, i: nat): (r: seq<Attempt>)
    requires i < |tokens|
  {
    if IsDisallowUrl(denylist, tokens[i]) then Respond(i, manageMessages, oracle) else []
  }

  /** The calls made for the first `n` tokens: every token gets its
      reaction, whatever happened to the tokens before it. */
  function Moderation(tokens: seq<string>, denylist: set<string>, manageMessages: bool,
                      oracle: Oracle, n: nat): (trace: seq<Attempt>)
    requires n <= |tokens|
  {
    if n == 0 then []
    else
      Moderation(tokens, denylist, manageMessages, oracle, n - 1)
      + Reaction(tokens, denylist, manageMessages, oracle, n - 1)
  }

  /** One more token adds its reaction. */
  lemma ModerationStep(tokens: seq<string>, denylist: set<string>, manageMessages: bool,
                       oracle: Oracle, n: nat)
    requires 0 < n <= |tokens|
    ensures Moderation(tokens, denylist, manageMessages, oracle, n)
            == Moderation(tokens, denylist, manageMessages, oracle, n - 1)
               + Reaction(tokens, denylist, manageMessages, oracle, n - 1)
  {
  }

  /** The attempts of a trace that belong to the token at position `j`. */
  function AttemptsFor(trace: seq<Attempt>, j: nat): (picked: seq<Attempt>) {
    if trace == [] then []
    else (if trace[0].token == j then [trace[0]] else []) + AttemptsFor(trace[1..], j)
  }

  lemma {:induction false} AttemptsForConcat(a: seq<Attempt>, b: seq<Attempt>, j: nat)
    ensures AttemptsFor(a + b, j) == AttemptsFor(a, j) + AttemptsFor(b, j)
  {
    if a == [] {
      assert a + b == b;
    } else {
      var head := if a[0].token == j then [a[0]] else [];
      assert (a + b)[0] == a[0];
      assert (a + b)[1..] == a[1..] + b;
      AttemptsForConcat(a[1..], b, j);
      assert AttemptsFor(a + b, j) == head + (AttemptsFor(a[1..], j) + AttemptsFor(b, j));
      assert AttemptsFor(a, j) == head + AttemptsFor(a[1..], j);
    }
  }

  /** The shape of one response: one or two attempts, all for token `i`;
      with the permission a delete comes first and the removal notice
      follows only a delete that went through; without it, one warning. */
  lemma RespondShape(i: nat, manageMessages: bool, oracle: Oracle)
    ensures var r := Respond(i, manageMessages, oracle);
            1 <= |r| <= 2 && forall k | 0 <= k < |r| :: r[k].token == i
    ensures var r := Respond(i, manageMessages, oracle);
            manageMessages ==>
              r[0].call == DeleteMessage && (|r| == 2 <==> r[0].outcome == Done)
              && (|r| == 2 ==> r[1].call == SendMessage(Removed))
    ensures var r := Respond(i, manageMessages, oracle);
            !manageMessages ==> |r| == 1 && r[0].call == SendMessage(Warned)
    ensures var r := Respond(i, manageMessages, oracle);
            forall k | 0 <= k < |r| :: r[k].outcome == oracle(i, r[k].call)
  {
  }

  /** Every call of a reaction is for its own token, and a token that
      does not match causes no call. */
  lemma ReactionShape(tokens: seq<string>, denylist: set<string>, manageMessages: bool,
                      oracle: Oracle, i: nat)
    requires i < |tokens|
    ensures var r := Reaction(tokens, denylist, manageMessages, oracle, i);
            forall k | 0 <= k < |r| :: r[k].token == i && IsDisallowUrl(denylist, tokens[i])
    ensures Reaction(tokens, denylist, manageMessages, oracle, i) == []
            <==> !IsDisallowUrl(denylist, tokens[i])
    ensures var r := Reaction(tokens, denylist, manageMessages, oracle, i);
            forall k | 0 <= k < |r| :: r[k].outcome == oracle(r[k].token, r[k].call)
  {
    RespondShape(i, manageMessages, oracle);
  }

  /** A trace with no call for token `j` has nothing to pick out. */
  lemma {:induction false} AttemptsForNone(trace: seq<Attempt>, j: nat)
    requires forall k | 0 <= k < |trace| :: trace[k].token != j
    ensures AttemptsFor(trace, j) == []
  {
    if trace != [] {
      AttemptsForNone(trace[1..], j);
    }
  }

  /** A trace of calls for token `j` only is picked out whole. */
  lemma {:induction false} AttemptsForAll(trace: seq<Attempt>, j: nat)
    requires forall k | 0 <= k < |trace| :: trace[k].token == j
    ensures AttemptsFor(trace, j) == trace
  {
    if trace != [] {
      AttemptsForAll(trace[1..], j);
      assert trace == [trace[0]] + trace[1..];
    }
  }

  /** The calls made for the tokens at positions `m` up to `n - 1`. */
  function Between(tokens: seq<string>, denylist: set<string>, manageMessages: bool,
                   oracle: Oracle, m: nat, n: nat): (r: seq<Attempt>)
    requires m <= n <= |tokens|
    decreases n - m
  {
    if m == n then []
    else
      Reaction(tokens, denylist, manageMessages, oracle, m)
      + Between(tokens, denylist, manageMessages, oracle, m + 1, n)
  }

  /** Regrouping the three parts of a trace, on plain values. */
  lemma Regroup(whole: seq<Attempt>, upToNext: seq<Attempt>, upTo: seq<Attempt>,
                own: seq<Attempt>, fromNext: seq<Attempt>, from: seq<Attempt>)
    requires whole == upToNext + fromNext
    requires upToNext == upTo + own
    requires from == own + fromNext
    ensures whole == upTo + from
  {
  }

  /** The calls for the first `n` tokens are those for the first `m`,
      followed by those for the tokens from `m` on. */
  lemma {:induction false} ModerationSplit(tokens: seq<string>, denylist: set<string>,
                                           manageMessages: bool, oracle: Oracle, m: nat, n: nat)
    requires m <= n <= |tokens|
    ensures Moderation(tokens, denylist, manageMessages, oracle, n)
            == Moderation(tokens, denylist, manageMessages, oracle, m)
               + Between(tokens, denylist, manageMessages, oracle, m, n)
    decreases n - m
  {
    if m < n {
      ModerationSplit(tokens, denylist, manageMessages, oracle, m + 1, n);
      ModerationStep(tokens, denylist, manageMessages, oracle, m + 1);
      Regroup(Moderation(tokens, denylist, manageMessages, oracle, n),
              Moderation(tokens, denylist, manageMessages, oracle, m + 1),
              Moderation(tokens, denylist, manageMessages, oracle, m),
              Reaction(tokens, denylist, manageMessages, oracle, m),
              Between(tokens, denylist, manageMessages, oracle, m + 1, n),
              Between(tokens, denylist, manageMessages, oracle, m, n));
    } else {
      assert Moderation(tokens, denylist, manageMessages, oracle, n) + [] ==
             Moderation(tokens, denylist, manageMessages, oracle, n);
    }
  }

  /** The calls for the tokens from `m` on are all for tokens from `m` on. */
  lemma {:induction false} BetweenTokens(tokens: seq<string>, denylist: set<string>,
                                         manageMessages: bool, oracle: Oracle, m: nat, n: nat)
    requires m <= n <= |tokens|
    ensures forall k | 0 <= k < |Between(tokens, denylist, manageMessages, oracle, m, n)| ::
              m <= Between(tokens, denylist, manageMessages, oracle, m, n)[k].token
    decreases n - m
  {
    if m < n {
      var r := Reaction(tokens, denylist, manageMessages, oracle, m);
      var rest := Between(tokens, denylist, manageMessages, oracle, m + 1, n);
      BetweenTokens(tokens, denylist, manageMessages, oracle, m + 1, n);
      ReactionShape(tokens, denylist, manageMessages, oracle, m);
      var all := r + rest;
      assert Between(tokens, denylist, manageMessages, oracle, m, n) == all;
      forall k | 0 <= k < |all| ensures m <= all[k].token {
        if k < |r| {
          assert all[k] == r[k];
        } else {
          assert all[k] == rest[k - |r|];
        }
      }
    }
  }

  /** The step of `ModerationFromMatches`, on plain values: appending the
      calls of one more matching token to calls of matching earlier
      tokens gives calls of matching tokens only. */
  lemma MatchesAppend(prev: seq<Attempt>, r: seq<Attempt>, tokens: seq<string>,
                      denylist: set<string>, n: nat)
    requires 0 < n <= |tokens|
    requires forall k | 0 <= k < |prev| ::
               prev[k].token < n - 1 && IsDisallowUrl(denylist, tokens[prev[k].token])
    requires forall k | 0 <= k < |r| :: r[k].token == n - 1 && IsDisallowUrl(denylist, tokens[n - 1])
    ensures forall k | 0 <= k < |prev + r| ::
              (prev + r)[k].token < n && IsDisallowUrl(denylist, tokens[(prev + r)[k].token])
  {
    var trace := prev + r;
    forall k | 0 <= k < |trace|
      ensures trace[k].token < n && IsDisallowUrl(denylist, tokens[trace[k].token])
    {
      if k < |prev| {
        assert trace[k] == prev[k];
      } else {
        assert trace[k] == r[k - |prev|];
      }
    }
  }

  /** Every attempt comes from a matching token among the first `n`. */
  lemma {:induction false} ModerationFromMatches(tokens: seq<string>, denylist: set<string>,
                                                 manageMessages: bool,
                                                 oracle: Oracle, n: nat)
    requires n <= |tokens|
    ensures forall k | 0 <= k < |Moderation(tokens, denylist, manageMessages, oracle, n)| ::
              var t := Moderation(tokens, denylist, manageMessages, oracle, n)[k].token;
              t < n && IsDisallowUrl(denylist, tokens[t])
  {
    if n > 0 {
      var prev := Moderation(tokens, denylist, manageMessages, oracle, n - 1);
      var r := Reaction(tokens, denylist, manageMessages, oracle, n - 1);
      ModerationStep(tokens, denylist, manageMessages, oracle, n);
      ModerationFromMatches(tokens, denylist, manageMessages, oracle, n - 1);
      ReactionShape(tokens, denylist, manageMessages, oracle, n - 1);
      MatchesAppend(prev, r, tokens, denylist, n);
    }
  }

  /** The calls for token `j` in the whole trace are those in the part
      before it, in its own reaction, and in the part after it. */
  lemma PerTokenParts(tokens: seq<string>, denylist: set<string>, manageMessages: bool,
                      oracle: Oracle, n: nat, j: nat)
    requires j < n <= |tokens|
    ensures AttemptsFor(Moderation(tokens, denylist, manageMessages, oracle, n), j)
            == AttemptsFor(Moderation(tokens, denylist, manageMessages, oracle, j), j)
               + (AttemptsFor(Reaction(tokens, denylist, manageMessages, oracle, j), j)
                  + AttemptsFor(Between(tokens, denylist, manageMessages, oracle, j + 1, n), j))
  {
    ModerationSplit(tokens, denylist, manageMessages, oracle, j, n);
    AttemptsForConcat(Moderation(tokens, denylist, manageMessages, oracle, j),
                      Between(tokens, denylist, manageMessages, oracle, j, n), j);
    AttemptsForConcat(Reaction(tokens, denylist, manageMessages, oracle, j),
                      Between(tokens, denylist, manageMessages, oracle, j + 1, n), j);
  }

  /** The tokens before `j` make no call for token `j`. */
  lemma NoCallsBefore(tokens: seq<string>, denylist: set<string>, manageMessages: bool,
                      oracle: Oracle, j: nat)
    requires j <= |tokens|
    ensures AttemptsFor(Moderation(tokens, denylist, manageMessages, oracle, j), j) == []
  {
    ModerationFromMatches(tokens, denylist, manageMessages, oracle, j);
    AttemptsForNone(Moderation(tokens, denylist, manageMessages, oracle, j), j);
  }

  /** The tokens after `j` make no call for token `j`. */
  lemma NoCallsAfter(tokens: seq<string>, denylist: set<string>, manageMessages: bool,
                     oracle: Oracle, n: nat, j: nat)
    requires j < n <= |tokens|
    ensures AttemptsFor(Between(tokens, denylist, manageMessages, oracle, j + 1, n), j) == []
  {
    BetweenTokens(tokens, denylist, manageMessages, oracle, j + 1, n);
    AttemptsForNone(Between(tokens, denylist, manageMessages, oracle, j + 1, n), j);
  }

  /** A reaction consists of calls for its own token only. */
  lemma OwnCalls(tokens: seq<string>, denylist: set<string>, manageMessages: bool,
                 oracle: Oracle, j: nat)
    requires j < |tokens|
    ensures AttemptsFor(Reaction(tokens, denylist, manageMessages, oracle, j), j)
            == Reaction(tokens, denylist, manageMessages, oracle, j)
  {
    ReactionShape(tokens, denylist, manageMessages, oracle, j);
    AttemptsForAll(Reaction(tokens, denylist, manageMessages, oracle, j), j);
  }

  /** No early exit and no interference between tokens: the attempts for
      token `j` are exactly its own reaction, that is its response when it
      matches and nothing when it does not, whatever the calls for the
      other tokens did; a token past the first `n` has no attempts. */
  lemma ModerationPerToken(tokens: seq<string>, denylist: set<string>, manageMessages: bool,
                           oracle: Oracle, n: nat, j: nat)
    requires n <= |tokens|
    ensures j < n ==> AttemptsFor(Moderation(tokens, denylist, manageMessages, oracle, n), j)
                      == Reaction(tokens, denylist, manageMessages, oracle, j)
    ensures j >= n ==> AttemptsFor(Moderation(tokens, denylist, manageMessages, oracle, n), j) == []
  {
    if j < n {
      PerTokenParts(tokens, denylist, manageMessages, oracle, n, j);
      NoCallsBefore(tokens, denylist, manageMessages, oracle, j);
      OwnCalls(tokens, denylist, manageMessages, oracle, j);
      NoCallsAfter(tokens, denylist, manageMessages, oracle, n, j);
      var own := Reaction(tokens, denylist, manageMessages, oracle, j);
      assert [] + (own + []) == own;
    } else {
      ModerationFromMatches(tokens, denylist, manageMessages, oracle, n);
      AttemptsForNone(Moderation(tokens, denylist, manageMessages, oracle, n), j);
    }
  }

  /** Appending calls for token `t` to a trace ordered by token, whose
      tokens are all at most `t`, keeps it ordered. */
  lemma OrderedAppend(prev: seq<Attempt>, r: seq<Attempt>, t: nat)
    requires forall k, m | 0 <= k < m < |prev| :: prev[k].token <= prev[m].token
    requires forall k | 0 <= k < |prev| :: prev[k].token <= t
    requires forall k | 0 <= k < |r| :: r[k].token == t
    ensures var trace := prev + r;
            forall k, m | 0 <= k < m < |trace| :: trace[k].token <= trace[m].token
  {
    var trace := prev + r;
    forall k, m | 0 <= k < m < |trace| ensures trace[k].token <= trace[m].token {
      if m < |prev| {
        assert trace[k] == prev[k] && trace[m] == prev[m];
      } else if k < |prev| {
        assert trace[k] == prev[k] && trace[m] == r[m - |prev|];
      } else {
        assert trace[k] == r[k - |prev|] && trace[m] == r[m - |prev|];
      }
    }
  }

  /** The tokens are handled in message order: the calls of one token all
      come before those of any later token. */
  lemma {:induction false} ModerationInOrder(tokens: seq<string>, denylist: set<string>,
                                             manageMessages: bool,
                                             oracle: Oracle, n: nat)
    requires n <= |tokens|
    ensures var trace := Moderation(tokens, denylist, manageMessages, oracle, n);
            forall k, m | 0 <= k < m < |trace| :: trace[k].token <= trace[m].token
  {
    if n > 0 {
      var prev := Moderation(tokens, denylist, manageMessages, oracle, n - 1);
      var r := Reaction(tokens, denylist, manageMessages, oracle, n - 1);
      ModerationStep(tokens, denylist, manageMessages, oracle, n);
      ModerationInOrder(tokens, denylist, manageMessages, oracle, n - 1);
      assert forall k | 0 <= k < |prev| :: prev[k].token <= n - 1 by {
        ModerationFromMatches(tokens, denylist, manageMessages, oracle, n - 1);
      }
      ReactionShape(tokens, denylist, manageMessages, oracle, n - 1);
      OrderedAppend(prev, r, n - 1);
    }
  }

  /** A call is made only when some token among those handled matches. */
  lemma ModerationCallHasMatch(tokens: seq<string>, denylist: set<string>,
                               manageMessages: bool, oracle: Oracle, n: nat)
    requires n <= |tokens|
    ensures Moderation(tokens, denylist, manageMessages, oracle, n) != [] ==>
              exists j | 0 <= j < n :: IsDisallowUrl(denylist, tokens[j])
  {
    var trace := Moderation(tokens, denylist, manageMessages, oracle, n);
    if trace != [] {
      ModerationFromMatches(tokens, denylist, manageMessages, oracle, n);
      var t := trace[0].token;
      assert t < n && IsDisallowUrl(denylist, tokens[t]);
    }
  }

  /** A matching token among those handled causes at least one call. */
  lemma ModerationSomeMatch(tokens: seq<string>, denylist: set<string>,
                            manageMessages: bool, oracle: Oracle, n: nat, j: nat)
    requires j < n <= |tokens|
    requires IsDisallowUrl(denylist, tokens[j])
    ensures Moderation(tokens, denylist, manageMessages, oracle, n) != []
  {
    ModerationPerToken(tokens, denylist, manageMessages, oracle, n, j);
    ReactionShape(tokens, denylist, manageMessages, oracle, j);
  }

  /** A message is left alone exactly when none of its tokens matches. */
  lemma ModerationEmptyIff(tokens: seq<string>, denylist: set<string>,
                           manageMessages: bool, oracle: Oracle, n: nat)
    requires n <= |tokens|
    ensures Moderation(tokens, denylist, manageMessages, oracle, n) == []
            <==> forall j | 0 <= j < n :: !IsDisallowUrl(denylist, tokens[j])
  {
    if forall j | 0 <= j < n :: !IsDisallowUrl(denylist, tokens[j]) {
      ModerationCallHasMatch(tokens, denylist, manageMessages, oracle, n);
    } else {
      var j :| 0 <= j < n && IsDisallowUrl(denylist, tokens[j]);
      ModerationSomeMatch(tokens, denylist, manageMessages, oracle, n, j);
    }
  }

  /** Appending calls whose outcomes are the platform's answers to a
      trace of such calls, on plain values. */
  lemma OutcomesAppend(prev: seq<Attempt>, r: seq<Attempt>, oracle: Oracle)
    requires forall k | 0 <= k < |prev| :: prev[k].outcome == oracle(prev[k].token, prev[k].call)
    requires forall k | 0 <= k < |r| :: r[k].outcome == oracle(r[k].token, r[k].call)
    ensures forall k | 0 <= k < |prev + r| ::
              (prev + r)[k].outcome == oracle((prev + r)[k].token, (prev + r)[k].call)
  {
    var trace := prev + r;
    forall k | 0 <= k < |trace|
      ensures trace[k].outcome == oracle(trace[k].token, trace[k].call)
    {
      if k < |prev| {
        assert trace[k] == prev[k];
      } else {
        assert trace[k] == r[k - |prev|];
      }
    }
  }

  /** Every recorded outcome is what the platform answered to that call
      for that token: the trace reports the platform, it does not invent
      results. */
  lemma {:induction false} ModerationOutcomes(tokens: seq<string>, denylist: set<string>,
                                              manageMessages: bool, oracle: Oracle, n: nat)
    requires n <= |tokens|
    ensures forall k | 0 <= k < |Moderation(tokens, denylist, manageMessages, oracle, n)| ::
              var a := Moderation(tokens, denylist, manageMessages, oracle, n)[k];
              a.outcome == oracle(a.token, a.call)
  {
    if n > 0 {
      var prev := Moderation(tokens, denylist, manageMessages, oracle, n - 1);
      var r := Reaction(tokens, denylist, manageMessages, oracle, n - 1);
      ModerationStep(tokens, denylist, manageMessages, oracle, n);
      ModerationOutcomes(tokens, denylist, manageMessages, oracle, n - 1);
      ReactionShape(tokens, denylist, manageMessages, oracle, n - 1);
      OutcomesAppend(prev, r, oracle);
    }
  }

  /** Without `manage_messages` the bot never deletes: every attempt is
      the warning notice. */
  lemma {:induction false} ModerationWithoutPermission(tokens: seq<string>, denylist: set<string>,
                                                       oracle: Oracle, n: nat)
    requires n <= |tokens|
    ensures var trace := Moderation(tokens, denylist, false, oracle, n);
            forall k | 0 <= k < |trace| :: trace[k].call == SendMessage(Warned)
  {
    if n > 0 {
      var prev := Moderation(tokens, denylist, false, oracle, n - 1);
      var r := Reaction(tokens, denylist, false, oracle, n - 1);
      ModerationStep(tokens, denylist, false, oracle, n);
      ModerationWithoutPermission(tokens, denylist, oracle, n - 1);
      RespondShape(n - 1, false, oracle);
      var trace := prev + r;
      forall k | 0 <= k < |trace| ensures trace[k].call == SendMessage(Warned) {
        if k < |prev| {
          assert trace[k] == prev[k];
        } else {
          assert trace[k] == r[k - |prev|];
        }
      }
    }
  }

  /** With `manage_messages` every notice is the removal notice and
      directly follows a delete of the same token that went through, and
      the platform accepted that delete: a refused or failed delete means
      no notice for that token. */
  lemma ModerationWithPermission(tokens: seq<string>, denylist: set<string>,
                                 oracle: Oracle, n: nat)
    requires n <= |tokens|
    ensures var trace := Moderation(tokens, denylist, true, oracle, n);
            forall k | 0 <= k < |trace| && trace[k].call.SendMessage? ::
              trace[k].call == SendMessage(Removed) && k > 0 &&
              trace[k - 1] == Attempt(trace[k].token, DeleteMessage, Done)
    ensures var trace := Moderation(tokens, denylist, true, oracle, n);
            forall k | 0 <= k < |trace| && trace[k].call.SendMessage? ::
              oracle(trace[k].token, DeleteMessage) == Done
  {
    NoticeAfterDelete(tokens, denylist, oracle, n);
    ModerationOutcomes(tokens, denylist, true, oracle, n);
  }

  /** With `manage_messages` every notice is the removal notice and
      directly follows a delete of the same token that went through. */
  lemma {:induction false} NoticeAfterDelete(tokens: seq<string>, denylist: set<string>,
                                             oracle: Oracle, n: nat)
    requires n <= |tokens|
    ensures var trace := Moderation(tokens, denylist, true, oracle, n);
            forall k | 0 <= k < |trace| && trace[k].call.SendMessage? ::
              trace[k].call == SendMessage(Removed) && k > 0 &&
              trace[k - 1] == Attempt(trace[k].token, DeleteMessage, Done)
  {
    if n > 0 {
      var prev := Moderation(tokens, denylist, true, oracle, n - 1);
      var r := Reaction(tokens, denylist, true, oracle, n - 1);
      ModerationStep(tokens, denylist, true, oracle, n);
      NoticeAfterDelete(tokens, denylist, oracle, n - 1);
      RespondShape(n - 1, true, oracle);
      var trace := prev + r;
      forall k | 0 <= k < |trace| && trace[k].call.SendMessage?
        ensures trace[k].call == SendMessage(Removed) && k > 0 &&
                trace[k - 1] == Attempt(trace[k].token, DeleteMessage, Done)
      {
        if k < |prev| {
          assert trace[k] == prev[k] && trace[k - 1] == prev[k - 1];
        } else {
          assert trace[k] == r[k - |prev|];
          assert k - |prev| == 1;
          assert trace[k - 1] == r[0];
        }
      }
    }
  }

  // ---------------------------------------------------------------------
  // The bot

  class FilterBot {
    /** The current denylist. */
    var disallowList: set<string>
    /** When the last refresh happened, on the event loop's clock. */
    var lastUpdate: int
    /** Seconds between two refreshes. */
    const updateInterval: int := 3600

    /** Entries only ever come from the parser, so they are well formed. */
    ghost predicate Valid()
      reads this
    {
      WellFormed(disallowList)
    }

    function State(): CacheState
      reads this
    {
      CacheState(disallowList, lastUpdate)
    }

    /** The bot starts with an empty denylist and a refresh time of 0. */
    constructor ()
      ensures Valid()
      ensures disallowList == {} && lastUpdate == 0
    {
      disallowList := {};
      lastUpdate := 0;
    }

    /** `_update_disallow_list`, with the clock reading and the fetch
        result as parameters. */
    method UpdateDisallowList(now: int, fetched: FetchResult)
      requires Valid()
      modifies this
      ensures Valid()
      ensures State() == Refresh(old(State()), updateInterval, now, fetched)
      ensures now - old(lastUpdate) < updateInterval ==>
                disallowList == old(disallowList) && lastUpdate == old(lastUpdate)
      ensures now - old(lastUpdate) >= updateInterval ==>
                disallowList == ToSet(FetchDisallowList(fetched)) && lastUpdate == now
    {
      RefreshWellFormed(State(), updateInterval, now, fetched);
      if now - lastUpdate < updateInterval {
        return;
      }
      var entries := FetchDisallowList(fetched);
      disallowList := ToSet(entries);
      lastUpdate := now;
    }

    /** The loop of `on_message` over the tokens: each matching token gets
        its response inside its own `try`, and an exception ends only that
        token's response. */
    method ModerateTokens(tokens: seq<string>, manageMessages: bool, oracle: Oracle)
      returns (attempts: seq<Attempt>)
      ensures attempts == Moderation(tokens, disallowList, manageMessages, oracle, |tokens|)
    {
      attempts := [];
      var i := 0;
      while i < |tokens|
        invariant 0 <= i <= |tokens|
        invariant attempts == Moderation(tokens, disallowList, manageMessages, oracle, i)
      {
        if IsDisallowUrl(disallowList, tokens[i]) {
          if manageMessages {
            var deleted := oracle(i, DeleteMessage);
            attempts := attempts + [Attempt(i, DeleteMessage, deleted)];
            if deleted == Done {
              var notice := SendMessage(Removed);
              attempts := attempts + [Attempt(i, notice, oracle(i, notice))];
            }
          } else {
            var notice := SendMessage(Warned);
            attempts := attempts + [Attempt(i, notice, oracle(i, notice))];
          }
        }
        i := i + 1;
      }
    }

    /** `on_message`: a message of the bot's own is ignored; otherwise the
        denylist is refreshed if due, the text is split on whitespace and
        every token is checked. */
    method OnMessage(fromSelf: bool, content: string, manageMessages: bool,
                     now: int, fetched: FetchResult, oracle: Oracle)
      returns (attempts: seq<Attempt>)
      requires Valid()
      modifies this
      ensures Valid()
      ensures fromSelf ==> attempts == [] && State() == old(State())
      ensures !fromSelf ==> State() == Refresh(old(State()), updateInterval, now, fetched)
      ensures !fromSelf ==>
        attempts == Moderation(SplitWords(content), disallowList, manageMessages,
                               oracle, |SplitWords(content)|)
    {
      if fromSelf {
        return [];
      }
      UpdateDisallowList(now, fetched);
      var urls := SplitWords(content);
      attempts := ModerateTokens(urls, manageMessages, oracle);
    }
  }
}
