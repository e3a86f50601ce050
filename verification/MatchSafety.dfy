/** What holds over every run of the matchmaker: no request is lost or answered twice, a cancel removes only its own
    session's wait, and a game goes to the best connected server (AutomatchServer.cpp). */
module MatchSafety {
  import opened MatchServer

  /** One call into the server, with what its surroundings chose: ids, connections, the order a sort left. */
  datatype Step =
    | MatchStep(session: Session, user: string, mapName: string, gameId: string, connected: set<Session>)
    | CancelStep(session: Session)
    | ResponseStep(gameId: string, value: int)
    | RegisterStep(info: PvPServerInfo, sorted: seq<PvPServerInfo>)
    | TimeoutStep(region: int, id: IpPort)
    | HeartBeatStep(session: Session, id: IpPort)

  ghost function Apply(s: Server, step: Step): Server {
    match step
    case MatchStep(session, user, mapName, gameId, connected) => Match(s, session, user, mapName, gameId, connected)
    case CancelStep(session) => Cancel(s, session)
    case ResponseStep(gameId, value) => GameResponse(s, gameId, value)
    case RegisterStep(info, sorted) => Register(s, info, sorted)
    case TimeoutStep(region, id) => Timeout(s, region, id)
    case HeartBeatStep(session, id) => HeartBeat(s, session, id)
  }

  /** What an observer of the calls can count: requests made, waits given up, sessions that are gone. */
  datatype Ledger = Ledger(requested: multiset<Session>, withdrawn: multiset<Session>, gone: set<Session>)

  /** A cancel gives up a wait of its session when there is one at the key the index has for it. */
  predicate OwnWait(s: Server, session: Session) {
    session in s.keyOf && s.keyOf[session] in s.waiting && s.waiting[s.keyOf[session]].session == session
  }

  function Note(l: Ledger, s: Server, step: Step): Ledger {
    match step
    case MatchStep(session, _, _, _, _) => l.(requested := l.requested + multiset{session})
    case CancelStep(session) =>
      l.(withdrawn := if OwnWait(s, session) then l.withdrawn + multiset{session} else l.withdrawn,
      gone := l.gone + {session})
    case _ => l
  }

  /** How many match answers a session was sent. */
  function Answers(sent: seq<Message>, session: Session): nat {
    if sent == [] then 0 else
      var last := sent[|sent| - 1];
      Answers(sent[..|sent| - 1], session) + (if last.Answer? && last.to == session then 1 else 0)
  }

  /** Where a request that was not answered can be. */
  datatype Place = AtKey(key: MatchKey) | InGame(gameId: string, second: bool)

  ghost predicate Occupies(s: Server, session: Session, p: Place) {
    match p
    case AtKey(key) => key in s.waiting && s.waiting[key].session == session
    case InGame(id, second) =>
      id in s.games && session == if second then s.games[id].sessions.1 else s.games[id].sessions.0
  }

  ghost function Places(s: Server, session: Session): (ps: set<Place>)
    ensures forall p :: p in ps <==> Occupies(s, session, p)
  {
    (set k | k in s.waiting && s.waiting[k].session == session :: AtKey(k))
    + (set id | id in s.games && s.games[id].sessions.0 == session :: InGame(id, false))
    + (set id | id in s.games && s.games[id].sessions.1 == session :: InGame(id, true))
  }

  /** Every request of a session was answered, is waiting, is in a pending game, or was withdrawn. */
  ghost predicate Balanced(s: Server, l: Ledger, session: Session) {
    l.requested[session] == Answers(s.sent, session) + |Places(s, session)| + l.withdrawn[session]
  }

  ghost predicate AllBalanced(s: Server, l: Ledger) {
    forall x: Session :: Balanced(s, l, x)
  }

  // ---------------------------------------------------------------- what one step moves

  lemma PlacesAre(s: Server, x: Session, ps: set<Place>)
    requires forall p :: Occupies(s, x, p) <==> p in ps
    ensures Places(s, x) == ps
  {
    hide Occupies;
  }

  lemma Remove(ps: set<Place>, p: Place)
    ensures |ps - {p}| == |ps| - if p in ps then 1 else 0
  {
    if p !in ps {
      assert ps - {p} == ps;
    }
  }

  lemma Add(ps: set<Place>, p: Place)
    requires p !in ps
    ensures |ps + {p}| == |ps| + 1
  {
  }

  lemma AnswerTwo(sent: seq<Message>, a: Session, b: Session, r: MatchResponse, x: Session)
    ensures Answers(sent + [Answer(a, r), Answer(b, r)], x)
            == Answers(sent, x) + (if a == x then 1 else 0) + (if b == x then 1 else 0)
  {
    var one, two := sent + [Answer(a, r)], sent + [Answer(a, r), Answer(b, r)];
    assert two[..|two| - 1] == one && one[..|one| - 1] == sent;
  }

  lemma {:induction false} OthersDoNotCount(sent: seq<Message>, more: seq<Message>, x: Session)
    requires forall i | 0 <= i < |more| :: !more[i].Answer?
    ensures Answers(sent + more, x) == Answers(sent, x)
    decreases |more|
  {
    if more == [] {
      assert sent + more == sent;
    } else {
      var init := more[..|more| - 1];
      OthersDoNotCount(sent, init, x);
      assert (sent + more)[..|sent + more| - 1] == sent + init;
    }
  }

  /** A request that finds nobody waits at its key. */
  lemma WaitMoves(s: Server, session: Session, user: string, mapName: string, gameId: string, connected: set<Session>, x: Session)
    requires MatchKey(0, mapName) !in s.waiting
    ensures var s' := Match(s, session, user, mapName, gameId, connected);
            && s'.sent == s.sent
            && |Places(s', x)| == |Places(s, x)| + (if x == session then 1 else 0)
  {
    hide Places;
    var s' := Match(s, session, user, mapName, gameId, connected);
    var p := AtKey(MatchKey(0, mapName));
    PlacesAre(s', x, if x == session then Places(s, x) + {p} else Places(s, x));
    if x == session {
      Add(Places(s, x), p);
    }
  }

  /** Whether a request that found an opponent leads to a game. */
  predicate MakesGame(s: Server, step: Step) {
    && step.MatchStep?
    && var key := MatchKey(0, step.mapName);
    && key in s.waiting && s.waiting[key].user != step.user
    && Connected(ServersIn(s, 0), step.connected) != []
  }

  /** One that is answered at once takes the opponent's request with it. */
  lemma AnswerMoves(s: Server, step: Step, x: Session)
    requires step.MatchStep? && MatchKey(0, step.mapName) in s.waiting && !MakesGame(s, step)
    ensures var s' := Apply(s, step);
            var opponent := s.waiting[MatchKey(0, step.mapName)].session;
            && |Places(s', x)| == |Places(s, x)| - (if x == opponent then 1 else 0)
            && Answers(s'.sent, x)
               == Answers(s.sent, x) + (if opponent == x then 1 else 0) + (if step.session == x then 1 else 0)
  {
    hide Answers, Places, Connected, ServersIn;
    var key := MatchKey(0, step.mapName);
    var opponent := s.waiting[key];
    var s' := Apply(s, step);
    AnswerTwo(s.sent, opponent.session, step.session, if opponent.user == step.user then IllegalRequest else NoServer, x);
    PlacesAre(s', x, Places(s, x) - {AtKey(key)});
    Remove(Places(s, x), AtKey(key));
  }

  lemma GameState(s: Server, step: Step)
    requires MakesGame(s, step)
    ensures var key := MatchKey(0, step.mapName);
            var opponent := s.waiting[key];
            var s' := Apply(s, step);
            && s'.waiting == s.waiting - {key}
            && (if step.gameId in s.games then s'.games == s.games else
                  s'.games.Keys == s.games.Keys + {step.gameId} && s'.games == s.games[step.gameId := s'.games[step.gameId]]
                  && s'.games[step.gameId].sessions == (opponent.session, step.session))
            && forall x: Session :: Answers(s'.sent, x) == Answers(s.sent, x)
  {
    hide Answers, Connected, ServersIn, Offers;
    var opponent := s.waiting[MatchKey(0, step.mapName)];
    forall x: Session ensures Answers(Apply(s, step).sent, x) == Answers(s.sent, x) {
      OffersDoNotCount(s.sent, Connected(ServersIn(s, 0), step.connected), step.gameId, ForcesOf(opponent.user, step.user), x);
    }
  }

  lemma OffersDoNotCount(sent: seq<Message>, servers: seq<PvPServerInfo>, gameId: string, forces: seq<ForceData>, x: Session)
    ensures Answers(sent + Offers(servers, gameId, forces), x) == Answers(sent, x)
  {
    OthersDoNotCount(sent, Offers(servers, gameId, forces), x);
  }

  /** One that leads to a game moves both requests into it, if the game's id is new. */
  lemma GameMoves(s: Server, step: Step, x: Session)
    requires MakesGame(s, step)
    ensures var s' := Apply(s, step);
            var opponent := s.waiting[MatchKey(0, step.mapName)].session;
            var joined := if step.gameId in s.games then 0 else
                            (if opponent == x then 1 else 0) + (if step.session == x then 1 else 0);
            && |Places(s', x)| == |Places(s, x)| - (if x == opponent then 1 else 0) + joined
            && Answers(s'.sent, x) == Answers(s.sent, x)
  {
    GameState(s, step);
    var key := MatchKey(0, step.mapName);
    var opponent := s.waiting[key];
    var s' := Apply(s, step);
    assert Occupies(s, x, AtKey(key)) <==> opponent.session == x;
    hide Answers, Connected, Places, ServersIn, Apply, Occupies, Match, Propose;
    var ps := Places(s, x) - {AtKey(key)};
    Remove(Places(s, x), AtKey(key));
    if step.gameId in s.games {
      LeftKey(s, s', key, x);
      PlacesAre(s', x, ps);
    } else {
      var p1, p2 := InGame(step.gameId, false), InGame(step.gameId, true);
      JoinedGame(s, s', key, step.gameId, x, p1);
      JoinedGame(s, s', key, step.gameId, x, p2);
      WithTwo(ps, p1, opponent.session == x, p2, step.session == x);
      forall p ensures Occupies(s', x, p) <==> p in With(With(ps, p1, opponent.session == x), p2, step.session == x) {
        JoinedGame(s, s', key, step.gameId, x, p);
      }
      PlacesAre(s', x, With(With(ps, p1, opponent.session == x), p2, step.session == x));
    }
  }

  lemma LeftKey(s: Server, s': Server, key: MatchKey, x: Session)
    requires s'.waiting == s.waiting - {key} && s'.games == s.games
    ensures forall p :: Occupies(s', x, p) <==> Occupies(s, x, p) && p != AtKey(key)
  {
  }

  function With(ps: set<Place>, p: Place, b: bool): set<Place> {
    if b then ps + {p} else ps
  }

  lemma WithTwo(ps: set<Place>, p1: Place, b1: bool, p2: Place, b2: bool)
    requires p1 != p2 && p1 !in ps && p2 !in ps
    ensures |With(With(ps, p1, b1), p2, b2)| == |ps| + (if b1 then 1 else 0) + (if b2 then 1 else 0)
    ensures forall p :: p in With(With(ps, p1, b1), p2, b2) <==> p in ps || (p == p1 && b1) || (p == p2 && b2)
  {
  }

  lemma JoinedGame(s: Server, s': Server, key: MatchKey, gameId: string, x: Session, p: Place)
    requires key in s.waiting && s'.waiting == s.waiting - {key}
    requires gameId !in s.games && gameId in s'.games && s'.games == s.games[gameId := s'.games[gameId]]
    ensures Occupies(s', x, p) <==>
              || (Occupies(s, x, p) && p != AtKey(key))
              || (p == InGame(gameId, false) && s'.games[gameId].sessions.0 == x)
              || (p == InGame(gameId, true) && s'.games[gameId].sessions.1 == x)
    ensures p.InGame? && p.gameId == gameId ==> !Occupies(s, x, p)
  {
  }

  lemma ResponseState(s: Server, gameId: string, value: int, x: Session)
    requires gameId in s.games
    ensures var s' := GameResponse(s, gameId, value);
            var both := s.games[gameId].sessions;
            && s'.waiting == s.waiting && s'.games == s.games - {gameId}
            && Answers(s'.sent, x) == Answers(s.sent, x) + (if both.0 == x then 1 else 0) + (if both.1 == x then 1 else 0)
  {
    hide Answers;
    var game := s.games[gameId];
    AnswerTwo(s.sent, game.sessions.0, game.sessions.1,
              if value == 0 then Success(gameId, game.server, game.forces) else CreateFail(value), x);
  }

  lemma LeftGame(s: Server, s': Server, gameId: string, x: Session)
    requires gameId in s.games && s'.waiting == s.waiting && s'.games == s.games - {gameId}
    ensures Occupies(s, x, InGame(gameId, false)) <==> s.games[gameId].sessions.0 == x
    ensures Occupies(s, x, InGame(gameId, true)) <==> s.games[gameId].sessions.1 == x
    ensures forall p :: Occupies(s', x, p) <==> Occupies(s, x, p) && p != InGame(gameId, false) && p != InGame(gameId, true)
  {
  }

  lemma ResponseMoves(s: Server, gameId: string, value: int, x: Session)
    requires gameId in s.games
    ensures var s' := GameResponse(s, gameId, value);
            var both := s.games[gameId].sessions;
            var left := (if both.0 == x then 1 else 0) + (if both.1 == x then 1 else 0);
            && |Places(s', x)| == |Places(s, x)| - left
            && Answers(s'.sent, x) == Answers(s.sent, x) + left
  {
    hide Answers, GameResponse, Places, Occupies;
    ResponseState(s, gameId, value, x);
    var s' := GameResponse(s, gameId, value);
    LeftGame(s, s', gameId, x);
    var p1, p2 := InGame(gameId, false), InGame(gameId, true);
    var ps := Places(s, x) - {p1};
    Remove(Places(s, x), p1);
    Remove(ps, p2);
    PlacesAre(s', x, ps - {p2});
  }

  lemma CancelMoves(s: Server, session: Session, x: Session)
    ensures var s' := Cancel(s, session);
            && s'.sent == s.sent
            && |Places(s', x)| == |Places(s, x)|
               - (if session in s.keyOf && s.keyOf[session] in s.waiting && s.waiting[s.keyOf[session]].session == x then 1 else 0)
  {
    hide Places;
    var s' := Cancel(s, session);
    if session in s.keyOf {
      var p := AtKey(s.keyOf[session]);
      PlacesAre(s', x, Places(s, x) - {p});
      Remove(Places(s, x), p);
    } else {
      PlacesAre(s', x, Places(s, x));
    }
  }

  lemma RegistryMovesNothing(s: Server, step: Step, x: Session)
    requires step.RegisterStep? || step.TimeoutStep? || step.HeartBeatStep?
    ensures var s' := Apply(s, step);
            Places(s', x) == Places(s, x) && Answers(s'.sent, x) == Answers(s.sent, x)
  {
    hide Places, Answers;
    var s' := Apply(s, step);
    PlacesAre(s', x, Places(s, x));
    if step.RegisterStep? {
      OthersDoNotCount(s.sent, [RegisterResponse(step.info.session, 0)], x);
    }
  }

  // ---------------------------------------------------------------- when no request is lost

  /** The two ways to lose a request: a game under an id already in use is not recorded, and a cancel whose index
      entry is stale removes the wait of another session. */
  predicate Keeps(s: Server, step: Step) {
    && (MakesGame(s, step) ==> step.gameId !in s.games)
    && (step.CancelStep? && step.session in s.keyOf && s.keyOf[step.session] in s.waiting ==> OwnWait(s, step.session))
  }

  /** A step keeps every request accounted for exactly when it is neither of the two. */
  lemma StepBalance(s: Server, l: Ledger, step: Step)
    requires AllBalanced(s, l)
    ensures AllBalanced(Apply(s, step), Note(l, s, step)) <==> Keeps(s, step)
  {
    if Keeps(s, step) {
      forall x: Session ensures Balanced(Apply(s, step), Note(l, s, step), x) {
        KeepsBalance(s, l, step, x);
      }
    } else {
      var loser := if step.MatchStep? then s.waiting[MatchKey(0, step.mapName)].session
                   else s.waiting[s.keyOf[step.session]].session;
      Loses(s, l, step, loser);
    }
  }

  lemma KeepsBalance(s: Server, l: Ledger, step: Step, x: Session)
    requires Balanced(s, l, x) && Keeps(s, step)
    ensures Balanced(Apply(s, step), Note(l, s, step), x)
  {
    hide Places, Answers, Match, HeartBeat, Timeout, Connected;
    match step
    case MatchStep(session, user, mapName, gameId, connected) =>
      if MatchKey(0, mapName) !in s.waiting {
        WaitMoves(s, session, user, mapName, gameId, connected, x);
      } else if MakesGame(s, step) {
        GameMoves(s, step, x);
      } else {
        AnswerMoves(s, step, x);
      }
    case CancelStep(session) => CancelMoves(s, session, x);
    case ResponseStep(gameId, value) => if gameId in s.games { ResponseMoves(s, gameId, value, x); }
    case _ => RegistryMovesNothing(s, step, x);
  }

  lemma Loses(s: Server, l: Ledger, step: Step, loser: Session)
    requires Balanced(s, l, loser) && !Keeps(s, step)
    requires loser == if step.MatchStep? then s.waiting[MatchKey(0, step.mapName)].session
                      else s.waiting[s.keyOf[step.session]].session
    ensures !Balanced(Apply(s, step), Note(l, s, step), loser)
  {
    hide Places, Answers, Match, Connected;
    if step.MatchStep? {
      GameMoves(s, step, loser);
    } else {
      CancelMoves(s, step.session, loser);
    }
  }

  // ---------------------------------------------------------------- over every run

  /** What the surroundings promise: a new game id, one request of a session at a time, nothing after its cancel. */
  predicate Disciplined(s: Server, l: Ledger, step: Step) {
    match step
    case MatchStep(session, _, _, gameId, _) =>
      gameId !in s.games && session !in l.gone && l.requested[session] == Answers(s.sent, session)
    case CancelStep(session) => session !in l.gone
    case RegisterStep(info, sorted) => SortOf(Updated(ServersIn(s, info.region), info), sorted)
    case _ => true
  }

  ghost function After(steps: seq<Step>): (Server, Ledger) {
    if steps == [] then (EMPTY, Ledger(multiset{}, multiset{}, {})) else
      var (s, l) := After(steps[..|steps| - 1]);
      var step := steps[|steps| - 1];
      (Apply(s, step), Note(l, s, step))
  }

  ghost predicate DisciplinedRun(steps: seq<Step>) {
    steps == [] || (
      && DisciplinedRun(steps[..|steps| - 1])
      && var (s, l) := After(steps[..|steps| - 1]);
      Disciplined(s, l, steps[|steps| - 1]))
  }

  /** session2matchkey inverts waiting_users, but for the entries that cancelled sessions left behind. */
  ghost predicate Inverse(s: Server, l: Ledger) {
    && (forall k | k in s.waiting ::
          s.waiting[k].session !in l.gone && s.waiting[k].session in s.keyOf && s.keyOf[s.waiting[k].session] == k)
    && (forall x | x in s.keyOf && x !in l.gone :: OwnWait(s, x))
  }

  /** A session has at most one request that was not answered. */
  ghost predicate One(s: Server, l: Ledger, x: Session) {
    |Places(s, x)| + l.withdrawn[x] <= 1 && (x !in l.gone ==> l.withdrawn[x] == 0)
  }

  ghost predicate Safe(s: Server, l: Ledger) {
    AllBalanced(s, l) && Inverse(s, l) && forall x: Session :: One(s, l, x)
  }

  lemma IdleHasNoPlace(s: Server, l: Ledger, x: Session)
    requires Balanced(s, l, x) && l.requested[x] == Answers(s.sent, x)
    ensures |Places(s, x)| == 0 && l.withdrawn[x] == 0
    ensures forall k | k in s.waiting :: s.waiting[k].session != x
  {
    hide Answers;
    assert forall k | k in s.waiting && s.waiting[k].session == x :: AtKey(k) in Places(s, x);
  }

  /** What a request does to the waiting users and the index. */
  lemma MatchMaps(s: Server, step: Step)
    requires step.MatchStep?
    ensures var key := MatchKey(0, step.mapName); var s' := Apply(s, step);
            if key !in s.waiting then
              && s'.waiting == s.waiting[key := WaitingUser(step.session, step.user)]
              && s'.keyOf == Emplace(s.keyOf, step.session, key)
            else s'.waiting == s.waiting - {key} && s'.keyOf == s.keyOf - {s.waiting[key].session}
  {
    hide Connected, Offers, ServersIn;
  }

  lemma MatchInverse(s: Server, l: Ledger, step: Step)
    requires step.MatchStep? && Inverse(s, l) && step.session !in l.gone
    requires forall k | k in s.waiting :: s.waiting[k].session != step.session
    ensures Inverse(Apply(s, step), Note(l, s, step))
  {
    hide Apply, Match;
    MatchMaps(s, step);
    assert !OwnWait(s, step.session);
    var key := MatchKey(0, step.mapName);
    var s' := Apply(s, step);
    if key !in s.waiting {
      assert step.session !in s.keyOf;
      assert forall x | x in s'.keyOf && x !in l.gone :: OwnWait(s', x) by {
        assert forall x | x in s.keyOf && x !in l.gone :: OwnWait(s, x);
      }
    } else {
      var opponent := s.waiting[key].session;
      assert s'.waiting == s.waiting - {key} && s'.keyOf == s.keyOf - {opponent};
      forall x | x in s'.keyOf && x !in l.gone ensures OwnWait(s', x) {
        assert OwnWait(s, x) && x != opponent;
      }
    }
  }

  lemma CancelInverse(s: Server, l: Ledger, session: Session)
    requires Inverse(s, l) && session !in l.gone
    ensures Inverse(Cancel(s, session), Note(l, s, CancelStep(session)))
    ensures session in s.keyOf ==> OwnWait(s, session)
  {
    var s' := Cancel(s, session);
    forall x | x in s'.keyOf && x !in l.gone && x != session ensures OwnWait(s', x) {
      assert OwnWait(s, x);
    }
  }

  lemma StepOne(s: Server, l: Ledger, step: Step, x: Session)
    requires Balanced(s, l, x) && One(s, l, x) && Disciplined(s, l, step)
    requires step.CancelStep? && step.session in s.keyOf ==> OwnWait(s, step.session)
    ensures One(Apply(s, step), Note(l, s, step), x)
  {
    hide Places, Answers, Match, HeartBeat, Timeout, Connected;
    match step
    case MatchStep(session, user, mapName, gameId, connected) =>
      if x == session {
        IdleHasNoPlace(s, l, x);
      }
      if MatchKey(0, mapName) !in s.waiting {
        WaitMoves(s, session, user, mapName, gameId, connected, x);
      } else if MakesGame(s, step) {
        GameMoves(s, step, x);
      } else {
        AnswerMoves(s, step, x);
      }
    case CancelStep(session) => CancelMoves(s, session, x);
    case ResponseStep(gameId, value) => if gameId in s.games { ResponseMoves(s, gameId, value, x); }
    case _ => RegistryMovesNothing(s, step, x);
  }

  lemma StepSafe(s: Server, l: Ledger, step: Step)
    requires Safe(s, l) && Disciplined(s, l, step)
    ensures Safe(Apply(s, step), Note(l, s, step))
  {
    hide Places, Answers, Match, HeartBeat, Timeout, Connected, Inverse, OwnWait;
    if step.MatchStep? {
      assert Balanced(s, l, step.session);
      IdleHasNoPlace(s, l, step.session);
      MatchInverse(s, l, step);
    } else if step.CancelStep? {
      CancelInverse(s, l, step.session);
    } else {
      RestInverse(s, l, step);
    }
    StepBalance(s, l, step);
    forall x: Session ensures One(Apply(s, step), Note(l, s, step), x) {
      assert Balanced(s, l, x) && One(s, l, x);
      StepOne(s, l, step, x);
    }
  }

  lemma RestInverse(s: Server, l: Ledger, step: Step)
    requires Inverse(s, l) && !step.MatchStep? && !step.CancelStep?
    ensures Inverse(Apply(s, step), Note(l, s, step))
  {
    hide Answers;
    var s' := Apply(s, step);
    assert s'.waiting == s.waiting && s'.keyOf == s.keyOf;
    assert forall x | x in s.keyOf && x !in l.gone :: OwnWait(s, x) && OwnWait(s', x);
  }

  /** Over every disciplined run: each request of a session was answered once, or waits, or is in a pending game, or
      was withdrawn, at most one of them still open; and the index inverts the waiting users. */
  lemma {:induction false} EveryRequestHasOnePlace(steps: seq<Step>)
    requires DisciplinedRun(steps)
    ensures var (s, l) := After(steps);
            forall x: Session ::
              && l.requested[x] == Answers(s.sent, x) + |Places(s, x)| + l.withdrawn[x]
              && |Places(s, x)| + l.withdrawn[x] <= 1
    ensures Safe(After(steps).0, After(steps).1)
  {
    hide Apply, Answers, Places, Inverse;
    if steps == [] {
      EmptyIsSafe();
    } else {
      var init := steps[..|steps| - 1];
      EveryRequestHasOnePlace(init);
      StepSafe(After(init).0, After(init).1, steps[|steps| - 1]);
    }
    var (s, l) := After(steps);
    forall x: Session
      ensures l.requested[x] == Answers(s.sent, x) + |Places(s, x)| + l.withdrawn[x] && |Places(s, x)| + l.withdrawn[x] <= 1
    {
      assert Balanced(s, l, x) && One(s, l, x);
    }
  }

  lemma EmptyIsSafe()
    ensures Safe(EMPTY, Ledger(multiset{}, multiset{}, {}))
  {
    forall x: Session ensures Places(EMPTY, x) == {} {
      PlacesAre(EMPTY, x, {});
    }
  }

  /** So a cancel takes away the wait of its own session and no other. */
  lemma CancelRemovesOwnWait(steps: seq<Step>, session: Session)
    requires DisciplinedRun(steps + [CancelStep(session)])
    ensures var s, s' := After(steps).0, After(steps + [CancelStep(session)]).0;
            forall k :: k in s'.waiting <==> k in s.waiting && s.waiting[k].session != session
  {
    hide Answers, Places;
    var all := steps + [CancelStep(session)];
    assert all[..|all| - 1] == steps;
    EveryRequestHasOnePlace(steps);
    OneMore(steps, CancelStep(session));
    var (s, l) := After(steps);
    assert session in s.keyOf ==> OwnWait(s, session);
  }

  lemma OneMore(steps: seq<Step>, step: Step)
    ensures var (s, l) := After(steps); After(steps + [step]) == (Apply(s, step), Note(l, s, step))
  {
    assert (steps + [step])[..|steps|] == steps;
  }

  /** Without the discipline it is not so: the entry a cancel leaves behind lets a second cancel of the same session
      throw out whoever waits at that map by then. */
  lemma StaleEntryDropsAnother()
    ensures var steps := [MatchStep(1, "a", "m", "g", {})] + [CancelStep(1)] + [MatchStep(2, "b", "m", "h", {})] + [CancelStep(1)];
            var (s, l) := After(steps);
            l.requested[2] == 1 && Answers(s.sent, 2) == 0 && Places(s, 2) == {} && l.withdrawn[2] == 0
  {
    var first, second := MatchStep(1, "a", "m", "g", {}), MatchStep(2, "b", "m", "h", {});
    OneMore([], first);
    assert [] + [first] == [first];
    OneMore([first], CancelStep(1));
    OneMore([first] + [CancelStep(1)], second);
    OneMore([first] + [CancelStep(1)] + [second], CancelStep(1));
    var key := MatchKey(0, "m");
    var s := After([first] + [CancelStep(1)] + [second]).0;
    assert s.waiting == map[key := WaitingUser(2, "b")] && s.keyOf == map[1 := key, 2 := key];
    PlacesAre(Cancel(s, 1), 2, {});
  }
}
