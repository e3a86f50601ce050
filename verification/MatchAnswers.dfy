/** What the matchmaker tells its users and the battle servers, over every run and in terms of the calls that were made
    (AutomatchServer.cpp). */
module MatchAnswers {
  import opened MatchServer
  import opened MatchSafety
  import opened MatchRegistry

  // ---------------------------------------------------------------- what a call was about

  /** Whether the call with index `i` brought this user to this map. */
  ghost predicate Arrived(steps: seq<Step>, i: nat, mapName: string, user: WaitingUser) {
    && i < |steps| && steps[i].MatchStep? && steps[i].mapName == mapName
    && steps[i].session == user.session && steps[i].user == user.user
  }

  /** Whether some server of a list is connected. */
  ghost predicate AnyServer(list: seq<PvPServerInfo>, connected: set<Session>) {
    exists k | 0 <= k < |list| :: list[k].session in connected
  }

  /** Whether this is the id of the first one that is. */
  ghost predicate FirstServer(list: seq<PvPServerInfo>, connected: set<Session>, id: IpPort) {
    exists k: nat :: FirstAt(list, connected, id, k)
  }

  predicate FirstAt(list: seq<PvPServerInfo>, connected: set<Session>, id: IpPort, k: nat) {
    && k < |list| && list[k].session in connected && list[k].id == id
    && forall m | 0 <= m < k :: list[m].session !in connected
  }

  /** Whether the call with index `j` met the user of an earlier one, and this is the game to be made of it: on the first
      connected server, with both users in order of arrival. No game of that id was pending then, and none was answered
      since. */
  ghost predicate GameOf(steps: seq<Step>, i: nat, j: nat, gameId: string, game: GameInfo) {
    && Proposed(steps, i, j, gameId, game.server)
    && game.sessions == (steps[i].session, steps[j].session)
    && game.forces == [ForceData(steps[i].user, 1), ForceData(steps[j].user, 2)]
  }

  ghost predicate Proposed(steps: seq<Step>, i: nat, j: nat, gameId: string, server: IpPort) {
    && i < j < |steps| && steps[i].MatchStep? && steps[j].MatchStep?
    && steps[j].gameId == gameId && steps[i].mapName == steps[j].mapName && steps[i].user != steps[j].user
    && FirstServer(ServersIn(After(steps[..j]).0, 0), steps[j].connected, server)
    && gameId !in After(steps[..j]).0.games
    && forall k: nat | j < k < |steps| :: !Responds(steps, k, gameId)
  }

  predicate Responds(steps: seq<Step>, k: nat, gameId: string)
    requires k < |steps|
  {
    steps[k].ResponseStep? && steps[k].gameId == gameId
  }

  ghost predicate HasGame(steps: seq<Step>, gameId: string, game: GameInfo) {
    exists i: nat, j: nat :: GameOf(steps, i, j, gameId, game)
  }

  ghost predicate HasArrived(steps: seq<Step>, key: MatchKey, user: WaitingUser) {
    key.region == 0 && exists i: nat :: Arrived(steps, i, key.mapName, user)
  }

  /** Everybody who waits has arrived, and every pending game is the one to be made of two arrivals. */
  ghost predicate Told(steps: seq<Step>, s: Server) {
    && (forall key | key in s.waiting :: HasArrived(steps, key, s.waiting[key]))
    && (forall g | g in s.games :: HasGame(steps, g, s.games[g]))
  }

  // ---------------------------------------------------------------- over every run

  lemma {:induction false} ConnectedAre(list: seq<PvPServerInfo>, connected: set<Session>)
    ensures var cs := Connected(list, connected);
            && (cs != [] <==> AnyServer(list, connected))
            && (cs != [] ==> FirstServer(list, connected, cs[0].id))
  {
    hide FirstServer, AnyServer;
    if list == [] {
      assert !AnyServer([], connected) by { NoServerIn(connected); }
    } else {
      ConnectedAre(list[1..], connected);
      HeadOrRest(list, connected);
      if list[0].session !in connected {
        assert Connected(list, connected) == [] + Connected(list[1..], connected) == Connected(list[1..], connected);
        if AnyServer(list, connected) {
          LaterIsFirst(list, connected, Connected(list, connected)[0].id);
        }
      }
    }
  }

  lemma NoServerIn(connected: set<Session>)
    ensures !AnyServer([], connected)
  {
  }

  lemma HeadOrRest(list: seq<PvPServerInfo>, connected: set<Session>)
    requires list != []
    ensures AnyServer(list, connected) <==> list[0].session in connected || AnyServer(list[1..], connected)
    ensures list[0].session in connected ==> FirstServer(list, connected, list[0].id)
  {
    forall k | 0 <= k < |list| && list[k].session in connected
      ensures list[0].session in connected || AnyServer(list[1..], connected)
    {
      assert k > 0 ==> list[k] == list[1..][k - 1];
    }
    if list[0].session in connected {
      assert FirstAt(list, connected, list[0].id, 0);
    } else if AnyServer(list[1..], connected) {
      var k :| 0 <= k < |list[1..]| && list[1..][k].session in connected;
      assert list[k + 1].session in connected;
    }
  }

  lemma LaterIsFirst(list: seq<PvPServerInfo>, connected: set<Session>, id: IpPort)
    requires list != [] && list[0].session !in connected && FirstServer(list[1..], connected, id)
    ensures FirstServer(list, connected, id)
  {
    var k: nat :| FirstAt(list[1..], connected, id, k);
    forall m | 0 <= m < k + 1 ensures list[m].session !in connected {
      assert m > 0 ==> list[m] == list[1..][m - 1];
    }
    assert FirstAt(list, connected, id, k + 1);
  }

  lemma ArrivedBefore(steps: seq<Step>, step: Step, key: MatchKey, user: WaitingUser)
    requires HasArrived(steps, key, user)
    ensures HasArrived(steps + [step], key, user)
  {
    var i: nat :| Arrived(steps, i, key.mapName, user);
    assert Arrived(steps + [step], i, key.mapName, user);
  }

  lemma GameBefore(steps: seq<Step>, step: Step, gameId: string, game: GameInfo)
    requires HasGame(steps, gameId, game)
    requires !(step.ResponseStep? && step.gameId == gameId)
    ensures HasGame(steps + [step], gameId, game)
  {
    hide After, FirstServer, ServersIn;
    var i: nat, j: nat :| GameOf(steps, i, j, gameId, game);
    var all := steps + [step];
    assert all[..j] == steps[..j];
    forall k: nat | j < k < |all| ensures !Responds(all, k, gameId) {
      assert k < |steps| ==> !Responds(steps, k, gameId);
    }
    assert GameOf(all, i, j, gameId, game);
  }

  lemma NewGame(steps: seq<Step>, step: Step, s: Server)
    requires s == After(steps).0 && Told(steps, s) && MakesGame(s, step) && step.gameId !in s.games
    ensures step.gameId in Apply(s, step).games && HasGame(steps + [step], step.gameId, Apply(s, step).games[step.gameId])
  {
    hide After, FirstServer, HasArrived;
    var key := MatchKey(0, step.mapName);
    var opponent := s.waiting[key];
    var cs := Connected(ServersIn(s, 0), step.connected);
    ConnectedAre(ServersIn(s, 0), step.connected);
    assert Apply(s, step).games[step.gameId]
        == GameInfo(cs[0].id, ForcesOf(opponent.user, step.user), (opponent.session, step.session));
    assert HasArrived(steps, key, opponent);
    GameIsMade(steps, step, s, opponent, cs[0].id);
  }

  lemma GameIsMade(steps: seq<Step>, step: Step, s: Server, opponent: WaitingUser, server: IpPort)
    requires s == After(steps).0 && step.MatchStep? && HasArrived(steps, MatchKey(0, step.mapName), opponent)
    requires opponent.user != step.user && FirstServer(ServersIn(s, 0), step.connected, server) && step.gameId !in s.games
    ensures HasGame(steps + [step], step.gameId,
                    GameInfo(server, ForcesOf(opponent.user, step.user), (opponent.session, step.session)))
  {
    hide After, FirstServer, ServersIn;
    var i: nat :| Arrived(steps, i, step.mapName, opponent);
    var all := steps + [step];
    assert all[..|steps|] == steps && all[|steps|] == step && all[i] == steps[i];
    assert GameOf(all, i, |steps|, step.gameId,
                  GameInfo(server, ForcesOf(opponent.user, step.user), (opponent.session, step.session)));
  }

  lemma StepTold(steps: seq<Step>, step: Step, s: Server)
    requires s == After(steps).0 && Told(steps, s)
    ensures Told(steps + [step], Apply(s, step))
  {
    hide After, Connected, ServersIn, Offers, HasArrived, HasGame, HeartBeat, Timeout;
    var s' := Apply(s, step);
    var all := steps + [step];
    forall key | key in s'.waiting ensures HasArrived(all, key, s'.waiting[key]) {
      if key in s.waiting && s'.waiting[key] == s.waiting[key] {
        ArrivedBefore(steps, step, key, s.waiting[key]);
      } else {
        JustArrived(steps, step, s, key);
      }
    }
    forall g | g in s'.games ensures HasGame(all, g, s'.games[g]) {
      GameKept(s, step, g);
      if g in s.games && s'.games[g] == s.games[g] {
        GameBefore(steps, step, g, s.games[g]);
      } else {
        NewGame(steps, step, s);
      }
    }
  }

  lemma JustArrived(steps: seq<Step>, step: Step, s: Server, key: MatchKey)
    requires key in Apply(s, step).waiting && !(key in s.waiting && Apply(s, step).waiting[key] == s.waiting[key])
    ensures HasArrived(steps + [step], key, Apply(s, step).waiting[key])
  {
    hide Connected, ServersIn, Offers;
    var all := steps + [step];
    assert all[|steps|] == step;
    assert step.MatchStep?;
    assert Arrived(all, |steps|, key.mapName, Apply(s, step).waiting[key]);
  }

  /** A game is as it was, or it is the one this request has led to; and one that was answered is gone. */
  lemma GameKept(s: Server, step: Step, g: string)
    requires g in Apply(s, step).games
    ensures (g in s.games && Apply(s, step).games[g] == s.games[g]) || (MakesGame(s, step) && g == step.gameId && g !in s.games)
    ensures !(step.ResponseStep? && step.gameId == g)
  {
    hide Connected, ServersIn, Offers;
  }

  lemma {:induction false} RunTold(steps: seq<Step>)
    ensures Told(steps, After(steps).0)
  {
    hide Told, Apply;
    if steps == [] {
      assert Told([], EMPTY) by { NothingTold(); }
    } else {
      var init, step := steps[..|steps| - 1], steps[|steps| - 1];
      RunTold(init);
      StepTold(init, step, After(init).0);
      assert steps == init + [step];
    }
  }

  lemma NothingTold()
    ensures Told([], EMPTY)
  {
  }

  // ---------------------------------------------------------------- the answers

  /** What a battle server's response makes the server send: nothing for a game that is not pending; otherwise both users
      of the game, in order of arrival, are told the same: that it was made, and where and of whom, exactly if the value is
      0, and otherwise that it failed, and why. */
  lemma ResponseIsPassedOn(steps: seq<Step>, gameId: string, value: int)
    ensures var s, s' := After(steps).0, Apply(After(steps).0, ResponseStep(gameId, value));
            && (gameId !in s.games ==> s'.sent == s.sent)
            && (gameId in s.games ==> exists i: nat, j: nat, server ::
                  && Proposed(steps, i, j, gameId, server)
                  && var r := if value == 0 then
                                Success(gameId, server, [ForceData(steps[i].user, 1), ForceData(steps[j].user, 2)])
                              else CreateFail(value);
                     s'.sent == s.sent + [Answer(steps[i].session, r), Answer(steps[j].session, r)])
  {
    RunTold(steps);
    hide After, Proposed;
    var s := After(steps).0;
    if gameId in s.games {
      assert HasGame(steps, gameId, s.games[gameId]);
      var i: nat, j: nat :| GameOf(steps, i, j, gameId, s.games[gameId]);
      assert Proposed(steps, i, j, gameId, s.games[gameId].server);
    }
  }

  /** A game is pending from the request that proposed it to the first response. */
  lemma PendingUntilResponse(s: Server, step: Step, g: string)
    ensures g in Apply(s, step).games <==>
              || (g in s.games && !(step.ResponseStep? && step.gameId == g))
              || (step.MatchStep? && step.gameId == g && MeetsAnother(s, step) && AnyServer(ServersIn(s, 0), step.connected))
  {
    hide ServersIn, AnyServer, RegionsOf, Find, Connected, Offers;
    if step.MatchStep? {
      ConnectedAre(ServersIn(s, 0), step.connected);
    }
  }

  /** Whether a request finds somebody waiting at its map. */
  predicate Meets(s: Server, step: Step) {
    step.MatchStep? && MatchKey(0, step.mapName) in s.waiting
  }

  predicate MeetsAnother(s: Server, step: Step) {
    Meets(s, step) && s.waiting[MatchKey(0, step.mapName)].user != step.user
  }

  /** The messages a request leads to when the one it meets has this session and this name: both are refused exactly if
      they have the same name, both are told that there is no server exactly if none is connected, and otherwise every
      connected server, in order, is asked to make the game of the two. */
  ghost predicate Answered(more: seq<Message>, step: Step, session: Session, user: string, list: seq<PvPServerInfo>)
    requires step.MatchStep?
  {
    if user == step.user then more == [Answer(session, IllegalRequest), Answer(step.session, IllegalRequest)]
    else if !AnyServer(list, step.connected) then more == [Answer(session, NoServer), Answer(step.session, NoServer)]
    else AsksConnected(more, list, step.connected, step.gameId, [ForceData(user, 1), ForceData(step.user, 2)])
  }

  /** What a request makes the server send: nothing if nobody waits, and otherwise what is due to the two. */
  lemma RequestIsAnswered(steps: seq<Step>, step: Step)
    requires step.MatchStep?
    ensures var s, s' := After(steps).0, Apply(After(steps).0, step);
            && (!Meets(s, step) ==> s'.sent == s.sent)
            && (Meets(s, step) ==> exists i: nat, more ::
                  && Arrived(steps, i, step.mapName, s.waiting[MatchKey(0, step.mapName)])
                  && Answered(more, step, steps[i].session, steps[i].user, ServersIn(s, 0))
                  && s'.sent == s.sent + more)
  {
    RunTold(steps);
    hide After, Answered, Apply;
    var s := After(steps).0;
    var key := MatchKey(0, step.mapName);
    if Meets(s, step) {
      assert HasArrived(steps, key, s.waiting[key]);
      var i: nat :| Arrived(steps, i, key.mapName, s.waiting[key]);
      MeetingIsAnswered(s, step);
      var more :| Answered(more, step, s.waiting[key].session, s.waiting[key].user, ServersIn(s, 0))
                  && Apply(s, step).sent == s.sent + more;
      assert Answered(more, step, steps[i].session, steps[i].user, ServersIn(s, 0));
    } else {
      assert Apply(s, step).sent == s.sent by { NobodyMet(s, step); }
    }
  }

  lemma NobodyMet(s: Server, step: Step)
    requires step.MatchStep? && !Meets(s, step)
    ensures Apply(s, step).sent == s.sent
  {
  }

  lemma MeetingIsAnswered(s: Server, step: Step)
    requires Meets(s, step)
    ensures var w := s.waiting[MatchKey(0, step.mapName)];
            exists more :: Answered(more, step, w.session, w.user, ServersIn(s, 0)) && Apply(s, step).sent == s.sent + more
  {
    hide ServersIn, Connected, AnyServer, AsksConnected, Offers;
    var w, list := s.waiting[MatchKey(0, step.mapName)], ServersIn(s, 0);
    ConnectedAre(list, step.connected);
    OffersAsk(list, step.connected, step.gameId, ForcesOf(w.user, step.user));
    var more :=
      if w.user == step.user then [Answer(w.session, IllegalRequest), Answer(step.session, IllegalRequest)]
      else if !AnyServer(list, step.connected) then [Answer(w.session, NoServer), Answer(step.session, NoServer)]
      else Offers(Connected(list, step.connected), step.gameId, ForcesOf(w.user, step.user));
    assert Answered(more, step, w.session, w.user, list);
  }

  /** Whether these messages ask every connected server of a list, once each and in its order. */
  ghost predicate AsksConnected(asked: seq<Message>, list: seq<PvPServerInfo>, connected: set<Session>, gameId: string,
      forces: seq<ForceData>)
    decreases |list|
  {
    if list == [] then asked == []
    else if list[0].session in connected then
      && asked != [] && asked[0] == CreateGame(list[0].session, gameId, forces)
      && AsksConnected(asked[1..], list[1..], connected, gameId, forces)
    else AsksConnected(asked, list[1..], connected, gameId, forces)
  }

  lemma {:induction false} OffersAsk(list: seq<PvPServerInfo>, connected: set<Session>, gameId: string, forces: seq<ForceData>)
    ensures AsksConnected(Offers(Connected(list, connected), gameId, forces), list, connected, gameId, forces)
    decreases |list|
  {
    if list != [] {
      var rest := list[1..];
      OffersAsk(rest, connected, gameId, forces);
      var cs := Connected(list, connected);
      if list[0].session in connected {
        assert cs == [list[0]] + Connected(rest, connected);
        assert Offers(cs, gameId, forces)[1..] == Offers(Connected(rest, connected), gameId, forces);
      } else {
        assert cs == [] + Connected(rest, connected) == Connected(rest, connected);
      }
    }
  }

  /** The other calls tell no user anything. */
  lemma OthersAnswerNobody(s: Server, step: Step)
    requires !step.MatchStep? && !step.ResponseStep?
    ensures Apply(s, step).sent
            == if step.RegisterStep? then s.sent + [RegisterResponse(step.info.session, 0)] else s.sent
  {
  }

  // ---------------------------------------------------------------- the battle servers

  /** A registration enters the server with what it says now, in the place of what it said before. */
  lemma RegisterEnters(steps: seq<Step>, info: PvPServerInfo, sorted: seq<PvPServerInfo>)
    requires AnyRun(steps + [RegisterStep(info, sorted)])
    ensures var s, s' := After(steps).0, After(steps + [RegisterStep(info, sorted)]).0;
            && (forall x :: x in ServersIn(s', info.region) <==> x == info || (x in ServersIn(s, info.region) && x.id != info.id))
            && (forall r | r != info.region :: ServersIn(s', r) == ServersIn(s, r))
  {
    var step := RegisterStep(info, sorted);
    OneMore(steps, step);
    var all := steps + [step];
    assert all[..|all| - 1] == steps;
    RegistryInOrder(steps);
    var s := After(steps).0;
    var list := ServersIn(s, info.region);
    assert InOrder(info.region, list);
    hide After, AnyRun;
    UpdateKeepsIdsDistinct(list, info);
    SortKeepsIdsDistinct(Updated(list, info), sorted);
    UpdatedAre(list, info);
  }

  lemma UpdatedAre(list: seq<PvPServerInfo>, info: PvPServerInfo)
    requires DistinctIds(list)
    ensures forall x :: x in Updated(list, info) <==> x == info || (x in list && x.id != info.id)
  {
    var i := Find(list, info.id);
    var updated := Updated(list, info);
    forall x ensures x in updated <==> x == info || (x in list && x.id != info.id) {
      if x in list && x.id != info.id {
        var j :| 0 <= j < |list| && list[j] == x;
        assert updated[j] == x;
      }
      if i < |list| {
        assert updated[i] == info;
      } else {
        assert updated[|list|] == info;
      }
    }
  }

  /** A registration that runs out takes the server away. */
  lemma TimeoutRemoves(steps: seq<Step>, region: int, id: IpPort)
    requires AnyRun(steps)
    ensures var s, s' := After(steps).0, Apply(After(steps).0, TimeoutStep(region, id));
            && (forall x :: x in ServersIn(s', region) <==> x in ServersIn(s, region) && x.id != id)
            && (forall r | r != region :: ServersIn(s', r) == ServersIn(s, r))
  {
    hide *;
    RegistryInOrder(steps);
    TimeoutIn(After(steps).0, region, id);
    TimeoutIs(After(steps).0, region, id);
  }

  lemma TimeoutIs(s: Server, region: int, id: IpPort)
    ensures Apply(s, TimeoutStep(region, id)) == Timeout(s, region, id)
  {
  }

  lemma TimeoutIn(s: Server, region: int, id: IpPort)
    requires AllInOrder(s)
    ensures forall x :: x in ServersIn(Timeout(s, region, id), region) <==> x in ServersIn(s, region) && x.id != id
    ensures forall r | r != region :: ServersIn(Timeout(s, region, id), r) == ServersIn(s, r)
  {
    var list := ServersIn(s, region);
    var i := Find(list, id);
    if i < |list| {
      assert InOrder(region, list);
      RemovedAre(list, i);
    } else {
      forall x | x in list ensures x.id != id {
        var j :| 0 <= j < |list| && list[j] == x;
      }
    }
  }

  lemma RemovedAre(list: seq<PvPServerInfo>, i: nat)
    requires DistinctIds(list) && i < |list|
    ensures forall x :: x in list[..i] + list[i + 1..] <==> x in list && x.id != list[i].id
  {
    var r := list[..i] + list[i + 1..];
    forall x ensures x in r <==> x in list && x.id != list[i].id {
      if x in list && x.id != list[i].id {
        var j :| 0 <= j < |list| && list[j] == x;
        assert r[if j < i then j else j - 1] == x;
      }
      if x in r {
        var j :| 0 <= j < |r| && r[j] == x;
        assert x == list[if j < i then j else j + 1];
      }
    }
  }

  /** A heart beat hands the server's entry in the first region that knows it to the session it came by, and changes nothing
      else. */
  lemma HeartBeatTakesOver(steps: seq<Step>, session: Session, id: IpPort)
    requires AnyRun(steps)
    ensures var s, s' := After(steps).0, Apply(After(steps).0, HeartBeatStep(session, id));
            && (forall r | FirstToKnow(s, r, id) :: ServersIn(s', r) == HandedOver(ServersIn(s, r), id, session))
            && (forall r | !FirstToKnow(s, r, id) :: ServersIn(s', r) == ServersIn(s, r))
  {
    RegistryInOrder(steps);
    hide After, AnyRun, FirstToKnow, ServersIn, HandedOver, HeartBeat;
    var s := After(steps).0;
    forall r ensures ServersIn(HeartBeat(s, session, id), r)
                     == if FirstToKnow(s, r, id) then HandedOver(ServersIn(s, r), id, session) else ServersIn(s, r)
    {
      HeartBeatIn(s, session, id, r);
    }
  }

  lemma HeartBeatIn(s: Server, session: Session, id: IpPort, r: int)
    requires AllInOrder(s)
    ensures ServersIn(HeartBeat(s, session, id), r)
            == if FirstToKnow(s, r, id) then HandedOver(ServersIn(s, r), id, session) else ServersIn(s, r)
  {
    hide Knows, HandedOver, RegionsOf, Find;
    FirstIsLeast(s, r, id);
    if FirstToKnow(s, r, id) {
      KnowsIs(s, r, id);
      HandedOverIs(s.servers[r], id, session);
    }
  }

  lemma FirstIsLeast(s: Server, r: int, id: IpPort)
    ensures FirstToKnow(s, r, id) <==> RegionsOf(s, id) != {} && Least(RegionsOf(s, id)) == r
  {
    hide Knows, RegionsOf;
    forall q ensures Knows(s, q, id) <==> q in RegionsOf(s, id) {
      KnowsIs(s, q, id);
    }
  }

  /** Whether this is the first region, in the map's order, that has an entry with this id. */
  ghost predicate FirstToKnow(s: Server, region: int, id: IpPort) {
    Knows(s, region, id) && forall r | r < region :: !Knows(s, r, id)
  }

  /** Whether a region has an entry with this id. */
  ghost predicate Knows(s: Server, region: int, id: IpPort) {
    exists x :: x in ServersIn(s, region) && x.id == id
  }

  lemma KnowsIs(s: Server, region: int, id: IpPort)
    ensures Knows(s, region, id) <==> region in RegionsOf(s, id)
    ensures region in RegionsOf(s, id) <==> region in s.servers && Find(s.servers[region], id) < |s.servers[region]|
  {
    if Knows(s, region, id) {
      var x :| x in ServersIn(s, region) && x.id == id;
      var j :| 0 <= j < |ServersIn(s, region)| && ServersIn(s, region)[j] == x;
    }
    if region in RegionsOf(s, id) {
      assert s.servers[region][Find(s.servers[region], id)] in ServersIn(s, region);
    }
  }

  /** Every entry with this id goes to the session. */
  function HandedOver(list: seq<PvPServerInfo>, id: IpPort, session: Session): seq<PvPServerInfo> {
    seq(|list|, i requires 0 <= i < |list| => if list[i].id == id then list[i].(session := session) else list[i])
  }

  lemma HandedOverIs(list: seq<PvPServerInfo>, id: IpPort, session: Session)
    requires DistinctIds(list) && Find(list, id) < |list|
    ensures var i := Find(list, id); list[i := list[i].(session := session)] == HandedOver(list, id, session)
  {
    var i := Find(list, id);
    forall j | 0 <= j < |list| ensures list[i := list[i].(session := session)][j] == HandedOver(list, id, session)[j] {
      assert j != i ==> list[j].id != id;
    }
  }
}
