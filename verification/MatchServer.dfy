/** AutoMatchServer: users are paired by map, games are proposed to battle servers, answers are passed on. The handlers
    are described on values and proved of the class that changes its maps (AutomatchServer.cpp). */
module MatchServer {
  type Session = nat   // a NetLib_ServerSession_ptr: only its identity matters

  datatype IpPort = IpPort(ip: string, port: int)

  datatype PvPServerInfo = PvPServerInfo(id: IpPort, session: Session, region: int, priority: int)

  datatype MatchKey = MatchKey(region: int, mapName: string)

  datatype WaitingUser = WaitingUser(session: Session, user: string)

  datatype ForceData = ForceData(user: string, forceId: nat)

  datatype GameInfo = GameInfo(server: IpPort, forces: seq<ForceData>, sessions: (Session, Session))

  datatype MatchResponse =
    | Success(gameId: string, server: IpPort, forces: seq<ForceData>)
    | IllegalRequest
    | NoServer
    | CreateFail(code: int)

  datatype Message =
    | Answer(to: Session, response: MatchResponse)
    | CreateGame(to: Session, gameId: string, forces: seq<ForceData>)
    | RegisterResponse(to: Session, value: int)

  /** The four maps, and everything sent so far. */
  datatype Server = Server(
    waiting: map<MatchKey, WaitingUser>,          // waiting_users
    keyOf: map<Session, MatchKey>,                // session2matchkey
    games: map<string, GameInfo>,
    servers: map<int, seq<PvPServerInfo>>,        // servers_by_region
    sent: seq<Message>)

  const EMPTY := Server(map[], map[], map[], map[], [])

  /** emplace: the entry is made only if the key is new. */
  function Emplace<K, V>(m: map<K, V>, k: K, v: V): map<K, V> {
    if k in m then m else m[k := v]
  }

  // ---------------------------------------------------------------- matching

  /** The servers of a list that are connected, in its order. */
  function Connected(list: seq<PvPServerInfo>, connected: set<Session>): seq<PvPServerInfo> {
    if list == [] then [] else
      (if list[0].session in connected then [list[0]] else []) + Connected(list[1..], connected)
  }

  function Offers(servers: seq<PvPServerInfo>, gameId: string, forces: seq<ForceData>): (r: seq<Message>)
    ensures |r| == |servers|
  {
    seq(|servers|, i requires 0 <= i < |servers| => CreateGame(servers[i].session, gameId, forces))
  }

  function ServersIn(s: Server, region: int): seq<PvPServerInfo> {
    if region in s.servers then s.servers[region] else []
  }

  function ForcesOf(first: string, second: string): seq<ForceData> {
    [ForceData(first, 1), ForceData(second, 2)]
  }

  function AnswerBoth(s: Server, a: Session, b: Session, r: MatchResponse): Server {
    s.(sent := s.sent + [Answer(a, r), Answer(b, r)])
  }

  /** MatchRequest, with the id the clock gave and the sessions that were connected at that moment. */
  function Match(s: Server, session: Session, user: string, mapName: string, gameId: string, connected: set<Session>): Server {
    var key := MatchKey(0, mapName);
    if key !in s.waiting then
      s.(waiting := s.waiting[key := WaitingUser(session, user)], keyOf := Emplace(s.keyOf, session, key))
    else
      var opponent := s.waiting[key];
      var s' := if opponent.user == user then AnswerBoth(s, opponent.session, session, IllegalRequest)
                else Propose(s, opponent, WaitingUser(session, user), Connected(ServersIn(s, 0), connected), gameId);
      s'.(keyOf := s'.keyOf - {opponent.session}, waiting := s'.waiting - {key})
  }

  /** Every connected server is asked to create the game; the first one is recorded. */
  function Propose(s: Server, opponent: WaitingUser, user: WaitingUser, servers: seq<PvPServerInfo>, gameId: string): Server {
    if servers == [] then AnswerBoth(s, opponent.session, user.session, NoServer) else
      var forces := ForcesOf(opponent.user, user.user);
      s.(games := Emplace(s.games, gameId, GameInfo(servers[0].id, forces, (opponent.session, user.session))),
      sent := s.sent + Offers(servers, gameId, forces))
  }

  function Cancel(s: Server, session: Session): Server {
    if session in s.keyOf then s.(waiting := s.waiting - {s.keyOf[session]}) else s
  }

  function GameResponse(s: Server, gameId: string, value: int): Server {
    if gameId !in s.games then s else
      var game := s.games[gameId];
      var r := if value == 0 then Success(gameId, game.server, game.forces) else CreateFail(value);
      AnswerBoth(s, game.sessions.0, game.sessions.1, r).(games := s.games - {gameId})
  }

  // ---------------------------------------------------------------- battle servers

  /** The first entry with an id, or the length of the list. */
  function Find(list: seq<PvPServerInfo>, id: IpPort): (i: nat)
    ensures i <= |list| && (i < |list| ==> list[i].id == id)
    ensures forall j | 0 <= j < i :: list[j].id != id
  {
    if list == [] || list[0].id == id then 0 else 1 + Find(list[1..], id)
  }

  function Updated(list: seq<PvPServerInfo>, info: PvPServerInfo): seq<PvPServerInfo> {
    var i := Find(list, info.id);
    if i < |list| then list[i := info] else list + [info]
  }

  predicate Sorted(list: seq<PvPServerInfo>) {
    forall i, j | 0 <= i < j < |list| :: list[i].priority <= list[j].priority
  }

  /** What std::sort may make of a list: equal priorities come in any order. */
  predicate SortOf(list: seq<PvPServerInfo>, sorted: seq<PvPServerInfo>) {
    Sorted(sorted) && multiset(sorted) == multiset(list)
  }

  /** ServerRegister, with the order std::sort left the region's list in. */
  function Register(s: Server, info: PvPServerInfo, sorted: seq<PvPServerInfo>): Server {
    s.(servers := s.servers[info.region := sorted], sent := s.sent + [RegisterResponse(info.session, 0)])
  }

  /** The timer of a registration runs out. */
  function Timeout(s: Server, region: int, id: IpPort): Server {
    var list := ServersIn(s, region);
    var i := Find(list, id);
    if i == |list| then s else s.(servers := s.servers[region := list[..i] + list[i + 1..]])
  }

  ghost function RegionsOf(s: Server, id: IpPort): set<int> {
    set r | r in s.servers && Find(s.servers[r], id) < |s.servers[r]|
  }

  predicate IsLeast(rs: set<int>, least: int) {
    least in rs && forall r | r in rs :: least <= r
  }

  lemma NotEmpty(rs: set<int>)
    requires rs != {}
    ensures exists r :: r in rs
  {
    assert (forall r :: r !in rs) ==> rs == {};
  }

  lemma {:induction false} HasLeast(rs: set<int>)
    requires rs != {}
    ensures exists least :: IsLeast(rs, least)
  {
    NotEmpty(rs);
    var r :| r in rs;
    var rest, least := rs - {r}, r;
    if rest != {} {
      HasLeast(rest);
      var below :| IsLeast(rest, below);
      least := if r < below then r else below;
    }
    forall r' | r' in rs ensures least <= r' {
      assert r' == r || r' in rest;
    }
    assert IsLeast(rs, least);
  }

  ghost function Least(rs: set<int>): (r: int)
    requires rs != {}
    ensures IsLeast(rs, r)
  {
    HasLeast(rs);
    var r :| IsLeast(rs, r);
    r
  }

  /** ServerHeartBeat: the first region that has the id, in the map's order, takes the session over. */
  ghost function HeartBeat(s: Server, session: Session, id: IpPort): Server {
    if RegionsOf(s, id) == {} then s else Refresh(s, Least(RegionsOf(s, id)), session, id)
  }

  function Refresh(s: Server, region: int, session: Session, id: IpPort): Server
    requires region in s.servers && Find(s.servers[region], id) < |s.servers[region]|
  {
    var list := s.servers[region];
    var i := Find(list, id);
    s.(servers := s.servers[region := list[i := list[i].(session := session)]])
  }

  // ---------------------------------------------------------------- the object

  class AutoMatchServer {
    var waitingUsers: map<MatchKey, WaitingUser>
    var session2matchkey: map<Session, MatchKey>
    var games: map<string, GameInfo>
    var serversByRegion: map<int, seq<PvPServerInfo>>
    var sent: seq<Message>

    constructor ()
      ensures Now() == EMPTY
    {
      waitingUsers, session2matchkey, games, serversByRegion, sent := map[], map[], map[], map[], [];
    }

    ghost function Now(): Server
      reads this
    {
      Server(waitingUsers, session2matchkey, games, serversByRegion, sent)
    }

    method ReplyMsg(m: Message)
      modifies this`sent
      ensures sent == old(sent) + [m]
    {
      sent := sent + [m];
    }

    method MatchRequest(session: Session, user: string, mapName: string, gameId: string, connected: set<Session>)
      modifies this
      ensures Now() == Match(old(Now()), session, user, mapName, gameId, connected)
    {
      var key := MatchKey(0, mapName);
      if key !in waitingUsers {
        waitingUsers := waitingUsers[key := WaitingUser(session, user)];
        if session !in session2matchkey {
          session2matchkey := session2matchkey[session := key];
        }
        return;
      }
      var opponent := waitingUsers[key];
      if opponent.user == user {
        ReplyMsg(Answer(opponent.session, IllegalRequest));
        ReplyMsg(Answer(session, IllegalRequest));
      } else {
        var found := FindServer(key.region, opponent, WaitingUser(session, user), gameId, connected);
        if !found {
          ReplyMsg(Answer(opponent.session, NoServer));
          ReplyMsg(Answer(session, NoServer));
        }
      }
      session2matchkey := session2matchkey - {opponent.session};
      waitingUsers := waitingUsers - {key};
    }

    /** The loop over a region's servers, which goes on after it has found one. */
    method FindServer(region: int, opponent: WaitingUser, user: WaitingUser, gameId: string, connected: set<Session>)
      returns (found: bool)
      modifies this`games, this`sent
      ensures var servers := Connected(ServersIn(old(Now()), region), connected);
              && (found <==> servers != [])
              && (found ==> Now() == Propose(old(Now()), opponent, user, servers, gameId))
              && (!found ==> Now() == old(Now()))
    {
      found := false;
      if region in serversByRegion {
        var list := serversByRegion[region];
        var forces := ForcesOf(opponent.user, user.user);
        ghost var before := Now();
        for i := 0 to |list|
          invariant Now() == before.(games := games, sent := sent)
          invariant var done := Connected(list[..i], connected);
                    && (found <==> done != [])
                    && (found ==> Now() == Propose(before, opponent, user, done, gameId))
                    && (!found ==> Now() == before)
        {
          ConnectedOneMore(list, connected, i);
          if list[i].session in connected {
            var game := GameInfo(list[i].id, forces, (opponent.session, user.session));
            if gameId !in games {
              games := games[gameId := game];
            }
            ReplyMsg(CreateGame(list[i].session, gameId, forces));
            found := true;
          }
        }
        assert list[..|list|] == list;
      }
    }

    method MatchCancel(session: Session)
      modifies this`waitingUsers
      ensures Now() == Cancel(old(Now()), session)
    {
      if session in session2matchkey {
        waitingUsers := waitingUsers - {session2matchkey[session]};
      }
    }

    method CreateGameResponseGot(gameId: string, value: int)
      modifies this`games, this`sent
      ensures Now() == GameResponse(old(Now()), gameId, value)
    {
      if gameId in games {
        var game := games[gameId];
        var response := if value == 0 then Success(gameId, game.server, game.forces) else CreateFail(value);
        ReplyMsg(Answer(game.sessions.0, response));
        ReplyMsg(Answer(game.sessions.1, response));
        games := games - {gameId};
      }
    }

    method ServerRegister(session: Session, id: IpPort, region: int, priority: int)
      modifies this`serversByRegion, this`sent
      ensures var info := PvPServerInfo(id, session, region, priority);
              && region in serversByRegion
              && SortOf(Updated(ServersIn(old(Now()), region), info), serversByRegion[region])
              && Now() == Register(old(Now()), info, serversByRegion[region])
    {
      var info := PvPServerInfo(id, session, region, priority);
      var list := if region in serversByRegion then serversByRegion[region] else [];
      ghost var before := list;
      var duplicate := false;
      var i := 0;
      while i < |list| && !duplicate
        invariant serversByRegion == old(serversByRegion) && sent == old(sent) && i <= |list|
        invariant if duplicate then Find(before, id) < |before| && list == Updated(before, info)
                  else list == before && forall j | 0 <= j < i :: list[j].id != id
        decreases |list| - i, !duplicate
      {
        if list[i].id == id {
          FindIs(list, id, i);
          list := list[i := info];
          duplicate := true;
        } else {
          i := i + 1;
        }
      }
      if !duplicate {
        FindIs(list, id, |list|);
        list := list + [info];
      }
      assert list == Updated(before, info);
      list := StdSort(list);
      serversByRegion := serversByRegion[region := list];
      ReplyMsg(RegisterResponse(session, 0));
    }

    method ServerTimeout(region: int, id: IpPort)
      modifies this`serversByRegion
      ensures Now() == Timeout(old(Now()), region, id)
    {
      if region in serversByRegion {
        var list := serversByRegion[region];
        for i := 0 to |list|
          invariant serversByRegion == old(serversByRegion)
          invariant forall j | 0 <= j < i :: list[j].id != id
        {
          if list[i].id == id {
            FindIs(list, id, i);
            serversByRegion := serversByRegion[region := list[..i] + list[i + 1..]];
            return;
          }
        }
        FindIs(list, id, |list|);
      }
    }

    method ServerHeartBeat(session: Session, id: IpPort)
      modifies this`serversByRegion
      ensures Now() == HeartBeat(old(Now()), session, id)
    {
      var rest := serversByRegion.Keys;
      while rest != {}
        invariant serversByRegion == old(serversByRegion) && rest <= serversByRegion.Keys
        invariant forall r | r in serversByRegion && r !in rest :: Find(serversByRegion[r], id) == |serversByRegion[r]|
        invariant forall r, r' | r in serversByRegion && r !in rest && r' in rest :: r <= r'
      {
        HasLeast(rest);
        var region :| region in rest && IsLeast(rest, region);
        var list := serversByRegion[region];
        for i := 0 to |list|
          invariant serversByRegion == old(serversByRegion)
          invariant forall j | 0 <= j < i :: list[j].id != id
        {
          if list[i].id == id {
            FindIs(list, id, i);
            assert region in RegionsOf(Now(), id);
            serversByRegion := serversByRegion[region := list[i := list[i].(session := session)]];
            return;
          }
        }
        FindIs(list, id, |list|);
        rest := rest - {region};
      }
    }
  }

  lemma {:induction false} ConnectedOneMore(list: seq<PvPServerInfo>, connected: set<Session>, i: nat)
    requires i < |list|
    ensures Connected(list[..i + 1], connected)
            == Connected(list[..i], connected) + (if list[i].session in connected then [list[i]] else [])
    decreases i
  {
    if i > 0 {
      ConnectedOneMore(list[1..], connected, i - 1);
      assert list[..i + 1][1..] == list[1..][..i] && list[..i][1..] == list[1..][..i - 1];
    }
  }

  lemma FindIs(list: seq<PvPServerInfo>, id: IpPort, i: nat)
    requires i <= |list| && (i < |list| ==> list[i].id == id)
    requires forall j | 0 <= j < i :: list[j].id != id
    ensures Find(list, id) == i
  {
  }

  lemma InsertSorts(below: seq<PvPServerInfo>, info: PvPServerInfo, above: seq<PvPServerInfo>)
    requires Sorted(below + above)
    requires below != [] ==> below[|below| - 1].priority <= info.priority
    requires above != [] ==> info.priority <= above[0].priority
    ensures Sorted(below + [info] + above)
  {
    var r, n := below + [info] + above, |below|;
    forall a, b | 0 <= a < b < |r| ensures r[a].priority <= r[b].priority {
      var a' := if a > n then a - 1 else a;
      var b' := if b > n then b - 1 else b;
      assert a != n ==> r[a] == (below + above)[a'];
      assert b != n ==> r[b] == (below + above)[b'];
      assert b == n ==> below[n - 1] == (below + above)[n - 1];
      assert a == n ==> above[0] == (below + above)[n];
    }
  }

  lemma InsertPermutes(below: seq<PvPServerInfo>, info: PvPServerInfo, above: seq<PvPServerInfo>)
    ensures multiset(below + [info] + above) == multiset(below + above + [info])
  {
  }

  /** Puts one more entry behind those that are not greater. */
  method Insert(sorted: seq<PvPServerInfo>, info: PvPServerInfo) returns (r: seq<PvPServerInfo>)
    requires Sorted(sorted)
    ensures SortOf(sorted + [info], r)
  {
    hide Sorted;
    var j := |sorted|;
    while j > 0 && sorted[j - 1].priority > info.priority
      invariant 0 <= j <= |sorted|
      invariant j < |sorted| ==> sorted[j].priority > info.priority
    {
      j := j - 1;
    }
    var below, above := sorted[..j], sorted[j..];
    assert below + above == sorted;
    InsertSorts(below, info, above);
    InsertPermutes(below, info, above);
    r := below + [info] + above;
  }

  /** std::sort, of which only SortOf is promised. */
  method StdSort(list: seq<PvPServerInfo>) returns (sorted: seq<PvPServerInfo>)
    ensures SortOf(list, sorted)
  {
    hide Sorted;
    sorted := [];
    assert Sorted([]) by { NothingIsSorted(); }
    for i := 0 to |list|
      invariant SortOf(list[..i], sorted)
    {
      sorted := Insert(sorted, list[i]);
      assert list[..i + 1] == list[..i] + [list[i]];
    }
    assert list[..|list|] == list;
  }

  lemma NothingIsSorted()
    ensures Sorted([])
  {
  }
}
