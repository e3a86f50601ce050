/** The battle servers the matchmaker knows, over every run: distinct ids, in order of priority, so that a game is
    recorded with a connected server no other connected server comes before (AutomatchServer.cpp). */
module MatchRegistry {
  import opened MatchServer
  import opened MatchSafety

  predicate DistinctIds(list: seq<PvPServerInfo>) {
    forall i, j | 0 <= i < j < |list| :: list[i].id != list[j].id
  }

  predicate InOrder(region: int, list: seq<PvPServerInfo>) {
    Sorted(list) && DistinctIds(list) && forall i | 0 <= i < |list| :: list[i].region == region
  }

  predicate AllInOrder(s: Server) {
    forall r | r in s.servers :: InOrder(r, s.servers[r])
  }

  /** What the sort is promised to leave, and nothing else, is asked of the surroundings here. */
  predicate Sortable(s: Server, step: Step) {
    step.RegisterStep? ==> SortOf(Updated(ServersIn(s, step.info.region), step.info), step.sorted)
  }

  ghost predicate AnyRun(steps: seq<Step>) {
    steps == [] || (
      && AnyRun(steps[..|steps| - 1])
      && Sortable(After(steps[..|steps| - 1]).0, steps[|steps| - 1]))
  }

  // ---------------------------------------------------------------- a sort keeps ids distinct

  lemma Split(list: seq<PvPServerInfo>, i: nat)
    requires i < |list|
    ensures list == list[..i] + [list[i]] + list[i + 1..]
    ensures multiset(list) == multiset(list[..i]) + multiset{list[i]} + multiset(list[i + 1..])
  {
    assert list == list[..i] + [list[i]] + list[i + 1..];
  }

  lemma {:induction false} OnlyOnce(list: seq<PvPServerInfo>, x: PvPServerInfo)
    requires DistinctIds(list)
    ensures multiset(list)[x] <= 1
  {
    if list != [] {
      assert list == [list[0]] + list[1..];
      OnlyOnce(list[1..], x);
      if list[0] == x {
        assert forall j | 0 <= j < |list[1..]| :: list[1..][j] == list[j + 1];
        assert x !in list[1..];
      }
    }
  }

  lemma Twice(list: seq<PvPServerInfo>, i: nat, j: nat)
    requires i < j < |list| && list[i] == list[j]
    ensures multiset(list)[list[i]] >= 2
  {
    Split(list, i);
    assert list[i + 1..][j - i - 1] == list[j];
  }

  lemma SortKeepsIdsDistinct(list: seq<PvPServerInfo>, sorted: seq<PvPServerInfo>)
    requires DistinctIds(list) && SortOf(list, sorted)
    ensures DistinctIds(sorted)
    ensures forall x :: x in sorted <==> x in list
  {
    forall x ensures x in sorted <==> x in list {
      assert x in multiset(sorted) <==> x in multiset(list);
    }
    forall i, j | 0 <= i < j < |sorted| ensures sorted[i].id != sorted[j].id {
      if sorted[i] == sorted[j] {
        Twice(sorted, i, j);
        OnlyOnce(list, sorted[i]);
      } else {
        assert sorted[i] in list && sorted[j] in list;
      }
    }
  }

  lemma UpdateKeepsIdsDistinct(list: seq<PvPServerInfo>, info: PvPServerInfo)
    requires DistinctIds(list)
    ensures DistinctIds(Updated(list, info))
    ensures forall x | x in Updated(list, info) :: x == info || x in list
  {
  }

  // ---------------------------------------------------------------- every step keeps the lists in order

  lemma RegisterInOrder(s: Server, info: PvPServerInfo, sorted: seq<PvPServerInfo>)
    requires AllInOrder(s) && SortOf(Updated(ServersIn(s, info.region), info), sorted)
    ensures AllInOrder(Register(s, info, sorted))
  {
    var list := ServersIn(s, info.region);
    assert InOrder(info.region, list);
    hide Updated;
    UpdateKeepsIdsDistinct(list, info);
    SortKeepsIdsDistinct(Updated(list, info), sorted);
    forall i | 0 <= i < |sorted| ensures sorted[i].region == info.region {
      assert sorted[i] in Updated(list, info);
    }
  }

  lemma RemoveInOrder(region: int, list: seq<PvPServerInfo>, i: nat)
    requires InOrder(region, list) && i < |list|
    ensures InOrder(region, list[..i] + list[i + 1..])
  {
    var r := list[..i] + list[i + 1..];
    assert forall j | 0 <= j < |r| :: r[j] == list[if j < i then j else j + 1];
  }

  lemma StepInOrder(s: Server, step: Step)
    requires AllInOrder(s) && Sortable(s, step)
    ensures AllInOrder(Apply(s, step))
  {
    match step
    case RegisterStep(info, sorted) => RegisterInOrder(s, info, sorted);
    case TimeoutStep(region, id) => TimeoutInOrder(s, region, id);
    case HeartBeatStep(session, id) => HeartBeatInOrder(s, session, id);
    case _ => assert Apply(s, step).servers == s.servers;
  }

  lemma TimeoutInOrder(s: Server, region: int, id: IpPort)
    requires AllInOrder(s)
    ensures AllInOrder(Timeout(s, region, id))
  {
    hide InOrder;
    var list := ServersIn(s, region);
    if Find(list, id) < |list| {
      RemoveInOrder(region, list, Find(list, id));
    }
  }

  lemma HeartBeatInOrder(s: Server, session: Session, id: IpPort)
    requires AllInOrder(s)
    ensures AllInOrder(HeartBeat(s, session, id))
  {
    var rs := RegionsOf(s, id);
    if rs != {} {
      assert InOrder(Least(rs), s.servers[Least(rs)]);
    }
  }

  lemma {:induction false} RegistryInOrder(steps: seq<Step>)
    requires AnyRun(steps)
    ensures AllInOrder(After(steps).0)
  {
    hide Apply, AllInOrder, Sortable;
    if steps == [] {
      NothingInOrder();
    } else {
      var init := steps[..|steps| - 1];
      RegistryInOrder(init);
      StepInOrder(After(init).0, steps[|steps| - 1]);
    }
  }

  lemma NothingInOrder()
    ensures AllInOrder(EMPTY)
  {
  }

  // ---------------------------------------------------------------- the server a game is recorded with

  lemma {:induction false} FirstConnected(list: seq<PvPServerInfo>, connected: set<Session>)
    requires Sorted(list)
    ensures var cs := Connected(list, connected);
            && (cs == [] <==> forall i | 0 <= i < |list| :: list[i].session !in connected)
            && (cs != [] ==> cs[0] in list && cs[0].session in connected)
            && (cs != [] ==> forall i | 0 <= i < |list| && list[i].session in connected :: cs[0].priority <= list[i].priority)
  {
    if list != [] {
      var rest := list[1..];
      FirstConnected(rest, connected);
      assert list == [list[0]] + rest;
      assert forall i | 0 < i < |list| :: list[i] == rest[i - 1];
      if list[0].session in connected {
        assert Connected(list, connected) == [list[0]] + Connected(rest, connected);
      } else {
        assert Connected(list, connected) == Connected(rest, connected);
      }
    }
  }

  /** After any run, a request that finds an opponent of another name records a game exactly when some server of the
      region is connected and the id is new, and then with a connected server of the least priority value there. */
  lemma BestServer(steps: seq<Step>, step: Step)
    requires AnyRun(steps) && step.MatchStep?
    requires var s := After(steps).0; var key := MatchKey(0, step.mapName);
             key in s.waiting && s.waiting[key].user != step.user && step.gameId !in s.games
    ensures var s, s', list := After(steps).0, Apply(After(steps).0, step), ServersIn(After(steps).0, 0);
            && (step.gameId in s'.games <==> exists i :: 0 <= i < |list| && list[i].session in step.connected)
            && (step.gameId in s'.games ==>
                  exists best ::
                    && best in list && best.session in step.connected
                    && s'.games[step.gameId].server == best.id
                    && forall i | 0 <= i < |list| && list[i].session in step.connected :: best.priority <= list[i].priority)
  {
    RegistryInOrder(steps);
    var s := After(steps).0;
    var list := ServersIn(s, 0);
    assert Sorted(list);
    FirstConnected(list, step.connected);
    var cs := Connected(list, step.connected);
    hide After, AnyRun, Connected;
    if cs != [] {
      var best := cs[0];
      assert Apply(s, step).games[step.gameId].server == best.id;
    }
  }
}
