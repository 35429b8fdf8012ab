/** The signalling server as a transition system (server/server.py,
    server/peer_manager.py, server/admin_routes.py): users, calls and their rooms. */
module Signalling {
  import opened Wrappers
  import opened Users
  import Rooms

  // ----- the invariant on users -----

  ghost predicate StatesFit(users: Store) {
    forall u | u in users ::
      && users[u].state != AwaitingConnection
      && (users[u].state == Idle <==> users[u].peer == None)
      && users[u].peer != Some(u)
  }

  ghost predicate PeersMutual(users: Store) {
    forall u, v | u in users && v in users :: users[u].peer == Some(v) ==> users[v].peer == Some(u)
  }

  ghost predicate PeersDistinct(users: Store) {
    forall u, w | u in users && w in users :: users[u].peer.Some? && users[u].peer == users[w].peer ==> u == w
  }

  /** A user is idle exactly when it has no peer, nobody is its own peer, a registered
      peer points back, and no two users share a peer. */
  ghost predicate Matching(users: Store) {
    StatesFit(users) && PeersMutual(users) && PeersDistinct(users)
  }

  /** Every peer is registered. */
  ghost predicate Closed(users: Store) {
    forall u | u in users && users[u].peer.Some? :: users[u].peer.value in users
  }

  ghost predicate Referenced(users: Store, id: UserId) {
    exists u :: u in users && users[u].peer == Some(id)
  }

  /** Nobody but the two themselves has either of them as a peer. */
  ghost predicate NoThirdParty(users: Store, user: UserId, peer: UserId) {
    forall w | w in users && w != user && w != peer :: users[w].peer != Some(user) && users[w].peer != Some(peer)
  }

  // ----- single steps -----

  /** A new user keeps the matching exactly if no stale reference to its id is left. */
  lemma AddKeepsMatchingIff(users: Store, id: UserId, endpoint: string)
    requires Matching(users) && id !in users
    ensures Matching(WithUser(users, id, endpoint).value) <==> !Referenced(users, id)
  {
  }

  /** The commit of `connect`, on its own, keeps the matching exactly if the caller has
      gone or no third user holds either side. */
  lemma CommitKeepsMatchingIff(users: Store, user: UserId, peer: UserId)
    requires Matching(users) && user != peer
    ensures Matching(CommitConnect(users, user, peer).0) <==> user !in users || NoThirdParty(users, user, peer)
  {
    var users' := CommitConnect(users, user, peer).0;
    if user in users {
      if NoThirdParty(users, user, peer) {
        CommitKeepsMatching(users, user, peer);
      } else {
        var w :| w in users && w != user && w != peer && (users[w].peer == Some(user) || users[w].peer == Some(peer));
        assert users'[w].peer == users[w].peer && users'[user].peer == Some(peer);
      }
    }
  }

  lemma CommitKeepsMatching(users: Store, user: UserId, peer: UserId)
    requires Matching(users) && user != peer && user in users && NoThirdParty(users, user, peer)
    ensures Matching(CommitConnect(users, user, peer).0)
  {
    var users' := CommitConnect(users, user, peer).0;
    forall w | w in users && w != user && w != peer
      ensures users'[w] == users[w] && users[w].peer != Some(user) && users[w].peer != Some(peer)
    {
    }
    assert users'[user].peer == Some(peer);
    assert peer in users ==> users'[peer].peer == Some(user);
    assert StatesFit(users');
    assert PeersMutual(users');
    assert PeersDistinct(users');
  }

  /** As one atomic step `connect` is safe: its own check excludes third parties. */
  lemma ConnectKeepsMatching(users: Store, user: UserId, peer: UserId, reply: Reply)
    requires Matching(users)
    ensures Matching(ConnectPeers(users, user, peer, reply).0)
    ensures Closed(users) ==> Closed(ConnectPeers(users, user, peer, reply).0)
    ensures ConnectPeers(users, user, peer, reply).1 == None ==>
              var users' := ConnectPeers(users, user, peer, reply).0;
              && user in users' && peer in users' && user != peer
              && users'[user].peer == Some(peer) && users'[peer].peer == Some(user)
              && users'.Keys == users.Keys
              && (forall w | w in users && w != user && w != peer :: users'[w] == users[w])
    ensures ConnectPeers(users, user, peer, reply).1 != None ==> ConnectPeers(users, user, peer, reply).0 == users
  {
    if CheckConnect(users, user, peer) == None {
      CommitKeepsMatchingIff(users, user, peer);
    }
  }

  /** `disconnect` frees exactly the caller and its peer. */
  lemma DisconnectFrees(users: Store, user: UserId)
    requires Matching(users)
    ensures var users' := DisconnectPeers(users, user).0;
            && users'.Keys == users.Keys
            && (user in users ==> users'[user].peer == None)
            && (forall w | w in users ::
                  users'[w] == if user in users && users[user].peer.Some? && (w == user || Some(w) == users[user].peer)
                               then users[w].(state := Idle, peer := None) else users[w])
  {
  }

  lemma DisconnectKeepsMatching(users: Store, user: UserId)
    requires Matching(users)
    ensures Matching(DisconnectPeers(users, user).0)
    ensures Closed(users) ==> Closed(DisconnectPeers(users, user).0)
  {
    var users' := DisconnectPeers(users, user).0;
    DisconnectFrees(users, user);
    assert StatesFit(users');
    assert PeersDistinct(users');
    if user in users && users[user].peer.Some? {
      forall w | w in users && w != user && Some(w) != users[user].peer
        ensures users[w].peer != Some(user) && users[w].peer != users[user].peer
      {
      }
    }
    assert PeersMutual(users');
  }

  lemma RemoveKeepsMatching(users: Store, id: UserId)
    requires Matching(users)
    ensures Matching(Without(users, id))
    ensures Closed(users) && !Referenced(users, id) ==> Closed(Without(users, id))
  {
  }

  /** Removing a user leaves its peer dangling exactly if the user was in a call. */
  lemma RemoveKeepsClosedIff(users: Store, id: UserId)
    requires Matching(users) && Closed(users) && id in users
    ensures Closed(Without(users, id)) <==> users[id].peer == None
  {
    var users' := Without(users, id);
    if users[id].peer.Some? {
      var v := users[id].peer.value;
      assert v in users && users[v].peer == Some(id) && v in users' && users'[v].peer == Some(id);
    }
  }

  lemma AdminRemoveKeeps(users: Store, id: UserId)
    requires Matching(users)
    ensures Matching(AdminRemove(users, id)) && id !in AdminRemove(users, id)
    ensures Closed(users) ==> Closed(AdminRemove(users, id))
  {
    DisconnectKeepsMatching(users, id);
    RemoveKeepsMatching(DisconnectPeers(users, id).0, id);
  }

  // ----- what every step does and raises -----

  /** `connect` on the users alone: its errors in their order, no change with an error, and
      otherwise the two users connected to each other. */
  ghost predicate ConnectsBy(users: Store, user: UserId, peer: UserId, reply: Reply, after: Store, error: Option<ServerError>) {
    && error ==
         (if user == peer || user !in users || peer !in users then Some(BadRequest)
          else if users[user].state != Idle || users[peer].state != Idle then Some(InvalidState)
          else if reply != Accepted then Some(BadGateway)
          else None)
    && (error.Some? ==> after == users)
    && (error == None ==>
          && after.Keys == users.Keys
          && after[user] == User(users[user].apiEndpoint, Connected, Some(peer))
          && after[peer] == User(users[peer].apiEndpoint, Connected, Some(user))
          && forall w :: w in users && w != user && w != peer ==> after[w] == users[w])
  }

  lemma ConnectLaw(users: Store, user: UserId, peer: UserId, reply: Reply)
    ensures var (after, error) := ConnectPeers(users, user, peer, reply);
            ConnectsBy(users, user, peer, reply, after, error)
  {
  }

  /** The commit alone: a caller that has gone stops it; a peer that has gone stops it after
      the caller was connected. */
  ghost predicate CommitsBy(users: Store, user: UserId, peer: UserId, after: Store, error: Option<ServerError>) {
    && error == (if user in users && peer in users then None else Some(UserNotFound))
    && after.Keys == users.Keys
    && forall w :: w in users ==>
         after[w] == if w == peer && user in users then User(users[w].apiEndpoint, Connected, Some(user))
                     else if w == user then User(users[w].apiEndpoint, Connected, Some(peer))
                     else users[w]
  }

  lemma CommitLaw(users: Store, user: UserId, peer: UserId)
    ensures var (after, error) := CommitConnect(users, user, peer);
            CommitsBy(users, user, peer, after, error)
  {
  }

  /** `disconnect`: the user and its peer become idle. */
  ghost predicate DisconnectsBy(users: Store, user: UserId, after: Store, error: Option<ServerError>) {
    && after.Keys == users.Keys
    && error ==
         (if user !in users then Some(BadRequest)
          else if users[user].peer.Some? && users[user].peer.value !in users then Some(UserNotFound)
          else None)
    && forall w :: w in users ==>
         after[w] == if user in users && users[user].peer.Some? && (w == user || users[user].peer == Some(w))
                     then User(users[w].apiEndpoint, Idle, None) else users[w]
  }

  lemma DisconnectLaw(users: Store, user: UserId)
    ensures var (after, error) := DisconnectPeers(users, user);
            DisconnectsBy(users, user, after, error)
  {
  }

  /** `/admin/remove`: the user is gone, and its peer is idle. */
  ghost predicate RemovesBy(users: Store, id: UserId, after: Store) {
    && after.Keys == users.Keys - {id}
    && forall w :: w in after ==>
         after[w] == if id in users && users[id].peer == Some(w) then User(users[w].apiEndpoint, Idle, None) else users[w]
  }

  lemma AdminRemoveLaw(users: Store, id: UserId)
    ensures RemovesBy(users, id, AdminRemove(users, id))
  {
    DisconnectLaw(users, id);
  }

  // ----- runs -----

  datatype Step =
    | Add(id: UserId, endpoint: string)
    | Connect(user: UserId, peer: UserId, reply: Reply)
    | Disconnect(user: UserId)
    | Remove(id: UserId)
    | Purge(id: UserId)

  function Apply(users: Store, step: Step): Store {
    match step
    case Add(id, endpoint) => (match WithUser(users, id, endpoint) case Ok(users') => users' case Err(_) => users)
    case Connect(user, peer, reply) => ConnectPeers(users, user, peer, reply).0
    case Disconnect(user) => DisconnectPeers(users, user).0
    case Remove(id) => Without(users, id)
    case Purge(id) => AdminRemove(users, id)
  }

  /** What the steps of a run do. */
  lemma StepLaw(users: Store, step: Step)
    ensures var after := Apply(users, step);
            match step
            case Add(id, endpoint) => after == if id in users then users else users[id := User(endpoint, Idle, None)]
            case Connect(user, peer, reply) => ConnectsBy(users, user, peer, reply, after, ConnectPeers(users, user, peer, reply).1)
            case Disconnect(user) => DisconnectsBy(users, user, after, DisconnectPeers(users, user).1)
            case Remove(id) => after == users - {id}
            case Purge(id) => RemovesBy(users, id, after)
  {
    match step {
      case Add(_, _) =>
      case Connect(user, peer, reply) =>
        ConnectLaw(users, user, peer, reply);
      case Disconnect(user) =>
        DisconnectLaw(users, user);
      case Remove(_) =>
      case Purge(id) => AdminRemoveLaw(users, id);
    }
  }

  function Run(steps: seq<Step>): Store {
    if |steps| == 0 then map[] else Apply(Run(steps[..|steps| - 1]), steps[|steps| - 1])
  }

  /** No id is given out while some user still has it as a peer. */
  ghost predicate NoStaleIds(steps: seq<Step>) {
    forall k | 0 <= k < |steps| && steps[k].Add? :: !Referenced(Run(steps[..k]), steps[k].id)
  }

  /** Users leave only by way of `/admin/remove`. */
  predicate NoBareRemoval(steps: seq<Step>) {
    forall k | 0 <= k < |steps| :: !steps[k].Remove?
  }

  /** Every run keeps the matching, as long as ids in use as peers are not given out. */
  lemma {:induction false} RunsKeepMatching(steps: seq<Step>)
    requires NoStaleIds(steps)
    ensures Matching(Run(steps))
  {
    if |steps| > 0 {
      var k := |steps| - 1;
      var users := Run(steps[..k]);
      assert forall j :: 0 <= j < k ==> steps[..k][..j] == steps[..j];
      RunsKeepMatching(steps[..k]);
      match steps[k] {
        case Add(id, endpoint) =>
          if id !in users { AddKeepsMatchingIff(users, id, endpoint); }
        case Connect(user, peer, reply) => ConnectKeepsMatching(users, user, peer, reply);
        case Disconnect(user) => DisconnectKeepsMatching(users, user);
        case Remove(id) => RemoveKeepsMatching(users, id);
        case Purge(id) => AdminRemoveKeeps(users, id);
      }
    }
  }

  /** Without bare removals no reference ever goes stale, so nothing need be assumed
      about ids: every run is a matching in which every peer is registered. */
  lemma {:induction false} CleanRunsAreClosed(steps: seq<Step>)
    requires NoBareRemoval(steps)
    ensures Matching(Run(steps)) && Closed(Run(steps))
  {
    if |steps| > 0 {
      var k := |steps| - 1;
      var users := Run(steps[..k]);
      CleanRunsAreClosed(steps[..k]);
      match steps[k] {
        case Add(id, endpoint) =>
          if id !in users { AddKeepsMatchingIff(users, id, endpoint); }
        case Connect(user, peer, reply) => ConnectKeepsMatching(users, user, peer, reply);
        case Disconnect(user) => DisconnectKeepsMatching(users, user);
        case Purge(id) => AdminRemoveKeeps(users, id);
      }
    }
  }

  // ----- runs in which check and commit of `connect` come apart -----

  datatype SplitStep =
    | Plain(step: Step)
    | Check(user: UserId, peer: UserId)
    | Commit(user: UserId, peer: UserId)

  /** The users, and the connections that have passed the checks and wait for the peer's
      client to answer. */
  datatype SplitState = SplitState(users: Store, pending: multiset<(UserId, UserId)>)

  function SplitApply(st: SplitState, step: SplitStep): SplitState {
    match step
    case Plain(s) => SplitState(Apply(st.users, s), st.pending)
    case Check(user, peer) =>
      if CheckConnect(st.users, user, peer) == None
      then SplitState(st.users, st.pending + multiset{(user, peer)}) else st
    case Commit(user, peer) =>
      if (user, peer) in st.pending
      then SplitState(CommitConnect(st.users, user, peer).0, st.pending - multiset{(user, peer)}) else st
  }

  /** What the separate steps do: a check lets a connection wait exactly if both users are
      registered, different and idle; a commit takes one that waits and connects its two. */
  lemma SplitStepLaw(st: SplitState, step: SplitStep)
    ensures var after := SplitApply(st, step);
            match step
            case Plain(s) => after.users == Apply(st.users, s) && after.pending == st.pending
            case Check(user, peer) =>
              && after.users == st.users
              && after.pending ==
                   (if user != peer && user in st.users && peer in st.users
                       && st.users[user].state == Idle && st.users[peer].state == Idle
                    then st.pending + multiset{(user, peer)} else st.pending)
            case Commit(user, peer) =>
              if (user, peer) in st.pending
              then after.pending == st.pending - multiset{(user, peer)} &&
                   CommitsBy(st.users, user, peer, after.users, CommitConnect(st.users, user, peer).1)
              else after == st
  {
    match step {
      case Plain(_) =>
      case Check(_, _) =>
      case Commit(user, peer) => CommitLaw(st.users, user, peer);
    }
  }

  function SplitRun(steps: seq<SplitStep>): SplitState {
    if |steps| == 0 then SplitState(map[], multiset{})
    else SplitApply(SplitRun(steps[..|steps| - 1]), steps[|steps| - 1])
  }

  /** What a step must find: an added id that nobody refers to, and a commit whose caller
      has gone or whose two sides no third user holds. */
  ghost predicate Safe(st: SplitState, step: SplitStep) {
    match step
    case Plain(Add(id, _)) => id in st.users || !Referenced(st.users, id)
    case Plain(_) => true
    case Check(_, _) => true
    case Commit(user, peer) =>
      (user, peer) in st.pending ==> user !in st.users || NoThirdParty(st.users, user, peer)
  }

  /** Users are matched at every moment of the run. */
  ghost predicate AlwaysMatching(steps: seq<SplitStep>) {
    Matching(SplitRun(steps).users) && (|steps| > 0 ==> AlwaysMatching(steps[..|steps| - 1]))
  }

  /** Every step of the run is safe where it is taken. */
  ghost predicate AlwaysSafe(steps: seq<SplitStep>) {
    |steps| > 0 ==>
      var before := steps[..|steps| - 1];
      AlwaysSafe(before) && Safe(SplitRun(before), steps[|steps| - 1])
  }

  lemma {:induction false} PendingAreDistinct(steps: seq<SplitStep>)
    ensures forall c | c in SplitRun(steps).pending :: c.0 != c.1
  {
    if |steps| > 0 {
      PendingAreDistinct(steps[..|steps| - 1]);
    }
  }

  /** One step out of a matching leads to a matching exactly if it is safe. */
  lemma SplitStepMatchingIff(st: SplitState, step: SplitStep)
    requires Matching(st.users) && forall c | c in st.pending :: c.0 != c.1
    ensures Matching(SplitApply(st, step).users) <==> Safe(st, step)
  {
    match step {
      case Plain(Add(id, endpoint)) =>
        if id !in st.users { AddKeepsMatchingIff(st.users, id, endpoint); }
      case Plain(Connect(user, peer, reply)) => ConnectKeepsMatching(st.users, user, peer, reply);
      case Plain(Disconnect(user)) => DisconnectKeepsMatching(st.users, user);
      case Plain(Remove(id)) => RemoveKeepsMatching(st.users, id);
      case Plain(Purge(id)) => AdminRemoveKeeps(st.users, id);
      case Check(_, _) =>
      case Commit(user, peer) =>
        if (user, peer) in st.pending { CommitKeepsMatchingIff(st.users, user, peer); }
    }
  }

  /** The exact condition for interleaved runs: users are matched throughout exactly if
      every step is safe where it is taken. */
  lemma {:induction false} SplitRunsMatchingIff(steps: seq<SplitStep>)
    ensures AlwaysMatching(steps) <==> AlwaysSafe(steps)
  {
    if |steps| > 0 {
      var before := steps[..|steps| - 1];
      SplitRunsMatchingIff(before);
      if AlwaysMatching(before) {
        MatchingSoFar(before);
        PendingAreDistinct(before);
        SplitStepMatchingIff(SplitRun(before), steps[|steps| - 1]);
      }
    }
  }

  lemma MatchingSoFar(steps: seq<SplitStep>)
    requires AlwaysMatching(steps)
    ensures Matching(SplitRun(steps).users)
  {
  }

  /** Checking once more at the commit that both are idle would make it safe. */
  lemma RecheckSuffices(users: Store, user: UserId, peer: UserId)
    requires Matching(users) && CheckConnect(users, user, peer) == None
    ensures NoThirdParty(users, user, peer)
  {
    forall w | w in users && w != user && w != peer
      ensures users[w].peer != Some(user) && users[w].peer != Some(peer)
    {
    }
  }

  const IDLE_USER := User("", Idle, None)

  lemma SplitRunSnoc(steps: seq<SplitStep>, step: SplitStep)
    ensures SplitRun(steps + [step]) == SplitApply(SplitRun(steps), step)
  {
    assert (steps + [step])[..|steps|] == steps;
  }

  /** Three users; the first and the third call the second. */
  function ThreeUsers(): seq<SplitStep> {
    [Plain(Add("10000", "")), Plain(Add("10001", "")), Plain(Add("10002", ""))]
  }

  function TwoChecks(): seq<SplitStep> {
    ThreeUsers() + [Check("10000", "10001")] + [Check("10002", "10001")]
  }

  lemma ThreeUsersIdle()
    ensures SplitRun(ThreeUsers()) ==
            SplitState(map["10000" := IDLE_USER, "10001" := IDLE_USER, "10002" := IDLE_USER], multiset{})
  {
    var none: seq<SplitStep> := [];
    var first := none + [Plain(Add("10000", ""))];
    var second := first + [Plain(Add("10001", ""))];
    assert ThreeUsers() == second + [Plain(Add("10002", ""))];
    SplitRunSnoc(none, Plain(Add("10000", "")));
    SplitRunSnoc(first, Plain(Add("10001", "")));
    SplitRunSnoc(second, Plain(Add("10002", "")));
  }

  lemma BothChecked()
    ensures SplitRun(TwoChecks()) ==
            SplitState(map["10000" := IDLE_USER, "10001" := IDLE_USER, "10002" := IDLE_USER],
                       multiset{("10000", "10001"), ("10002", "10001")})
  {
    ThreeUsersIdle();
    SplitRunSnoc(ThreeUsers(), Check("10000", "10001"));
    SplitRunSnoc(ThreeUsers() + [Check("10000", "10001")], Check("10002", "10001"));
  }

  lemma CommitSetsPeer(users: Store, user: UserId, peer: UserId)
    requires user in users && peer in users && user != peer
    ensures var users' := CommitConnect(users, user, peer).0;
            && users'.Keys == users.Keys && users'[user].peer == Some(peer)
            && (forall w | w in users && w != user && w != peer :: users'[w] == users[w])
  {
  }

  lemma FirstCommit()
    ensures var st := SplitRun(TwoChecks() + [Commit("10000", "10001")]);
            && st.users.Keys == {"10000", "10001", "10002"} && st.users["10000"].peer == Some("10001")
            && ("10002", "10001") in st.pending
  {
    BothChecked();
    var st := SplitRun(TwoChecks());
    SplitRunSnoc(TwoChecks(), Commit("10000", "10001"));
    assert "10000"[4] != "10001"[4] && "10000"[4] != "10002"[4];
    assert ("10000", "10001").0 != ("10002", "10001").0;
    CommitSetsPeer(st.users, "10000", "10001");
  }

  /** Two calls to one peer, both checked before either is committed, break the matching:
      the check and the commit are separated by the call to the peer's client. */
  lemma InterleavedConnects()
    ensures var commits := TwoChecks() + [Commit("10000", "10001")] + [Commit("10002", "10001")];
            var users := SplitRun(commits).users;
            && users.Keys == {"10000", "10001", "10002"}
            && users["10000"].peer == users["10002"].peer == Some("10001")
            && !Matching(users)
  {
    FirstCommit();
    var first := TwoChecks() + [Commit("10000", "10001")];
    SplitRunSnoc(first, Commit("10002", "10001"));
    assert "10000"[4] != "10001"[4] && "10000"[4] != "10002"[4] && "10001"[4] != "10002"[4];
    CommitSetsPeer(SplitRun(first).users, "10002", "10001");
    SharedPeer(SplitRun(first + [Commit("10002", "10001")]).users, "10000", "10002");
  }

  lemma SharedPeer(users: Store, u: UserId, w: UserId)
    requires u in users && w in users && u != w && users[u].peer.Some? && users[u].peer == users[w].peer
    ensures !Matching(users)
  {
  }

  // ----- counting calls -----

  ghost function ConnectedUsers(users: Store): set<UserId> {
    set u | u in users && users[u].state == Connected
  }

  /** The calls: unordered pairs of registered users that are each other's peers. */
  ghost function Calls(users: Store): set<set<UserId>> {
    set u, v | u in users && v in users && users[u].peer == Some(v) :: {u, v}
  }

  /** Connected users whose peer is no longer registered. */
  ghost function Dangling(users: Store): set<UserId> {
    set u | u in users && users[u].peer.Some? && users[u].peer.value !in users
  }

  /** Both members of a call leave together. */
  lemma ForgetCall(users: Store, u: UserId, v: UserId)
    requires Matching(users) && u in users && v in users && users[u].peer == Some(v)
    ensures var rest := users - {u, v};
            && Matching(rest)
            && ConnectedUsers(users) == ConnectedUsers(rest) + {u, v}
            && Dangling(users) == Dangling(rest)
            && Calls(users) == Calls(rest) + {{u, v}}
            && {u, v} !in Calls(rest)
  {
    var rest := users - {u, v};
    forall c | c in Calls(users) ensures c in Calls(rest) + {{u, v}} {
      var x, y :| x in users && y in users && users[x].peer == Some(y) && c == {x, y};
      if x !in rest || y !in rest {
        assert c == {u, v};
      }
    }
    forall c | c in Calls(rest) ensures u !in c {
    }
    assert u in {u, v};
  }

  lemma TwoMore(s: set<UserId>, u: UserId, v: UserId)
    requires u !in s && v !in s && u != v
    ensures |s + {u, v}| == |s| + 2
  {
  }

  lemma NoCallsLeft(users: Store)
    requires Matching(users)
    requires forall u, v | u in users && v in users :: users[u].peer != Some(v)
    ensures Calls(users) == {} && ConnectedUsers(users) == Dangling(users)
  {
  }

  /** Connected users come in pairs, except for the dangling ones. */
  lemma {:induction false} ConnectedCount(users: Store)
    requires Matching(users)
    ensures |ConnectedUsers(users)| == 2 * |Calls(users)| + |Dangling(users)|
    decreases users.Keys
  {
    if u, v :| u in users && v in users && users[u].peer == Some(v) {
      var rest := users - {u, v};
      ForgetCall(users, u, v);
      assert u !in rest && rest.Keys < users.Keys;
      ConnectedCount(rest);
      TwoMore(ConnectedUsers(rest), u, v);
    } else {
      NoCallsLeft(users);
    }
  }

  /** `admin_status`. */
  function CallCount(users: Store): nat {
    |set u | u in users && users[u].state == Connected| / 2
  }

  /** The reported call count adds one call for every two dangling users, so it is right
      exactly if at most one dangles. */
  lemma CallCountRightIff(users: Store)
    requires Matching(users)
    ensures CallCount(users) == |Calls(users)| + |Dangling(users)| / 2
    ensures CallCount(users) == |Calls(users)| <==> |Dangling(users)| <= 1
  {
    ConnectedCount(users);
    assert (set u | u in users && users[u].state == Connected) == ConnectedUsers(users);
  }

  /** It does go wrong: when one member of each of two calls is removed without a
      disconnect, one call too many is reported. */
  lemma TwoBareRemovalsMiscount(users: Store, u: UserId, v: UserId, x: UserId, y: UserId)
    requires Matching(users) && Closed(users) && {u, v, x, y} <= users.Keys
    requires users[u].peer == Some(v) && users[x].peer == Some(y) && u != x && u != y
    ensures var after := Without(Without(users, v), y);
            CallCount(after) == |Calls(after)| + 1
  {
    var after := Without(Without(users, v), y);
    RemoveKeepsMatching(users, v);
    RemoveKeepsMatching(Without(users, v), y);
    assert u in after && x in after;
    forall w | w in Dangling(after) ensures w == u || w == x {
      assert users[w].peer == Some(v) || users[w].peer == Some(y);
    }
    assert Dangling(after) == {u, x};
    ConnectedCount(after);
    assert (set w | w in after && after[w].state == Connected) == ConnectedUsers(after);
  }

  /** In runs without bare removals the number of connected users is even and the call
      count is the number of calls. */
  lemma CleanRunsCountCalls(steps: seq<Step>)
    requires NoBareRemoval(steps)
    ensures |ConnectedUsers(Run(steps))| % 2 == 0
    ensures CallCount(Run(steps)) == |Calls(Run(steps))|
  {
    CleanRunsAreClosed(steps);
    assert Dangling(Run(steps)) == {};
    ConnectedCount(Run(steps));
    CallCountRightIff(Run(steps));
  }

  // ----- calls and rooms together -----

  /** Users, rooms, and the clients of each broadcast namespace. */
  datatype Net = Net(users: Store, rooms: Rooms.RoomState, clients: map<Rooms.Namespace, set<Rooms.Sid>>) {
    function Clients(ns: Rooms.Namespace): set<Rooms.Sid> {
      if ns in clients then clients[ns] else {}
    }
  }

  /** `connect` opens the room after its checks, before the client has answered. */
  function PlaceCall(n: Net, user: UserId, peer: UserId, session: Rooms.SessionId, reply: Reply): Net {
    n.(users := ConnectPeers(n.users, user, peer, reply).0,
       rooms := if CheckConnect(n.users, user, peer) == None
                then Rooms.OpenSession(n.rooms, session, {user, peer}) else n.rooms)
  }

  datatype NetStep =
    | OnUsers(step: Step)
    | Call(user: UserId, peer: UserId, session: Rooms.SessionId, reply: Reply)
    | Join(sid: Rooms.Sid, auth: Option<Rooms.Auth>)
    | Leave(sid: Rooms.Sid)
    | Attach(ns: Rooms.Namespace, sid: Rooms.Sid)
    | Detach(ns: Rooms.Namespace, sid: Rooms.Sid)

  function NetApply(n: Net, step: NetStep): Net {
    match step
    case OnUsers(s) => n.(users := Apply(n.users, s))
    case Call(user, peer, session, reply) => PlaceCall(n, user, peer, session, reply)
    case Join(sid, auth) => n.(rooms := Rooms.Join(n.rooms, sid, auth).0)
    case Leave(sid) => n.(rooms := Rooms.Leave(n.rooms, sid))
    case Attach(ns, sid) => n.(clients := n.clients[ns := n.Clients(ns) + {sid}])
    case Detach(ns, sid) => n.(clients := n.clients[ns := n.Clients(ns) - {sid}])
  }

  /** What the steps of a run with rooms and namespaces do. */
  lemma NetStepLaw(n: Net, step: NetStep, ns: Rooms.Namespace)
    ensures var after := NetApply(n, step);
            match step
            case OnUsers(s) => after == n.(users := Apply(n.users, s))
            case Call(user, peer, session, reply) =>
              && ConnectsBy(n.users, user, peer, reply, after.users, ConnectPeers(n.users, user, peer, reply).1)
              && after.rooms.sids == n.rooms.sids && after.rooms.rooms == n.rooms.rooms && after.clients == n.clients
              && after.rooms.sessions ==
                   if user != peer && user in n.users && peer in n.users
                      && n.users[user].state == Idle && n.users[peer].state == Idle
                   then n.rooms.sessions[session := {user, peer}] else n.rooms.sessions
            case Join(sid, auth) => after == n.(rooms := Rooms.Join(n.rooms, sid, auth).0)
            case Leave(sid) => after == n.(rooms := Rooms.Leave(n.rooms, sid)) && sid !in after.rooms.sids
            case Attach(space, sid) =>
              && after.users == n.users && after.rooms == n.rooms
              && after.Clients(ns) == if ns == space then n.Clients(ns) + {sid} else n.Clients(ns)
            case Detach(space, sid) =>
              && after.users == n.users && after.rooms == n.rooms
              && after.Clients(ns) == if ns == space then n.Clients(ns) - {sid} else n.Clients(ns)
  {
    match step {
      case Call(user, peer, session, reply) => ConnectLaw(n.users, user, peer, reply);
      case _ =>
    }
  }

  function NetRun(steps: seq<NetStep>): Net {
    if |steps| == 0 then Net(map[], Rooms.RoomState(map[], map[], map[]), map[])
    else NetApply(NetRun(steps[..|steps| - 1]), steps[|steps| - 1])
  }

  /** Calls are placed by `Call`; ids, sessions and sockets are fresh when they appear. */
  ghost predicate Fresh(n: Net, step: NetStep) {
    match step
    case OnUsers(Add(id, _)) => !Referenced(n.users, id)
    case OnUsers(s) => !s.Connect?
    case Call(_, _, session, _) => session !in n.rooms.sessions
    case Join(sid, _) => sid !in n.rooms.sids
    case _ => true
  }

  ghost predicate AllFresh(steps: seq<NetStep>) {
    forall k | 0 <= k < |steps| :: Fresh(NetRun(steps[..k]), steps[k])
  }

  ghost predicate HasRoom(rooms: Rooms.RoomState, u: UserId, v: UserId) {
    exists s :: s in rooms.sessions && rooms.sessions[s] == {u, v}
  }

  ghost predicate IsPair(users: set<UserId>) {
    exists u, v :: u != v && users == {u, v}
  }

  /** Matching users, consistent rooms, rooms for two, and a room for every call. */
  ghost predicate NetInvariant(n: Net) {
    && Matching(n.users)
    && Rooms.Consistent(n.rooms)
    && (forall s | s in n.rooms.sessions :: IsPair(n.rooms.sessions[s]))
    && (forall u | u in n.users && n.users[u].peer.Some? :: HasRoom(n.rooms, u, n.users[u].peer.value))
  }

  lemma UserStepKeepsNet(n: Net, step: Step)
    requires NetInvariant(n) && Fresh(n, OnUsers(step))
    ensures NetInvariant(NetApply(n, OnUsers(step)))
  {
    match step {
      case Add(id, endpoint) =>
        if id !in n.users { AddKeepsMatchingIff(n.users, id, endpoint); }
      case Disconnect(user) =>
        DisconnectKeepsMatching(n.users, user);
        DisconnectFrees(n.users, user);
      case Remove(id) =>
        RemoveKeepsMatching(n.users, id);
      case Purge(id) =>
        AdminRemoveKeeps(n.users, id);
        DisconnectFrees(n.users, id);
    }
  }

  lemma CallKeepsNet(n: Net, user: UserId, peer: UserId, session: Rooms.SessionId, reply: Reply)
    requires NetInvariant(n) && session !in n.rooms.sessions
    ensures NetInvariant(PlaceCall(n, user, peer, session, reply))
  {
    ConnectKeepsMatching(n.users, user, peer, reply);
    if CheckConnect(n.users, user, peer) == None {
      CallKeepsPairs(n.rooms, session, user, peer);
      CallHasRoom(n, user, peer, session, reply);
    }
  }

  lemma CallKeepsPairs(rooms: Rooms.RoomState, session: Rooms.SessionId, user: UserId, peer: UserId)
    requires Rooms.Consistent(rooms) && session !in rooms.sessions && user != peer
    requires forall s | s in rooms.sessions :: IsPair(rooms.sessions[s])
    ensures var rooms' := Rooms.OpenSession(rooms, session, {user, peer});
            Rooms.Consistent(rooms') && forall s | s in rooms'.sessions :: IsPair(rooms'.sessions[s])
  {
    Rooms.OpenKeepsConsistent(rooms, session, {user, peer});
    assert IsPair({user, peer});
  }

  lemma CallHasRoom(n: Net, user: UserId, peer: UserId, session: Rooms.SessionId, reply: Reply)
    requires NetInvariant(n) && session !in n.rooms.sessions && CheckConnect(n.users, user, peer) == None
    ensures var n' := PlaceCall(n, user, peer, session, reply);
            forall u | u in n'.users && n'.users[u].peer.Some? :: HasRoom(n'.rooms, u, n'.users[u].peer.value)
  {
    ConnectKeepsMatching(n.users, user, peer, reply);
    OpenKeepsRooms(n.rooms, session, user, peer);
    var n' := PlaceCall(n, user, peer, session, reply);
    forall u | u in n'.users && n'.users[u].peer.Some?
      ensures HasRoom(n'.rooms, u, n'.users[u].peer.value)
    {
      if n'.users[u] == n.users[u] {
        assert HasRoom(n.rooms, u, n.users[u].peer.value);
      }
    }
  }

  lemma OpenKeepsRooms(rooms: Rooms.RoomState, session: Rooms.SessionId, user: UserId, peer: UserId)
    requires session !in rooms.sessions
    ensures var rooms' := Rooms.OpenSession(rooms, session, {user, peer});
            && (forall u, v | HasRoom(rooms, u, v) :: HasRoom(rooms', u, v))
            && HasRoom(rooms', user, peer) && HasRoom(rooms', peer, user)
  {
    var rooms' := Rooms.OpenSession(rooms, session, {user, peer});
    assert rooms'.sessions[session] == {user, peer} == {peer, user};
    forall u, v | HasRoom(rooms, u, v) ensures HasRoom(rooms', u, v) {
      var s :| s in rooms.sessions && rooms.sessions[s] == {u, v};
      assert rooms'.sessions[s] == {u, v};
    }
  }

  lemma JoinKeepsNet(n: Net, sid: Rooms.Sid, auth: Option<Rooms.Auth>)
    requires NetInvariant(n) && sid !in n.rooms.sids
    ensures NetInvariant(NetApply(n, Join(sid, auth)))
  {
    var rooms' := Rooms.Join(n.rooms, sid, auth).0;
    Rooms.JoinKeepsConsistentIff(n.rooms, sid, auth);
    assert rooms'.sessions == n.rooms.sessions;
    forall u, v | HasRoom(n.rooms, u, v) ensures HasRoom(rooms', u, v) {
    }
  }

  lemma LeaveKeepsNet(n: Net, sid: Rooms.Sid)
    requires NetInvariant(n)
    ensures NetInvariant(NetApply(n, Leave(sid)))
  {
    var rooms' := Rooms.Leave(n.rooms, sid);
    Rooms.LeaveKeepsConsistent(n.rooms, sid);
    assert rooms'.sessions == n.rooms.sessions;
    forall u, v | HasRoom(n.rooms, u, v) ensures HasRoom(rooms', u, v) {
    }
  }

  /** Every run of REST calls and socket events keeps users matched, rooms consistent and
      for two, and gives every call a room of its two users. */
  lemma {:induction false} NetRunsKeepInvariant(steps: seq<NetStep>)
    requires AllFresh(steps)
    ensures NetInvariant(NetRun(steps))
  {
    if |steps| > 0 {
      var k := |steps| - 1;
      assert forall j :: 0 <= j < k ==> steps[..k][..j] == steps[..j];
      NetRunsKeepInvariant(steps[..k]);
      var n := NetRun(steps[..k]);
      match steps[k] {
        case OnUsers(s) => UserStepKeepsNet(n, s);
        case Call(user, peer, session, reply) => CallKeepsNet(n, user, peer, session, reply);
        case Join(sid, auth) => JoinKeepsNet(n, sid, auth);
        case Leave(sid) => LeaveKeepsNet(n, sid);
        case Attach(_, _) =>
        case Detach(_, _) =>
      }
    }
  }

  /** Hence a frame of the `frame` and `audio-frame` events never leaves its session: at
      every moment of every run it is relayed only to sockets authenticated as one of the
      two users that the sender's session was opened for. */
  lemma FramesStayInSession(steps: seq<NetStep>, sid: Rooms.Sid) returns (other: UserId)
    requires AllFresh(steps) && sid in NetRun(steps).rooms.sids
    ensures var rooms := NetRun(steps).rooms;
            var r := Rooms.Relay(rooms, sid).value;
            && r.sender == rooms.sids[sid].1 && r.session in rooms.sessions
            && other != r.sender && rooms.sessions[r.session] == {r.sender, other}
            && (forall x | x in r.recipients :: x in rooms.sids && rooms.sids[x].1 in {r.sender, other})
  {
    NetRunsKeepInvariant(steps);
    var rooms := NetRun(steps).rooms;
    Rooms.RelayReach(rooms, sid);
    var r := Rooms.Relay(rooms, sid).value;
    var u, v :| u != v && rooms.sessions[r.session] == {u, v};
    other := if r.sender == u then v else u;
  }

  /** All receivers of a frame are the sender's own sockets or those of its current peer. */
  ghost predicate ReachesPeerOnly(n: Net, sid: Rooms.Sid)
    requires sid in n.rooms.sids
  {
    var r := Rooms.Relay(n.rooms, sid).value;
    forall x | x in r.recipients ::
      x in n.rooms.sids && (n.rooms.sids[x].1 == r.sender || InCall(n.users, r.sender, n.rooms.sids[x].1))
  }

  ghost predicate InCall(users: Store, u: UserId, v: UserId) {
    u in users && users[u].peer == Some(v)
  }

  /** Sessions are never closed, so a frame reaches the current peer only, if and only if
      the session's other user has no socket in it or is the sender's current peer. */
  lemma FramesReachPeerIff(steps: seq<NetStep>, sid: Rooms.Sid) returns (other: UserId)
    requires AllFresh(steps) && sid in NetRun(steps).rooms.sids
    ensures var n := NetRun(steps);
            var (session, sender) := n.rooms.sids[sid];
            && session in n.rooms.sessions && other != sender && n.rooms.sessions[session] == {sender, other}
            && (ReachesPeerOnly(n, sid) <==>
                (forall x | x in n.rooms.sids :: n.rooms.sids[x] != (session, other)) || InCall(n.users, sender, other))
  {
    other := FramesStayInSession(steps, sid);
    NetRunsKeepInvariant(steps);
    var n := NetRun(steps);
    var (session, sender) := n.rooms.sids[sid];
    Rooms.RelayReach(n.rooms, sid);
    var r := Rooms.Relay(n.rooms, sid).value;
    if ReachesPeerOnly(n, sid) {
      forall x | x in n.rooms.sids && n.rooms.sids[x] == (session, other)
        ensures InCall(n.users, sender, other)
      {
        assert x in r.recipients;
      }
    }
  }

  lemma NetRunSnoc(steps: seq<NetStep>, step: NetStep)
    ensures NetRun(steps + [step]) == NetApply(NetRun(steps), step)
  {
    assert (steps + [step])[..|steps|] == steps;
  }

  /** Hanging up does not stop the relay: whoever shares a session with the caller still
      receives its frames, though the caller has no peer any more. */
  lemma HangUpLeavesRoomOpen(steps: seq<NetStep>, x: Rooms.Sid, y: Rooms.Sid)
    requires AllFresh(steps)
    requires var rooms := NetRun(steps).rooms;
             x in rooms.sids && y in rooms.sids && rooms.sids[x].0 == rooms.sids[y].0 && rooms.sids[x].1 != rooms.sids[y].1
    ensures var user := NetRun(steps).rooms.sids[x].1;
            var n := NetRun(steps + [OnUsers(Disconnect(user))]);
            && x in n.rooms.sids && y in Rooms.Relay(n.rooms, x).value.recipients
            && !ReachesPeerOnly(n, x)
  {
    var n := NetRun(steps);
    var user := n.rooms.sids[x].1;
    NetRunsKeepInvariant(steps);
    NetRunSnoc(steps, OnUsers(Disconnect(user)));
    DisconnectFrees(n.users, user);
    var n' := NetRun(steps + [OnUsers(Disconnect(user))]);
    assert n'.rooms == n.rooms;
    Rooms.RelayReach(n'.rooms, x);
    assert !InCall(n'.users, user, n.rooms.sids[y].1);
  }

  /** A call between two users whose sockets have both joined its room. */
  function CallInProgress(): seq<NetStep> {
    [OnUsers(Add("10000", "")), OnUsers(Add("10001", "")), Call("10000", "10001", "s", Accepted),
     Join("x", Some(Rooms.Auth(Some("10000"), Some("s")))), Join("y", Some(Rooms.Auth(Some("10001"), Some("s"))))]
  }

  lemma FreshSnoc(steps: seq<NetStep>, step: NetStep)
    requires AllFresh(steps) && Fresh(NetRun(steps), step)
    ensures AllFresh(steps + [step])
  {
    var longer := steps + [step];
    forall k | 0 <= k < |longer| ensures Fresh(NetRun(longer[..k]), longer[k]) {
      assert longer[..k] == steps[..k];
      assert k == |steps| ==> steps[..k] == steps;
    }
  }

  lemma CallPlaced()
    ensures var steps := CallInProgress()[..3];
            var n := NetRun(steps);
            && AllFresh(steps)
            && n.rooms == Rooms.RoomState(map["s" := {"10000", "10001"}], map[], map[])
            && InCall(n.users, "10000", "10001")
  {
    var none: seq<NetStep> := [];
    var call := Call("10000", "10001", "s", Accepted);
    var first := none + [OnUsers(Add("10000", ""))];
    var second := first + [OnUsers(Add("10001", ""))];
    NetRunSnoc(none, OnUsers(Add("10000", "")));
    NetRunSnoc(first, OnUsers(Add("10001", "")));
    FreshSnoc(none, OnUsers(Add("10000", "")));
    assert NetRun(first).users == map["10000" := IDLE_USER];
    FreshSnoc(first, OnUsers(Add("10001", "")));
    assert "10000"[4] != "10001"[4];
    assert NetRun(second).users == map["10000" := IDLE_USER, "10001" := IDLE_USER];
    CommitSetsPeer(NetRun(second).users, "10000", "10001");
    NetRunSnoc(second, call);
    FreshSnoc(second, call);
    assert CallInProgress()[..3] == second + [call];
  }

  lemma CallInProgressState()
    ensures AllFresh(CallInProgress())
    ensures var n := NetRun(CallInProgress());
            && n.rooms.sids == map["x" := ("s", "10000"), "y" := ("s", "10001")]
            && InCall(n.users, "10000", "10001")
  {
    var steps := CallInProgress();
    CallPlaced();
    NetRunSnoc(steps[..3], steps[3]);
    FreshSnoc(steps[..3], steps[3]);
    assert steps[..4] == steps[..3] + [steps[3]];
    assert NetRun(steps[..4]).rooms.sids == map["x" := ("s", "10000")];
    assert "x"[0] != "y"[0];
    NetRunSnoc(steps[..4], steps[4]);
    FreshSnoc(steps[..4], steps[4]);
    assert steps == steps[..4] + [steps[4]];
  }

  /** The failing run: call, join, join, hang up. The second user still hears the first. */
  lemma FrameAfterHangUp()
    ensures var n := NetRun(CallInProgress() + [OnUsers(Disconnect("10000"))]);
            && "x" in n.rooms.sids && "y" in Rooms.Relay(n.rooms, "x").value.recipients
            && !ReachesPeerOnly(n, "x")
  {
    CallInProgressState();
    HangUpLeavesRoomOpen(CallInProgress(), "x", "y");
  }

  // ----- the broadcast namespaces -----

  /** A message on a broadcast namespace reaches only sockets of the sender's session,
      if and only if every other client of the namespace is one of them. */
  lemma BroadcastStaysInSessionIff(steps: seq<NetStep>, ns: Rooms.Namespace, sid: Rooms.Sid)
    requires AllFresh(steps) && sid in NetRun(steps).rooms.sids
    ensures var n := NetRun(steps);
            Rooms.Broadcast(n.Clients(ns), sid) <= Rooms.Relay(n.rooms, sid).value.recipients <==>
            forall other | other in n.Clients(ns) && other != sid ::
              other in n.rooms.sids && n.rooms.sids[other].0 == n.rooms.sids[sid].0
  {
    NetRunsKeepInvariant(steps);
    Rooms.BroadcastConfinedIff(NetRun(steps).rooms, NetRun(steps).Clients(ns), sid);
  }

  /** Where a frame of the socket would go within its session. */
  function SessionReach(rooms: Rooms.RoomState, sid: Rooms.Sid): set<Rooms.Sid> {
    match Rooms.Relay(rooms, sid)
    case Some(r) => r.recipients
    case None => {}
  }

  /** Whatever client of the namespace sends, the broadcast stays within its session. */
  ghost predicate Confined(n: Net, ns: Rooms.Namespace) {
    forall sid | sid in n.Clients(ns) :: Rooms.Broadcast(n.Clients(ns), sid) <= SessionReach(n.rooms, sid)
  }

  predicate InOneSession(rooms: Rooms.RoomState, x: Rooms.Sid, y: Rooms.Sid) {
    x in rooms.sids && y in rooms.sids && rooms.sids[x].0 == rooms.sids[y].0
  }

  ghost predicate ClientsShareSession(n: Net, ns: Rooms.Namespace) {
    forall x, y | x in n.Clients(ns) && y in n.Clients(ns) && x != y :: InOneSession(n.rooms, x, y)
  }

  lemma ConfinedIff(n: Net, ns: Rooms.Namespace)
    requires Rooms.Consistent(n.rooms)
    ensures Confined(n, ns) <==> ClientsShareSession(n, ns)
  {
    forall x, y | x in n.Clients(ns) && y in n.Clients(ns) && x != y
      ensures y in Rooms.Broadcast(n.Clients(ns), x)
      ensures y in SessionReach(n.rooms, x) <==> InOneSession(n.rooms, x, y)
    {
      Rooms.RelayReach(n.rooms, x);
    }
    if ClientsShareSession(n, ns) {
      forall sid | sid in n.Clients(ns) ensures Rooms.Broadcast(n.Clients(ns), sid) <= SessionReach(n.rooms, sid) {
      }
    }
  }

  /** What a step must find: a socket attaches only next to clients of its own session, and
      leaves its session only when it is not a client next to others. */
  ghost predicate KeepsConfined(n: Net, ns: Rooms.Namespace, step: NetStep) {
    match step
    case Attach(space, sid) =>
      space == ns ==> forall y | y in n.Clients(ns) && y != sid :: InOneSession(n.rooms, sid, y)
    case Leave(sid) =>
      sid in n.rooms.sids && sid in n.Clients(ns) ==> n.Clients(ns) == {sid}
    case _ => true
  }

  lemma ConfinedStepIff(n: Net, ns: Rooms.Namespace, step: NetStep)
    requires ClientsShareSession(n, ns) && Fresh(n, step)
    ensures ClientsShareSession(NetApply(n, step), ns) <==> KeepsConfined(n, ns, step)
  {
    var n' := NetApply(n, step);
    match step {
      case OnUsers(_) =>
      case Call(_, _, _, _) =>
        forall x, y | x in n'.Clients(ns) && y in n'.Clients(ns) && x != y ensures InOneSession(n'.rooms, x, y) {
          assert InOneSession(n.rooms, x, y);
        }
      case Detach(_, _) =>
      case Join(sid, auth) =>
        forall x, y | x in n'.Clients(ns) && y in n'.Clients(ns) && x != y ensures InOneSession(n'.rooms, x, y) {
          assert InOneSession(n.rooms, x, y);
        }
      case Leave(sid) => LeaveConfinedIff(n, ns, sid);
      case Attach(space, sid) => AttachConfinedIff(n, ns, space, sid);
    }
  }

  lemma LeaveConfinedIff(n: Net, ns: Rooms.Namespace, sid: Rooms.Sid)
    requires ClientsShareSession(n, ns)
    ensures ClientsShareSession(NetApply(n, Leave(sid)), ns) <==> KeepsConfined(n, ns, Leave(sid))
  {
    var n' := NetApply(n, Leave(sid));
    assert n'.Clients(ns) == n.Clients(ns);
    if sid in n.rooms.sids && sid in n.Clients(ns) && n.Clients(ns) != {sid} {
      var y :| y in n.Clients(ns) && y != sid;
      assert !InOneSession(n'.rooms, sid, y);
    } else {
      forall x, y | x in n'.Clients(ns) && y in n'.Clients(ns) && x != y ensures InOneSession(n'.rooms, x, y) {
        assert InOneSession(n.rooms, x, y);
      }
    }
  }

  lemma AttachConfinedIff(n: Net, ns: Rooms.Namespace, space: Rooms.Namespace, sid: Rooms.Sid)
    requires ClientsShareSession(n, ns)
    ensures ClientsShareSession(NetApply(n, Attach(space, sid)), ns) <==> KeepsConfined(n, ns, Attach(space, sid))
  {
    var n' := NetApply(n, Attach(space, sid));
    assert n'.rooms == n.rooms;
    assert n'.Clients(ns) == if space == ns then n.Clients(ns) + {sid} else n.Clients(ns);
  }

  /** No broadcast ever leaves its session, at any moment of the run. */
  ghost predicate AlwaysConfined(steps: seq<NetStep>, ns: Rooms.Namespace) {
    Confined(NetRun(steps), ns) && (|steps| > 0 ==> AlwaysConfined(steps[..|steps| - 1], ns))
  }

  ghost predicate AlwaysKeepsConfined(steps: seq<NetStep>, ns: Rooms.Namespace) {
    |steps| > 0 ==>
      var before := steps[..|steps| - 1];
      AlwaysKeepsConfined(before, ns) && KeepsConfined(NetRun(before), ns, steps[|steps| - 1])
  }

  lemma FreshPrefix(steps: seq<NetStep>)
    requires |steps| > 0 && AllFresh(steps)
    ensures AllFresh(steps[..|steps| - 1]) && Fresh(NetRun(steps[..|steps| - 1]), steps[|steps| - 1])
  {
    var before := steps[..|steps| - 1];
    forall k | 0 <= k < |before| ensures Fresh(NetRun(before[..k]), before[k]) {
      assert before[..k] == steps[..k];
    }
  }

  /** The exact condition for runs: broadcasts stay in their sessions throughout if and only
      if every attaching socket has joined the session of the clients that are there, and
      no client leaves its session next to others. */
  lemma {:induction false} BroadcastRunsConfinedIff(steps: seq<NetStep>, ns: Rooms.Namespace)
    requires AllFresh(steps)
    ensures AlwaysConfined(steps, ns) <==> AlwaysKeepsConfined(steps, ns)
  {
    NetRunsKeepInvariant(steps);
    ConfinedIff(NetRun(steps), ns);
    if |steps| > 0 {
      var before := steps[..|steps| - 1];
      FreshPrefix(steps);
      BroadcastRunsConfinedIff(before, ns);
      if AlwaysConfined(before, ns) {
        ConfinedSoFar(before, ns);
        ConfinedStepIff(NetRun(before), ns, steps[|steps| - 1]);
      }
    }
  }

  lemma ConfinedSoFar(steps: seq<NetStep>, ns: Rooms.Namespace)
    requires AllFresh(steps) && AlwaysConfined(steps, ns)
    ensures ClientsShareSession(NetRun(steps), ns)
  {
    NetRunsKeepInvariant(steps);
    ConfinedIff(NetRun(steps), ns);
  }

  /** Nothing keeps others out: in any run any further socket, authenticated or not, may
      attach and then receives what every other client sends. */
  lemma OutsiderHearsBroadcast(steps: seq<NetStep>, ns: Rooms.Namespace, outsider: Rooms.Sid, sid: Rooms.Sid)
    requires AllFresh(steps) && sid in NetRun(steps).rooms.sids && sid != outsider
    requires outsider in NetRun(steps).rooms.sids ==>
               NetRun(steps).rooms.sids[outsider].0 != NetRun(steps).rooms.sids[sid].0
    ensures var n := NetRun(steps + [Attach(ns, outsider)]);
            && AllFresh(steps + [Attach(ns, outsider)])
            && outsider in Rooms.Broadcast(n.Clients(ns), sid)
            && sid in n.rooms.sids && outsider !in Rooms.Relay(n.rooms, sid).value.recipients
  {
    NetRunSnoc(steps, Attach(ns, outsider));
    FreshSnoc(steps, Attach(ns, outsider));
    NetRunsKeepInvariant(steps);
    Rooms.RelayReach(NetRun(steps).rooms, sid);
  }

  // ----- the server object -----

  class Server {
    const userManager: UserManager
    const socketApi: Rooms.SocketAPI?

    constructor (userManager: UserManager, socketApi: Rooms.SocketAPI?)
      ensures this.userManager == userManager && this.socketApi == socketApi
    {
      this.userManager, this.socketApi := userManager, socketApi;
    }

    function UserStore(): Store
      reads this, userManager, userManager.storage
    {
      userManager.storage.users
    }

    function RoomsNow(): Rooms.RoomState
      reads this, socketApi
    {
      if socketApi == null then Rooms.RoomState(map[], map[], map[]) else socketApi.State()
    }

    /** `PeerConnectionManager.connect`. `sessionId` is the fresh UUID of the room. */
    method HandlePeerConnection(user: UserId, peer: UserId, sessionId: Rooms.SessionId, reply: Reply)
      returns (r: Result<Rooms.SessionId, ServerError>)
      modifies userManager.storage, socketApi
      ensures socketApi == null ==>
                var error := CheckConnect(UserStore(), user, peer);
                UserStore() == old(UserStore()) && r == Err(if error.Some? then error.value else NoSocketApi)
      ensures socketApi != null ==>
                var before := old(Net(UserStore(), RoomsNow(), map[]));
                && Net(UserStore(), RoomsNow(), map[]) == PlaceCall(before, user, peer, sessionId, reply)
                && r == match ConnectPeers(before.users, user, peer, reply).1
                        case None => Ok(sessionId)
                        case Some(e) => Err(e)
      ensures socketApi != null ==>
                && ConnectsBy(old(UserStore()), user, peer, reply, UserStore(), if r.Ok? then None else Some(r.error))
                && (r.Ok? ==> r.value == sessionId)
                && (socketApi.sids, socketApi.rooms) == old((socketApi.sids, socketApi.rooms))
                && socketApi.sessions ==
                     if r.Ok? || r.error == BadGateway then old(socketApi.sessions)[sessionId := {user, peer}]
                     else old(socketApi.sessions)
    {
      ConnectLaw(UserStore(), user, peer, reply);
      if user == peer {
        return Err(BadRequest);
      }
      var userInfo := userManager.storage.Get(user);
      if userInfo.Err? {
        return Err(BadRequest);
      }
      var peerInfo := userManager.storage.Get(peer);
      if peerInfo.Err? {
        return Err(BadRequest);
      }
      if peerInfo.value.state != Idle {
        return Err(InvalidState);
      }
      if userInfo.value.state != Idle {
        return Err(InvalidState);
      }
      if socketApi == null {
        return Err(NoSocketApi);
      }
      var session := socketApi.CreateSession({user, peer}, sessionId);
      if reply != Accepted {
        return Err(BadGateway);
      }
      var first := userManager.SetUserState(user, Connected, Some(peer));
      var second := userManager.SetUserState(peer, Connected, Some(user));
      assert first == second == Ok(());
      return Ok(session);
    }

    /** `PeerConnectionManager.disconnect`; what the notification itself raises is caught. */
    method DisconnectPeer(user: UserId) returns (r: Result<(), ServerError>)
      modifies userManager.storage
      ensures UserStore() == DisconnectPeers(old(UserStore()), user).0
      ensures r == match DisconnectPeers(old(UserStore()), user).1 case None => Ok(()) case Some(e) => Err(e)
      ensures DisconnectsBy(old(UserStore()), user, UserStore(), if r.Ok? then None else Some(r.error))
    {
      DisconnectLaw(UserStore(), user);
      var info := userManager.storage.Get(user);
      if info.Err? {
        return Err(BadRequest);
      }
      if info.value.peer == None {
        return Ok(());
      }
      var peerId := info.value.peer.value;
      var _ := userManager.SetUserState(user, Idle, None);
      var _ := userManager.SetUserState(peerId, Idle, None);
      var notified := userManager.storage.Get(peerId);
      if notified.Err? {
        return Err(notified.error);
      }
      return Ok(());
    }

    method AdminRemoveUser(id: UserId)
      modifies userManager.storage
      ensures UserStore() == AdminRemove(old(UserStore()), id)
      ensures RemovesBy(old(UserStore()), id, UserStore())
    {
      AdminRemoveLaw(UserStore(), id);
      var _ := DisconnectPeer(id);
      userManager.RemoveUser(id);
    }

    /** `admin_status`: half the connected users, and the number of calls plus half the users
        whose peer has gone. */
    method AdminStatus() returns (userCount: nat, callCount: nat)
      ensures userCount == |UserStore()|
      ensures callCount == |ConnectedUsers(UserStore())| / 2
      ensures Matching(UserStore()) ==> callCount == |Calls(UserStore())| + |Dangling(UserStore())| / 2
    {
      var all := userManager.storage.users;
      userCount := |all|;
      var connected := set u | u in all && all[u].state == Connected;
      callCount := |connected| / 2;
      assert connected == ConnectedUsers(all);
      if Matching(all) {
        CallCountRightIff(all);
      }
    }
  }
}
