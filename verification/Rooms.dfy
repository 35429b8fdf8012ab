/** Session rooms of the socket server (server/socket_api.py). */
module Rooms {
  import opened Wrappers
  import opened Users

  type SessionId = string
  type Sid = string

  /** The server's two dictionaries, and the transport's room membership that
      `join_room` and `leave_room` maintain. */
  datatype RoomState = RoomState(
    sessions: map<SessionId, set<UserId>>,
    sids: map<Sid, (SessionId, UserId)>,
    rooms: map<SessionId, set<Sid>>)

  /** The auth dictionary of a connection request; None if there is no dictionary. */
  datatype Auth = Auth(userId: Option<UserId>, sessionId: Option<SessionId>)

  function Room(rooms: map<SessionId, set<Sid>>, session: SessionId): set<Sid> {
    if session in rooms then rooms[session] else {}
  }

  /** The session and user that a connection request is accepted for. */
  function Admits(s: RoomState, auth: Option<Auth>): Option<(SessionId, UserId)> {
    match auth
    case Some(Auth(Some(user), Some(session))) =>
      if session != "" && session in s.sessions && user in s.sessions[session] then Some((session, user)) else None
    case _ => None
  }

  function ConnectedUsers(sids: map<Sid, (SessionId, UserId)>, session: SessionId): set<UserId> {
    set sid | sid in sids && sids[sid].0 == session :: sids[sid].1
  }

  function OpenSession(s: RoomState, session: SessionId, users: set<UserId>): RoomState {
    s.(sessions := s.sessions[session := users])
  }

  /** `_on_connect`: the new state, and the session that gets a room id, if any. */
  function Join(s: RoomState, sid: Sid, auth: Option<Auth>): (RoomState, Option<SessionId>) {
    match Admits(s, auth)
    case None => (s, None)
    case Some((session, user)) =>
      var s' := s.(sids := s.sids[sid := (session, user)],
                   rooms := s.rooms[session := Room(s.rooms, session) + {sid}]);
      (s', if ConnectedUsers(s'.sids, session) >= s.sessions[session] then Some(session) else None)
  }

  /** `_on_disconnect`. */
  function Leave(s: RoomState, sid: Sid): RoomState {
    if sid in s.sids then
      var session := s.sids[sid].0;
      s.(sids := s.sids - {sid}, rooms := s.rooms[session := Room(s.rooms, session) - {sid}])
    else s
  }

  /** A relayed frame: who is named as its sender and which sockets receive it. */
  datatype Relayed = Relayed(session: SessionId, sender: UserId, recipients: set<Sid>)

  /** `_on_frame` and `_on_audio_frame`: to the room, without the sending socket. */
  function Relay(s: RoomState, sid: Sid): Option<Relayed> {
    if sid in s.sids then
      var (session, user) := s.sids[sid];
      Some(Relayed(session, user, Room(s.rooms, session) - {sid}))
    else None
  }

  /** What the source keeps: a live socket belongs to a known session that expects its
      user, and a room holds exactly the sockets of its session. */
  ghost predicate Consistent(s: RoomState) {
    && (forall sid | sid in s.sids ::
          s.sids[sid].0 in s.sessions && s.sids[sid].1 in s.sessions[s.sids[sid].0])
    && (forall session, sid :: sid in Room(s.rooms, session) <==> sid in s.sids && s.sids[sid].0 == session)
  }

  class SocketAPI {
    var sessions: map<SessionId, set<UserId>>
    var sids: map<Sid, (SessionId, UserId)>
    var rooms: map<SessionId, set<Sid>>

    function State(): RoomState
      reads this
    {
      RoomState(sessions, sids, rooms)
    }

    constructor ()
      ensures State() == RoomState(map[], map[], map[]) && Consistent(State())
    {
      sessions, sids, rooms := map[], map[], map[];
    }

    /** `sessionId` is the fresh UUID. */
    method CreateSession(users: set<UserId>, sessionId: SessionId) returns (r: SessionId)
      modifies this
      ensures r == sessionId && sessions == old(sessions)[sessionId := users]
      ensures State() == OpenSession(old(State()), sessionId, users)
    {
      sessions := sessions[sessionId := users];
      r := sessionId;
    }

    method OnConnect(sid: Sid, auth: Option<Auth>) returns (accepted: bool, roomIdTo: Option<SessionId>)
      modifies this
      ensures accepted == Admits(old(State()), auth).Some?
      ensures (State(), roomIdTo) == Join(old(State()), sid, auth)
      ensures accepted <==>
                && auth.Some? && auth.value.userId.Some? && auth.value.sessionId.Some?
                && auth.value.sessionId.value != "" && auth.value.sessionId.value in old(sessions)
                && auth.value.userId.value in old(sessions)[auth.value.sessionId.value]
      ensures sessions == old(sessions)
      ensures !accepted ==> sids == old(sids) && rooms == old(rooms) && roomIdTo == None
      ensures accepted ==>
                var (user, session) := (auth.value.userId.value, auth.value.sessionId.value);
                && sids == old(sids)[sid := (session, user)]
                && rooms.Keys == old(rooms).Keys + {session}
                && rooms[session] == (if session in old(rooms) then old(rooms)[session] else {}) + {sid}
                && (forall other :: other in old(rooms) && other != session ==> rooms[other] == old(rooms)[other])
                && roomIdTo == if forall u :: u in sessions[session] ==> exists x :: x in sids && sids[x] == (session, u)
                               then Some(session) else None
    {
      if auth == None || auth.value.sessionId == None || auth.value.userId == None {
        return false, None;
      }
      var userId, sessionId := auth.value.userId.value, auth.value.sessionId.value;
      if sessionId == "" || sessionId !in sessions {
        return false, None;
      }
      var expectedUsers := sessions[sessionId];
      if userId !in expectedUsers {
        return false, None;
      }
      rooms := rooms[sessionId := Room(rooms, sessionId) + {sid}];
      sids := sids[sid := (sessionId, userId)];
      var connectedUsers := set s | s in sids && sids[s].0 == sessionId :: sids[s].1;
      assert forall u :: u in connectedUsers <==> exists x :: x in sids && sids[x] == (sessionId, u);
      roomIdTo := if connectedUsers >= expectedUsers then Some(sessionId) else None;
      accepted := true;
    }

    method OnFrame(sid: Sid) returns (r: Option<Relayed>)
      ensures r == Relay(State(), sid)
      ensures r == if sid !in sids then None
                   else Some(Relayed(sids[sid].0, sids[sid].1, (if sids[sid].0 in rooms then rooms[sids[sid].0] else {}) - {sid}))
    {
      if sid !in sids {
        return None;
      }
      var (sessionId, senderId) := sids[sid];
      r := Some(Relayed(sessionId, senderId, Room(rooms, sessionId) - {sid}));
    }

    method OnDisconnect(sid: Sid)
      modifies this
      ensures State() == Leave(old(State()), sid)
      ensures sessions == old(sessions) && sids == old(sids) - {sid}
      ensures sid !in old(sids) ==> rooms == old(rooms)
      ensures sid in old(sids) ==>
                var session := old(sids)[sid].0;
                && rooms.Keys == old(rooms).Keys + {session}
                && rooms[session] == (if session in old(rooms) then old(rooms)[session] else {}) - {sid}
                && forall other :: other in old(rooms) && other != session ==> rooms[other] == old(rooms)[other]
    {
      if sid in sids {
        var sessionId := sids[sid].0;
        sids := sids - {sid};
        rooms := rooms[sessionId := Room(rooms, sessionId) - {sid}];
      }
    }
  }

  /** The namespaces that the same server registers for encrypted frames. */
  datatype Namespace = Video | Audio

  /** `send(..., broadcast=True, include_self=False)`: to every client of the namespace but
      the sender. A client's connection to a namespace is identified with its socket. */
  function Broadcast(clients: set<Sid>, sid: Sid): set<Sid> {
    clients - {sid}
  }

  class BroadcastFlaskNamespace {
    var clients: set<Sid>

    constructor ()
      ensures clients == {}
    {
      clients := {};
    }

    /** `on_connect` checks nothing. */
    method OnConnect(sid: Sid)
      modifies this
      ensures clients == old(clients) + {sid}
    {
      clients := clients + {sid};
    }

    /** The user id is the one that the sender states. */
    method OnMessage<T>(sid: Sid, userId: UserId, msg: T) returns (recipients: set<Sid>, sent: (UserId, T))
      ensures recipients == clients - {sid} && sent == (userId, msg)
    {
      recipients, sent := clients - {sid}, (userId, msg);
    }

    method OnDisconnect(sid: Sid)
      modifies this
      ensures clients == old(clients) - {sid}
    {
      clients := clients - {sid};
    }
  }

  // ----- one event -----

  lemma LeaveKeepsConsistent(s: RoomState, sid: Sid)
    requires Consistent(s)
    ensures Consistent(Leave(s, sid))
  {
    var s' := Leave(s, sid);
    forall session, x
      ensures x in Room(s'.rooms, session) <==> x in s'.sids && s'.sids[x].0 == session
    {
      assert x in Room(s.rooms, session) <==> x in s.sids && s.sids[x].0 == session;
    }
  }

  lemma OpenKeepsConsistent(s: RoomState, session: SessionId, users: set<UserId>)
    requires Consistent(s) && session !in s.sessions
    ensures Consistent(OpenSession(s, session, users))
  {
  }

  /** Accepting a connection keeps the rooms right exactly if the socket id is not already
      live in another session; a refused one changes nothing. */
  lemma JoinKeepsConsistentIff(s: RoomState, sid: Sid, auth: Option<Auth>)
    requires Consistent(s)
    ensures var admitted := Admits(s, auth);
            Consistent(Join(s, sid, auth).0) <==>
            admitted.None? || sid !in s.sids || s.sids[sid].0 == admitted.value.0
  {
    var admitted, s' := Admits(s, auth), Join(s, sid, auth).0;
    if admitted.Some? {
      if sid in s.sids && s.sids[sid].0 != admitted.value.0 {
        var session := s.sids[sid].0;
        assert sid in Room(s.rooms, session);
        assert sid in Room(s'.rooms, session) && s'.sids[sid].0 != session;
      } else {
        forall session, x
          ensures x in Room(s'.rooms, session) <==> x in s'.sids && s'.sids[x].0 == session
        {
          assert x in Room(s.rooms, session) <==> x in s.sids && s.sids[x].0 == session;
        }
      }
    }
  }

  /** A room id goes out on a connection exactly when it is accepted and the users now
      connected are the expected ones, no more and no fewer. */
  lemma RoomIdWhenComplete(s: RoomState, sid: Sid, auth: Option<Auth>)
    requires Consistent(s) && sid !in s.sids
    ensures var (s', roomIdTo) := Join(s, sid, auth);
            forall session ::
              roomIdTo == Some(session) <==>
              && Admits(s, auth).Some? && Admits(s, auth).value.0 == session
              && ConnectedUsers(s'.sids, session) == s.sessions[session]
  {
  }

  /** A frame reaches precisely the other sockets of the sender's session, every one of
      them authenticated as a user that the session expects. */
  lemma RelayReach(s: RoomState, sid: Sid)
    requires Consistent(s)
    ensures Relay(s, sid).Some? <==> sid in s.sids
    ensures sid in s.sids ==>
              var r := Relay(s, sid).value;
              && (r.session, r.sender) == s.sids[sid]
              && r.session in s.sessions && r.sender in s.sessions[r.session]
              && (forall other :: other in r.recipients <==>
                    other != sid && other in s.sids && s.sids[other].0 == r.session)
              && (forall other :: other in r.recipients ==> s.sids[other].1 in s.sessions[r.session])
  {
  }

  /** Between two sockets relaying is symmetric: either both hear the other or neither. */
  lemma RelaySymmetric(s: RoomState, x: Sid, y: Sid)
    requires Consistent(s) && x in s.sids && y in s.sids
    ensures y in Relay(s, x).value.recipients <==> x in Relay(s, y).value.recipients
  {
  }

  /** A broadcast stays within what a session relay would reach exactly if every other
      client of the namespace has joined the sender's session. */
  lemma BroadcastConfinedIff(s: RoomState, clients: set<Sid>, sid: Sid)
    requires Consistent(s) && sid in s.sids
    ensures Broadcast(clients, sid) <= Relay(s, sid).value.recipients <==>
            forall other | other in clients && other != sid ::
              other in s.sids && s.sids[other].0 == s.sids[sid].0
  {
    RelayReach(s, sid);
    var recipients := Relay(s, sid).value.recipients;
    if Broadcast(clients, sid) <= recipients {
      forall other | other in clients && other != sid
        ensures other in s.sids && s.sids[other].0 == s.sids[sid].0
      {
        assert other in Broadcast(clients, sid);
      }
    }
  }
}
