/** The user store and the steps on it (server/utils/user_manager.py,
    server/peer_manager.py, server/admin_routes.py). */
module Users {
  import opened Wrappers

  type UserId = string

  datatype UserState = Idle | AwaitingConnection | Connected

  datatype User = User(apiEndpoint: string, state: UserState, peer: Option<UserId>)

  type Store = map<UserId, User>

  datatype ServerError = BadRequest | InvalidState | BadGateway | UserNotFound | DuplicateUser | NoSocketApi

  /** `UserManager.set_user_state`. */
  function WithState(users: Store, id: UserId, state: UserState, peer: Option<UserId>): Result<Store, ServerError> {
    if (state == Idle) != (peer == None) then Err(InvalidState)
    else if id !in users then Err(UserNotFound)
    else Ok(users[id := users[id].(state := state, peer := peer)])
  }

  /** `add_user` with a generated id. */
  function WithUser(users: Store, id: UserId, endpoint: string): Result<Store, ServerError> {
    if id in users then Err(DuplicateUser) else Ok(users[id := User(endpoint, Idle, None)])
  }

  /** The checks at the head of `connect`; None if they pass. */
  function CheckConnect(users: Store, user: UserId, peer: UserId): Option<ServerError> {
    if user == peer then Some(BadRequest)
    else if user !in users || peer !in users then Some(BadRequest)
    else if users[peer].state != Idle then Some(InvalidState)
    else if users[user].state != Idle then Some(InvalidState)
    else None
  }

  /** The two state changes at its end; a user that is gone by then raises. */
  function CommitConnect(users: Store, user: UserId, peer: UserId): (Store, Option<ServerError>) {
    match WithState(users, user, Connected, Some(peer))
    case Err(e) => (users, Some(e))
    case Ok(users1) =>
      match WithState(users1, peer, Connected, Some(user))
      case Err(e) => (users1, Some(e))
      case Ok(users2) => (users2, None)
  }

  /** How the peer's client answered. */
  datatype Reply = Accepted | Refused | Unreachable

  /** `connect` as one atomic step. */
  function ConnectPeers(users: Store, user: UserId, peer: UserId, reply: Reply): (Store, Option<ServerError>) {
    var error := CheckConnect(users, user, peer);
    if error.Some? then (users, error)
    else if reply != Accepted then (users, Some(BadGateway))
    else CommitConnect(users, user, peer)
  }

  function SetIdle(users: Store, id: UserId): Store {
    match WithState(users, id, Idle, None)
    case Ok(users') => users'
    case Err(_) => users
  }

  /** `disconnect`: both sides become idle. Looking up a peer that is no longer stored in
      order to notify it raises after that. */
  function DisconnectPeers(users: Store, user: UserId): (Store, Option<ServerError>) {
    if user !in users then (users, Some(BadRequest))
    else
      match users[user].peer
      case None => (users, None)
      case Some(peer) =>
        (SetIdle(SetIdle(users, user), peer), if peer in users then None else Some(UserNotFound))
  }

  function Without(users: Store, id: UserId): Store {
    users - {id}
  }

  /** `/admin/remove`: disconnect, whatever it raises, then remove. */
  function AdminRemove(users: Store, id: UserId): Store {
    Without(DisconnectPeers(users, id).0, id)
  }

  const ID_ATTEMPTS: nat := 100

  /** Draw `k` is the first one that is not stored. */
  ghost predicate FirstFree(users: Store, draws: seq<UserId>, k: nat) {
    k < |draws| && draws[k] !in users && forall j :: 0 <= j < k ==> draws[j] in users
  }

  // ----- the classes -----

  class DictUserStorage {
    var users: Store

    constructor ()
      ensures users == map[]
    {
      users := map[];
    }

    method Add(id: UserId, info: User) returns (r: Result<(), ServerError>)
      modifies this
      ensures r == if id in old(users) then Err(DuplicateUser) else Ok(())
      ensures users == if id in old(users) then old(users) else old(users)[id := info]
    {
      if id in users {
        return Err(DuplicateUser);
      }
      users := users[id := info];
      return Ok(());
    }

    method Update(id: UserId, info: User) returns (r: Result<(), ServerError>)
      modifies this
      ensures r == if id in old(users) then Ok(()) else Err(UserNotFound)
      ensures users == if id in old(users) then old(users)[id := info] else old(users)
    {
      if id !in users {
        return Err(UserNotFound);
      }
      users := users[id := info];
      return Ok(());
    }

    method Get(id: UserId) returns (r: Result<User, ServerError>)
      ensures r == if id in users then Ok(users[id]) else Err(UserNotFound)
    {
      if id !in users {
        return Err(UserNotFound);
      }
      return Ok(users[id]);
    }

    method Remove(id: UserId) returns (r: Result<(), ServerError>)
      modifies this
      ensures r == if id in old(users) then Ok(()) else Err(UserNotFound)
      ensures users == old(users) - {id}
    {
      if id !in users {
        assert users - {id} == users;
        return Err(UserNotFound);
      }
      users := users - {id};
      return Ok(());
    }
  }

  class UserManager {
    const storage: DictUserStorage

    constructor (storage: DictUserStorage)
      ensures this.storage == storage
    {
      this.storage := storage;
    }

    /** The first of a hundred drawn ids that is not stored, else the six-digit fallback,
        which nobody checks here. */
    method GenerateUserId(draws: seq<UserId>, fallback: UserId) returns (id: UserId)
      requires |draws| == ID_ATTEMPTS
      ensures (id == fallback && forall d :: d in draws ==> d in storage.users) ||
              exists k: nat :: FirstFree(storage.users, draws, k) && id == draws[k]
    {
      for i := 0 to ID_ATTEMPTS
        invariant forall k :: 0 <= k < i ==> draws[k] in storage.users
      {
        if draws[i] !in storage.users {
          assert FirstFree(storage.users, draws, i);
          return draws[i];
        }
      }
      return fallback;
    }

    /** A duplicate comes only from the unchecked fallback, after a hundred collisions. */
    method AddUser(endpoint: string, draws: seq<UserId>, fallback: UserId) returns (r: Result<UserId, ServerError>)
      requires |draws| == ID_ATTEMPTS
      modifies storage
      ensures match r
              case Ok(id) =>
                && id !in old(storage.users)
                && storage.users == old(storage.users)[id := User(endpoint, Idle, None)]
                && ((id == fallback && forall d :: d in draws ==> d in old(storage.users)) ||
                    exists k: nat :: FirstFree(old(storage.users), draws, k) && id == draws[k])
              case Err(e) =>
                && e == DuplicateUser && storage.users == old(storage.users)
                && fallback in storage.users && forall d :: d in draws ==> d in storage.users
    {
      var id := GenerateUserId(draws, fallback);
      var added := storage.Add(id, User(endpoint, Idle, None));
      match added {
        case Ok(_) => r := Ok(id);
        case Err(e) => r := Err(e);
      }
    }

    method SetUserState(id: UserId, state: UserState, peer: Option<UserId>) returns (r: Result<(), ServerError>)
      modifies storage
      ensures r == if (state == Idle) != (peer == None) then Err(InvalidState)
                   else if id !in old(storage.users) then Err(UserNotFound) else Ok(())
      ensures r.Err? ==> storage.users == old(storage.users)
      ensures r.Ok? ==>
                && storage.users.Keys == old(storage.users).Keys
                && storage.users[id] == User(old(storage.users)[id].apiEndpoint, state, peer)
                && forall w :: w in storage.users && w != id ==> storage.users[w] == old(storage.users)[w]
      ensures match WithState(old(storage.users), id, state, peer)
              case Ok(users) => r == Ok(()) && storage.users == users
              case Err(e) => r == Err(e) && storage.users == old(storage.users)
    {
      if (state == Idle) != (peer == None) {
        return Err(InvalidState);
      }
      var info := storage.Get(id);
      if info.Err? {
        return Err(info.error);
      }
      r := storage.Update(id, info.value.(state := state, peer := peer));
    }

    method RemoveUser(id: UserId)
      modifies storage
      ensures storage.users == old(storage.users) - {id}
    {
      var _ := storage.Remove(id);
    }
  }
}
