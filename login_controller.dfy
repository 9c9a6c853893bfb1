/**
 * `handleLogin` (backend/controllers/loginController.js): a known token
 * reconnects, an unknown token is registered again unless its name is taken,
 * and a login without a token is given a new one unless its name is taken.
 * `Login` is the decision on the registry as a value; `HandleLogin` performs
 * it on the store.
 */
module LoginController {
  import opened Util
  import opened StoreModel
  import opened StateManager

  /** The responses of `handleLogin`. */
  datatype LoginResponse =
    | MissingFields                          // 400: name or socketId missing
    | NameInUse                              // 409: another entry has the name
    | Reconnected(player: RegisteredPlayer)  // 200: the entry of the token, `roomId: null` when it has none
    | ReRegistered(player: RegisteredPlayer) // 200: an unknown token registered again
    | LoggedIn(player: RegisteredPlayer)     // 201: a new entry under a new token

  function Status(r: LoginResponse): int {
    match r
    case MissingFields => 400
    case NameInUse => 409
    case Reconnected(_) => 200
    case ReRegistered(_) => 200
    case LoggedIn(_) => 201
  }

  const HexDigits := "0123456789abcdef"

  /** The shape of `crypto.randomBytes(16).toString('hex')`: 32 lower-case hex digits. */
  predicate IsHexToken(t: string) {
    |t| == 32 && forall i :: 0 <= i < |t| ==> t[i] in HexDigits
  }

  /**
   * `handleLogin` on the registry `reg`; `freshToken` is the token the random
   * source produces for a login without one. A falsy field is "".
   */
  function Login(reg: map<Token, RegisteredPlayer>, name: string, socketId: string, token: Token, freshToken: Token)
    : (LoginResponse, map<Token, RegisteredPlayer>)
  {
    if name == "" || socketId == "" then (MissingFields, reg)
    else if token != "" && token in reg then
      var p := reg[token].(socketId := socketId);
      (Reconnected(p), reg[token := p])
    else if NameTaken(reg, name) then (NameInUse, reg)
    else if token != "" then
      var p := RegisteredPlayer(name, socketId, token, DefaultPage, false, None);
      (ReRegistered(p), reg[token := p])
    else
      var p := RegisteredPlayer(name, socketId, freshToken, DefaultPage, false, None);
      (LoggedIn(p), reg[freshToken := p])
  }

  /**
   * The answers of `handleLogin`: 400 exactly for a missing field; a known
   * token reconnects whatever name is sent, only moving the entry to the new
   * socket; otherwise 409 exactly when the name is taken. Otherwise an
   * unknown token sent is registered again under that token (200), and a
   * login without a token gets a new entry under the fresh one (201); either
   * entry is in the lobby page with no room. Refusals change nothing, and
   * names stay unique.
   */
  lemma LoginProperties(reg: map<Token, RegisteredPlayer>, name: string, socketId: string, token: Token,
                        freshToken: Token)
    requires ValidRegistry(reg) && freshToken != "" && freshToken !in reg
    ensures var (resp, next) := Login(reg, name, socketId, token, freshToken);
      && ValidRegistry(next)
      && (resp == MissingFields <==> name == "" || socketId == "")
      && (resp == NameInUse <==>
            name != "" && socketId != "" && (token == "" || token !in reg) && NameTaken(reg, name))
      && (resp.MissingFields? || resp.NameInUse? ==> next == reg)
      && (resp.Reconnected? <==> name != "" && socketId != "" && token != "" && token in reg)
      && (resp.ReRegistered? <==>
            name != "" && socketId != "" && token != "" && token !in reg && !NameTaken(reg, name))
      && (resp.LoggedIn? <==> name != "" && socketId != "" && token == "" && !NameTaken(reg, name))
      && (resp.Reconnected? ==>
            resp.player == reg[token].(socketId := socketId) && next == reg[token := resp.player])
      && (resp.ReRegistered? || resp.LoggedIn? ==>
            && resp.player == RegisteredPlayer(name, socketId, resp.player.token, DefaultPage, false, None)
            && resp.player.token != "" && resp.player.token !in reg
            && next == reg[resp.player.token := resp.player])
      && (resp.ReRegistered? ==> resp.player.token == token)
      && (resp.LoggedIn? ==> resp.player.token == freshToken)
      && (UniqueNames(reg) ==> UniqueNames(next))
  {
    var (resp, next) := Login(reg, name, socketId, token, freshToken);
    if UniqueNames(reg) && (resp.ReRegistered? || resp.LoggedIn?) {
      var t := resp.player.token;
      forall t1, t2 | t1 in next && t2 in next && t1 != t2 ensures next[t1].name != next[t2].name {
        if t1 == t {
          assert next[t2] == reg[t2];
        } else if t2 == t {
          assert next[t1] == reg[t1];
        }
      }
    }
  }

  /**
   * Whoever logged in successfully can come back with the token they were
   * given, under any name and socket: their entry is found and moves to the
   * new socket.
   */
  lemma LoginThenReconnect(reg: map<Token, RegisteredPlayer>, name: string, socketId: string, token: Token,
                           freshToken: Token, name': string, socketId': string, freshToken': Token)
    requires ValidRegistry(reg) && freshToken != "" && freshToken !in reg
    requires name' != "" && socketId' != ""
    requires var (resp, _) := Login(reg, name, socketId, token, freshToken); !resp.MissingFields? && !resp.NameInUse?
    ensures var (resp, next) := Login(reg, name, socketId, token, freshToken);
      Login(next, name', socketId', resp.player.token, freshToken').0 ==
        Reconnected(resp.player.(socketId := socketId'))
  {
    LoginProperties(reg, name, socketId, token, freshToken);
  }

  /**
   * `handleLogin` on the store: the registry takes the change `Login`
   * describes and the rooms are untouched.
   */
  method HandleLogin(store: Store, name: string, socketId: string, token: Token, freshToken: Token)
    returns (resp: LoginResponse)
    requires store.Valid()
    requires IsHexToken(freshToken) && freshToken !in store.registeredPlayers
    modifies store
    ensures store.Valid()
    ensures store.rooms == old(store.rooms)
    ensures (resp, store.registeredPlayers) == Login(old(store.registeredPlayers), name, socketId, token, freshToken)
  {
    if name == "" || socketId == "" {
      return MissingFields;
    }
    if token != "" {
      var player := store.FindRegisteredPlayerByToken(token);
      if player.Some? {
        var updated := store.UpdateRegisteredPlayerSocketId(token, socketId);
        return Reconnected(updated.value);
      }
      if NameTaken(store.registeredPlayers, name) {
        return NameInUse;
      }
      var entry := store.AddRegisteredPlayer(name, socketId, token, DefaultPage, false);
      return ReRegistered(entry);
    }
    if NameTaken(store.registeredPlayers, name) {
      return NameInUse;
    }
    var entry := store.AddRegisteredPlayer(name, socketId, freshToken, DefaultPage, false);
    return LoggedIn(entry);
  }
}
