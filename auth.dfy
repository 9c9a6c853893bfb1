/**
 * The `verifyHost` middleware (backend/middleware/auth.js) that guards the
 * host-only room routes: it reads the store and lets a request through only
 * when the `Authorization` token belongs to the admin of the room.
 */
module Auth {
  import opened Util
  import opened RoomPlayers
  import opened StoreModel

  /** `next()` or the refusal `verifyHost` sends. */
  datatype AuthResult =
    | Next          // the handler runs
    | NoToken       // 401 'No token provided.'
    | RoomMissing   // 404 'Room not found.'
    | NotInRoom     // 404 'Player not found in this room.'
    | NotAdmin      // 403 'Only the host can perform this action.'

  function Status(r: AuthResult): int {
    match r
    case Next => 200
    case NoToken => 401
    case RoomMissing => 404
    case NotInRoom => 404
    case NotAdmin => 403
  }

  /**
   * The checks in their order: a token at all, the room, the first player of
   * the room carrying the token, and that player's role.
   */
  function VerifyHost(rooms: map<RoomId, Room>, roomId: RoomId, token: Token): (r: AuthResult)
    ensures r == NoToken <==> token == ""
    ensures r == RoomMissing <==> token != "" && roomId !in rooms
    ensures r == NotInRoom <==> token != "" && roomId in rooms && token !in TokenSet(rooms[roomId].players)
    ensures r == NotAdmin || r == Next ==>
      roomId in rooms && 0 <= TokenIndex(rooms[roomId].players, token) &&
      rooms[roomId].players[TokenIndex(rooms[roomId].players, token)].token == token
    ensures r == Next <==>
      token != "" && roomId in rooms && 0 <= TokenIndex(rooms[roomId].players, token) &&
      rooms[roomId].players[TokenIndex(rooms[roomId].players, token)].role == Admin
  {
    if token == "" then NoToken
    else if roomId !in rooms then RoomMissing
    else
      var ps := rooms[roomId].players;
      TokenIndexIff(ps, token);
      var k := TokenIndex(ps, token);
      if k < 0 then NotInRoom
      else if ps[k].role != Admin then NotAdmin
      else Next
  }

  /**
   * In a store that keeps its invariant (one entry per token in a room), the
   * guard lets exactly the room's admin through, and the admin is ready.
   */
  lemma VerifyHostAdmitsExactlyTheAdmin(rooms: map<RoomId, Room>, roomId: RoomId, token: Token)
    requires ValidRooms(rooms)
    ensures VerifyHost(rooms, roomId, token) == Next <==>
      token != "" && roomId in rooms &&
      exists k :: 0 <= k < |rooms[roomId].players| &&
        rooms[roomId].players[k].token == token && rooms[roomId].players[k].role == Admin
    ensures VerifyHost(rooms, roomId, token) == Next ==>
      forall k :: 0 <= k < |rooms[roomId].players| && rooms[roomId].players[k].token == token ==>
        rooms[roomId].players[k].isReady
  {
    if token != "" && roomId in rooms {
      var ps := rooms[roomId].players;
      var i := TokenIndex(ps, token);
      if k :| 0 <= k < |ps| && ps[k].token == token && ps[k].role == Admin {
        assert i == k;
      }
    }
  }
}
