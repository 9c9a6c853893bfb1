/**
 * The player list of one room (the `players` array of a room object in
 * backend/state/stateManager.js) as a value, the invariant every room keeps
 * (one admin, admins ready, one entry per token) and the list
 * transformations the store applies, each with the lemma that it keeps the
 * invariant.
 */
module RoomPlayers {
  import opened Util

  /** The `role` string of a room player: 'admin' or 'player'. */
  datatype Role = Admin | Player

  /** The `gameData` record that `startGame` gives every player. */
  datatype GameData = GameData(time: int, streak: int, isEliminated: bool)

  /** One entry of a room's `players` array. */
  datatype RoomPlayer = RoomPlayer(
    name: string,
    score: int,
    role: Role,
    socketId: string,
    isReady: bool,
    token: string,
    disconnected: bool,
    gameData: Option<GameData>)

  /** The `gameData` value set by `startGame`: 10 s, no streak, not eliminated. */
  const InitialGameData := GameData(10, 0, false)

  function AdminIndicator(p: RoomPlayer): nat {
    if p.role == Admin then 1 else 0
  }

  /** The number of players whose role is 'admin'. */
  function AdminCount(ps: seq<RoomPlayer>): nat {
    if ps == [] then 0 else AdminIndicator(ps[0]) + AdminCount(ps[1..])
  }

  /** The admin is always ready (the client cannot toggle it). */
  predicate AdminsReady(ps: seq<RoomPlayer>) {
    forall i :: 0 <= i < |ps| && ps[i].role == Admin ==> ps[i].isReady
  }

  /** `addPlayerToRoom` never appends a second entry for a token. */
  predicate UniqueTokens(ps: seq<RoomPlayer>) {
    forall i, j :: 0 <= i < j < |ps| ==> ps[i].token != ps[j].token
  }

  /** The invariant of every room held by the store. */
  predicate WellFormed(ps: seq<RoomPlayer>) {
    |ps| > 0 && AdminCount(ps) == 1 && AdminsReady(ps) && UniqueTokens(ps)
  }

  function TokenSet(ps: seq<RoomPlayer>): set<string> {
    set i | 0 <= i < |ps| :: ps[i].token
  }

  function TokenIndex(ps: seq<RoomPlayer>, token: string): int {
    FirstIndex(ps, (p: RoomPlayer) => p.token == token)
  }

  function SocketIndex(ps: seq<RoomPlayer>, socketId: string): int {
    FirstIndex(ps, (p: RoomPlayer) => p.socketId == socketId)
  }

  function NameIndex(ps: seq<RoomPlayer>, name: string): int {
    FirstIndex(ps, (p: RoomPlayer) => p.name == name)
  }

  /** Finding a token by `find` succeeds exactly for the tokens of the list. */
  lemma TokenIndexIff(ps: seq<RoomPlayer>, token: string)
    ensures TokenIndex(ps, token) >= 0 <==> token in TokenSet(ps)
  {
    if token in TokenSet(ps) {
      var i :| 0 <= i < |ps| && ps[i].token == token;
      var p := (q: RoomPlayer) => q.token == token;
      assert p(ps[i]);
    }
  }

  // ---------------------------------------------------------------------
  // Counting admins

  lemma {:induction false} AdminCountNoneIff(ps: seq<RoomPlayer>)
    ensures AdminCount(ps) == 0 <==> forall k :: 0 <= k < |ps| ==> ps[k].role != Admin
  {
    if ps != [] {
      AdminCountNoneIff(ps[1..]);
      if AdminCount(ps) == 0 {
        forall k | 0 <= k < |ps| ensures ps[k].role != Admin {
          if k > 0 { assert ps[k] == ps[1..][k - 1]; }
        }
      } else if ps[0].role != Admin {
        var k :| 0 <= k < |ps[1..]| && ps[1..][k].role == Admin;
        assert ps[k + 1].role == Admin;
      }
    }
  }

  lemma {:induction false} AdminCountRemoveAt(ps: seq<RoomPlayer>, i: nat)
    requires i < |ps|
    ensures AdminCount(RemoveAt(ps, i)) + AdminIndicator(ps[i]) == AdminCount(ps)
  {
    if i > 0 {
      assert RemoveAt(ps, i) == [ps[0]] + RemoveAt(ps[1..], i - 1);
      AdminCountRemoveAt(ps[1..], i - 1);
    } else {
      assert RemoveAt(ps, 0) == ps[1..];
    }
  }

  lemma {:induction false} AdminCountUpdate(ps: seq<RoomPlayer>, i: nat, p: RoomPlayer)
    requires i < |ps|
    ensures AdminCount(ps[i := p]) + AdminIndicator(ps[i]) == AdminCount(ps) + AdminIndicator(p)
  {
    if i > 0 {
      assert ps[i := p][1..] == ps[1..][i - 1 := p];
      AdminCountUpdate(ps[1..], i - 1, p);
    } else {
      assert ps[0 := p][1..] == ps[1..];
    }
  }

  lemma {:induction false} AdminCountAppend(ps: seq<RoomPlayer>, p: RoomPlayer)
    ensures AdminCount(ps + [p]) == AdminCount(ps) + AdminIndicator(p)
  {
    if ps != [] {
      assert (ps + [p])[1..] == ps[1..] + [p];
      AdminCountAppend(ps[1..], p);
    }
  }

  /** Two lists with the same roles position by position count the same admins. */
  lemma {:induction false} AdminCountSameRoles(a: seq<RoomPlayer>, b: seq<RoomPlayer>)
    requires |a| == |b|
    requires forall k :: 0 <= k < |a| ==> a[k].role == b[k].role
    ensures AdminCount(a) == AdminCount(b)
  {
    if a != [] {
      AdminCountSameRoles(a[1..], b[1..]);
    }
  }

  /** With exactly one admin, every other player is a plain 'player'. */
  lemma AdminUnique(ps: seq<RoomPlayer>, k: nat)
    requires k < |ps| && ps[k].role == Admin && AdminCount(ps) == 1
    ensures forall j :: 0 <= j < |ps| && j != k ==> ps[j].role == Player
  {
    AdminCountRemoveAt(ps, k);
    AdminCountNoneIff(RemoveAt(ps, k));
    forall j | 0 <= j < |ps| && j != k ensures ps[j].role == Player {
      if j < k { assert RemoveAt(ps, k)[j] == ps[j]; }
      else { assert RemoveAt(ps, k)[j - 1] == ps[j]; }
    }
  }

  /** `k` is the position of the one and only admin. */
  predicate SoleAdminAt(ps: seq<RoomPlayer>, k: int) {
    0 <= k < |ps| && ps[k].role == Admin &&
    forall j :: 0 <= j < |ps| && ps[j].role == Admin ==> j == k
  }

  /** `AdminCount(ps) == 1` says exactly what "one admin" means. */
  lemma ExactlyOneAdminIff(ps: seq<RoomPlayer>)
    ensures AdminCount(ps) == 1 <==> exists k :: SoleAdminAt(ps, k)
  {
    if AdminCount(ps) == 1 {
      AdminCountNoneIff(ps);
      var k :| 0 <= k < |ps| && ps[k].role == Admin;
      AdminUnique(ps, k);
      assert SoleAdminAt(ps, k);
    } else if k :| SoleAdminAt(ps, k) {
      AdminCountRemoveAt(ps, k);
      var rest := RemoveAt(ps, k);
      forall j | 0 <= j < |rest| ensures rest[j].role != Admin {
        if j < k { assert rest[j] == ps[j]; } else { assert rest[j] == ps[j + 1]; }
      }
      AdminCountNoneIff(rest);
    }
  }

  // ---------------------------------------------------------------------
  // Transformations that keep every role and token

  /** Same length, and at every position the same role and the same token. */
  predicate SameRolesAndTokens(a: seq<RoomPlayer>, b: seq<RoomPlayer>) {
    |a| == |b| && forall k :: 0 <= k < |a| ==> a[k].role == b[k].role && a[k].token == b[k].token
  }

  /**
   * An update that changes no role and no token keeps the invariant as long as
   * the admin stays ready: readiness of plain players, scores, socket ids,
   * disconnected flags and game data are free.
   */
  lemma SameRolesKeepWellFormed(a: seq<RoomPlayer>, b: seq<RoomPlayer>)
    requires WellFormed(a) && SameRolesAndTokens(a, b) && AdminsReady(b)
    ensures WellFormed(b)
  {
    AdminCountSameRoles(a, b);
  }

  /** Reconnection: the entry at `k` gets a new socket id and is connected again. */
  function Reattached(ps: seq<RoomPlayer>, k: nat, socketId: string): seq<RoomPlayer>
    requires k < |ps|
  {
    ps[k := ps[k].(socketId := socketId, disconnected := false)]
  }

  lemma ReattachedWellFormed(ps: seq<RoomPlayer>, k: nat, socketId: string)
    requires WellFormed(ps) && k < |ps|
    ensures WellFormed(Reattached(ps, k, socketId))
    ensures |Reattached(ps, k, socketId)| == |ps| && TokenSet(Reattached(ps, k, socketId)) == TokenSet(ps)
  {
    var r := Reattached(ps, k, socketId);
    SameRolesKeepWellFormed(ps, r);
    assert forall i :: 0 <= i < |ps| ==> r[i].token == ps[i].token;
    assert TokenSet(r) == TokenSet(ps) by {
      forall t | t in TokenSet(ps) ensures t in TokenSet(r) {
        var i :| 0 <= i < |ps| && ps[i].token == t;
        assert r[i].token == t;
      }
    }
  }

  /** `setPlayerReadyStatusInRoom` on the entry at `k`: admins keep their flag. */
  function ReadySet(ps: seq<RoomPlayer>, k: nat, isReady: bool): seq<RoomPlayer>
    requires k < |ps|
  {
    if ps[k].role == Admin then ps else ps[k := ps[k].(isReady := isReady)]
  }

  lemma ReadySetWellFormed(ps: seq<RoomPlayer>, k: nat, isReady: bool)
    requires WellFormed(ps) && k < |ps|
    ensures WellFormed(ReadySet(ps, k, isReady))
  {
    SameRolesKeepWellFormed(ps, ReadySet(ps, k, isReady));
  }

  /** `setPlayerDisconnected` on the entry at `k`. */
  function DisconnectedSet(ps: seq<RoomPlayer>, k: nat, flag: bool): seq<RoomPlayer>
    requires k < |ps|
  {
    ps[k := ps[k].(disconnected := flag)]
  }

  lemma DisconnectedSetWellFormed(ps: seq<RoomPlayer>, k: nat, flag: bool)
    requires WellFormed(ps) && k < |ps|
    ensures WellFormed(DisconnectedSet(ps, k, flag))
  {
    SameRolesKeepWellFormed(ps, DisconnectedSet(ps, k, flag));
  }

  /** `updatePlayerScore` on the entry at `k`. */
  function ScoreSet(ps: seq<RoomPlayer>, k: nat, score: int): seq<RoomPlayer>
    requires k < |ps|
  {
    ps[k := ps[k].(score := score)]
  }

  lemma ScoreSetWellFormed(ps: seq<RoomPlayer>, k: nat, score: int)
    requires WellFormed(ps) && k < |ps|
    ensures WellFormed(ScoreSet(ps, k, score))
  {
    SameRolesKeepWellFormed(ps, ScoreSet(ps, k, score));
  }

  /** What `resetReadyStatusInRoom` makes of one player. */
  function ResetOne(p: RoomPlayer): RoomPlayer {
    p.(isReady := p.role == Admin)
  }

  /** What `startGame` makes of one player. */
  function StartOne(p: RoomPlayer): RoomPlayer {
    p.(score := 0, gameData := Some(InitialGameData))
  }

  /** Every player after `resetReadyStatusInRoom`, as one value. */
  function ResetAll(ps: seq<RoomPlayer>): (r: seq<RoomPlayer>)
    ensures |r| == |ps|
  {
    seq(|ps|, k requires 0 <= k < |ps| => ResetOne(ps[k]))
  }

  /** Every player after `startGame`, as one value. */
  function StartAll(ps: seq<RoomPlayer>): (r: seq<RoomPlayer>)
    ensures |r| == |ps|
  {
    seq(|ps|, k requires 0 <= k < |ps| => StartOne(ps[k]))
  }

  /** After a reset admins are ready and nobody else is; roles are untouched. */
  lemma ResetAllProperties(ps: seq<RoomPlayer>)
    requires WellFormed(ps)
    ensures WellFormed(ResetAll(ps))
    ensures forall k :: 0 <= k < |ps| ==>
      ResetAll(ps)[k].role == ps[k].role && (ResetAll(ps)[k].isReady <==> ps[k].role == Admin)
  {
    SameRolesKeepWellFormed(ps, ResetAll(ps));
  }

  /** A start zeroes every score and keeps roles and readiness. */
  lemma StartAllProperties(ps: seq<RoomPlayer>)
    requires WellFormed(ps)
    ensures WellFormed(StartAll(ps))
    ensures forall k :: 0 <= k < |ps| ==>
      StartAll(ps)[k].score == 0 && StartAll(ps)[k].role == ps[k].role &&
      StartAll(ps)[k].isReady == ps[k].isReady && StartAll(ps)[k].gameData == Some(InitialGameData)
  {
    SameRolesKeepWellFormed(ps, StartAll(ps));
  }

  // ---------------------------------------------------------------------
  // Joining

  /** The entry appended by `addPlayerToRoom` for a newcomer (not the host). */
  function NewcomerEntry(name: string, socketId: string, token: string): RoomPlayer {
    RoomPlayer(name, 0, Player, socketId, false, token, false, None)
  }

  /** The entry `createRoom` makes for the host. */
  function HostEntry(name: string, socketId: string, token: string): RoomPlayer {
    RoomPlayer(name, 0, Admin, socketId, true, token, false, None)
  }

  lemma HostOnlyWellFormed(name: string, socketId: string, token: string)
    ensures WellFormed([HostEntry(name, socketId, token)])
  {
    assert [HostEntry(name, socketId, token)][1..] == [];
  }

  /** Appending a newcomer whose token is not yet present keeps the invariant. */
  lemma AppendNewcomerWellFormed(ps: seq<RoomPlayer>, name: string, socketId: string, token: string)
    requires WellFormed(ps) && TokenIndex(ps, token) == -1
    ensures WellFormed(ps + [NewcomerEntry(name, socketId, token)])
    ensures TokenSet(ps + [NewcomerEntry(name, socketId, token)]) == TokenSet(ps) + {token}
  {
    var p := NewcomerEntry(name, socketId, token);
    var r := ps + [p];
    AdminCountAppend(ps, p);
    assert forall j :: 0 <= j < |ps| ==> ps[j].token != token;
    assert forall j :: 0 <= j < |ps| ==> r[j] == ps[j];
    assert TokenSet(r) == TokenSet(ps) + {token} by {
      forall t | t in TokenSet(r) ensures t in TokenSet(ps) + {token} {
        var i :| 0 <= i < |r| && r[i].token == t;
        if i < |ps| { assert ps[i].token == t; }
      }
      assert r[|ps|].token == token;
    }
  }

  // ---------------------------------------------------------------------
  // Leaving

  /** `players[0]` becomes admin and ready. */
  function PromoteFirst(ps: seq<RoomPlayer>): seq<RoomPlayer>
    requires |ps| > 0
  {
    ps[0 := ps[0].(role := Admin, isReady := true)]
  }

  /**
   * The list after `splice(i, 1)` in either remove function, including the
   * promotion of the new first player when the removed one was the admin.
   */
  function AfterRemoval(ps: seq<RoomPlayer>, i: nat): seq<RoomPlayer>
    requires i < |ps|
  {
    var rest := RemoveAt(ps, i);
    if rest != [] && ps[i].role == Admin then PromoteFirst(rest) else rest
  }

  /**
   * Removing one player from a room that keeps at least one removes exactly that
   * player's token and keeps the invariant. The others stay in order and
   * unchanged, except that when the admin left, the new first player becomes
   * the admin and ready.
   */
  lemma AfterRemovalProperties(ps: seq<RoomPlayer>, i: nat)
    requires WellFormed(ps) && i < |ps| && |ps| > 1
    ensures WellFormed(AfterRemoval(ps, i))
    ensures |AfterRemoval(ps, i)| == |ps| - 1
    ensures TokenSet(AfterRemoval(ps, i)) == TokenSet(ps) - {ps[i].token}
    ensures ps[i].role == Admin ==>
      && AfterRemoval(ps, i)[0] == RemoveAt(ps, i)[0].(role := Admin, isReady := true)
      && forall k :: 0 < k < |ps| - 1 ==> AfterRemoval(ps, i)[k] == RemoveAt(ps, i)[k]
    ensures ps[i].role != Admin ==> AfterRemoval(ps, i) == RemoveAt(ps, i)
  {
    var rest := RemoveAt(ps, i);
    var r := AfterRemoval(ps, i);
    AdminCountRemoveAt(ps, i);
    assert forall k :: 0 <= k < |r| ==> r[k].token == rest[k].token;
    assert UniqueTokens(rest) by {
      forall a, b | 0 <= a < b < |rest| ensures rest[a].token != rest[b].token {
        var a' := if a < i then a else a + 1;
        var b' := if b < i then b else b + 1;
        assert rest[a] == ps[a'] && rest[b] == ps[b'];
      }
    }
    if ps[i].role == Admin {
      AdminCountNoneIff(rest);
      AdminCountUpdate(rest, 0, rest[0].(role := Admin, isReady := true));
      assert forall k :: 0 < k < |r| ==> r[k] == rest[k];
    } else {
      assert AdminsReady(rest) by {
        forall k | 0 <= k < |rest| && rest[k].role == Admin ensures rest[k].isReady {
          if k < i { assert rest[k] == ps[k]; } else { assert rest[k] == ps[k + 1]; }
        }
      }
    }
    assert TokenSet(r) == TokenSet(ps) - {ps[i].token} by {
      forall t | t in TokenSet(r) ensures t in TokenSet(ps) - {ps[i].token} {
        var k :| 0 <= k < |r| && r[k].token == t;
        var k' := if k < i then k else k + 1;
        assert rest[k] == ps[k'];
      }
      forall t | t in TokenSet(ps) - {ps[i].token} ensures t in TokenSet(r) {
        var k :| 0 <= k < |ps| && ps[k].token == t;
        assert k != i;
        var k' := if k < i then k else k - 1;
        assert rest[k'] == ps[k] && r[k'].token == t;
      }
    }
  }

  // ---------------------------------------------------------------------
  // Host transfer

  /** `makeHostInRoom` once both entries are found: demote `c`, then promote `t`. */
  function Transferred(ps: seq<RoomPlayer>, c: nat, t: nat): seq<RoomPlayer>
    requires c < |ps| && t < |ps|
  {
    var demoted := ps[c := ps[c].(role := Player, isReady := false)];
    demoted[t := demoted[t].(role := Admin, isReady := true)]
  }

  /**
   * A transfer from the admin `c` to `t` keeps the invariant; `t` ends admin
   * and ready, `c` (when another player) ends a plain player and not ready,
   * and nobody else changes.
   */
  lemma TransferredProperties(ps: seq<RoomPlayer>, c: nat, t: nat)
    requires WellFormed(ps) && c < |ps| && t < |ps| && ps[c].role == Admin
    ensures WellFormed(Transferred(ps, c, t))
    ensures |Transferred(ps, c, t)| == |ps|
    ensures Transferred(ps, c, t)[t] == ps[t].(role := Admin, isReady := true)
    ensures c != t ==> Transferred(ps, c, t)[c] == ps[c].(role := Player, isReady := false)
    ensures c == t ==> Transferred(ps, c, t) == ps
    ensures forall k :: 0 <= k < |ps| && k != c && k != t ==> Transferred(ps, c, t)[k] == ps[k]
  {
    var demoted := ps[c := ps[c].(role := Player, isReady := false)];
    var r := Transferred(ps, c, t);
    AdminUnique(ps, c);
    AdminCountUpdate(ps, c, demoted[c]);
    AdminCountUpdate(demoted, t, demoted[t].(role := Admin, isReady := true));
    assert forall k :: 0 <= k < |ps| ==> r[k].token == ps[k].token;
    if c == t {
      assert ps[c].isReady;
      assert r[c] == ps[c];
      assert r == ps;
    }
  }

  /**
   * Handing the host role back undoes a transfer exactly when the target was
   * not ready before it (the transfer makes the target ready, and handing back
   * makes them not ready).
   */
  lemma TransferredBack(ps: seq<RoomPlayer>, c: nat, t: nat)
    requires WellFormed(ps) && c < |ps| && t < |ps| && c != t && ps[c].role == Admin
    ensures Transferred(Transferred(ps, c, t), t, c) == ps <==> !ps[t].isReady
  {
    var once := Transferred(ps, c, t);
    TransferredProperties(ps, c, t);
    TransferredProperties(once, t, c);
    AdminUnique(ps, c);
    var twice := Transferred(once, t, c);
    if !ps[t].isReady {
      assert forall k :: 0 <= k < |ps| ==> twice[k] == ps[k];
    } else {
      assert twice[t] != ps[t];
    }
  }

  /** The socket id of every entry survives a transfer, so `find` by socket id does too. */
  lemma TransferredKeepsSocketIndex(ps: seq<RoomPlayer>, c: nat, t: nat, socketId: string)
    requires c < |ps| && t < |ps|
    ensures SocketIndex(Transferred(ps, c, t), socketId) == SocketIndex(ps, socketId)
  {
    FirstIndexAgrees(Transferred(ps, c, t), (p: RoomPlayer) => p.socketId == socketId,
                     ps, (p: RoomPlayer) => p.socketId == socketId);
  }

  /** After a reset, everybody is ready exactly when the admin is alone. */
  lemma ResetAllReadyIff(ps: seq<RoomPlayer>)
    requires WellFormed(ps)
    ensures (forall k :: 0 <= k < |ps| ==> ResetAll(ps)[k].isReady) <==> |ps| == 1
  {
    ExactlyOneAdminIff(ps);
    var a :| SoleAdminAt(ps, a);
    if |ps| > 1 {
      var other := if a == 0 then 1 else 0;
      assert ps[other].role != Admin;
      assert !ResetAll(ps)[other].isReady;
    }
  }
}
