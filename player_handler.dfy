/** Player movement: a key press picks a unit step, and every entity carrying
    the player marker moves by it, each axis clamped to the 80-by-50 screen.
    The entity store is modelled as a positions array and a parallel array of
    player markers, both indexed by entity id. */
module PlayerHandler {

  /** An entity's cell on the screen. */
  datatype Position = Position(x: int, y: int)

  /** A requested step. */
  datatype Delta = Delta(dx: int, dy: int)

  datatype Option<T> = None | Some(value: T)

  /** The keys movement responds to; `OtherKey` stands for every other key code. */
  datatype Key = A | Left | H | D | Right | L | W | Up | K | S | Down | J | OtherKey

  /** Largest column and row a player may occupy. */
  const MaxX: int := 79
  const MaxY: int := 49

  function Min(a: int, b: int): int
  {
    if a <= b then a else b
  }

  function Max(a: int, b: int): int
  {
    if a <= b then b else a
  }

  /** `min(hi, max(0, v))`: v pulled into [0, hi]. */
  function Clamp(v: int, hi: int): (r: int)
    requires 0 <= hi
    ensures 0 <= r <= hi
    ensures 0 <= v <= hi ==> r == v
    ensures v < 0 ==> r == 0
    ensures hi < v ==> r == hi
  {
    Min(hi, Max(0, v))
  }

  /** Where a player at p ends up after the step (dx, dy): on the screen, and
      exactly at the target on every axis where the target is on the screen. */
  function Moved(p: Position, dx: int, dy: int): (q: Position)
    ensures 0 <= q.x <= MaxX && 0 <= q.y <= MaxY
    ensures 0 <= p.x + dx <= MaxX ==> q.x == p.x + dx
    ensures 0 <= p.y + dy <= MaxY ==> q.y == p.y + dy
  {
    Position(Clamp(p.x + dx, MaxX), Clamp(p.y + dy, MaxY))
  }

  /** The axes are clamped independently: the new x depends only on the old x
      and dx, the new y only on the old y and dy. */
  lemma MovedAxesIndependent(p: Position, p': Position, dx: int, dy: int, dx': int, dy': int)
    ensures p.x == p'.x && dx == dx' ==> Moved(p, dx, dy).x == Moved(p', dx', dy').x
    ensures p.y == p'.y && dy == dy' ==> Moved(p, dx, dy).y == Moved(p', dx', dy').y
  {
  }

  /** A player on the left edge stepping left, or on the bottom edge stepping
      down, stays where it is. */
  lemma MovedBlockedAtEdges(p: Position)
    requires 0 <= p.x <= MaxX && 0 <= p.y <= MaxY
    ensures p.x == 0 ==> Moved(p, -1, 0) == p
    ensures p.y == MaxY ==> Moved(p, 0, 1) == p
  {
  }

  /** `after` is `before` with every player moved by (dx, dy) and every other
      entity left where it was. */
  ghost predicate Stepped(before: seq<Position>, after: seq<Position>, isPlayer: seq<bool>, dx: int, dy: int)
  {
    && |before| == |after| == |isPlayer|
    && forall k :: 0 <= k < |before| ==>
         after[k] == if isPlayer[k] then Moved(before[k], dx, dy) else before[k]
  }

  /** After a step every player is on the screen, and every entity without the
      player marker has kept its position. */
  lemma SteppedPlayersOnScreen(before: seq<Position>, after: seq<Position>, isPlayer: seq<bool>, dx: int, dy: int)
    requires Stepped(before, after, isPlayer, dx, dy)
    ensures forall k :: 0 <= k < |after| && isPlayer[k] ==> 0 <= after[k].x <= MaxX && 0 <= after[k].y <= MaxY
    ensures forall k :: 0 <= k < |after| && !isPlayer[k] ==> after[k] == before[k]
  {
  }

  /** try_move_player: moves every player entity by (dx, dy) in place. */
  method TryMovePlayer(dx: int, dy: int, positions: array<Position>, isPlayer: array<bool>)
    requires positions.Length == isPlayer.Length
    modifies positions
    ensures Stepped(old(positions[..]), positions[..], isPlayer[..], dx, dy)
  {
    for k := 0 to positions.Length
      invariant forall j :: 0 <= j < k ==>
        positions[j] == if isPlayer[j] then Moved(old(positions[j]), dx, dy) else old(positions[j])
      invariant forall j :: k <= j < positions.Length ==> positions[j] == old(positions[j])
    {
      if isPlayer[k] {
        var pos := positions[k];
        positions[k] := Position(Min(MaxX, Max(0, pos.x + dx)), Min(MaxY, Max(0, pos.y + dy)));
      }
    }
  }

  /** The step a key press asks for: none without a key or for an unbound key,
      otherwise a unit step along exactly one axis. */
  function KeyDelta(key: Option<Key>): (d: Option<Delta>)
    ensures d.None? <==> key.None? || key.value == OtherKey
    ensures d.Some? ==> (d.value.dx == 0) != (d.value.dy == 0)
    ensures d.Some? ==> -1 <= d.value.dx <= 1 && -1 <= d.value.dy <= 1
  {
    match key
    case None => None
    case Some(k) =>
      match k
      case A | Left | H => Some(Delta(-1, 0))
      case D | Right | L => Some(Delta(1, 0))
      case W | Up | K => Some(Delta(0, -1))
      case S | Down | J => Some(Delta(0, 1))
      case OtherKey => None
  }

  /** The twelve bindings: A, Left and H step left; D, Right and L right;
      W, Up and K up; S, Down and J down. */
  lemma KeyBindings()
    ensures KeyDelta(Some(A)) == KeyDelta(Some(Left)) == KeyDelta(Some(H)) == Some(Delta(-1, 0))
    ensures KeyDelta(Some(D)) == KeyDelta(Some(Right)) == KeyDelta(Some(L)) == Some(Delta(1, 0))
    ensures KeyDelta(Some(W)) == KeyDelta(Some(Up)) == KeyDelta(Some(K)) == Some(Delta(0, -1))
    ensures KeyDelta(Some(S)) == KeyDelta(Some(Down)) == KeyDelta(Some(J)) == Some(Delta(0, 1))
  {
  }

  /** get_player_input: dispatches the pressed key, if any, to a move. No key,
      or an unbound key, leaves every position unchanged. */
  method GetPlayerInput(key: Option<Key>, positions: array<Position>, isPlayer: array<bool>)
    requires positions.Length == isPlayer.Length
    modifies positions
    ensures KeyDelta(key).None? ==> positions[..] == old(positions[..])
    ensures KeyDelta(key).Some? ==>
      Stepped(old(positions[..]), positions[..], isPlayer[..], KeyDelta(key).value.dx, KeyDelta(key).value.dy)
  {
    match key {
      case None =>
      case Some(k) =>
        match k {
          case A | Left | H => TryMovePlayer(-1, 0, positions, isPlayer);
          case D | Right | L => TryMovePlayer(1, 0, positions, isPlayer);
          case W | Up | K => TryMovePlayer(0, -1, positions, isPlayer);
          case S | Down | J => TryMovePlayer(0, 1, positions, isPlayer);
          case OtherKey =>
        }
    }
  }
}
