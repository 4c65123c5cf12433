/** The snake: its state as a value, the functions that say what each of its
    operations does to that value, the invariant they keep, and the class
    whose methods update the fields in place. */
module Snakes {
  import opened Wrappers
  import opened Geometry
  import opened Controls

  /** Everything the snake object holds: the body cells head first, the
      length target, the current and the queued direction, and the cell most
      recently dropped from the tail. */
  datatype SnakeState = SnakeState(
    positions: seq<Pos>,
    length: int,
    direction: Direction,
    nextDirection: Option<Direction>,
    last: Option<Pos>)

  /** The snake at the start of the game: one cell at the centre, moving right. */
  const Initial: SnakeState := SnakeState([Center], 1, Right, None, None)

  predicate Distinct(cells: seq<Pos>)
  {
    forall i, j :: 0 <= i < j < |cells| ==> cells[i] != cells[j]
  }

  /** What every reachable snake satisfies: a non-empty body no longer than
      the length target, every cell on the grid, no cell twice. */
  predicate Inv(s: SnakeState)
  {
    && 1 <= |s.positions| <= s.length
    && (forall p :: p in s.positions ==> OnGrid(p))
    && Distinct(s.positions)
    && (s.last.Some? ==> OnGrid(s.last.value))
  }

  /** Back to one centre cell with length target 1, moving in `d` (the random
      choice); the queued direction and the dropped cell are kept. */
  function ResetState(s: SnakeState, d: Direction): (r: SnakeState)
    ensures Inv(s) ==> Inv(r)
  {
    s.(positions := [Center], length := 1, direction := d)
  }

  /** Drops the tail cell into `last` when the body is over its length target. */
  function Trimmed(s: SnakeState): (r: SnakeState)
    requires s.positions != []
    ensures r.positions != [] || s.length < 1
    ensures |r.positions| == (if |s.positions| > s.length then |s.positions| - 1 else |s.positions|)
    ensures r.positions == s.positions[..|r.positions|]
    ensures |s.positions| <= s.length + 1 ==> |r.positions| <= s.length
    ensures r.last == (if |r.positions| < |s.positions| then Some(s.positions[|s.positions| - 1]) else s.last)
    ensures r.(positions := s.positions, last := s.last) == s
  {
    var n := |s.positions|;
    if n > s.length then s.(positions := s.positions[..n - 1], last := Some(s.positions[n - 1]))
    else s
  }

  /** One tick of movement. The new head is the wrapped step in the current
      direction; if it is already part of the body the snake resets (moving
      in `resetDirection`), otherwise it is put in front. Then one tail cell
      is dropped if the body is over its length target. Moving keeps the
      invariant: the body never gets longer than the length target and stays
      on the grid without repeats. */
  function Moved(s: SnakeState, resetDirection: Direction): (r: SnakeState)
    requires s.positions != []
    ensures r.positions != []
    ensures Inv(s) ==> Inv(r)
  {
    var newHead := NextHead(s.positions[0], s.direction);
    Trimmed(if newHead in s.positions then ResetState(s, resetDirection)
            else s.(positions := [newHead] + s.positions))
  }

  /** Applies the queued direction, if any, and clears the queue; nothing
      else changes, and with nothing queued nothing changes at all. */
  function Steered(s: SnakeState): (r: SnakeState)
    ensures r.nextDirection == None
    ensures s.nextDirection.Some? ==> r.direction == s.nextDirection.value
    ensures s.nextDirection.None? ==> r == s
    ensures r.(direction := s.direction, nextDirection := s.nextDirection) == s
  {
    if s.nextDirection.Some? then s.(direction := s.nextDirection.value, nextDirection := None)
    else s
  }

  /** The snake after one frame's key events (before any quit request): only
      the queue changes, and it never comes to hold the reverse of the
      current direction. */
  function Queued(s: SnakeState, events: seq<Event>): (r: SnakeState)
    ensures r.(nextDirection := s.nextDirection) == s
    ensures s.nextDirection == None || s.nextDirection.value != Opposite(s.direction) ==>
              r.nextDirection == None || r.nextDirection.value != Opposite(s.direction)
  {
    var r := s.(nextDirection := QueueEvents(events, s.direction, s.nextDirection));
    if s.nextDirection == None || s.nextDirection.value != Opposite(s.direction) then
      QueueEventsNeverReverses(events, s.direction, s.nextDirection); r
    else r
  }

  /** Whether the head is on the apple. Only a cell of the body can be under
      the head, so for a reachable snake only an apple on the grid is eaten. */
  predicate Eats(s: SnakeState, apple: Pos)
    requires s.positions != []
    ensures Eats(s, apple) ==> apple in s.positions
    ensures Inv(s) && Eats(s, apple) ==> OnGrid(apple)
  {
    s.positions[0] == apple
  }

  /** Eating: the length target grows by exactly one when the head is on the
      apple and nothing else changes; the invariant is kept. */
  function Fed(s: SnakeState, apple: Pos): (r: SnakeState)
    requires s.positions != []
    ensures r.length == s.length + (if Eats(s, apple) then 1 else 0)
    ensures r.(length := s.length) == s
    ensures Inv(s) ==> Inv(r)
  {
    if Eats(s, apple) then s.(length := s.length + 1) else s
  }

  /** A move onto a free cell puts the new head in front of the old body,
      keeps the old body's order and drops at most its last cell, which is
      then the recorded `last`; nothing else changes. */
  lemma MovedWithoutCollision(s: SnakeState, d: Direction)
    requires s.positions != []
    requires NextHead(s.positions[0], s.direction) !in s.positions
    ensures var r := Moved(s, d);
            && r.positions != []
            && r.positions[0] == NextHead(s.positions[0], s.direction)
            && |r.positions| == (if |s.positions| + 1 > s.length then |s.positions| else |s.positions| + 1)
            && r.positions[1..] == s.positions[..|r.positions| - 1]
            && r.length == s.length && r.direction == s.direction
            && r.nextDirection == s.nextDirection
            && r.last == (if |s.positions| + 1 > s.length then Some(s.positions[|s.positions| - 1])
                          else s.last)
  {
  }

  /** A move onto the snake's own body resets it: one centre cell, length
      target 1, the chosen direction. */
  lemma MovedOnCollision(s: SnakeState, d: Direction)
    requires s.positions != []
    requires NextHead(s.positions[0], s.direction) in s.positions
    ensures var r := Moved(s, d);
            && r.positions == [Center] && r.length == 1 && r.direction == d
            && r.nextDirection == s.nextDirection && r.last == s.last
  {
  }

  /** Applying the queue empties it, so a second application changes
      nothing. */
  lemma SteeredIdempotent(s: SnakeState)
    ensures Steered(Steered(s)) == Steered(s)
  {
  }

  /** Handling a frame's keys and then applying the queue never turns the
      snake around onto itself. */
  lemma SteeredAfterKeysNeverReverses(s: SnakeState, events: seq<Event>)
    requires s.nextDirection == None || s.nextDirection.value != Opposite(s.direction)
    ensures Steered(Queued(s, events)).direction != Opposite(s.direction)
  {
  }

  /** The collision test looks at the whole body, including the tail cell the
      same move would drop: a snake of four cells going round a square of
      length target 4 resets instead of following its tail. */
  lemma ChasingTailResets()
    ensures var s := SnakeState([Pos(20, 0), Pos(0, 0), Pos(0, 20), Pos(20, 20)], 4, Down, None, None);
            Moved(s, Up).positions == [Center]
  {
  }

  /** An apple placed off the screen is never reached by the head, so it is
      never eaten. */
  lemma OffScreenAppleNeverEaten(s: SnakeState, apple: Pos)
    requires Inv(s) && !OnScreen(apple)
    ensures Fed(s, apple) == s
  {
  }

  class Snake {
    var positions: seq<Pos>
    var length: int
    var direction: Direction
    var nextDirection: Option<Direction>
    var last: Option<Pos>

    /** The object's fields as one value. */
    function State(): SnakeState
      reads this
    {
      SnakeState(positions, length, direction, nextDirection, last)
    }

    ghost predicate Valid()
      reads this
    {
      Inv(State())
    }

    constructor ()
      ensures Valid() && State() == Initial
    {
      length := 1;
      direction := Right;
      nextDirection := None;
      last := None;
      positions := [Center];
    }

    /** Applies the queued direction and clears the queue. */
    method UpdateDirection()
      requires Valid()
      modifies this
      ensures Valid() && State() == Steered(old(State()))
    {
      if nextDirection.Some? {
        direction := nextDirection.value;
        nextDirection := None;
      }
    }

    function GetHeadPosition(): (p: Pos)
      reads this
      requires Valid()
      ensures p == State().positions[0] && OnGrid(p)
    {
      positions[0]
    }

    /** One tick: step the head, wrap it, reset on self-collision or put the
        new head in front, then drop one tail cell if over the length target. */
    method Move()
      requires Valid()
      modifies this
      ensures Valid()
      ensures State() == Moved(old(State()), direction)
    {
      var head := GetHeadPosition();
      var newPosition := NextHead(head, direction);
      if newPosition in positions {
        Reset();
      } else {
        positions := [newPosition] + positions;
      }
      if |positions| > length {
        last := Some(positions[|positions| - 1]);
        positions := positions[..|positions| - 1];
      }
    }

    /** Back to the start: one centre cell, length target 1 and a direction
        chosen arbitrarily among the four. */
    method Reset()
      modifies this
      ensures State() == ResetState(old(State()), direction)
      ensures old(Valid()) ==> Valid()
    {
      length := 1;
      positions := [Center];
      var d :| d in AllDirections;
      direction := d;
    }
  }

}
