/** The game loop: per frame, handle the key events, apply the queued
    direction, move, and let the snake eat the apple. */
module Game {
  import opened Wrappers
  import opened Geometry
  import opened Controls
  import opened Snakes
  import opened Apples

  /** Handles one frame's events in order. Returns whether a quit request
      came, in which case the rest of the events are not looked at. */
  method HandleKeys(snake: Snake, events: seq<Event>) returns (quit: bool)
    requires snake.Valid()
    modifies snake
    ensures snake.Valid()
    ensures quit <==> Quit in events
    ensures snake.State() == Queued(old(snake.State()), events)
  {
    var i := 0;
    while i < |events|
      invariant 0 <= i <= |events|
      invariant Quit !in events[..i]
      invariant snake.State() == old(snake.State()).(nextDirection := snake.nextDirection)
      invariant QueueEvents(events[i..], snake.direction, snake.nextDirection)
                == QueueEvents(events, snake.direction, old(snake.nextDirection))
    {
      assert events[i..][1..] == events[i + 1..];
      match events[i] {
        case Quit =>
          return true;
        case KeyPress(k) =>
          var q := Filter(k, snake.direction);
          if q.Some? {
            snake.nextDirection := q;
          }
        case OtherEvent =>
      }
      assert events[..i + 1] == events[..i] + [events[i]];
      i := i + 1;
    }
    assert events[..i] == events;
    quit := false;
  }

  /** One frame of the main loop without a quit request, on values: the
      snake `s` with the apple at `apple` becomes `t` with the apple at
      `apple'`. The keys are handled, the queue applied, the snake moved (a
      reset picks `t`'s direction) and fed; the apple is re-placed on a
      placeable cell when eaten and stays put otherwise. */
  ghost predicate TickStep(s: SnakeState, apple: Pos, events: seq<Event>, t: SnakeState, apple': Pos)
  {
    && s.positions != []
    && var moved := Moved(Steered(Queued(s, events)), t.direction);
       && t == Fed(moved, apple)
       && if Eats(moved, apple) then Placeable(apple') else apple' == apple
  }

  /** One iteration of the main loop. On a quit request only the key
      handling before it has happened. Otherwise the frame is a `TickStep`
      and ends with an empty queue. */
  method Tick(snake: Snake, apple: Apple, events: seq<Event>) returns (quit: bool)
    requires snake.Valid() && Placeable(apple.position)
    modifies snake, apple
    ensures snake.Valid() && Placeable(apple.position)
    ensures quit <==> Quit in events
    ensures quit ==> snake.State() == Queued(old(snake.State()), events)
                     && apple.position == old(apple.position)
    ensures !quit ==> TickStep(old(snake.State()), old(apple.position), events, snake.State(), apple.position)
                      && snake.nextDirection == None
  {
    quit := HandleKeys(snake, events);
    if quit {
      return;
    }
    snake.UpdateDirection();
    snake.Move();
    if Eats(snake.State(), apple.position) {
      snake.length := snake.length + 1;
      apple.RandomizePosition();
    }
  }

  /** The main loop over a finite run of frames, each a batch of events; it
      stops at the first frame with a quit request. Besides the objects and
      the number of frames played to the end, it returns the trace of snake
      states and apple cells: the game starts from the initial snake, each
      played frame is a `TickStep`, and the objects end in the last state
      of the trace (with the keys before the quit handled, on a quit). */
  method Play(frames: seq<seq<Event>>)
    returns (snake: Snake, apple: Apple, played: nat, ghost states: seq<SnakeState>, ghost apples: seq<Pos>)
    ensures fresh(snake) && fresh(apple)
    ensures snake.Valid() && Placeable(apple.position)
    ensures played <= |frames|
    ensures |states| == |apples| == played + 1
    ensures states[0] == Initial && Placeable(apples[0])
    ensures forall k :: 0 <= k < played ==>
              Quit !in frames[k] && TickStep(states[k], apples[k], frames[k], states[k + 1], apples[k + 1])
    ensures played < |frames| ==>
              Quit in frames[played]
              && snake.State() == Queued(states[played], frames[played])
              && apple.position == apples[played]
    ensures played == |frames| ==> snake.State() == states[played] && apple.position == apples[played]
  {
    apple := new Apple();
    snake := new Snake();
    played := 0;
    states, apples := [snake.State()], [apple.position];
    while played < |frames|
      invariant played <= |frames|
      invariant snake.Valid() && Placeable(apple.position)
      invariant snake.nextDirection == None
      invariant |states| == |apples| == played + 1
      invariant states[0] == Initial && Placeable(apples[0])
      invariant forall k :: 0 <= k < played ==>
                  Quit !in frames[k] && TickStep(states[k], apples[k], frames[k], states[k + 1], apples[k + 1])
      invariant snake.State() == states[played] && apple.position == apples[played]
    {
      var quit := Tick(snake, apple, frames[played]);
      if quit {
        return;
      }
      states, apples := states + [snake.State()], apples + [apple.position];
      played := played + 1;
    }
  }

}
