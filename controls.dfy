/** Keyboard input: which key press may queue which direction, and the effect
    of one frame's batch of input events on the queued direction. */
module Controls {
  import opened Wrappers
  import opened Geometry

  /** The keys the game reacts to; every other key is OtherKey. */
  datatype Key = KeyUp | KeyDown | KeyLeft | KeyRight | OtherKey

  /** One input event: the window's quit request, a key going down, or
      anything else (mouse, key release, ...), which the game ignores. */
  datatype Event = Quit | KeyPress(key: Key) | OtherEvent

  /** The direction an arrow key stands for; each direction has exactly one
      key, and no other key has a direction. */
  function ArrowDirection(k: Key): (r: Option<Direction>)
    ensures r.None? <==> k == OtherKey
  {
    match k
    case KeyUp => Some(Up)
    case KeyDown => Some(Down)
    case KeyLeft => Some(Left)
    case KeyRight => Some(Right)
    case OtherKey => None
  }

  /** Two different arrow keys stand for different directions. */
  lemma ArrowKeysDistinct(j: Key, k: Key)
    requires j != k && ArrowDirection(j).Some?
    ensures ArrowDirection(j) != ArrowDirection(k)
  {
  }

  /** The direction a key press queues while the snake moves in `current`:
      an arrow key queues its own direction unless that is the reverse of
      the current one; nothing else queues anything. */
  function Filter(k: Key, current: Direction): (r: Option<Direction>)
    ensures r.Some? <==> ArrowDirection(k).Some? && ArrowDirection(k).value != Opposite(current)
    ensures r.Some? ==> r == ArrowDirection(k) && r.value != Opposite(current)
  {
    if k == KeyUp && current != Down then Some(Up)
    else if k == KeyDown && current != Up then Some(Down)
    else if k == KeyLeft && current != Right then Some(Left)
    else if k == KeyRight && current != Left then Some(Right)
    else None
  }

  /** The queued direction after handling `events` in order, starting from
      `pending`: each accepted key press overwrites the queue, and a quit
      request ends the handling (the program exits there). The result is
      what was pending or what one of the key presses queues. */
  function QueueEvents(events: seq<Event>, current: Direction, pending: Option<Direction>): (r: Option<Direction>)
    ensures r == pending ||
            exists i :: 0 <= i < |events| && events[i].KeyPress? && Filter(events[i].key, current) == r
    decreases |events|
  {
    if events == [] then pending
    else
      match events[0]
      case Quit => pending
      case KeyPress(k) =>
        var q := Filter(k, current);
        QueueEvents(events[1..], current, if q.Some? then q else pending)
      case OtherEvent => QueueEvents(events[1..], current, pending)
  }

  /** A frame's events never queue the reverse of the current direction. */
  lemma {:induction false} QueueEventsNeverReverses(events: seq<Event>, current: Direction, pending: Option<Direction>)
    requires pending == None || pending.value != Opposite(current)
    ensures var r := QueueEvents(events, current, pending);
            r == None || r.value != Opposite(current)
    decreases |events|
  {
    if events != [] {
      match events[0]
      case Quit =>
      case KeyPress(k) =>
        var q := Filter(k, current);
        QueueEventsNeverReverses(events[1..], current, if q.Some? then q else pending);
      case OtherEvent => QueueEventsNeverReverses(events[1..], current, pending);
    }
  }

  /** The last accepted key press of a frame wins; a refused one changes
      nothing. */
  lemma {:induction false} QueueEventsLastWins(events: seq<Event>, k: Key, current: Direction, pending: Option<Direction>)
    requires Quit !in events
    ensures QueueEvents(events + [KeyPress(k)], current, pending)
            == if Filter(k, current).Some? then Filter(k, current)
               else QueueEvents(events, current, pending)
    decreases |events|
  {
    if events == [] {
      assert [KeyPress(k)][1..] == [];
    } else {
      assert (events + [KeyPress(k)])[0] == events[0];
      assert (events + [KeyPress(k)])[1..] == events[1..] + [KeyPress(k)];
      match events[0]
      case KeyPress(j) =>
        var q := Filter(j, current);
        QueueEventsLastWins(events[1..], k, current, if q.Some? then q else pending);
      case OtherEvent => QueueEventsLastWins(events[1..], k, current, pending);
    }
  }

  /** An event that is neither a key press nor a quit request changes
      nothing. */
  lemma {:induction false} QueueEventsIgnoresOther(events: seq<Event>, current: Direction, pending: Option<Direction>)
    ensures QueueEvents(events + [OtherEvent], current, pending) == QueueEvents(events, current, pending)
    decreases |events|
  {
    if events == [] {
      assert [OtherEvent][1..] == [];
    } else {
      assert (events + [OtherEvent])[0] == events[0];
      assert (events + [OtherEvent])[1..] == events[1..] + [OtherEvent];
      match events[0]
      case Quit =>
      case KeyPress(j) =>
        var q := Filter(j, current);
        QueueEventsIgnoresOther(events[1..], current, if q.Some? then q else pending);
      case OtherEvent => QueueEventsIgnoresOther(events[1..], current, pending);
    }
  }

  /** A quit request ends the handling: the events after it are ignored. */
  lemma {:induction false} QueueEventsStopsAtQuit(pre: seq<Event>, post: seq<Event>, current: Direction, pending: Option<Direction>)
    requires Quit !in pre
    ensures QueueEvents(pre + [Quit] + post, current, pending) == QueueEvents(pre, current, pending)
    decreases |pre|
  {
    if pre == [] {
      assert ([Quit] + post)[0] == Quit;
    } else {
      assert (pre + [Quit] + post)[0] == pre[0];
      assert (pre + [Quit] + post)[1..] == pre[1..] + [Quit] + post;
      match pre[0]
      case KeyPress(j) =>
        var q := Filter(j, current);
        QueueEventsStopsAtQuit(pre[1..], post, current, if q.Some? then q else pending);
      case OtherEvent => QueueEventsStopsAtQuit(pre[1..], post, current, pending);
    }
  }

  /** Pressing the same key twice in one frame queues what pressing it once
      queues. */
  lemma QueueEventsIdempotent(events: seq<Event>, k: Key, current: Direction, pending: Option<Direction>)
    requires Quit !in events
    ensures QueueEvents(events + [KeyPress(k), KeyPress(k)], current, pending)
            == QueueEvents(events + [KeyPress(k)], current, pending)
  {
    assert events + [KeyPress(k), KeyPress(k)] == (events + [KeyPress(k)]) + [KeyPress(k)];
    QueueEventsLastWins(events, k, current, pending);
    QueueEventsLastWins(events + [KeyPress(k)], k, current, pending);
  }

}
