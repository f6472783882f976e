/** The keyboard rule: during one poll, each arrow key that does not reverse
    the committed direction overwrites the buffered direction. */
module Controls {
  import opened Wrappers
  import opened Grid
  import opened Snakes

  datatype Key = ArrowUp | ArrowDown | ArrowLeft | ArrowRight | OtherKey {

    /** The heading an arrow key asks for. */
    function Heading(): Direction
      requires !OtherKey?
    {
      match this
      case ArrowUp => Up
      case ArrowDown => Down
      case ArrowLeft => Left
      case ArrowRight => Right
    }
  }

  /** A polled event: a key press, or anything else (window events other
      than quitting, key releases, mouse motion). */
  datatype Event = KeyDown(key: Key) | OtherEvent

  /** The buffered direction after one key press, as the `if`/`elif` tests
      of `handle_keys` decide it. An arrow key is taken exactly when it is not the
      reverse of the committed `direction` (the buffered one plays no part);
      any other key leaves the buffer alone. */
  function NextAfterKey(direction: Direction, key: Key, next: Option<Direction>): (r: Option<Direction>)
    ensures key.OtherKey? ==> r == next
    ensures !key.OtherKey? && key.Heading() != direction.Opposite() ==> r == Some(key.Heading())
    ensures !key.OtherKey? && key.Heading() == direction.Opposite() ==> r == next
  {
    if key == ArrowUp && direction != Down then Some(Up)
    else if key == ArrowDown && direction != Up then Some(Down)
    else if key == ArrowLeft && direction != Right then Some(Left)
    else if key == ArrowRight && direction != Left then Some(Right)
    else next
  }

  /** Whether an event sets the buffer. */
  predicate Accepted(direction: Direction, e: Event) {
    e.KeyDown? && !e.key.OtherKey? && e.key.Heading() != direction.Opposite()
  }

  /** The buffered direction after one event. */
  function NextAfterEvent(direction: Direction, e: Event, next: Option<Direction>): Option<Direction> {
    match e
    case KeyDown(k) => NextAfterKey(direction, k, next)
    case OtherEvent => next
  }

  /** The buffered direction after a whole poll, events taken in order. */
  function Poll(direction: Direction, events: seq<Event>, next: Option<Direction>): Option<Direction>
    decreases |events|
  {
    if events == [] then next
    else Poll(direction, events[1..], NextAfterEvent(direction, events[0], next))
  }

  /** Reference definition: the heading of the last accepted event of the
      poll, if there is one. */
  function LastAccepted(direction: Direction, events: seq<Event>): (r: Option<Direction>)
    ensures r.Some? ==> r.value != direction.Opposite()
    decreases |events|
  {
    if events == [] then None
    else if Accepted(direction, events[|events| - 1]) then Some(events[|events| - 1].key.Heading())
    else LastAccepted(direction, events[..|events| - 1])
  }

  /** Polling one more event folds it onto the result so far. */
  lemma {:induction false} PollSnoc(direction: Direction, events: seq<Event>, e: Event, next: Option<Direction>)
    ensures Poll(direction, events + [e], next) == NextAfterEvent(direction, e, Poll(direction, events, next))
    decreases |events|
  {
    if events != [] {
      assert (events + [e])[1..] == events[1..] + [e];
      PollSnoc(direction, events[1..], e, NextAfterEvent(direction, events[0], next));
    }
  }

  /** Within one poll the last accepted key wins; a poll with no accepted
      key leaves the buffer as it was. */
  lemma {:induction false} PollIsLastAccepted(direction: Direction, events: seq<Event>, next: Option<Direction>)
    ensures LastAccepted(direction, events).Some? ==> Poll(direction, events, next) == LastAccepted(direction, events)
    ensures LastAccepted(direction, events).None? ==> Poll(direction, events, next) == next
    decreases |events|
  {
    if events != [] {
      var init, e := events[..|events| - 1], events[|events| - 1];
      assert events == init + [e];
      PollSnoc(direction, init, e, next);
      PollIsLastAccepted(direction, init, next);
    }
  }

  /** A poll is a fold: polling `a` then `b` is polling `a + b`. */
  lemma {:induction false} PollAppend(direction: Direction, a: seq<Event>, b: seq<Event>, next: Option<Direction>)
    ensures Poll(direction, a + b, next) == Poll(direction, b, Poll(direction, a, next))
    decreases |a|
  {
    if a != [] {
      assert (a + b)[1..] == a[1..] + b;
      PollAppend(direction, a[1..], b, NextAfterEvent(direction, a[0], next));
    } else {
      assert a + b == b;
    }
  }

  /** The reverse of the committed direction never changes the buffer,
      wherever it falls in a poll. */
  lemma ReverseKeyIgnored(direction: Direction, before: seq<Event>, k: Key, after: seq<Event>, next: Option<Direction>)
    requires !k.OtherKey? && k.Heading() == direction.Opposite()
    ensures Poll(direction, before + [KeyDown(k)] + after, next) == Poll(direction, before + after, next)
  {
    var mid := Poll(direction, before, next);
    PollAppend(direction, before + [KeyDown(k)], after, next);
    PollAppend(direction, before, [KeyDown(k)], next);
    assert Poll(direction, [KeyDown(k)], mid) == Poll(direction, [], mid);
    PollAppend(direction, before, after, next);
  }

  /** Runs the key rule over every event of one poll. Only the buffer
      changes; the committed direction is read, never written. */
  method HandleKeys(snake: Snake, events: seq<Event>)
    requires snake.Valid()
    modifies snake`nextDirection
    ensures snake.Valid()
    ensures snake.nextDirection == Poll(snake.direction, events, old(snake.nextDirection))
    ensures LastAccepted(snake.direction, events).Some? ==> snake.nextDirection == LastAccepted(snake.direction, events)
    ensures LastAccepted(snake.direction, events).None? ==> snake.nextDirection == old(snake.nextDirection)
  {
    for i := 0 to |events|
      invariant snake.Valid()
      invariant snake.nextDirection == Poll(snake.direction, events[..i], old(snake.nextDirection))
    {
      PollSnoc(snake.direction, events[..i], events[i], old(snake.nextDirection));
      assert events[..i + 1] == events[..i] + [events[i]];
      match events[i]
      case KeyDown(k) =>
        if k == ArrowUp && snake.direction != Down {
          snake.nextDirection := Some(Up);
        } else if k == ArrowDown && snake.direction != Up {
          snake.nextDirection := Some(Down);
        } else if k == ArrowLeft && snake.direction != Right {
          snake.nextDirection := Some(Left);
        } else if k == ArrowRight && snake.direction != Left {
          snake.nextDirection := Some(Right);
        }
      case OtherEvent =>
    }
    assert events[..|events|] == events;
    PollIsLastAccepted(snake.direction, events, old(snake.nextDirection));
  }
}
