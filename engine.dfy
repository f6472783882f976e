/** The game loop: the snake, the apple (grow), the poison (shrink) and the
    rock (lethal), and one tick of the loop body. */
module Engine {
  import opened Wrappers
  import opened Grid
  import opened GameObjects
  import opened Snakes
  import opened Controls

  /** Whether the moved head hits its own body or the rock. */
  predicate LethalHit(moved: seq<Cell>, rock: Cell)
    requires |moved| >= 1
  {
    moved[0] in moved[1..] || moved[0] == rock
  }

  /** The outcome of one tick, over the values before (unprimed) and after
      (primed) it, when the snake moves in direction `d`: the apple, poison
      and lethal checks are each judged on the moved head. */
  ghost predicate TickOutcome(d: Direction,
      body: seq<Cell>, length: int, last: Option<Cell>, apple: Cell, poison: Cell, rock: Cell,
      body': seq<Cell>, length': int, direction': Direction, next': Option<Direction>,
      last': Option<Cell>, apple': Cell, poison': Cell, rock': Cell)
    requires |body| >= 1 && length >= 1
  {
    var moved := Moved(body, d, length);
    var ate := moved[0] == apple;
    var poisoned := moved[0] == poison;
    var lethal := LethalHit(moved, rock);
    var grown := if ate then length + 1 else length;
    && next' == None
    && (lethal ==> length' == 1 && |body'| == 1 && direction' == Right)
    && (!lethal ==> body' == moved && direction' == d)
    && (!lethal ==> length' == if poisoned then ClampedLength(grown, -1) else grown)
    && (!ate && !lethal ==> apple' == apple)
    && (!poisoned ==> poison' == poison)
    && (!lethal ==> rock' == rock)
    && (|body| >= length ==> last' == Some(body[length - 1]))
    && (|body| < length ==> last' == last)
  }

  class Game {
    const snake: Snake
    const apple: GameObject
    const poison: GameObject
    const rock: GameObject

    /** The three items are separate objects, every one of them sits on a
        grid cell, and the snake keeps its own invariant. */
    ghost predicate Valid()
      reads this, snake, apple, poison, rock
    {
      snake.Valid() &&
      apple != poison && apple != rock && poison != rock &&
      OnGrid(apple.position) && OnGrid(poison.position) && OnGrid(rock.position)
    }

    /** Creates the objects and scatters the three items at random cells. */
    constructor ()
      ensures Valid()
      ensures fresh(snake) && fresh(apple) && fresh(poison) && fresh(rock)
      ensures snake.positions == [(ScreenWidth / 2, ScreenHeight / 2)] && snake.length == 1
      ensures snake.direction == Right && snake.nextDirection == None && snake.last == None
    {
      var a := new GameObject();
      var s := new Snake();
      var r := new GameObject();
      var p := new GameObject();
      a.RandomizePosition();
      r.RandomizePosition();
      p.RandomizePosition();
      snake, apple, poison, rock := s, a, p, r;
    }

    /** One tick: commit the buffered direction, move, then the apple check,
        the poison check and the lethal check, each evaluated on its own. */
    method Tick()
      requires Valid()
      modifies snake, apple, poison, rock
      ensures Valid()
      ensures TickOutcome(Committed(old(snake.direction), old(snake.nextDirection)),
        old(snake.positions), old(snake.length), old(snake.last),
        old(apple.position), old(poison.position), old(rock.position),
        snake.positions, snake.length, snake.direction, snake.nextDirection,
        snake.last, apple.position, poison.position, rock.position)
    {
      snake.UpdateDirection();
      snake.Move();
      AppleCheck();
      PoisonCheck();
      LethalCheck();
    }

    /** Eating the apple: the snake grows by one and the apple is redrawn. */
    method AppleCheck()
      requires Valid()
      modifies snake`length, apple
      ensures Valid()
      ensures snake.positions[0] == old(apple.position) ==> snake.length == old(snake.length) + 1
      ensures snake.positions[0] != old(apple.position) ==>
        snake.length == old(snake.length) && apple.position == old(apple.position)
    {
      if snake.GetCollision(apple) {
        snake.ChangeLength(1);
        apple.RandomizePosition();
      }
    }

    /** Eating the poison: the snake shrinks by one, never below one, and
        the poison is redrawn. */
    method PoisonCheck()
      requires Valid()
      modifies snake`length, poison
      ensures Valid()
      ensures snake.positions[0] == old(poison.position) ==>
        snake.length == ClampedLength(old(snake.length), -1)
      ensures snake.positions[0] != old(poison.position) ==>
        snake.length == old(snake.length) && poison.position == old(poison.position)
    {
      if snake.GetCollision(poison) {
        snake.ChangeLength(-1);
        poison.RandomizePosition();
      }
    }

    /** Running into its own body or into the rock: the snake is reset and
        the apple and the rock are redrawn. */
    method LethalCheck()
      requires Valid()
      modifies snake`length, snake`positions, snake`direction, snake`nextDirection, apple, rock
      ensures Valid()
      ensures var hit := old(LethalHit(snake.positions, rock.position));
        && (hit ==> snake.length == 1 && |snake.positions| == 1 && snake.direction == Right && snake.nextDirection == None)
        && (!hit ==> snake.length == old(snake.length) && snake.positions == old(snake.positions))
        && (!hit ==> snake.direction == old(snake.direction) && snake.nextDirection == old(snake.nextDirection))
        && (!hit ==> apple.position == old(apple.position) && rock.position == old(rock.position))
    {
      if snake.GetCollision(null) || snake.GetCollision(rock) {
        snake.Reset();
        apple.RandomizePosition();
        rock.RandomizePosition();
      }
    }

    /** One pass of the game loop without drawing: poll the keys, then tick.
        The snake never turns straight back on itself; only a lethal hit,
        through the reset, can leave it heading opposite to where it was
        going. */
    method Frame(events: seq<Event>)
      requires Valid()
      modifies snake, apple, poison, rock
      ensures Valid()
      ensures TickOutcome(Committed(old(snake.direction), Poll(old(snake.direction), events, old(snake.nextDirection))),
        old(snake.positions), old(snake.length), old(snake.last),
        old(apple.position), old(poison.position), old(rock.position),
        snake.positions, snake.length, snake.direction, snake.nextDirection,
        snake.last, apple.position, poison.position, rock.position)
      ensures snake.direction == old(snake.direction).Opposite() ==>
        LethalHit(Moved(old(snake.positions),
            Committed(old(snake.direction), Poll(old(snake.direction), events, old(snake.nextDirection))),
            old(snake.length)),
          old(rock.position))
    {
      HandleKeys(snake, events);
      Tick();
    }

    /** The game loop over a finite run of polls: every invariant survives. */
    method Run(polls: seq<seq<Event>>)
      requires Valid()
      modifies snake, apple, poison, rock
      ensures Valid()
    {
      for i := 0 to |polls|
        invariant Valid()
      {
        Frame(polls[i]);
      }
    }
  }
}
