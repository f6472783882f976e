/** Two client runs showing what callers of the game can conclude from the
    contracts alone: growth on eating the apple, and a shrink that pops two
    tail cells on the following move. */
module Scenarios {
  import opened Wrappers
  import opened Grid
  import opened Snakes
  import opened Controls
  import opened Engine

  /** A fresh snake at (320, 240) heading right with the apple one cell ahead
      grows to length 2; its tail only follows on the next tick. */
  method GrowthScenario() {
    var g := new Game();
    g.apple.position, g.poison.position, g.rock.position := (340, 240), (0, 0), (0, 20);
    g.Tick();
    assert g.snake.positions == [(340, 240)] && g.snake.length == 2;
    assert g.snake.last == Some((320, 240));
    g.apple.position := (0, 40);
    g.Tick();
    assert g.snake.positions == [(360, 240), (340, 240)] && g.snake.length == 2;
    assert g.snake.last == Some((320, 240));
  }

  /** A three-cell snake that eats the poison keeps its three cells on that
      tick and drops two of them on the next, remembering only the cell
      nearer the head. */
  method ShrinkScenario() {
    var g := new Game();
    g.snake.positions, g.snake.length := [(40, 0), (20, 0), (0, 0)], 3;
    g.apple.position, g.poison.position, g.rock.position := (0, 40), (60, 0), (0, 60);
    g.Tick();
    assert g.snake.positions == [(60, 0), (40, 0), (20, 0)] && g.snake.length == 2;
    g.poison.position := (0, 80);
    g.Tick();
    assert g.snake.positions == [(80, 0), (60, 0)] && g.snake.length == 2;
    assert g.snake.last == Some((40, 0));
  }

  /** A head that re-enters its own body collides with itself; a straight
      body does not. */
  method SelfCollisionScenario() {
    var s := new Snake();
    s.positions, s.length := [(40, 40), (40, 60), (60, 60), (60, 40), (40, 40)], 5;
    assert s.positions[4] == s.positions[0];
    assert s.GetCollision(null);
    s.positions, s.length := [(40, 0), (20, 0), (0, 0)], 3;
    assert !s.GetCollision(null);
  }

  /** A one-cell snake heading left with only the reverse key polled keeps
      its heading and moves one cell left. */
  method ReverseKeyScenario() {
    var g := new Game();
    g.snake.positions, g.snake.direction := [(100, 0)], Left;
    g.apple.position, g.poison.position, g.rock.position := (0, 40), (0, 60), (0, 80);
    g.Frame([KeyDown(ArrowRight)]);
    assert g.snake.direction == Left && g.snake.positions == [(80, 0)];
  }
}
