/** One frame of keyboard input turned into a movement delta and a heading for the
    client's own car. */
module Controls {

  import opened Wrappers

  /** Which arrow keys are held down this frame. */
  datatype Keys = Keys(left: bool, right: bool, up: bool, down: bool)

  /** The delta to send and, if some arrow key applied, the new heading in degrees. */
  datatype Steering = Steering(dx: int, dy: int, angle: Option<int>)

  /** Distance per frame along either axis. */
  const Step: int := 5

  /** Python truthiness of the client's id: `None` and `0` are both false. */
  predicate Truthy(id: Option<int>)
  {
    id.Some? && id.value != 0
  }

  /** The keys are tested in the order left, right, up, down, each overwriting what
      the earlier ones set; nothing moves until the client holds a truthy id. So
      right wins over left, down wins over up, and the heading is that of the last
      pressed key in that order. */
  function Steer(id: Option<int>, keys: Keys): (r: Steering)
    ensures !Truthy(id) ==> r == Steering(0, 0, None)
    ensures Truthy(id) ==> r.dx == (if keys.right then Step else if keys.left then -Step else 0)
    ensures Truthy(id) ==> r.dy == (if keys.down then Step else if keys.up then -Step else 0)
    ensures Truthy(id) ==>
      r.angle == (if keys.down then Some(180) else if keys.up then Some(0)
                  else if keys.right then Some(-90) else if keys.left then Some(90) else None)
  {
    if !Truthy(id) then Steering(0, 0, None)
    else
      var still := Steering(0, 0, None);
      var afterLeft := if keys.left then still.(dx := -Step, angle := Some(90)) else still;
      var afterRight := if keys.right then afterLeft.(dx := Step, angle := Some(-90)) else afterLeft;
      var afterUp := if keys.up then afterRight.(dy := -Step, angle := Some(0)) else afterRight;
      if keys.down then afterUp.(dy := Step, angle := Some(180)) else afterUp
  }

  /** A client whose id is 0 can never move or turn, whatever keys are held. */
  lemma IdZeroNeverMoves(keys: Keys)
    ensures Steer(Some(0), keys) == Steering(0, 0, None)
  {
  }

  /** Each delta is one step in some direction, or none. */
  lemma SteerIsOneStep(id: Option<int>, keys: Keys)
    ensures Steer(id, keys).dx in {-Step, 0, Step} && Steer(id, keys).dy in {-Step, 0, Step}
    ensures Steer(id, keys).angle.Some? <==> Truthy(id) && (keys.left || keys.right || keys.up || keys.down)
  {
  }
}
