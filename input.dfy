/**
 * The keys of the Snake game: the four arrow keys choose a direction, the
 * spacebar toggles pause, and every other key is ignored.
 */
module Input {
  import opened Wrappers
  import opened Board

  /** The key value that names direction `d` (the keys of directionFromInput's table). */
  function ArrowKey(d: Direction): string {
    match d
    case Up => "ArrowUp"
    case Down => "ArrowDown"
    case Left => "ArrowLeft"
    case Right => "ArrowRight"
  }

  /** The direction an input key stands for: only the four arrow keys map to one. */
  function DirectionFromInput(key: string): (r: Option<Direction>)
    ensures r.Some? ==> ArrowKey(r.value) == key
    ensures forall d :: ArrowKey(d) == key ==> r == Some(d)
  {
    if key == "ArrowUp" then Some(Up)
    else if key == "ArrowDown" then Some(Down)
    else if key == "ArrowLeft" then Some(Left)
    else if key == "ArrowRight" then Some(Right)
    else None
  }

  /** Each arrow key is read back as the direction it names. */
  lemma DirectionFromArrowKey(d: Direction)
    ensures DirectionFromInput(ArrowKey(d)) == Some(d)
  {
  }

  /** Whether a key is one of the four arrow keys. */
  predicate IsDirectionInput(key: string): (r: bool)
    ensures r <==> exists d :: ArrowKey(d) == key
  {
    DirectionFromInput(key).Some?
  }

  /** Whether a key is the pause key; it selects no direction, so the two kinds of input never overlap. */
  predicate IsSpacebar(key: string): (r: bool)
    ensures r ==> DirectionFromInput(key).None?
  {
    key == " "
  }
}
