/** Cell codes of the grid and the two behavioural states of an ant. */
module Cells {

  datatype Option<T> = None | Some(value: T)

  /** What a grid cell holds; RED and BLUE double as the two breeds of ants. */
  datatype Cell = Empty | Red | Blue | Resource {
    predicate IsBreed() {
      this == Red || this == Blue
    }
  }

  /** The cell codes that name a colony. */
  type Breed = c: Cell | c.IsBreed() witness Red

  /** The opposite breed; cells that are not a breed have no opposite (the source returns None). */
  function Opposite(c: Cell): (r: Option<Cell>)
    ensures r.Some? <==> c.IsBreed()
    ensures r.Some? ==> r.value.IsBreed() && r.value != c
  {
    if c == Red then Some(Blue)
    else if c == Blue then Some(Red)
    else None
  }

  /** Taking the opposite twice gives the breed back. */
  lemma OppositeInvolutive(b: Breed)
    ensures Opposite(b).value != b && Opposite(Opposite(b).value).value == b
  {
  }

  datatype AntState = WanderAndFight | FoundResource
}
