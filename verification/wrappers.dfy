/** Failure-compatible result type shared by every component, and the error
    conditions the engine's operations can raise.  Each `Error` constructor
    stands for one exception the system throws (an illegal argument or an
    illegal state). */
module Wrappers {

  datatype Error =
    | NonPositiveCapacity      // population capacity <= 0
    | PopulationFull           // add to a population at capacity
    | EmptyPopulation          // best/worst of an empty population
    | NonPositiveVertexCount   // graph with <= 0 vertices
    | VertexOutOfBounds(vertex: int)
    | SelfLoop                 // edge from a vertex to itself
    | LengthMismatch           // crossover parents of different lengths
    | InvalidGeneValue         // gene value outside {0, 1}
    | InvalidRate              // mutation rate outside [0, 1]
    | EliteTooLarge            // elite size above the population count
    | TooFewParents            // parent selection from fewer than 2 individuals
    | EmptyBound               // a random index drawn from an empty range
    | CycleTooSmall            // cycle graph with fewer than 3 vertices
    | StarTooSmall             // star graph with fewer than 2 vertices
    | NonPositiveGrid          // grid graph with rows or columns <= 0

  datatype Result<+T> = Ok(value: T) | Err(error: Error) {

    predicate IsFailure() {
      Err?
    }

    function PropagateFailure<U>(): Result<U>
      requires Err?
    {
      Err(error)
    }

    function Extract(): T
      requires Ok?
    {
      value
    }
  }

  datatype Option<+T> = None | Some(value: T)
}
