/** Shared vocabulary: vertices, tentative distances with an explicit infinity,
    and the Option/Result wrappers used for the source's null returns and crashes. */
module Types {

  /** Vertices are opaque numeric identifiers. */
  type Vertex = int

  /** A tentative distance. `Inf` stands for the `Number.MAX_VALUE` sentinel that the
      source uses for "no path found yet"; finite distances are exact naturals. */
  datatype Dist = Fin(n: nat) | Inf

  /** `d + w`. Adding a finite weight to `MAX_VALUE` rounds back to `MAX_VALUE`,
      so the sum with `Inf` stays `Inf`. */
  function Plus(d: Dist, w: nat): Dist
  {
    match d
    case Fin(n) => Fin(n + w)
    case Inf => Inf
  }

  /** The strict comparison `a < b` on distances; `MAX_VALUE < MAX_VALUE` is false. */
  predicate Lt(a: Dist, b: Dist)
  {
    match a
    case Inf => false
    case Fin(x) => b.Inf? || x < b.n
  }

  /** `a <= b`, the negation of `b < a`. */
  predicate Le(a: Dist, b: Dist)
  {
    !Lt(b, a)
  }

  lemma LeTrans(a: Dist, b: Dist, c: Dist)
    requires Le(a, b) && Le(b, c)
    ensures Le(a, c)
  {
  }

  lemma PlusGrows(d: Dist, w: nat)
    ensures Le(d, Plus(d, w))
  {
  }

  datatype Option<+T> = None | Some(value: T)

  /** The ways the source's heap and engine can fail. In the source both surface as
      a `TypeError` from dereferencing `undefined`. */
  datatype Error =
    | EmptyHeap       // slot 0 of an empty array was read
    | UnknownVertex   // a vertex had no slot, or its recorded slot is past the end of the array

  datatype Result<+T> = Ok(value: T) | Err(error: Error)
}
