/** The conversion capability a domain type implements to become storable.
    A `Codec<T>` bundles the capability's operations for one domain type `T`;
    each may fail, and nothing here promises that they agree with each other. */
module Containering {
  import opened Containers
  import opened Failures

  datatype Codec<!T> = Codec(
    purposeOverride: Option<string>,              // a type's own `purpose`, if it gives one
    identity: T -> ContainerId,                  // `id`
    validContainer: (T, Container) -> Result<bool>,
    fromContainer: Container -> Result<T>,
    toContainer: T -> Result<Container>)

  /** The documentation string of a domain type: "None" unless the type overrides it. */
  function Purpose<T>(codec: Codec<T>): (r: string)
    ensures codec.purposeOverride.None? ==> r == "None"
    ensures codec.purposeOverride.Some? ==> r == codec.purposeOverride.value
  {
    match codec.purposeOverride
    case None => "None"
    case Some(p) => p
  }

  /** How a validity check came out: an evaluated verdict (which may be "not valid")
      is a different outcome from a check that could not be evaluated. */
  datatype Verdict = Valid | Invalid | Unevaluable(error: Error)

  function Validate<T>(codec: Codec<T>, x: T, c: Container): (v: Verdict)
    ensures v == Invalid <==> codec.validContainer(x, c) == Ok(false)
    ensures v == Valid <==> codec.validContainer(x, c) == Ok(true)
    ensures v.Unevaluable? <==> codec.validContainer(x, c).Err?
  {
    match codec.validContainer(x, c)
    case Ok(b) => if b then Valid else Invalid
    case Err(e) => Unevaluable(e)
  }

  /** The round-trip law a well-behaved domain type is expected to satisfy for `x`:
      encoding succeeds with the object's own id, and decoding the envelope gives `x`
      back and is judged valid. The source states no such law; the model only ever
      uses it as an explicit assumption. */
  ghost predicate RoundTrips<T>(codec: Codec<T>, x: T)
  {
    && codec.toContainer(x).Ok?
    && codec.toContainer(x).value.id == codec.identity(x)
    && codec.fromContainer(codec.toContainer(x).value) == Ok(x)
    && codec.validContainer(x, codec.toContainer(x).value) == Ok(true)
  }
}
