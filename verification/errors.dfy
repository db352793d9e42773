/** The errors the services throw, and the shape of a service call's effect. */
module Errors {
  import opened Wrappers
  import opened InMemoryDb

  /** Every failure the services raise, one constructor per message. */
  datatype Error =
    | MissingFields
    | InvalidRoom
    | StartInPast
    | StartNotBeforeEnd
    | OutsideBusinessHours
    | SlotTaken
    | NotFound

  /** The exact text of the `Error` the source throws. The two texts thrown
      outside the creation services identify their errors. */
  function Message(e: Error): (msg: string)
    ensures |msg| > 0
    ensures msg == "Virheellinen huone" <==> e == InvalidRoom
    ensures msg == "Varausta ei löytynyt" <==> e == NotFound
  {
    match e
    case MissingFields => "Puuttuvat tiedot"
    case InvalidRoom => "Virheellinen huone"
    case StartInPast => "Varauksen aloitusaika ei voi olla menneessä"
    case StartNotBeforeEnd => "Varauksen aloitusaika tulee olla ennen lopetusaikaa"
    case OutsideBusinessHours => "Varaus sallitaan vain toimistoaikana (08:00 - 18:00)"
    case SlotTaken => "Aikaväli on jo varattu"
    case NotFound => "Varausta ei löytynyt"
  }

  /** The store after a call together with what the call returned or threw. */
  datatype Step<+T> = Step(store: Store, result: Result<T, Error>)

  /** Distinct errors carry distinct messages, so a caller can tell them apart by text. */
  lemma MessagesDistinct(e1: Error, e2: Error)
    requires e1 != e2
    ensures Message(e1) != Message(e2)
  {
  }
}
