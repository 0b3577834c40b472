/** Faults of single calls. Every call to the outside consumes one: it proceeds, fails
    with an error, or the machine stops before it. A result of `Crashed` is therefore a
    power cut at that point, and what a method ensures about it holds at every such point. */
module Faults {

  datatype Fault = Proceed | Fail | Crash

  datatype Outcome = Done | Failed | Crashed

  function OutcomeOf(f: Fault): Outcome
  {
    match f case Proceed => Done case Fail => Failed case Crash => Crashed
  }
}
