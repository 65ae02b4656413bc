/**
  The display backend: `change_resolution_refresh` and
  `reset_resolution_refresh`. Both end in one call into the operating system
  whose outcome the model cannot see, so a display is given an oracle that
  decides the outcome of its n-th request, and it keeps a log of every
  request in order.
*/
module Backend {
  import opened Resolution

  /** One request made of the operating system. */
  datatype Call =
    | Apply(mode: Mode)   // switch to this width, height and refresh rate
    | Reset               // go back to the mode stored in the registry

  class Display {
    /** Whether the operating system accepts the n-th request, given what it is. */
    const answer: (nat, Call) -> bool
    /** How many requests have been made so far. */
    var served: nat
    /** Every request made so far, oldest first. */
    ghost var calls: seq<Call>

    ghost predicate Valid()
      reads this
    {
      served == |calls|
    }

    constructor (answer: (nat, Call) -> bool)
      ensures Valid() && calls == [] && this.answer == answer
    {
      this.answer := answer;
      served := 0;
      calls := [];
    }

    /** Ask for a mode; true when the operating system reports success. */
    method ChangeResolution(width: nat, height: nat, refresh: nat) returns (ok: bool)
      requires Valid()
      modifies this
      ensures Valid()
      ensures calls == old(calls) + [Apply(Mode(width, height, refresh))]
      ensures ok == answer(old(served), Apply(Mode(width, height, refresh)))
    {
      var call := Apply(Mode(width, height, refresh));
      ok := answer(served, call);
      served := served + 1;
      calls := calls + [call];
    }

    /** Ask for the default mode; true when the operating system reports success. */
    method ResetResolution() returns (ok: bool)
      requires Valid()
      modifies this
      ensures Valid()
      ensures calls == old(calls) + [Reset]
      ensures ok == answer(old(served), Reset)
    {
      ok := answer(served, Reset);
      served := served + 1;
      calls := calls + [Reset];
    }
  }
}
