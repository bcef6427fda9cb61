/** Three places where `spiro.py` as written cannot do what it evidently
    means to. Each is modelled as written next to the corrected behaviour
    that the `Spirograph` module uses.

    The call stack is modelled by a `depth` budget: the number of nested
    calls Python still allows before it raises `RecursionError`. */
module SpiroFindings {
  import opened Spirograph

  /** How a call as written ends: it returns the new states, or it raises
      one of the two exceptions the program runs into. */
  datatype Outcome =
    | Returned(states: seq<SpiroState>)
    | RecursionError
    | AttributeError

  /** `SpiroAnimator.restart` as written: `spiro.clear()` is not a method of
      `Spiro`, so the first iteration raises `AttributeError`. */
  function RestartAsWritten(ss: seq<SpiroState>, ps: seq<Params>): Outcome
    requires |ps| == |ss|
  {
    if ss == [] then Returned([]) else AttributeError
  }

  /** Restarting a non-empty group as written always fails. */
  lemma RestartAsWrittenFails(ss: seq<SpiroState>, ps: seq<Params>)
    requires |ps| == |ss| && ss != []
    ensures RestartAsWritten(ss, ps) == AttributeError
  {
  }

  /** `SpiroAnimator.update` as written: it ticks every spiro, calls the
      restart above when all of them are complete, and then evaluates
      `self.update()` to obtain the argument for `turtle.ontimer`, so it
      calls itself again at once, before anything is scheduled. */
  function UpdateAsWritten(ss: seq<SpiroState>, ps: seq<Params>, depth: nat): Outcome
    requires |ps| == |ss|
    decreases depth
  {
    if depth == 0 then RecursionError
    else
      var ticked := TickAll(ss);
      if CountComplete(ticked) == |ticked| then
        match RestartAsWritten(ticked, ps)
        case Returned(t) => UpdateAsWritten(t, ps, depth - 1)
        case RecursionError => RecursionError
        case AttributeError => AttributeError
      else UpdateAsWritten(ticked, ps, depth - 1)
  }

  /** Whatever the recursion limit, the update as written never returns: it
      ends either in the recursion error or, when every spiro completes
      first, in the restart's `AttributeError`. */
  lemma {:induction false} UpdateAsWrittenNeverReturns(ss: seq<SpiroState>, ps: seq<Params>, depth: nat)
    requires |ps| == |ss|
    ensures UpdateAsWritten(ss, ps, depth) == RecursionError ||
            UpdateAsWritten(ss, ps, depth) == AttributeError
    decreases depth
  {
    if depth > 0 {
      var ticked := TickAll(ss);
      if CountComplete(ticked) == |ticked| {
        if ticked == [] {
          UpdateAsWrittenNeverReturns([], ps, depth - 1);
        }
      } else {
        UpdateAsWrittenNeverReturns(ticked, ps, depth - 1);
      }
    }
  }

  /** A group of one spiro, `k` ticks after its launch and not yet complete:
      the update as written raises `AttributeError` when the stack has room
      for the remaining `72 * nRot - k` ticks, and `RecursionError`
      otherwise. */
  lemma {:induction false} OneSpiroAsWritten(p: Params, k: nat, depth: nat)
    requires p.R > 0 && p.r > 0 && k < 72 * Initial(p).nRot
    ensures UpdateAsWritten([Ticks(Initial(p), k)], [p], depth) ==
      if depth >= 72 * Initial(p).nRot - k then AttributeError else RecursionError
    decreases depth
  {
    var s := Initial(p);
    if depth > 0 {
      ReducedRotationsFactor(p.R, p.r);
      TicksFromStart(s, k + 1);
      var ticked := TickAll([Ticks(s, k)]);
      assert ticked == [Ticks(s, k + 1)];
      assert CountComplete(ticked) == CountCompleteIn(ticked, 0) + (if ticked[0].complete then 1 else 0);
      if !Ticks(s, k + 1).complete {
        OneSpiroAsWritten(p, k + 1, depth - 1);
      }
    }
  }

  /** The constructor as written: it makes the first spiro and then, inside
      the loop, evaluates `self.update()` for `turtle.ontimer`, which is the
      update above. The spiros not made yet are not part of the tick. */
  function InitAsWritten(ps: seq<Params>, depth: nat): Outcome
  {
    if ps == [] then Returned([])
    else UpdateAsWritten([Initial(ps[0])], [ps[0]], depth)
  }

  /** Constructing an animator of at least one spiro as written never
      finishes: the first spiro's `72 * nRot` ticks either exhaust the
      recursion limit, or complete and lead into the failing restart. */
  lemma InitAsWrittenFails(ps: seq<Params>, depth: nat)
    requires ps != [] && ps[0].R > 0 && ps[0].r > 0
    ensures InitAsWritten(ps, depth) ==
      if depth >= 72 * Initial(ps[0]).nRot then AttributeError else RecursionError
  {
    ReducedRotationsFactor(ps[0].R, ps[0].r);
    OneSpiroAsWritten(ps[0], 0, depth);
  }
}
