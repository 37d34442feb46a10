/**
 * The setup wizard's step counter (`src/context/SetupProvider.tsx`): seven
 * steps numbered 0 to 6, starting at 0 and moved by `navigate.next`,
 * `navigate.back` and `navigate.to`.
 */
module SetupProvider {
  const TotalSteps: int := 7

  /** A navigation request of the wizard. */
  datatype Nav = Next | Back | To(index: int)

  predicate InRange(s: int) {
    0 <= s < TotalSteps
  }

  /**
   * The step after one navigation from step `s`: `Math.min(s + 1, 6)`,
   * `Math.max(s - 1, 0)`, or the index when it names a step (else no move).
   */
  function Navigate(s: int, n: Nav): int {
    match n
    case Next => if s + 1 < TotalSteps - 1 then s + 1 else TotalSteps - 1
    case Back => if s - 1 > 0 then s - 1 else 0
    case To(i) => if 0 <= i < TotalSteps then i else s
  }

  /** The step after a series of navigations, one after the other. */
  function Run(s: int, ns: seq<Nav>): int
    decreases |ns|
  {
    if ns == [] then s else Run(Navigate(s, ns[0]), ns[1..])
  }

  /** `k` presses of "next". */
  function Nexts(k: nat): (ns: seq<Nav>)
    ensures |ns| == k && forall i :: 0 <= i < k ==> ns[i] == Next
  {
    if k == 0 then [] else [Next] + Nexts(k - 1)
  }

  /** "Next" moves one step on, except on the last step, where it stays. */
  lemma NextSteps(s: int)
    requires InRange(s)
    ensures Navigate(s, Next) == s + 1 <==> s < TotalSteps - 1
    ensures s == TotalSteps - 1 ==> Navigate(s, Next) == s
  {
  }

  /** "Back" moves one step back, except on the first step, where it stays. */
  lemma BackSteps(s: int)
    requires InRange(s)
    ensures Navigate(s, Back) == s - 1 <==> s > 0
    ensures s == 0 ==> Navigate(s, Back) == s
  {
  }

  /** "To" reaches every step directly, and an index that names no step leaves the step alone. */
  lemma ToSteps(s: int, i: int)
    ensures InRange(i) ==> Navigate(s, To(i)) == i
    ensures !InRange(i) ==> Navigate(s, To(i)) == s
  {
  }

  /** "Back" undoes "next" and "next" undoes "back", away from the ends. */
  lemma BackUndoesNext(s: int)
    ensures 0 <= s < TotalSteps - 1 ==> Navigate(Navigate(s, Next), Back) == s
    ensures 0 < s < TotalSteps ==> Navigate(Navigate(s, Back), Next) == s
  {
  }

  /** One navigation never leaves the range of steps. */
  lemma NavigateKeepsRange(s: int, n: Nav)
    requires InRange(s)
    ensures InRange(Navigate(s, n))
  {
  }

  /** Whatever the navigations, a step in range stays in range; so from 0 the step is always 0 to 6. */
  lemma {:induction false} RunKeepsRange(s: int, ns: seq<Nav>)
    requires InRange(s)
    ensures InRange(Run(s, ns))
    decreases |ns|
  {
    if ns != [] {
      NavigateKeepsRange(s, ns[0]);
      RunKeepsRange(Navigate(s, ns[0]), ns[1..]);
    }
  }

  /** Pressing "next" `k` times from the first step reaches step `k`, and no further than the last. */
  lemma {:induction false} NextsReach(k: nat)
    ensures Run(0, Nexts(k)) == if k < TotalSteps then k else TotalSteps - 1
  {
    if k > 0 {
      RunAppend(0, Nexts(k - 1), [Next]);
      assert Nexts(k) == Nexts(k - 1) + [Next];
      NextsReach(k - 1);
    }
  }

  /** Running two series of navigations is running the first, then the second from where it ended. */
  lemma {:induction false} RunAppend(s: int, ns: seq<Nav>, ms: seq<Nav>)
    ensures Run(s, ns + ms) == Run(Run(s, ns), ms)
    decreases |ns|
  {
    if ns == [] {
      assert ns + ms == ms;
    } else {
      assert (ns + ms)[1..] == ns[1..] + ms;
      RunAppend(Navigate(s, ns[0]), ns[1..], ms);
    }
  }

  /** The wizard's state: the current step, which `setStep` updates. */
  class Wizard {
    var step: int

    /** The wizard opens on the first step. */
    constructor()
      ensures step == 0
    {
      step := 0;
    }

    /** `navigate.next`. */
    method Next()
      modifies this
      ensures step == Navigate(old(step), Nav.Next)
    {
      step := if step + 1 < TotalSteps - 1 then step + 1 else TotalSteps - 1;
    }

    /** `navigate.back`. */
    method Back()
      modifies this
      ensures step == Navigate(old(step), Nav.Back)
    {
      step := if step - 1 > 0 then step - 1 else 0;
    }

    /** `navigate.to(index)`: moves only to an index that names a step. */
    method To(index: int)
      modifies this
      ensures step == Navigate(old(step), Nav.To(index))
    {
      if index >= 0 && index < TotalSteps {
        step := index;
      }
    }
  }
}
