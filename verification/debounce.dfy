/** `debounce`: a wrapper that delays a call until `wait` milliseconds have
    passed without another call, with `cancel` to drop the pending one.

    Time is abstracted into events: `Call(args)` is a call of the wrapper,
    `Fire` is the moment the most recently scheduled timer runs out, and
    `Cancel` is a call of `cancel`. The wrapper keeps a single timer handle,
    which it does not clear after the timer has run, so the handle goes
    through three states.
 */
module Debounce {
  import opened Wrappers

  datatype Timer<A> =
    | NoTimer       // `timeout` is null
    | Pending(args: A)  // a timer that will call `func(...args)`
    | Spent         // the handle of a timer that has already run

  datatype Event<A> = Call(args: A) | Fire | Cancel

  /** The wrapper: clear whatever handle there is and schedule the new
      arguments. Whatever was pending before, the next timeout runs `func`
      with exactly these arguments, and a cancel drops them. */
  function OnCall<A>(t: Timer<A>, args: A): (t': Timer<A>)
    ensures OnFire(t') == (Spent, Some(args))
    ensures OnFire(OnCancel(t')).1.None?
  {
    Pending(args)
  }

  /** The timer runs out: a pending timer calls `func` with its arguments;
      the handle stays set. */
  function OnFire<A>(t: Timer<A>): (r: (Timer<A>, Option<A>))
    ensures !r.0.Pending?
    ensures r.1.Some? <==> t.Pending?
    ensures r.1.Some? ==> r.1.value == t.args
    ensures r.1.None? ==> r.0 == t
  {
    if t.Pending? then (Spent, Some(t.args)) else (t, None)
  }

  /** `cancel`: a set handle, spent or not, is cleared and nulled. */
  function OnCancel<A>(t: Timer<A>): (t': Timer<A>)
    ensures t' == NoTimer
  {
    match t
    case NoTimer => t
    case Pending(_) => NoTimer
    case Spent => NoTimer
  }

  /** One event. Only a timeout runs `func`, and only with the pending
      arguments; after a call the next timeout runs it with that call's
      arguments, and after a cancel the next timeout runs nothing. */
  function Step<A>(t: Timer<A>, e: Event<A>): (r: (Timer<A>, Option<A>))
    ensures r.1.Some? ==> e.Fire? && t.Pending? && r.1.value == t.args
    ensures e.Fire? && t.Pending? ==> r.1.Some?
    ensures e.Call? ==> OnFire(r.0).1 == Some(e.args)
    ensures e.Cancel? ==> OnFire(r.0).1.None?
    ensures !e.Fire? ==> r.1.None?
  {
    match e
    case Call(args) => (OnCall(t, args), None)
    case Fire => OnFire(t)
    case Cancel => (OnCancel(t), None)
  }

  /** The timer after a sequence of events, and the arguments `func` was
      called with, in order. */
  function Run<A>(t: Timer<A>, es: seq<Event<A>>): (r: (Timer<A>, seq<A>))
    ensures |r.1| <= CountFires(es)
    decreases |es|
  {
    if es == [] then (t, [])
    else
      var (t1, out) := Step(t, es[0]);
      var (t2, rest) := Run(t1, es[1..]);
      (t2, (if out.Some? then [out.value] else []) + rest)
  }

  function CountFires<A>(es: seq<Event<A>>): (n: nat)
    ensures n <= |es|
    decreases |es|
  {
    if es == [] then 0 else (if es[0].Fire? then 1 else 0) + CountFires(es[1..])
  }

  function CountCalls<A>(es: seq<Event<A>>): (n: nat)
    ensures n <= |es|
    decreases |es|
  {
    if es == [] then 0 else (if es[0].Call? then 1 else 0) + CountCalls(es[1..])
  }

  ghost predicate Called<A>(es: seq<Event<A>>, a: A) {
    exists k :: 0 <= k < |es| && es[k] == Call(a)
  }

  /** Starting without a timer, `func` runs at most once per timeout and at
      most once per call, and only ever with arguments some call passed. */
  lemma {:induction false} RunIsDebounced<A>(t: Timer<A>, es: seq<Event<A>>)
    requires !t.Pending?
    ensures |Run(t, es).1| <= CountFires(es)
    ensures |Run(t, es).1| <= CountCalls(es)
    ensures forall a :: a in Run(t, es).1 ==> Called(es, a)
    decreases |es|
  {
    if es != [] {
      var (t1, out) := Step(t, es[0]);
      if es[0].Call? {
        var a := es[0].args;
        CallThenRest(a, es[1..]);
        assert es == [Call(a)] + es[1..];
      } else {
        assert !t1.Pending?;
        RunIsDebounced(t1, es[1..]);
        forall b | b in Run(t, es).1
          ensures Called(es, b)
        {
          assert b in Run(t1, es[1..]).1;
          var k :| 0 <= k < |es[1..]| && es[1..][k] == Call(b);
          assert es[k + 1] == Call(b);
        }
      }
    }
  }

  /** The same bounds from a pending timer, counting its arguments as one
      call. */
  lemma {:induction false} CallThenRest<A>(a: A, es: seq<Event<A>>)
    ensures |Run(Pending(a), es).1| <= CountFires(es)
    ensures |Run(Pending(a), es).1| <= CountCalls(es) + 1
    ensures forall b :: b in Run(Pending(a), es).1 ==> b == a || Called(es, b)
    ensures var r := Run(NoTimer, [Call(a)] + es);
      r == Run(Pending(a), es) && CountCalls([Call(a)] + es) == CountCalls(es) + 1 &&
      CountFires([Call(a)] + es) == CountFires(es) &&
      forall b :: b in r.1 ==> Called([Call(a)] + es, b)
    decreases |es|
  {
    var ces := [Call(a)] + es;
    assert ces[0] == Call(a) && ces[1..] == es;
    assert Step(NoTimer, ces[0]) == (Pending(a), None);
    var none: seq<A> := [];
    assert none + Run(Pending(a), es).1 == Run(Pending(a), es).1;
    assert Run(NoTimer, ces) == Run(Pending(a), es);
    if es != [] {
      var e := es[0];
      match e
      case Call(c) =>
        CallThenRest(c, es[1..]);
        assert es == [Call(c)] + es[1..];
      case Fire =>
        RunIsDebounced(Spent, es[1..]);
        forall b | b in Run(Pending(a), es).1 && b != a
          ensures Called(es, b)
        {
          assert b in Run(Spent, es[1..]).1;
          var k :| 0 <= k < |es[1..]| && es[1..][k] == Call(b);
          assert es[k + 1] == Call(b);
        }
      case Cancel =>
        RunIsDebounced(NoTimer, es[1..]);
        forall b | b in Run(Pending(a), es).1
          ensures Called(es, b)
        {
          assert b in Run(NoTimer, es[1..]).1;
          var k :| 0 <= k < |es[1..]| && es[1..][k] == Call(b);
          assert es[k + 1] == Call(b);
        }
    }
    forall b | b in Run(NoTimer, ces).1
      ensures Called(ces, b)
    {
      if b == a {
        assert ces[0] == Call(b);
      } else {
        var k :| 0 <= k < |es| && es[k] == Call(b);
        assert ces[k + 1] == Call(b);
      }
    }
  }

  /** A burst of calls followed by the timeout calls `func` once, with the
      arguments of the last call. */
  lemma {:induction false} LastCallWins<A>(t: Timer<A>, xs: seq<A>)
    requires xs != []
    ensures Run(t, Calls(xs) + [Fire]).1 == [xs[|xs| - 1]]
    decreases |xs|
  {
    var es := Calls(xs) + [Fire];
    assert es[0] == Call(xs[0]);
    assert Step(t, es[0]) == (Pending(xs[0]), None);
    if |xs| == 1 {
      assert es[1..] == [Fire];
      assert es[1..][1..] == [];
      assert Run(Pending(xs[0]), es[1..]).1 == [xs[0]];
    } else {
      assert es[1..] == Calls(xs[1..]) + [Fire];
      LastCallWins(Pending(xs[0]), xs[1..]);
    }
  }

  function Calls<A>(xs: seq<A>): (es: seq<Event<A>>)
    ensures |es| == |xs| && forall k :: 0 <= k < |xs| ==> es[k] == Call(xs[k])
    decreases |xs|
  {
    if xs == [] then [] else [Call(xs[0])] + Calls(xs[1..])
  }

  /** `cancel` drops a pending call: a later timeout calls nothing. */
  lemma CancelDropsPending<A>(t: Timer<A>)
    ensures Run(t, [Cancel, Fire]).1 == []
    ensures Run(t, [Cancel]).0 == NoTimer
  {
    var es: seq<Event<A>> := [Cancel, Fire];
    assert es[1..] == [Fire];
  }

  /** A timer runs once: a second timeout with no call between calls
      nothing. */
  lemma FireOnce<A>(a: A)
    ensures Run(Pending(a), [Fire]).1 == [a]
    ensures Run(Pending(a), [Fire, Fire]).1 == [a]
  {
    var es: seq<Event<A>> := [Fire, Fire];
    assert es[1..] == [Fire];
  }
}
