/** The update loop from reset: the class of Update makes exactly the runs that CrashSafety speaks about. */
module MainLoop {
  import opened Bytes
  import opened Memory
  import opened FlashIo
  import opened Protocol
  import opened Update
  import opened CrashSafety

  function Passes(xs: seq<Input>): (es: seq<Event>)
    ensures |es| == |xs|
  {
    seq(|xs|, i requires 0 <= i < |xs| => Event.Pass(xs[i]))
  }

  /** The ticks read never go back. */
  predicate Ordered(now: nat, xs: seq<Input>) {
    forall i :: 0 <= i < |xs| ==> InOrder(now, xs, i)
  }

  predicate InOrder(now: nat, xs: seq<Input>, i: nat)
    requires i < |xs|
  {
    (if i == 0 then now else xs[i - 1].actAt) <= xs[i].pingAt <= xs[i].actAt
  }

  lemma {:induction false} RunSnoc(s: System, es: seq<Event>, e: Event)
    requires Feasible(s, es) && Enabled(Run(s, es), e)
    ensures Feasible(s, es + [e]) && Run(s, es + [e]) == After(Run(s, es), e)
    decreases |es|
  {
    hide Enabled, After;
    if es == [] {
      assert [] + [e] == [e] && [e][1..] == [];
      assert Feasible(After(s, e), []) && Run(After(s, e), []) == After(s, e);
    } else {
      assert (es + [e])[1..] == es[1..] + [e];
      RunSnoc(After(s, es[0]), es[1..], e);
    }
  }

  /** Passes that are only made while the state is not US_DONE are a run. */
  lemma {:induction false} PassesAreRun(s: System, xs: seq<Input>)
    requires Ordered(s.now, xs)
    requires forall j :: 0 <= j < |xs| ==> Iterated(s.dev, s.flash, xs[..j]).0.status != Done
    ensures var t := Run(s, Passes(xs));
      && Feasible(s, Passes(xs)) && (t.dev, t.flash) == Iterated(s.dev, s.flash, xs)
      && t.now == if xs == [] then s.now else xs[|xs| - 1].actAt
  {
    hide Iterate, FlashAfter, Feasible, ArmedAfter, AckedAfter, HeldAfter, PayloadAfter, Intended;
    if xs == [] {
      NoRun(s);
    } else {
      var k := |xs| - 1;
      assert forall j :: 0 <= j < k ==> xs[..k][..j] == xs[..j];
      OrderedPrefix(s.now, xs, k);
      PassesAreRun(s, xs[..k]);
      assert InOrder(s.now, xs, k);
      assert Iterated(s.dev, s.flash, xs[..k]).0.status != Done;
      assert Passes(xs) == Passes(xs[..k]) + [Event.Pass(xs[k])];
      RunSnoc(s, Passes(xs[..k]), Event.Pass(xs[k]));
    }
  }

  lemma OrderedPrefix(now: nat, xs: seq<Input>, k: nat)
    requires Ordered(now, xs) && k <= |xs|
    ensures Ordered(now, xs[..k])
  {
    forall i | 0 <= i < k ensures InOrder(now, xs[..k], i) {
      assert InOrder(now, xs, i);
    }
  }

  lemma NoRun(s: System)
    ensures Feasible(s, []) && Run(s, []) == s
  {
  }

  /**
   main: from reset, update_state_machine leaves the flash and its statics as the run of its passes does. It ends
   before the observations do only at US_DONE, and then an application is there; if the run is disciplined, the
   one that was there before or the last completed update.
   */
  method Bootloader(machine: UpdateMachine, inputs: seq<Input>, ghost s0: System) returns (used: nat)
    requires machine.Valid() && !machine.packetReceived
    requires forall i :: 0 <= i < |inputs| && inputs[i].packet.Some? ==>
      |inputs[i].packet.value| == machine.buffer.Length
    requires Initial(s0) && machine.State() == s0.dev && machine.io.flash.Contents() == s0.flash
    requires Ordered(s0.now, inputs)
    modifies machine, machine.timeout, machine.io, machine.io.flash, machine.io.flash.cells, machine.buffer
    ensures machine.Valid() && used <= |inputs|
    ensures machine.updateStatus == Done || used == |inputs|
    ensures var es := Passes(inputs[..used]);
      var t := Run(s0, es);
      && Feasible(s0, es) && machine.State() == t.dev && machine.io.flash.Contents() == t.flash
      && (machine.updateStatus == Done ==>
            Entry(t.flash) != [0xFF, 0xFF, 0xFF, 0xFF] && Entry(t.flash) != [0, 0, 0, 0])
      && (machine.updateStatus == Done && Legal(s0, es) ==> App(machine.io.flash.Contents()) == t.base)
  {
    hide Iterated, Feasible, Legal, Run, Passes;
    used := machine.UpdateStateMachine(inputs);
    assert forall j :: 0 <= j < used ==> inputs[..used][..j] == inputs[..j];
    OrderedPrefix(s0.now, inputs, used);
    PassesAreRun(s0, inputs[..used]);
    if machine.updateStatus == Done {
      DoneMeans(s0, Passes(inputs[..used]));
    }
  }

  lemma DoneMeans(s0: System, es: seq<Event>)
    requires Initial(s0) && Feasible(s0, es) && Run(s0, es).dev.status == Done
    ensures var t := Run(s0, es);
      && Entry(t.flash) != [0xFF, 0xFF, 0xFF, 0xFF] && Entry(t.flash) != [0, 0, 0, 0]
      && (Legal(s0, es) ==> App(t.flash) == t.base)
  {
    hide Legal, Feasible, Run, Entry;
    ReachedByAny(s0, es);
    if Legal(s0, es) {
      CrashAtomic(s0, es);
    }
  }
}
