/** A profiling session: the programs run, their events arrive, and the counts come out. */
module Session {
  import opened Machine
  import opened LuaWalk
  import opened Snapshot
  import opened Kernel
  import opened KernelRuns
  import opened Aggregator
  import opened DeliveryOrder
  import opened Pipeline

  lemma OneMoreInput(c: Config, inputs: seq<Input>, n: nat)
    requires n < |inputs|
    ensures Run(c, inputs[..n + 1]) == After(Run(c, inputs[..n]), c, inputs[n])
  {
    hide After;
    assert inputs[..n + 1][..n] == inputs[..n];
  }

  lemma OneMoreNative(env: Env, natives: seq<NativeDelivery>, n: NativeDelivery)
    ensures DeliverAll(env, Arrivals(natives + [n], []))
            == Deliver(env, DeliverAll(env, Arrivals(natives, [])), NativeArrives(n))
  {
    hide Deliver;
    var all := Arrivals(natives + [n], []);
    assert all[..|all| - 1] == Arrivals(natives, []);
  }

  lemma OneMoreLua(env: Env, natives: seq<NativeDelivery>, luas: seq<LuaEvent>, n: nat)
    requires n < |luas|
    ensures DeliverAll(env, Arrivals(natives, luas[..n + 1]))
            == Deliver(env, DeliverAll(env, Arrivals(natives, luas[..n])), LuaArrives(luas[n]))
  {
    hide Deliver;
    var all := Arrivals(natives, luas[..n + 1]);
    assert all[..|all| - 1] == Arrivals(natives, luas[..n]);
  }

  lemma OneMoreWire(ws: seq<NativeWire>, n: nat)
    requires n < |ws|
    ensures var r := Received(ws[n]);
            AllReceived(ws[..n + 1])
            == if r.Some? then AllReceived(ws[..n]) + [r.value] else AllReceived(ws[..n])
  {
    hide Received;
    assert ws[..n + 1][..n] == ws[..n];
  }

  /** The programs, run one after the other. */
  method RunPrograms(c: Config, inputs: seq<Input>) returns (natives: seq<NativeWire>, luas: seq<LuaEvent>)
    requires forall i :: i in inputs && i.Perf? ==> SampleShape(i.sample)
    ensures AllReceived(natives) == Run(c, inputs).natives && AllCanonical(luas) == Run(c, inputs).luas
  {
    hide After, Run, AllReceived, AllCanonical;
    var probe := new Probe(c);
    assert Run(c, inputs[..0]) == Initial by { NothingRun(c, inputs); }
    for n := 0 to |inputs|
      invariant fresh(probe) && fresh(probe.nameBuf) && fresh(probe.stackBuf) && probe.config == c
      invariant probe.Valid() && probe.View() == Run(c, inputs[..n])
    {
      OneMoreInput(c, inputs, n);
      probe.Handle(inputs[n]);
    }
    assert inputs[..|inputs|] == inputs;
    natives, luas := probe.nativeEvents, probe.luaEvents;
  }

  lemma NothingRun(c: Config, inputs: seq<Input>)
    ensures Run(c, inputs[..0]) == Initial
  {
  }

  /** Both perf buffers drained into the aggregator, then folded. */
  method Aggregate(env: Env, natives: seq<NativeWire>, luas: seq<LuaEvent>) returns (counts: map<string, nat>)
    ensures counts == Counts(env, Arrivals(AllReceived(natives), luas))
  {
    hide Deliver, DeliverAll, AllReceived, Arrivals, Tally, Stacks, StackOf;
    var pending := new Pending();
    NothingArrived(env, natives, luas);
    for n := 0 to |natives|
      invariant fresh(pending) && pending.folded == map[]
      invariant pending.View() == DeliverAll(env, Arrivals(AllReceived(natives[..n]), []))
    {
      OneMoreWire(natives, n);
      var w := natives[n];
      if WireShape(w.event) && w.len >= PREFIX_SIZE {
        var e := FromDelivery(w.event, w.len).value;
        OneMoreNative(env, AllReceived(natives[..n]), NativeDelivery(e.key, FromEvent(e)));
        pending.HandleNative(env, e);
      }
    }
    assert natives[..|natives|] == natives;
    for n := 0 to |luas|
      invariant fresh(pending) && pending.folded == map[]
      invariant pending.View() == DeliverAll(env, Arrivals(AllReceived(natives), luas[..n]))
    {
      OneMoreLua(env, AllReceived(natives), luas, n);
      pending.HandleLua(env, luas[n]);
    }
    assert luas[..|luas|] == luas;
    counts := pending.Finalize(env);
  }

  lemma NothingArrived(env: Env, natives: seq<NativeWire>, luas: seq<LuaEvent>)
    ensures DeliverAll(env, Arrivals(AllReceived(natives[..0]), [])) == Nothing
    ensures luas[..0] == []
  {
  }

  /** The counts of a whole session say of every folded stack how many samples, each with its
      own native stack and its own Lua walk, fold to it; with the samples that fold to nothing
      they add up to the timer interrupts asked for. */
  method Profile(c: Config, env: Env, inputs: seq<Input>) returns (counts: map<string, nat>)
    requires !c.kernelStacksOnly && DistinctKeys(TakenSamples(c, inputs))
    requires forall i :: i in inputs && i.Perf? ==> SampleShape(i.sample)
    ensures CountsSamples(counts, AllRendered(env, c, TakenSamples(c, inputs)))
    ensures var empty := multiset(AllRendered(env, c, TakenSamples(c, inputs)))[None];
            Total(counts) + empty == |Interrupts(inputs, Wanted(c))|
  {
    WantedAreTaken(c, inputs);
    hide Run, TakenSamples, Rendered, Total, Interrupts, Wanted;
    var natives, luas := RunPrograms(c, inputs);
    FoldedCountsAreSampleCounts(env, c, inputs, luas, Arrivals(AllReceived(natives), luas));
    counts := Aggregate(env, natives, luas);
  }
}
