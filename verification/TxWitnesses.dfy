/** Concrete applications on which an obvious claim about transactions fails. */
module TxWitnesses {
  import opened Bytes
  import opened Gas
  import opened TxExecution
  import opened TxProperties
  import opened Abci

  const TX: bytes := [1]

  function KeepState(st: State<int>): Option<(int, Meter, Meter)> {
    Some((st.ms, st.meter, if st.blockMeter.Some? then st.blockMeter.value else Infinite(0)))
  }

  function Ante(uses: uint64, ctx: Ctx<int>): AnteOut<int> {
    var block := if ctx.block.Some? then ctx.block.value else Infinite(0);
    AnteOut(ctx.ms, ctx.meter, if ctx.mode.Check? then block.Consume(uses) else block,
            NewCtx(Some(Limited(10, 5)), None), [], Returns(()))
  }

  function Handle(ctx: Ctx<int>): MsgOut<int> {
    MsgOut(ctx.ms + 1, ctx.meter, if ctx.block.Some? then ctx.block.value else Infinite(0), Returns(MsgResult([], [])))
  }

  /** An application over a counter: a transaction uses 5 of 10 units of gas and adds 1 to the
      counter; blocks have 10 units, and checking a transaction uses `uses` units of them. */
  function CounterApp(uses: uint64): App<int, int> {
    App(_ => Returns([0]), _ => Returns(()), Some((ctx, _) => Ante(uses, ctx)),
        (ctx, _) => Handle(ctx),
        _ => [], _ => Some([]), [], None, None, KeepState, KeepState, _ => Some(10))
  }

  lemma CounterDecodes(uses: uint64)
    ensures DecodeAndValidate(CounterApp(uses), TX) == Returns([0])
  {
    assert [0][1..] == [];
  }

  lemma CounterChecks(uses: uint64, ms: int, meter: Meter, block: Meter, height: int)
    ensures RunTx(CounterApp(uses), Check, State(ms, meter, Some(block), height), TX).state ==
            State(ms, meter, Some(block.Consume(uses)), height)
  {
    hide DecodeAndValidate;
    CounterDecodes(uses);
  }

  lemma CounterDelivers(uses: uint64, ms: int, meter: Meter, block: Meter, height: int)
    requires !block.IsOutOfGas()
    ensures var out := RunTx(CounterApp(uses), Deliver, State(ms, meter, Some(block), height), TX);
            && Charge(CounterApp(uses), Deliver, State(ms, meter, Some(block), height), TX) == 5
            && out.state == State(if block.ConsumePanic(5).None? then ms + 1 else ms, meter, Some(block.Consume(5)),
              height)
  {
    hide DecodeAndValidate;
    CounterDecodes(uses);
    assert [0][1..] == [];
  }

  /** A block of the counter application, with or without a check after it begins. */
  lemma CounterBlock(uses: uint64, checked: bool)
    requires uses == 0 || uses >= 10
    ensures var check := if checked then [CheckTx(TX, false)] else [];
            var acts := [BeginBlock(1)] + check + [DeliverTx(TX), EndBlock, Commit];
            && Run(CounterApp(uses), Boot(0, 0), acts).Some?
            && Run(CounterApp(uses), Boot(0, 0), acts).value.committed == if checked && uses >= 10 then 0 else 1
  {
    hide Run, RunTx;
    var app := CounterApp(uses);
    var s0 := Boot(0, 0);
    var tail := [DeliverTx(TX), EndBlock, Commit];
    var block := Limited(10, 0);
    var s1 := AppState(0, 0, 0, 0, Some(State(0, Infinite(0), Some(block), 0)),
      Some(State(0, Infinite(0), Some(block), 1)));
    assert Step(app, s0, BeginBlock(1)) == Some(s1);
    RunFirst(app, s0, BeginBlock(1), (if checked then [CheckTx(TX, false)] else []) + tail);
    assert [BeginBlock(1)] + (if checked then [CheckTx(TX, false)] else []) + tail
        == [BeginBlock(1)] + ((if checked then [CheckTx(TX, false)] else []) + tail);
    var s2 := s1;
    if checked {
      CounterChecks(uses, 0, Infinite(0), block, 0);
      RunFirst(app, s1, CheckTx(TX, false), tail);
      s2 := Step(app, s1, CheckTx(TX, false)).value;
    } else {
      assert [] + tail == tail;
    }
    CounterTail(uses, s2);
  }

  lemma CounterTail(uses: uint64, s: AppState<int>)
    requires s.committed == 0 && s.deliver.Some? && s.deliver.value.ms == 0 && s.deliver.value.blockMeter.Some?
    requires s.deliver.value.blockMeter.value.Limited? && s.deliver.value.blockMeter.value.limit == 10
    requires s.deliver.value.blockMeter.value.consumed == 0 || s.deliver.value.blockMeter.value.consumed >= 10
    ensures var r := Run(CounterApp(uses), s, [DeliverTx(TX), EndBlock, Commit]);
            r.Some? && r.value.committed == if s.deliver.value.blockMeter.value.consumed >= 10 then 0 else 1
  {
    hide Run, RunTx;
    var app := CounterApp(uses);
    var d := s.deliver.value;
    if d.blockMeter.value.consumed >= 10 {
      assert RunTx(app, Deliver, d, TX).state == d by { Turned(app, d); }
    } else {
      CounterDelivers(uses, d.ms, d.meter, d.blockMeter.value, d.height);
    }
    var s1 := Step(app, s, DeliverTx(TX)).value;
    var s2 := Step(app, s1, EndBlock).value;
    var s3 := Step(app, s2, Commit).value;
    assert [DeliverTx(TX), EndBlock, Commit] == [DeliverTx(TX)] + ([EndBlock] + ([Commit] + []));
    RunFirst(app, s, DeliverTx(TX), [EndBlock] + ([Commit] + []));
    RunFirst(app, s1, EndBlock, [Commit] + []);
    RunFirst(app, s2, Commit, []);
    RunNothing(app, s3);
  }

  lemma Turned(app: App<int, int>, d: State<int>)
    requires d.blockMeter.Some? && d.blockMeter.value.IsOutOfGas()
    ensures RunTx(app, Deliver, d, TX).state == d
  {
  }

  lemma OnlyChainFirst(a: Action, rest: seq<Action>)
    ensures OnlyChain([a] + rest) == (if IsMempool(a) then [] else [a]) + OnlyChain(rest)
  {
    assert ([a] + rest)[1..] == rest;
  }

  lemma OnlyChainOfBlock()
    ensures OnlyChain([BeginBlock(1)] + [CheckTx(TX, false)] + [DeliverTx(TX), EndBlock, Commit])
         == [BeginBlock(1)] + [] + [DeliverTx(TX), EndBlock, Commit]
  {
    hide OnlyChain;
    var tail := [DeliverTx(TX), EndBlock, Commit];
    OnlyChainTail();
    OnlyChainFirst(CheckTx(TX, false), tail);
    OnlyChainFirst(BeginBlock(1), [CheckTx(TX, false)] + tail);
    assert [BeginBlock(1)] + [CheckTx(TX, false)] + tail == [BeginBlock(1)] + ([CheckTx(TX, false)] + tail);
    assert [BeginBlock(1)] + ([] + tail) == [BeginBlock(1)] + [] + tail;
  }

  lemma OnlyChainTail()
    ensures OnlyChain([DeliverTx(TX), EndBlock, Commit]) == [DeliverTx(TX), EndBlock, Commit]
  {
    OnlyChainFirst(Commit, []);
    OnlyChainFirst(EndBlock, [Commit]);
    OnlyChainFirst(DeliverTx(TX), [EndBlock, Commit]);
    assert [Commit] + [] == [Commit] && [EndBlock] + [Commit] == [EndBlock, Commit];
    assert [DeliverTx(TX)] + [EndBlock, Commit] == [DeliverTx(TX), EndBlock, Commit];
  }

  /** Checks that use the block gas meter they are shown do interfere: here a checked transaction
      eats the block's gas, and the block commits nothing of what it commits without the check. */
  lemma MempoolInterference()
    ensures var app := CounterApp(10);
            var acts := [BeginBlock(1), CheckTx(TX, false), DeliverTx(TX), EndBlock, Commit];
            && Run(app, Boot(0, 0), acts).Some? && Run(app, Boot(0, 0), OnlyChain(acts)).Some?
            && Run(app, Boot(0, 0), acts).value.committed == 0
            && Run(app, Boot(0, 0), OnlyChain(acts)).value.committed == 1
  {
    hide Run, CounterApp, OnlyChain;
    CounterBlock(10, true);
    CounterBlock(10, false);
    OnlyChainOfBlock();
    assert [BeginBlock(1), CheckTx(TX, false), DeliverTx(TX), EndBlock, Commit]
        == [BeginBlock(1)] + [CheckTx(TX, false)] + [DeliverTx(TX), EndBlock, Commit];
  }

  /** One more charge on a full infinite block meter leaves it empty. */
  lemma InfiniteMeterWitness()
    ensures DeliverAll(CounterApp(0), State(0, Infinite(0), Some(Infinite(MAX_UINT64)), 1), [TX]).blockMeter ==
      Some(Infinite(0))
    ensures TotalCharged(CounterApp(0), State(0, Infinite(0), Some(Infinite(MAX_UINT64)), 1), [TX]) == 5
  {
    hide CounterApp;
    CounterDelivers(0, 0, Infinite(0), Infinite(MAX_UINT64), 1);
    assert [TX][1..] == [];
  }
}
