/** What one transaction, and a block of them, may do to state and to block gas. */
module TxProperties {
  import opened Bytes
  import opened Gas
  import opened TxExecution

  // ---- Which writes survive ----

  /** The transaction decodes, its messages are valid and the ante handler lets it pass. */
  predicate AntePasses<S, M>(app: App<S, M>, mode: Mode, st: State<S>, tx: bytes) {
    && DecodeAndValidate(app, tx).Returns?
    && (app.ante.None? || app.ante.value(TxCtx(mode, st, tx), DecodeAndValidate(app, tx).value).call.Returns?)
  }

  /** The context the messages run in: the ante handler's writes and its choice of meters. */
  function MsgCtx<S, M>(app: App<S, M>, mode: Mode, st: State<S>, tx: bytes): Ctx<S>
    requires AntePasses(app, mode, st, tx)
  {
    if app.ante.None? then TxCtx(mode, st, tx)
    else
      var out := app.ante.value(TxCtx(mode, st, tx), DecodeAndValidate(app, tx).value);
      Ctx(out.ms, out.NextMeter(), if out.OwnBlock().Some? then out.OwnBlock() else Left(st.blockMeter, out.block),
        st.height, mode, tx)
  }

  /** The mode's store with exactly the ante writes, or untouched when the ante step does not pass. */
  function AnteStore<S, M>(app: App<S, M>, mode: Mode, st: State<S>, tx: bytes): S {
    if AntePasses(app, mode, st, tx) then MsgCtx(app, mode, st, tx).ms else st.ms
  }

  /** For every mode, application, state and transaction: the mode's store ends up untouched,
      with exactly the ante writes, or (a delivered transaction without an error) with the ante
      writes and the writes of every message; simulation never changes it. */
  lemma {:induction false} TxStoreOutcome<S, M>(app: App<S, M>, mode: Mode, st: State<S>, tx: bytes)
    requires mode.Deliver? ==> st.blockMeter.Some?
    ensures var out := RunTx(app, mode, st, tx);
            && (Gated(mode, st) || mode.Simulate? ==> out.state.ms == st.ms)
            && (!Gated(mode, st) && (mode.Check? || mode.ReCheck?) ==> out.state.ms == AnteStore(app, mode, st, tx))
            && (!Gated(mode, st) && mode.Deliver? && out.err.Some? ==> out.state.ms == AnteStore(app, mode, st, tx))
            && (mode.Deliver? && out.err.None? ==>
                  && AntePasses(app, mode, st, tx)
                  && var msgs := HandleAll(app, MsgCtx(app, mode, st, tx), DecodeAndValidate(app, tx).value);
                     msgs.call.Returns? && out.state.ms == msgs.ms)
  {
    ResultXorError(app, mode, st, tx);
  }

  /** A result is returned exactly when there is no error. */
  lemma {:induction false} ResultXorError<S, M>(app: App<S, M>, mode: Mode, st: State<S>, tx: bytes)
    requires mode.Deliver? ==> st.blockMeter.Some?
    ensures var out := RunTx(app, mode, st, tx);
            && (out.result.Some? <==> out.err.None?)
            && (out.err.None? <==> !Gated(mode, st) && Ending(app, mode, st, tx).Returns?)
  {
    forall p ensures Recover(p, app.recovery).Some? {
      RecoveryAlwaysErrs(p, app.recovery);
    }
  }

  /** Running `a + b` is running `a` and then, if `a` succeeded, `b` from where `a` stopped:
      a batch of messages has no effect of its own beyond those of its messages in order. */
  lemma {:induction false} HandleAllConcat<S, M>(app: App<S, M>, ctx: Ctx<S>, a: seq<M>, b: seq<M>)
    ensures var first := HandleAll(app, ctx, a);
            var both := HandleAll(app, ctx, a + b);
            if !first.call.Returns? then both == first
            else
              var second := HandleAll(app, ctx.(ms := first.ms, meter := first.meter, block := first.block), b);
              && both.ms == second.ms && both.meter == second.meter && both.block == second.block
              && (second.call.Returns? ==>
                    both.call == Returns((first.call.value.0 + second.call.value.0,
                      first.call.value.1 + second.call.value.1)))
              && (!second.call.Returns? ==> both.call == second.call)
    decreases |a|
  {
    if a == [] {
      assert a + b == b;
      var second := HandleAll(app, ctx, b);
      if second.call.Returns? {
        assert [] + second.call.value.0 == second.call.value.0 && [] + second.call.value.1 == second.call.value.1;
      }
    } else {
      var out := (app.handle)(ctx, a[0]);
      assert (a + b)[0] == a[0] && (a + b)[1..] == a[1..] + b;
      if out.call.Returns? {
        var ctx' := ctx.(ms := out.ms, meter := out.meter, block := Left(ctx.block, out.block));
        HandleAllConcat(app, ctx', a[1..], b);
        var first := HandleAll(app, ctx', a[1..]);
        if first.call.Returns? {
          var second := HandleAll(app, ctx'.(ms := first.ms, meter := first.meter, block := first.block), b);
          if second.call.Returns? {
            var r := out.call.value;
            var act := app.action(a[0]);
            assert [r.data] + (first.call.value.0 + second.call.value.0) ==
              ([r.data] + first.call.value.0) + second.call.value.0;
            assert [act] + r.events + (first.call.value.1 + second.call.value.1)
                == ([act] + r.events + first.call.value.1) + second.call.value.1;
          }
        }
      }
    }
  }

  // ---- Block gas ----

  /** In deliver mode a transaction that passes the gate charges the block meter of its context
      exactly once, however it ends: on top of what the handlers themselves did to it, and not the
      state's meter if the ante handler put another one in its place.  A gated transaction leaves
      the meter alone, and every other mode leaves it as its handlers do.  Message writes reach the
      store only when the charge kept the total within the limit. */
  lemma {:induction false} BlockGasChargedOnce<S, M>(app: App<S, M>, mode: Mode, st: State<S>, tx: bytes)
    requires mode.Deliver? ==> st.blockMeter.Some?
    ensures var out, b := RunTx(app, mode, st, tx), TxBody(app, mode, st, tx);
            && (Gated(mode, st) ==> out.state.blockMeter == st.blockMeter)
            && (!mode.Deliver? || (!Gated(mode, st) && b.own.Some?) ==> out.state.blockMeter == b.block)
            && (mode.Deliver? && !Gated(mode, st) && b.own.None? ==>
                  out.state.blockMeter == Some(b.block.value.Consume(Charge(app, mode, st, tx))))
            && (mode.Deliver? && out.err.None? ==>
                  var after := b.Charged().value.Consume(Charge(app, mode, st, tx));
                  after.consumed == b.Charged().value.consumed + Charge(app, mode, st, tx) && !after.IsPastLimit())
  {
    ResultXorError(app, mode, st, tx);
  }

  /** In this mode the handlers neither use nor replace the block gas meter of their context. */
  ghost predicate HandsOff<S(!new), M(!new)>(app: App<S, M>, mode: Mode) {
    && (app.ante.Some? ==>
          forall ctx: Ctx<S>, msgs :: ctx.mode == mode && ctx.block.Some? ==>
            var out := app.ante.value(ctx, msgs);
            out.block == ctx.block.value && out.OwnBlock().None?)
    && (forall ctx: Ctx<S>, m :: ctx.mode == mode && ctx.block.Some? ==> app.handle(ctx, m).block == ctx.block.value)
  }

  lemma {:induction false} QuietMessages<S(!new), M(!new)>(app: App<S, M>, ctx: Ctx<S>, msgs: seq<M>)
    requires HandsOff(app, ctx.mode)
    ensures HandleAll(app, ctx, msgs).block == ctx.block
    decreases |msgs|
  {
    if msgs != [] {
      var out := (app.handle)(ctx, msgs[0]);
      QuietMessages(app, ctx.(ms := out.ms, meter := out.meter, block := Left(ctx.block, out.block)), msgs[1..]);
    }
  }

  /** With such handlers a transaction leaves the block gas meter to the one charge. */
  lemma {:induction false} QuietBody<S(!new), M(!new)>(app: App<S, M>, mode: Mode, st: State<S>, tx: bytes)
    requires HandsOff(app, mode)
    ensures TxBody(app, mode, st, tx).block == st.blockMeter
    ensures st.blockMeter.Some? ==> TxBody(app, mode, st, tx).own.None?
  {
    hide HandleAll, DecodeAndValidate;
    if AntePasses(app, mode, st, tx) {
      var msgs := DecodeAndValidate(app, tx).value;
      QuietMessages(app, MsgCtx(app, mode, st, tx), if mode.Check? || mode.ReCheck? then [] else msgs);
    }
  }

  /** The state after delivering transactions in order. */
  function DeliverAll<S, M>(app: App<S, M>, st: State<S>, txs: seq<bytes>): (r: State<S>)
    requires st.blockMeter.Some?
    ensures r.blockMeter.Some? && r.height == st.height
    decreases |txs|
  {
    if txs == [] then st
    else DeliverAll(app, RunTx(app, Deliver, st, txs[0]).state, txs[1..])
  }

  /** Block gas charged to all transactions that pass the gate. */
  function TotalCharged<S, M>(app: App<S, M>, st: State<S>, txs: seq<bytes>): nat
    requires st.blockMeter.Some?
    decreases |txs|
  {
    if txs == [] then 0
    else (if Gated(Deliver, st) then 0 else Charge(app, Deliver, st, txs[0]))
         + TotalCharged(app, RunTx(app, Deliver, st, txs[0]).state, txs[1..])
  }

  /** Block gas charged to the transactions that succeed. */
  function SuccessCharged<S, M>(app: App<S, M>, st: State<S>, txs: seq<bytes>): nat
    requires st.blockMeter.Some?
    decreases |txs|
  {
    if txs == [] then 0
    else (if RunTx(app, Deliver, st, txs[0]).err.None? then Charge(app, Deliver, st, txs[0]) else 0)
         + SuccessCharged(app, RunTx(app, Deliver, st, txs[0]).state, txs[1..])
  }

  /** A block of transactions whose handlers leave the block meter alone.  With a gas limit the
      meter ends at the sum of all charges (or at the 64-bit maximum), and the transactions that
      succeeded together stayed within the limit.  Without one it ends at the sum exactly when the
      sum fits 64 bits, since an infinite meter restarts from 0 when it overflows. */
  lemma {:induction false} BlockGasConserved<S(!new), M(!new)>(app: App<S, M>, st: State<S>, txs: seq<bytes>)
    requires st.blockMeter.Some? && HandsOff(app, Deliver)
    ensures var before, after := st.blockMeter.value, DeliverAll(app, st, txs).blockMeter.value;
            var total := before.consumed + TotalCharged(app, st, txs);
            && (before.Limited? ==>
                  && after == Limited(before.limit, if total <= MAX_UINT64 then total else MAX_UINT64)
                  && (SuccessCharged(app, st, txs) > 0 ==>
                    before.consumed + SuccessCharged(app, st, txs) <= before.limit))
            && (before.Infinite? ==> after.Infinite? && (after.consumed == total <==> total <= MAX_UINT64))
    decreases |txs|
  {
    hide HandsOff, TxBody;
    if txs != [] {
      var st' := RunTx(app, Deliver, st, txs[0]).state;
      BlockGasChargedOnce(app, Deliver, st, txs[0]);
      QuietBody(app, Deliver, st, txs[0]);
      BlockGasConserved(app, st', txs[1..]);
      if st'.blockMeter.value.Limited? && st'.blockMeter.value.consumed == MAX_UINT64 {
        ExhaustedBlockIsInert(app, st', txs[1..]);
      }
    }
  }

  /** The failing family: a charge that overflows an infinite block meter fails its transaction and
      empties the meter. */
  lemma {:induction false} InfiniteMeterForgets<S(!new), M(!new)>(app: App<S, M>, st: State<S>, tx: bytes)
    requires st.blockMeter.Some? && st.blockMeter.value.Infinite? && HandsOff(app, Deliver)
    requires st.blockMeter.value.consumed + Charge(app, Deliver, st, tx) > MAX_UINT64
    ensures DeliverAll(app, st, [tx]).blockMeter == Some(Infinite(0))
    ensures RunTx(app, Deliver, st, tx).err.Some?
  {
    hide HandsOff, TxBody;
    BlockGasChargedOnce(app, Deliver, st, tx);
    QuietBody(app, Deliver, st, tx);
    assert [tx][1..] == [];
  }

  /** Once the block meter is out of gas no further transaction of the block has any effect. */
  lemma {:induction false} ExhaustedBlockIsInert<S, M>(app: App<S, M>, st: State<S>, txs: seq<bytes>)
    requires st.blockMeter.Some? && st.blockMeter.value.IsOutOfGas()
    ensures DeliverAll(app, st, txs) == st
    ensures TotalCharged(app, st, txs) == 0 && SuccessCharged(app, st, txs) == 0
    ensures forall i :: 0 <= i < |txs| ==>
              RunTx(app, Deliver, DeliverAll(app, st, txs[..i]), txs[i]).err == Some(ErrOutOfGas)
    decreases |txs|
  {
    if txs != [] {
      assert RunTx(app, Deliver, st, txs[0]).state == st;
      ExhaustedBlockIsInert(app, st, txs[1..]);
      forall i | 0 <= i < |txs|
        ensures RunTx(app, Deliver, DeliverAll(app, st, txs[..i]), txs[i]).err == Some(ErrOutOfGas)
      {
        if i > 0 {
          assert txs[..i][1..] == txs[1..][..i - 1];
          assert txs[..i][0] == txs[0] && txs[i] == txs[1..][i - 1];
        }
      }
    }
  }
}
