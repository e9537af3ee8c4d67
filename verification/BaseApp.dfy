/** The `BaseApp` object: its fields, `runTx` with its deferred functions, and the ABCI calls
    that update the fields, each proved against the state machine of module `Abci`.  Block gas
    meters are objects here, and the check and the deliver context may hold the same one. */
module BaseAppObject {
  import opened Bytes
  import opened Gas
  import opened TxExecution
  import opened Abci
  import TxProperties

  /** After some messages, with the data and events gathered so far, `rest` of the loop completes
      `whole`. */
  ghost predicate Resumes<S>(whole: MsgsOut<S>, rest: MsgsOut<S>, data: seq<bytes>, events: seq<bytes>) {
    && whole.ms == rest.ms && whole.meter == rest.meter && whole.block == rest.block
    && (rest.call.Returns? ==> whole.call == Returns((data + rest.call.value.0, events + rest.call.value.1)))
    && (!rest.call.Returns? ==> whole.call == rest.call)
  }

  /** The context after a message. */
  ghost function NextCtx<S>(ctx: Ctx<S>, one: MsgOut<S>): Ctx<S> {
    ctx.(ms := one.ms, meter := one.meter, block := Left(ctx.block, one.block))
  }

  lemma ResumeStep<S, M>(app: App<S, M>, ctx: Ctx<S>, todo: seq<M>, whole: MsgsOut<S>, data: seq<bytes>,
                         events: seq<bytes>)
    requires todo != [] && Resumes(whole, HandleAll(app, ctx, todo), data, events)
    ensures var one := (app.handle)(ctx, todo[0]);
            match one.call
            case Returns(r) =>
              Resumes(whole, HandleAll(app, NextCtx(ctx, one), todo[1..]), data + [r.data],
                events + ([app.action(todo[0])] + r.events))
            case Fails(e) => whole == MsgsOut(one.ms, one.meter, Left(ctx.block, one.block), Fails(e))
            case Panics(p) => whole == MsgsOut(one.ms, one.meter, Left(ctx.block, one.block), Panics(p))
  {
    var one := (app.handle)(ctx, todo[0]);
    var rest := HandleAll(app, NextCtx(ctx, one), todo[1..]);
    if one.call.Returns? && rest.call.Returns? {
      var r := one.call.value;
      var (d, e) := rest.call.value;
      assert data + ([r.data] + d) == data + [r.data] + d;
      assert events + ([app.action(todo[0])] + r.events + e) == events + ([app.action(todo[0])] + r.events) + e;
    }
  }

  lemma ResumeFirst<S>(whole: MsgsOut<S>)
    ensures Resumes(whole, whole, [], [])
  {
    if whole.call.Returns? {
      assert [] + whole.call.value.0 == whole.call.value.0 && [] + whole.call.value.1 == whole.call.value.1;
    }
  }

  lemma ResumeLast<S, M>(app: App<S, M>, ctx: Ctx<S>, whole: MsgsOut<S>, data: seq<bytes>, events: seq<bytes>)
    requires Resumes(whole, HandleAll(app, ctx, []), data, events)
    ensures whole == MsgsOut(ctx.ms, ctx.meter, ctx.block, Returns((data, events)))
  {
    assert data + [] == data && events + [] == events;
  }

  /** The message loop of `runMsgs`, with the events and data gathered so far. */
  method ExecuteMsgs<S, M>(app: App<S, M>, ctx: Ctx<S>, msgs: seq<M>) returns (out: MsgsOut<S>, call: Call<TxResult>)
    ensures out.ms == RunMsgs(app, ctx, msgs).0.ms && out.meter == RunMsgs(app, ctx, msgs).0.meter
    ensures out.block == RunMsgs(app, ctx, msgs).0.block && call == RunMsgs(app, ctx, msgs).1
  {
    hide HandleAll, Resumes;
    out := MsgsOut(ctx.ms, ctx.meter, ctx.block, Returns(([], [])));
    var data: seq<bytes>, events: seq<bytes> := [], [];
    var i := 0;
    ghost var todo := if ctx.mode.Check? || ctx.mode.ReCheck? then [] else msgs;
    ghost var whole := HandleAll(app, ctx, todo);
    assert todo[0..] == todo;
    ResumeFirst(whole);
    while i < |msgs| && !ctx.mode.Check? && !ctx.mode.ReCheck?
      invariant 0 <= i <= |todo|
      invariant var now := ctx.(ms := out.ms, meter := out.meter, block := out.block);
                Resumes(whole, HandleAll(app, now, todo[i..]), data, events)
    {
      var ctx' := ctx.(ms := out.ms, meter := out.meter, block := out.block);
      ResumeStep(app, ctx', todo[i..], whole, data, events);
      assert todo[i..][0] == msgs[i] && todo[i..][1..] == todo[i + 1..];
      var one := (app.handle)(ctx', msgs[i]);
      out := out.(ms := one.ms, meter := one.meter, block := Left(out.block, one.block));
      match one.call {
        case Fails(e) =>
          return out, Fails(e);
        case Panics(p) =>
          return out, Panics(p);
        case Returns(r) =>
          events := events + ([app.action(msgs[i])] + r.events);
          data := data + [r.data];
      }
      i := i + 1;
    }
    assert todo[i..] == [];
    ResumeLast(app, ctx.(ms := out.ms, meter := out.meter, block := out.block), whole, data, events);
    match app.encode(data) {
      case None => call := Fails(ErrMarshal);
      case Some(bz) => call := Returns(TxResult(bz, events));
    }
  }

  /** `validateBasicTxMsgs`. */
  method ValidateBasicTxMsgs<M>(check: M -> Call<()>, msgs: seq<M>) returns (r: Call<()>)
    ensures r == if msgs == [] then Fails(ErrInvalidRequest) else ValidateBasics(check, msgs)
  {
    if |msgs| == 0 {
      return Fails(ErrInvalidRequest);
    }
    for i := 0 to |msgs|
      invariant ValidateBasics(check, msgs) == ValidateBasics(check, msgs[i..])
    {
      assert msgs[i..][1..] == msgs[i + 1..];
      match check(msgs[i]) {
        case Returns(_) =>
        case Fails(e) => return Fails(e);
        case Panics(p) => return Panics(p);
      }
    }
    r := Returns(());
  }

  class MeterObject {
    var m: Meter

    constructor (m: Meter)
      ensures this.m == m
    {
      this.m := m;
    }
  }

  /** The `state` of one mode, with a pointer to the block gas meter of its context. */
  datatype Held<+S> = Held(ms: S, meter: Meter, blockMeter: MeterObject?, height: int)

  ghost function ViewMeter(o: MeterObject?): Option<Meter>
    reads o
  {
    if o == null then None else Some(o.m)
  }

  ghost function View<S>(h: Held<S>): State<S>
    reads h.blockMeter
  {
    State(h.ms, h.meter, ViewMeter(h.blockMeter), h.height)
  }

  class BaseApp<S, M> {
    const app: App<S, M>
    var committed: S
    var version: int
    var initialVersion: int
    var initialHeight: int
    var checkState: Option<Held<S>>
    var deliverState: Option<Held<S>>

    ghost function Meters(): set<MeterObject?>
      reads this
    {
      (if checkState.Some? then {checkState.value.blockMeter} else {})
      + (if deliverState.Some? then {deliverState.value.blockMeter} else {})
    }

    /** A block gas meter of the check context is the one of the deliver context. */
    ghost predicate Valid()
      reads this
    {
      && checkState.Some?
      && (checkState.value.blockMeter != null ==>
            deliverState.Some? && deliverState.value.blockMeter == checkState.value.blockMeter)
    }

    /** The abstract value of the object: a state of the ABCI machine. */
    ghost function Abs(): AppState<S>
      reads this, Meters()
    {
      AppState(committed, version, initialVersion, initialHeight,
               if checkState.Some? then Some(View(checkState.value)) else None,
               if deliverState.Some? then Some(View(deliverState.value)) else None)
    }

    /** A node that has just loaded its latest version. */
    constructor (app: App<S, M>, committed: S, version: int)
      ensures Valid() && this.app == app && Abs() == Boot(committed, version)
    {
      this.app := app;
      this.committed, this.version, this.initialVersion, this.initialHeight := committed, version, 0, 0;
      checkState := Some(Held(committed, Infinite(0), null, 0));
      deliverState := None;
    }

    ghost predicate Ready(mode: Mode)
      reads this
    {
      mode.Deliver? ==> deliverState.Some? && deliverState.value.blockMeter != null
    }

    ghost function ModeState(mode: Mode): State<S>
      requires Valid() && Ready(mode)
      reads this, Meters()
    {
      View(if mode.Deliver? then deliverState.value else checkState.value)
    }

    /** The body of `runTx` from decoding to the message loop.  Leaving the labelled block is a
        return or a panic; `call` tells which. */
    method TxBodyInMode(mode: Mode, st: State<S>, tx: bytes) returns (b: Body<S>)
      ensures b == TxBody(app, mode, st, tx)
    {
      b := Body(st.ms, st.ms, st.meter, st.meter, st.blockMeter, None, 0, [], Fails(ErrPanic));
      var sameMeter := true;      // whether the current meter is still the one of the mode's context
      label body: {
        var msgs;
        match app.decode(tx) {
          case Fails(e) =>
            b := b.(call := Fails(e));
            break body;
          case Panics(p) =>
            b := b.(call := Panics(p));
            break body;
          case Returns(m) =>
            msgs := m;
        }

        var valid := ValidateBasicTxMsgs(app.validateBasic, msgs);
        if !valid.Returns? {
          b := b.(call := if valid.Fails? then Fails(valid.error) else Panics(valid.panic));
          break body;
        }

        if app.ante.Some? {
          var out := app.ante.value(Ctx(b.ms, b.meter, b.block, st.height, mode, tx), msgs);
          b := b.(shared := out.meter, meter := out.meter, block := Left(b.block, out.block));
          if out.call.Panics? {
            b := b.(call := Panics(out.call.panic));
            break body;
          }
          if out.newCtx.NewCtx? {
            if out.newCtx.meter.Some? {
              b, sameMeter := b.(meter := out.newCtx.meter.value), false;
            }
            b := b.(own := out.newCtx.block);
          }
          b := b.(wanted := b.meter.Limit());
          if out.call.Fails? {
            b := b.(call := Fails(out.call.error));
            break body;
          }
          b := b.(ms := out.ms, anteEvents := out.events);   // msCache.Write()
        }

        var out, call := ExecuteMsgs(app, Ctx(b.ms, b.meter, b.Charged(), st.height, mode, tx), msgs);
        b := b.(msgMs := out.ms, meter := out.meter, call := call);
        if sameMeter { b := b.(shared := out.meter); }
        if b.own.Some? { b := b.(own := out.block); } else { b := b.(block := out.block); }
      }
    }

    /** The end of `runTx`: the charge on the success path, and then the deferred functions, last
        one first.  `charged` is the block gas meter of the transaction's context. */
    method Settle(mode: Mode, b: Body<S>, charged: MeterObject?)
      returns (ms: S, result: Option<TxResult>, err: Option<Error>)
      requires mode.Deliver? ==> charged != null
      modifies charged
      ensures mode.Deliver? ==> charged.m == old(charged.m).Consume(b.meter.ConsumedToLimit())
      ensures !mode.Deliver? && charged != null ==> charged.m == old(charged.m)
      ensures var p := if mode.Deliver? then old(charged.m).ConsumePanic(b.meter.ConsumedToLimit()) else None;
              var ending := if p.Some? then Panics(p.value) else b.call;
              && ms == (if mode.Deliver? && ending.Returns? then b.msgMs else b.ms)
              && (result, err) == (match ending
                                   case Returns(r) =>
                                     (Some(if mode.Deliver? then r.(events := b.anteEvents + r.events) else r), None)
                                   case Fails(e) => (None, Some(e))
                                   case Panics(q) => (None, Recover(q, app.recovery)))
    {
      hide Recover;
      ms, result, err := b.ms, None, None;
      var blockGasConsumed := false;
      var panicking: Option<Panic> := None;
      match b.call {
        case Fails(e) => err := Some(e);
        case Panics(p) => panicking := Some(p);
        case Returns(r) =>
          result := Some(r);
          if mode.Deliver? {
            // when block gas is exceeded this panics and the message branch is not written
            blockGasConsumed := true;
            panicking := charged.m.ConsumePanic(b.meter.ConsumedToLimit());
            charged.m := charged.m.Consume(b.meter.ConsumedToLimit());
            if panicking.None? {
              ms := b.msgMs;      // msCache.Write()
              assert b.anteEvents == [] ==> b.anteEvents + r.events == r.events;
              if |b.anteEvents| > 0 {
                result := Some(r.(events := b.anteEvents + r.events));
              }
            }
          }
      }

      // defer consumeBlockGas()
      if mode.Deliver? && !blockGasConsumed {
        var p := charged.m.ConsumePanic(b.meter.ConsumedToLimit());
        charged.m := charged.m.Consume(b.meter.ConsumedToLimit());
        if p.Some? {
          panicking := p;
        }
      }
      // defer recover
      if panicking.Some? {
        err, result := Recover(panicking.value, app.recovery), None;
      }
    }

    /** `runTx`: the gate, the body and the end. */
    method RunTxInMode(mode: Mode, tx: bytes)
      returns (gInfo: GasInfo, result: Option<TxResult>, anteEvents: seq<bytes>, err: Option<Error>)
      requires Valid() && Ready(mode)
      modifies this`checkState, this`deliverState, Meters()
      ensures Valid()
      ensures var out := RunTx(app, mode, old(ModeState(mode)), tx);
              && (gInfo, result, anteEvents, err) == (out.gas, out.result, out.anteEvents, out.err)
              && Abs() == (if mode.Deliver? then WithDeliver(old(Abs()), out.state)
                           else WithCheck(old(Abs()), out.state))
    {
      hide TxBody, Recover;
      gInfo, result, anteEvents, err := GasInfo(0, 0), None, [], None;
      var held := if mode.Deliver? then deliverState.value else checkState.value;
      var bm := held.blockMeter;

      // the gate
      if mode.Deliver? && bm.m.IsOutOfGas() {
        err := Some(ErrOutOfGas);
        return;
      }

      var b := TxBodyInMode(mode, State(held.ms, held.meter, if bm == null then None else Some(bm.m), held.height), tx);
      if bm != null {
        bm.m := b.block.value;     // what the handlers did to it
      }
      var charged := bm;
      if b.own.Some? {
        charged := new MeterObject(b.own.value);
      }
      anteEvents := b.anteEvents;
      var ms;
      ms, result, err := Settle(mode, b, charged);
      gInfo := GasInfo(b.wanted, b.meter.consumed);
      if mode.Deliver? {
        deliverState := Some(Held(ms, b.shared, bm, held.height));
      } else {
        checkState := Some(Held(if mode.Simulate? then held.ms else ms, b.shared, bm, held.height));
      }
    }

    /** `InitChain` up to the genesis validator check; `ok` is false where the source panics. */
    method InitChainCall(initialHeight: int, params: Option<bytes>) returns (ok: bool)
      modifies this`initialHeight, this`initialVersion, this`checkState, this`deliverState
      ensures ok ==> Valid() && Some(Abs()) == Step(app, old(Abs()), InitChain(initialHeight, params))
      ensures !ok ==> Step(app, old(Abs()), InitChain(initialHeight, params)).None?
    {
      var height := 0;
      if initialHeight > 1 {
        this.initialHeight := initialHeight;
        height := initialHeight;
        initialVersion := initialHeight;
      }
      deliverState := Some(Held(committed, Infinite(0), null, height));
      checkState := Some(Held(committed, Infinite(0), null, height));
      if params.Some? {
        if app.storeParams.None? {
          return false;
        }
        var (ms, meter) := app.storeParams.value(deliverState.value.ms, deliverState.value.meter, params.value);
        deliverState := Some(deliverState.value.(ms := ms, meter := meter));
      }
      if app.initChainer.None? {
        return true;
      }
      var d := deliverState.value;
      var out := app.initChainer.value(State(d.ms, d.meter, Some(Infinite(0)), height));
      if out.None? {
        return false;
      }
      var block := new MeterObject(out.value.2);
      deliverState := Some(Held(out.value.0, out.value.1, block, height));
      ok := true;
    }

    /** `validateHeight`: accepts exactly the expected height, and never one below 1. */
    method ValidateHeight(height: int) returns (ok: bool)
      ensures ok <==> height >= 1 && height == ExpectedHeight(Abs())
    {
      if height < 1 {
        return false;
      }
      var expectedHeight;
      if version == 0 && initialHeight > 1 {
        expectedHeight := initialHeight;
      } else {
        expectedHeight := version + 1;
      }
      ok := height == expectedHeight;
    }

    /** `BeginBlock`; `ok` is false where the source panics.  Both contexts get the new meter. */
    method BeginBlockCall(height: int) returns (ok: bool)
      requires Valid()
      modifies this`deliverState, this`checkState
      ensures ok ==> Valid() && Some(Abs()) == Step(app, old(Abs()), BeginBlock(height))
      ensures !ok ==> Step(app, old(Abs()), BeginBlock(height)).None?
    {
      var valid := ValidateHeight(height);
      if !valid {
        return false;
      }
      if deliverState.None? {
        deliverState := Some(Held(committed, Infinite(0), null, height));
      } else {
        deliverState := Some(deliverState.value.(height := height));
      }
      var d := deliverState.value;
      var maxGas := app.maxBlockGas(d.ms);
      if maxGas.Some? && maxGas.value < -1 {
        return false;
      }
      var limited := maxGas.Some? && maxGas.value > 0;
      var gasMeter := new MeterObject(if limited then Limited(maxGas.value, 0) else Infinite(0));
      checkState := Some(checkState.value.(blockMeter := gasMeter));
      var out := (app.beginBlocker)(State(d.ms, d.meter, Some(gasMeter.m), height));
      if out.None? {
        return false;
      }
      gasMeter.m := out.value.2;
      deliverState := Some(Held(out.value.0, out.value.1, gasMeter, height));
      ok := true;
    }

    method CheckTxCall(tx: bytes, recheck: bool) returns (gInfo: GasInfo, result: Option<TxResult>, err: Option<Error>)
      requires Valid()
      modifies this`checkState, this`deliverState, Meters()
      ensures Valid() && Some(Abs()) == Step(app, old(Abs()), CheckTx(tx, recheck))
      ensures result == RunTx(app, if recheck then ReCheck else Check, old(Abs()).check.value, tx).result
      ensures result.Some? <==> err.None?
    {
      hide RunTx;
      var mode := if recheck then ReCheck else Check;
      ghost var st := View(checkState.value);
      var anteEvents;
      gInfo, result, anteEvents, err := RunTxInMode(mode, tx);
      TxProperties.ResultXorError(app, mode, st, tx);
    }

    method DeliverTxCall(tx: bytes) returns (gInfo: GasInfo, result: Option<TxResult>, err: Option<Error>)
      requires Valid() && deliverState.Some? && deliverState.value.blockMeter != null
      modifies this`checkState, this`deliverState, Meters()
      ensures Valid() && Some(Abs()) == Step(app, old(Abs()), DeliverTx(tx))
      ensures result == RunTx(app, Deliver, old(Abs()).deliver.value, tx).result
      ensures result.Some? <==> err.None?
    {
      hide RunTx;
      ghost var st := View(deliverState.value);
      var anteEvents;
      gInfo, result, anteEvents, err := RunTxInMode(Deliver, tx);
      TxProperties.ResultXorError(app, Deliver, st, tx);
    }

    /** `EndBlock`; `ok` is false where the end blocker panics. */
    method EndBlockCall() returns (ok: bool)
      requires Valid() && deliverState.Some?
      modifies this`deliverState, Meters()
      ensures Valid()
      ensures ok ==> Some(Abs()) == Step(app, old(Abs()), EndBlock)
      ensures !ok ==> Step(app, old(Abs()), EndBlock).None?
    {
      var d := deliverState.value;
      var st := State(d.ms, d.meter, if d.blockMeter == null then None else Some(d.blockMeter.m), d.height);
      match (app.endBlocker)(st) {
        case None =>
          ok := false;
        case Some((ms, meter, block)) =>
          if d.blockMeter != null {
            d.blockMeter.m := block;
          }
          deliverState := Some(d.(ms := ms, meter := meter));
          ok := true;
      }
    }

    /** `Commit`: write the deliver branch down, move the version, restart the check state. */
    method CommitCall()
      requires deliverState.Some?
      modifies this`committed, this`version, this`checkState, this`deliverState
      ensures Valid() && Some(Abs()) == Step(app, old(Abs()), Commit)
    {
      var header := deliverState.value.height;
      committed := deliverState.value.ms;
      if version == 0 && initialVersion > 1 {
        version := initialVersion;
      } else {
        version := version + 1;
      }
      checkState := Some(Held(committed, Infinite(0), null, header));
      deliverState := None;
    }
  }
}
