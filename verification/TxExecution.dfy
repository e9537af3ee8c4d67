/** One transaction: `runTx`, its message loop and its panic recovery, as a function of the
    state the execution mode selects.

    The application is a record of arbitrary functions.  Each of them may return, fail or
    panic.  Gas meters are shared by reference in the source, so every call reports the final
    value of the meter it was given, on the failing and panicking paths too. */
module TxExecution {
  import opened Bytes
  import opened Gas

  datatype Mode = Check | ReCheck | Simulate | Deliver

  datatype Error = ErrOutOfGas | ErrPanic | ErrInvalidRequest | ErrMarshal | ErrCustom(code: bytes)

  datatype Call<+T> = Returns(value: T) | Fails(error: Error) | Panics(panic: Panic)

  /** A context: its store branch, its gas meter, the block gas meter if one is set, and the bytes
      of the transaction. */
  datatype Ctx<+S> = Ctx(ms: S, meter: Meter, block: Option<Meter>, height: int, mode: Mode, tx: bytes)

  /** Context handed back by the ante handler: none, or one that has the meters it was given where
      no meter of its own is set. */
  datatype NewCtx = ZeroCtx | NewCtx(meter: Option<Meter>, block: Option<Meter>)

  /** `block` is the final value of the block gas meter the handler was given, if it was given one. */
  datatype AnteOut<+S> = AnteOut(ms: S, meter: Meter, block: Meter, newCtx: NewCtx, events: seq<bytes>,
                                 call: Call<()>) {

    predicate OwnsMeter() {
      newCtx.NewCtx? && newCtx.meter.Some?
    }

    /** The gas meter of the transaction from here on. */
    function NextMeter(): Meter {
      if OwnsMeter() then newCtx.meter.value else meter
    }

    /** The block gas meter put in the place of the given one, if any. */
    function OwnBlock(): Option<Meter> {
      if newCtx.NewCtx? then newCtx.block else None
    }
  }

  datatype MsgResult = MsgResult(data: bytes, events: seq<bytes>)

  datatype MsgOut<+S> = MsgOut(ms: S, meter: Meter, block: Meter, call: Call<MsgResult>)

  /** What a call leaves of the block gas meter it was given. */
  function Left(given: Option<Meter>, after: Meter): Option<Meter> {
    if given.Some? then Some(after) else None
  }

  /** A begin blocker, end blocker or init chainer: the state's store and its two meters
      afterwards, or a panic, which nothing recovers. */
  type Blocker<!S> = State<S> -> Option<(S, Meter, Meter)>

  type RecoveryHandler = Panic -> Option<Error>

  datatype App<!S, !M> = App(
    decode: bytes -> Call<seq<M>>,
    validateBasic: M -> Call<()>,
    ante: Option<(Ctx<S>, seq<M>) -> AnteOut<S>>,
    handle: (Ctx<S>, M) -> MsgOut<S>,
    action: M -> bytes,
    encode: seq<bytes> -> Option<bytes>,
    recovery: seq<RecoveryHandler>,
    storeParams: Option<(S, Meter, bytes) -> (S, Meter)>,
    initChainer: Option<Blocker<S>>,
    beginBlocker: Blocker<S>,
    endBlocker: Blocker<S>,
    maxBlockGas: S -> Option<int64>
  )

  /** The `state` of one mode: its store branch and the context that goes with it. */
  datatype State<+S> = State(ms: S, meter: Meter, blockMeter: Option<Meter>, height: int)

  datatype TxResult = TxResult(data: bytes, events: seq<bytes>)

  datatype GasInfo = GasInfo(wanted: uint64, used: uint64)

  datatype TxOutcome<+S> = TxOutcome(state: State<S>, gas: GasInfo, result: Option<TxResult>,
                                     anteEvents: seq<bytes>, err: Option<Error>)

  // ---- Panic recovery ----

  /** `processRecovery`: the first handler that returns an error stops the chain. */
  function ProcessRecovery(p: Panic, chain: seq<RecoveryHandler>): Option<Error> {
    if chain == [] then None
    else if chain[0](p).Some? then chain[0](p)
    else ProcessRecovery(p, chain[1..])
  }

  function OutOfGasHandler(p: Panic): Option<Error> {
    if p.OutOfGas? then Some(ErrOutOfGas) else None
  }

  function DefaultHandler(p: Panic): Option<Error> {
    Some(ErrPanic)
  }

  /** The chain `runTx` builds: out-of-gas first, custom handlers, then the default one. */
  function RecoveryChain(custom: seq<RecoveryHandler>): seq<RecoveryHandler> {
    [OutOfGasHandler] + custom + [DefaultHandler]
  }

  function Recover(p: Panic, custom: seq<RecoveryHandler>): Option<Error> {
    ProcessRecovery(p, RecoveryChain(custom))
  }

  lemma {:induction false} RecoverySkipsDecliners(p: Panic, declining: seq<RecoveryHandler>, rest: seq<RecoveryHandler>)
    requires forall i :: 0 <= i < |declining| ==> declining[i](p).None?
    ensures ProcessRecovery(p, declining + rest) == ProcessRecovery(p, rest)
    decreases |declining|
  {
    if declining == [] {
      assert declining + rest == rest;
    } else {
      assert (declining + rest)[1..] == declining[1..] + rest;
      RecoverySkipsDecliners(p, declining[1..], rest);
    }
  }

  /** Every panic becomes an error, whatever custom handlers are installed: out of gas always
      becomes the out-of-gas error, any other panic the answer of the first custom handler
      that takes it, and a panic no handler takes the default error. */
  lemma {:induction false} RecoveryAlwaysErrs(p: Panic, custom: seq<RecoveryHandler>)
    ensures p.OutOfGas? ==> Recover(p, custom) == Some(ErrOutOfGas)
    ensures !p.OutOfGas? && (forall i :: 0 <= i < |custom| ==> custom[i](p).None?) ==>
      Recover(p, custom) == Some(ErrPanic)
    ensures forall k :: !p.OutOfGas? && 0 <= k < |custom| && custom[k](p).Some? &&
                        (forall i :: 0 <= i < k ==> custom[i](p).None?) ==>
              Recover(p, custom) == custom[k](p)
    ensures Recover(p, custom).Some?
  {
    var chain := RecoveryChain(custom);
    if !p.OutOfGas? {
      assert chain[1..] == custom + [DefaultHandler];
      if forall i :: 0 <= i < |custom| ==> custom[i](p).None? {
        RecoverySkipsDecliners(p, custom, [DefaultHandler]);
      } else {
        var m := FirstTaker(p, custom, 0);
        forall k | 0 <= k < |custom| && custom[k](p).Some? && (forall i :: 0 <= i < k ==> custom[i](p).None?)
          ensures Recover(p, custom) == custom[k](p)
        {
          RecoverySkipsDecliners(p, custom[..k], custom[k..] + [DefaultHandler]);
          assert custom + [DefaultHandler] == custom[..k] + (custom[k..] + [DefaultHandler]);
        }
        assert Recover(p, custom) == custom[m](p);
      }
    }
  }

  lemma FirstTaker(p: Panic, custom: seq<RecoveryHandler>, from: nat) returns (m: nat)
    requires from <= |custom| && (forall i :: 0 <= i < from ==> custom[i](p).None?)
    requires exists i :: 0 <= i < |custom| && custom[i](p).Some?
    ensures m < |custom| && custom[m](p).Some? && forall i :: 0 <= i < m ==> custom[i](p).None?
    decreases |custom| - from
  {
    if custom[from](p).Some? {
      m := from;
    } else {
      m := FirstTaker(p, custom, from + 1);
    }
  }

  // ---- Messages ----

  datatype MsgsOut<+S> = MsgsOut(ms: S, meter: Meter, block: Option<Meter>, call: Call<(seq<bytes>, seq<bytes>)>)

  /** Running messages one after another on one branch; the first failure or panic stops. */
  function HandleAll<S, M>(app: App<S, M>, ctx: Ctx<S>, msgs: seq<M>): (r: MsgsOut<S>)
    ensures r.block.Some? <==> ctx.block.Some?
    decreases |msgs|
  {
    if msgs == [] then MsgsOut(ctx.ms, ctx.meter, ctx.block, Returns(([], [])))
    else
      var out := (app.handle)(ctx, msgs[0]);
      var block := Left(ctx.block, out.block);
      match out.call
      case Fails(e) => MsgsOut(out.ms, out.meter, block, Fails(e))
      case Panics(p) => MsgsOut(out.ms, out.meter, block, Panics(p))
      case Returns(r) =>
        var rest := HandleAll(app, ctx.(ms := out.ms, meter := out.meter, block := block), msgs[1..]);
        match rest.call
        case Returns((data, events)) =>
          rest.(call := Returns(([r.data] + data, [app.action(msgs[0])] + r.events + events)))
        case _ => rest
  }

  /** `runMsgs`: nothing is executed in the check modes. */
  function RunMsgs<S, M>(app: App<S, M>, ctx: Ctx<S>, msgs: seq<M>): (MsgsOut<S>, Call<TxResult>) {
    var out := HandleAll(app, ctx, if ctx.mode.Check? || ctx.mode.ReCheck? then [] else msgs);
    match out.call
    case Fails(e) => (out, Fails(e))
    case Panics(p) => (out, Panics(p))
    case Returns((data, events)) =>
      match app.encode(data)
      case None => (out, Fails(ErrMarshal))
      case Some(bz) => (out, Returns(TxResult(bz, events)))
  }

  /** `validateBasicTxMsgs`: at least one message, all of them valid, in order. */
  function ValidateBasics<M>(check: M -> Call<()>, msgs: seq<M>): Call<()> {
    if msgs == [] then Returns(())
    else match check(msgs[0])
      case Returns(_) => ValidateBasics(check, msgs[1..])
      case Fails(e) => Fails(e)
      case Panics(p) => Panics(p)
  }

  // ---- The whole transaction ----

  /** What the body of `runTx` leaves behind before the deferred functions run.
      `ms` is the mode's store after the ante writes (if they were flushed), `msgMs` the branch
      the messages ran on, `shared` and `block` the meters of the mode's own context, `meter` the
      gas meter of the transaction and `own` the block gas meter put in place of `block`, if any. */
  datatype Body<+S> = Body(ms: S, msgMs: S, shared: Meter, meter: Meter, block: Option<Meter>, own: Option<Meter>,
                           wanted: uint64, anteEvents: seq<bytes>, call: Call<TxResult>) {

    /** The block gas meter of the transaction's context, which is the one that is charged. */
    function Charged(): Option<Meter> {
      if own.Some? then own else block
    }
  }

  /** The messages of a transaction, or why it has none that may run. */
  function DecodeAndValidate<S, M>(app: App<S, M>, tx: bytes): Call<seq<M>> {
    match app.decode(tx)
    case Returns(msgs) =>
      if msgs == [] then Fails(ErrInvalidRequest)
      else (match ValidateBasics(app.validateBasic, msgs)
            case Returns(_) => Returns(msgs)
            case Fails(e) => Fails(e)
            case Panics(p) => Panics(p))
    case Fails(e) => Fails(e)
    case Panics(p) => Panics(p)
  }

  function Untouched<S>(st: State<S>, call: Call<TxResult>): Body<S> {
    Body(st.ms, st.ms, st.meter, st.meter, st.blockMeter, None, 0, [], call)
  }

  /** The context a transaction starts with. */
  function TxCtx<S>(mode: Mode, st: State<S>, tx: bytes): Ctx<S> {
    Ctx(st.ms, st.meter, st.blockMeter, st.height, mode, tx)
  }

  function MsgPhase<S, M>(app: App<S, M>, mode: Mode, st: State<S>, tx: bytes, b: Body<S>, sameMeter: bool,
                          msgs: seq<M>): (r: Body<S>)
    ensures r.block.Some? <==> b.block.Some?
  {
    var (out, call) := RunMsgs(app, Ctx(b.ms, b.meter, b.Charged(), st.height, mode, tx), msgs);
    b.(msgMs := out.ms, meter := out.meter, shared := if sameMeter then out.meter else b.shared,
       block := if b.own.Some? then b.block else out.block, own := if b.own.Some? then out.block else None,
         call := call)
  }

  function TxBody<S, M>(app: App<S, M>, mode: Mode, st: State<S>, tx: bytes): (r: Body<S>)
    ensures r.block.Some? <==> st.blockMeter.Some?
  {
    match DecodeAndValidate(app, tx)
    case Fails(e) => Untouched(st, Fails(e))
    case Panics(p) => Untouched(st, Panics(p))
    case Returns(msgs) =>
      match app.ante
      case None => MsgPhase(app, mode, st, tx, Untouched(st, Fails(ErrPanic)), true, msgs)
      case Some(ante) =>
        var out := ante(TxCtx(mode, st, tx), msgs);
        var block := Left(st.blockMeter, out.block);
        if out.call.Panics? then
          Body(st.ms, st.ms, out.meter, out.meter, block, None, 0, [], Panics(out.call.panic))
        else
          var meter := out.NextMeter();
          if out.call.Fails? then
            Body(st.ms, st.ms, out.meter, meter, block, out.OwnBlock(), meter.Limit(), [], Fails(out.call.error))
          else
            MsgPhase(app, mode, st, tx,
                     Body(out.ms, out.ms, out.meter, meter, block, out.OwnBlock(), meter.Limit(), out.events,
                       Fails(ErrPanic)),
                     !out.OwnsMeter(), msgs)
  }

  /** Whether the out-of-gas gate turns the transaction away unexecuted. */
  predicate Gated<S>(mode: Mode, st: State<S>)
    requires mode.Deliver? ==> st.blockMeter.Some?
  {
    mode.Deliver? && st.blockMeter.value.IsOutOfGas()
  }

  /** The block gas a transaction is charged: what its own meter used, up to its limit. */
  function Charge<S, M>(app: App<S, M>, mode: Mode, st: State<S>, tx: bytes): uint64 {
    TxBody(app, mode, st, tx).meter.ConsumedToLimit()
  }

  /** The way the transaction ends once the block gas charge is known: a charge that does not
      fit overrides every other ending. */
  function Ending<S, M>(app: App<S, M>, mode: Mode, st: State<S>, tx: bytes): Call<TxResult>
    requires mode.Deliver? ==> st.blockMeter.Some?
  {
    var b := TxBody(app, mode, st, tx);
    if mode.Deliver? && b.Charged().value.ConsumePanic(Charge(app, mode, st, tx)).Some? then
      Panics(b.Charged().value.ConsumePanic(Charge(app, mode, st, tx)).value)
    else
      b.call
  }

  function RunTx<S, M>(app: App<S, M>, mode: Mode, st: State<S>, tx: bytes): TxOutcome<S>
    requires mode.Deliver? ==> st.blockMeter.Some?
  {
    if Gated(mode, st) then
      TxOutcome(st, GasInfo(0, 0), None, [], Some(ErrOutOfGas))
    else
      var b := TxBody(app, mode, st, tx);
      var ending := Ending(app, mode, st, tx);
      var ms := match mode
        case Simulate => st.ms
        case Deliver => if ending.Returns? then b.msgMs else b.ms
        case _ => b.ms;
      var blockMeter := if mode.Deliver? && b.own.None? then Some(b.block.value.Consume(b.meter.ConsumedToLimit()))
                        else b.block;
      var st' := State(ms, b.shared, blockMeter, st.height);
      var gas := GasInfo(b.wanted, b.meter.consumed);
      match ending
      case Returns(r) =>
        var result := if mode.Deliver? then r.(events := b.anteEvents + r.events) else r;
        TxOutcome(st', gas, Some(result), b.anteEvents, None)
      case Fails(e) => TxOutcome(st', gas, None, b.anteEvents, Some(e))
      case Panics(p) => TxOutcome(st', gas, None, b.anteEvents, Recover(p, app.recovery))
  }
}
