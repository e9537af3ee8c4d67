/** The ABCI life cycle as a state machine over whole runs.

    A step is one ABCI call; `None` stands for a call on which the node panics outside any
    recovery (a block at the wrong height, a deliver call without a deliver state).  `Restart`
    is a crash followed by loading the latest committed version. */
module Abci {
  import opened Bytes
  import opened Gas
  import opened TxExecution
  import opened TxProperties

  datatype AppState<+S> = AppState(
    committed: S,               // content of the root multistore at its last commit
    version: int,               // version of the last commit, 0 when there is none
    initialVersion: int,        // the root multistore's initial version
    initialHeight: int,
    check: Option<State<S>>,
    deliver: Option<State<S>>
  )

  datatype Action =
    | InitChain(initialHeight: int, params: Option<bytes>)
    | BeginBlock(height: int)
    | CheckTx(tx: bytes, recheck: bool)
    | SimulateTx(tx: bytes)
    | DeliverTx(tx: bytes)
    | EndBlock
    | Commit
    | Restart

  /** A fresh branch of the committed store with a new context. */
  function Branch<S>(committed: S, height: int): State<S> {
    State(committed, Infinite(0), None, height)
  }

  /** The application right after loading its latest version. */
  function Boot<S>(committed: S, version: int): AppState<S> {
    AppState(committed, version, 0, 0, Some(Branch(committed, 0)), None)
  }

  /** A begin blocker, end blocker or init chainer run on a state. */
  function RunBlocker<S>(blocker: Blocker<S>, st: State<S>): (r: Option<State<S>>)
    ensures r.Some? ==> r.value.height == st.height && (r.value.blockMeter.Some? <==> st.blockMeter.Some?)
  {
    match blocker(st)
    case None => None
    case Some((ms, meter, block)) => Some(State(ms, meter, Left(st.blockMeter, block), st.height))
  }

  /** `InitChain`: consensus parameters are stored, if given, and then the init chainer runs, if
      there is one; both act on the deliver branch only. */
  function DoInitChain<S, M>(app: App<S, M>, s: AppState<S>, initialHeight: int,
                             params: Option<bytes>): Option<AppState<S>> {
    var height := if initialHeight > 1 then initialHeight else 0;
    var s1 := if initialHeight > 1 then s.(initialHeight := initialHeight, initialVersion := initialHeight) else s;
    var branch := Branch(s.committed, height);
    if params.Some? && app.storeParams.None? then None
    else
      var (ms, meter) := if params.Some? then app.storeParams.value(branch.ms, branch.meter, params.value)
                         else (branch.ms, branch.meter);
      var d := State(ms, meter, None, height);
      match app.initChainer
      case None => Some(s1.(deliver := Some(d), check := Some(branch)))
      case Some(init) =>
        match RunBlocker(init, d.(blockMeter := Some(Infinite(0))))
        case None => None
        case Some(d') => Some(s1.(deliver := Some(d'), check := Some(branch)))
  }

  /** The height `validateHeight` expects next. */
  function ExpectedHeight<S>(s: AppState<S>): int {
    if s.version == 0 && s.initialHeight > 1 then s.initialHeight else s.version + 1
  }

  /** The block gas meter chosen from the consensus parameters; `None` when they are invalid. */
  function BlockMeter(maxGas: Option<int64>): Option<Meter> {
    match maxGas
    case None => Some(Infinite(0))
    case Some(g) =>
      if g < -1 then None
      else if g <= 0 then Some(Infinite(0))
      else Some(Limited(g, 0))
  }

  /** The deliver state a block starts from, before its begin blocker. */
  function BlockStart<S>(s: AppState<S>, height: int): State<S> {
    if s.deliver.None? then Branch(s.committed, height) else s.deliver.value.(height := height)
  }

  /** `BeginBlock`: a new block gas meter, which the check context gets to see as well. */
  function DoBeginBlock<S, M>(app: App<S, M>, s: AppState<S>, height: int): Option<AppState<S>> {
    if height < 1 || height != ExpectedHeight(s) then None
    else
      var d := BlockStart(s, height);
      match BlockMeter(app.maxBlockGas(d.ms))
      case None => None
      case Some(bm) =>
        match RunBlocker(app.beginBlocker, d.(blockMeter := Some(bm)))
        case None => None
        case Some(d') =>
          Some(s.(deliver := Some(d'),
                  check := if s.check.Some? then Some(s.check.value.(blockMeter := d'.blockMeter)) else None))
  }

  /** A new check state.  Where the check context has a block gas meter it is the very meter of the
      deliver context, so that what happens to it shows there too. */
  function WithCheck<S>(s: AppState<S>, c: State<S>): AppState<S> {
    s.(check := Some(c),
       deliver := if c.blockMeter.Some? && s.deliver.Some? then Some(s.deliver.value.(blockMeter := c.blockMeter))
                  else s.deliver)
  }

  /** A new deliver state; likewise. */
  function WithDeliver<S>(s: AppState<S>, d: State<S>): AppState<S> {
    s.(deliver := Some(d),
       check := if s.check.Some? && s.check.value.blockMeter.Some?
                then Some(s.check.value.(blockMeter := d.blockMeter)) else s.check)
  }

  /** The version the root multistore moves to. */
  function CommitVersion<S>(s: AppState<S>): int {
    if s.version == 0 && s.initialVersion > 1 then s.initialVersion else s.version + 1
  }

  function DoCommit<S>(s: AppState<S>): AppState<S>
    requires s.deliver.Some?
  {
    var d := s.deliver.value;
    s.(committed := d.ms, version := CommitVersion(s), check := Some(Branch(d.ms, d.height)), deliver := None)
  }

  function Step<S, M>(app: App<S, M>, s: AppState<S>, a: Action): Option<AppState<S>> {
    match a
    case InitChain(h, params) => DoInitChain(app, s, h, params)
    case BeginBlock(h) => DoBeginBlock(app, s, h)
    case CheckTx(tx, recheck) =>
      if s.check.None? then None
      else Some(WithCheck(s, RunTx(app, if recheck then ReCheck else Check, s.check.value, tx).state))
    case SimulateTx(tx) =>
      if s.check.None? then None
      else Some(WithCheck(s, RunTx(app, Simulate, s.check.value, tx).state))
    case DeliverTx(tx) =>
      if s.deliver.None? || s.deliver.value.blockMeter.None? then None
      else Some(WithDeliver(s, RunTx(app, Deliver, s.deliver.value, tx).state))
    case EndBlock =>
      if s.deliver.None? then None
      else (match RunBlocker(app.endBlocker, s.deliver.value) case None => None case Some(d) => Some(WithDeliver(s, d)))
    case Commit =>
      if s.deliver.None? then None else Some(DoCommit(s))
    case Restart => Some(Boot(s.committed, s.version))
  }

  /** A run: `None` as soon as one call panics. */
  function Run<S, M>(app: App<S, M>, s: AppState<S>, acts: seq<Action>): Option<AppState<S>>
    decreases |acts|
  {
    if acts == [] then Some(s)
    else match Step(app, s, acts[0])
      case None => None
      case Some(t) => Run(app, t, acts[1..])
  }

  lemma {:induction false} RunConcat<S, M>(app: App<S, M>, s: AppState<S>, a: seq<Action>, b: seq<Action>)
    ensures Run(app, s, a + b) == (match Run(app, s, a) case None => None case Some(t) => Run(app, t, b))
    decreases |a|
  {
    if a == [] {
      assert a + b == b;
    } else {
      assert (a + b)[0] == a[0] && (a + b)[1..] == a[1..] + b;
      match Step(app, s, a[0])
      case None =>
      case Some(t) => RunConcat(app, t, a[1..], b);
    }
  }

  // ---- Mempool checks never touch the chain ----

  predicate IsMempool(a: Action) {
    a.CheckTx? || a.SimulateTx?
  }

  /** The run without its CheckTx, ReCheckTx and simulation calls. */
  function OnlyChain(acts: seq<Action>): seq<Action> {
    if acts == [] then []
    else (if IsMempool(acts[0]) then [] else [acts[0]]) + OnlyChain(acts[1..])
  }

  /** Everything but the check state. */
  ghost predicate SameChain<S>(s: AppState<S>, t: AppState<S>) {
    && s.committed == t.committed && s.version == t.version && s.deliver == t.deliver
    && s.initialVersion == t.initialVersion && s.initialHeight == t.initialHeight
  }

  /** The two contexts agree on the block gas meter wherever the check context has one. */
  ghost predicate Linked<S>(s: AppState<S>) {
    && s.check.Some?
    && (s.check.value.blockMeter.Some? ==> s.deliver.Some? && s.deliver.value.blockMeter == s.check.value.blockMeter)
  }

  lemma {:induction false} StepKeepsLinked<S, M>(app: App<S, M>, s: AppState<S>, a: Action)
    requires Linked(s) && Step(app, s, a).Some?
    ensures Linked(Step(app, s, a).value)
  {
    hide TxBody, Recover;
  }

  /** In every state a node can reach the check state exists and shares the deliver state's meter. */
  lemma {:induction false} ReachableLinked<S, M>(app: App<S, M>, s: AppState<S>, acts: seq<Action>)
    requires Linked(s) && Run(app, s, acts).Some?
    ensures Linked(Run(app, s, acts).value)
    decreases |acts|
  {
    hide Step, Linked;
    if acts != [] {
      StepKeepsLinked(app, s, acts[0]);
      ReachableLinked(app, Step(app, s, acts[0]).value, acts[1..]);
    }
  }

  /** Mempool checks and simulations do not use the block gas meter they are shown. */
  ghost predicate QuietChecks<S(!new), M(!new)>(app: App<S, M>) {
    HandsOff(app, Check) && HandsOff(app, ReCheck) && HandsOff(app, Simulate)
  }

  function MempoolMode(a: Action): Mode
    requires IsMempool(a)
  {
    if a.SimulateTx? then Simulate else if a.recheck then ReCheck else Check
  }

  /** One mempool call leaves the chain alone exactly if what it runs leaves the shared meter alone. */
  lemma {:induction false} MempoolStepIff<S, M>(app: App<S, M>, s: AppState<S>, a: Action)
    requires Linked(s) && IsMempool(a)
    ensures var body := TxBody(app, MempoolMode(a), s.check.value, a.tx);
            && Step(app, s, a).Some?
            && (SameChain(Step(app, s, a).value, s) <==> body.block == s.check.value.blockMeter)
  {
    hide TxBody;
    BlockGasChargedOnce(app, MempoolMode(a), s.check.value, a.tx);
  }

  lemma {:induction false} MempoolStep<S(!new), M(!new)>(app: App<S, M>, s: AppState<S>, a: Action)
    requires Linked(s) && QuietChecks(app) && IsMempool(a)
    ensures Step(app, s, a).Some? && SameChain(Step(app, s, a).value, s) && Linked(Step(app, s, a).value)
  {
    hide HandsOff, TxBody, Step, SameChain;
    MempoolStepIff(app, s, a);
    StepKeepsLinked(app, s, a);
    QuietBody(app, MempoolMode(a), s.check.value, a.tx);
  }

  /** The chain steps depend only on the chain's part of the state. */
  lemma {:induction false} ChainStep<S, M>(app: App<S, M>, s: AppState<S>, s': AppState<S>, a: Action)
    requires SameChain(s, s') && !IsMempool(a)
    ensures Step(app, s, a).Some? <==> Step(app, s', a).Some?
    ensures Step(app, s, a).Some? ==> SameChain(Step(app, s, a).value, Step(app, s', a).value)
  {
    hide RunTx;
  }

  /** Whatever checks and simulations are interleaved, if they leave the block gas meter alone the
      node accepts the same calls and reaches the same committed store, version and deliver state
      as without them. */
  lemma {:induction false} MempoolNonInterference<S(!new), M(!new)>(app: App<S, M>, s: AppState<S>, s': AppState<S>,
                                                                    acts: seq<Action>)
    requires SameChain(s, s') && Linked(s) && QuietChecks(app)
    ensures Run(app, s, acts).Some? <==> Run(app, s', OnlyChain(acts)).Some?
    ensures Run(app, s, acts).Some? ==> SameChain(Run(app, s, acts).value, Run(app, s', OnlyChain(acts)).value)
    decreases |acts|
  {
    hide Step, Linked, QuietChecks, SameChain;
    if acts != [] {
      var a, rest := acts[0], acts[1..];
      if IsMempool(a) {
        assert OnlyChain(acts) == OnlyChain(rest);
        MempoolStep(app, s, a);
        SameChainTrans(Step(app, s, a).value, s, s');
        MempoolNonInterference(app, Step(app, s, a).value, s', rest);
      } else {
        assert OnlyChain(acts)[0] == a && OnlyChain(acts)[1..] == OnlyChain(rest);
        ChainStep(app, s, s', a);
        if Step(app, s, a).Some? {
          StepKeepsLinked(app, s, a);
          MempoolNonInterference(app, Step(app, s, a).value, Step(app, s', a).value, rest);
        }
      }
    }
  }

  lemma SameChainTrans<S>(s: AppState<S>, t: AppState<S>, u: AppState<S>)
    requires SameChain(s, t) && SameChain(t, u)
    ensures SameChain(s, u)
  {
  }

  // ---- The committed store moves only at Commit ----

  lemma {:induction false} CommittedOnlyByCommit<S, M>(app: App<S, M>, s: AppState<S>, acts: seq<Action>)
    requires Commit !in acts && Run(app, s, acts).Some?
    ensures Run(app, s, acts).value.committed == s.committed
    ensures Run(app, s, acts).value.version == s.version
    decreases |acts|
  {
    hide RunTx;
    if acts != [] {
      CommittedOnlyByCommit(app, Step(app, s, acts[0]).value, acts[1..]);
    }
  }

  /** A crash at any point after a commit brings the node back to exactly that commit. */
  lemma {:induction false} CrashRecoversLastCommit<S, M>(app: App<S, M>, s: AppState<S>, before: seq<Action>,
                                                         since: seq<Action>)
    requires Commit !in since
    requires Run(app, s, before + [Commit]).Some?
    requires Run(app, s, before + [Commit] + since).Some?
    ensures var c := Run(app, s, before + [Commit]).value;
            Run(app, s, before + [Commit] + since + [Restart]) == Some(Boot(c.committed, c.version))
  {
    var c := Run(app, s, before + [Commit]).value;
    RunConcat(app, s, before + [Commit], since);
    CommittedOnlyByCommit(app, c, since);
    var e := Run(app, s, before + [Commit] + since).value;
    RunConcat(app, s, before + [Commit] + since, [Restart]);
    assert Run(app, e, [Restart]) == Some(Boot(e.committed, e.version));
  }

  /** The same store, meter and height; the block gas meter may differ. */
  ghost predicate SameBranch<S>(a: Option<State<S>>, b: Option<State<S>>) {
    && (a.Some? <==> b.Some?)
    && (a.Some? ==> a.value.ms == b.value.ms && a.value.meter == b.value.meter && a.value.height == b.value.height)
  }

  /** Right after a commit the check state is a fresh branch of what was committed, and until the
      next commit only mempool calls (and InitChain) move its store, meter and height. */
  lemma {:induction false} CheckStateFollowsCommit<S, M>(app: App<S, M>, s: AppState<S>, before: seq<Action>,
                                                         since: seq<Action>)
    requires Run(app, s, before + [Commit]).Some?
    requires forall a :: a in since ==> a.BeginBlock? || a.DeliverTx? || a.EndBlock?
    requires Run(app, s, before + [Commit] + since).Some?
    ensures var c := Run(app, s, before + [Commit]).value;
            && c.check.Some? && c.check.value.ms == c.committed && c.deliver.None?
            && SameBranch(Run(app, s, before + [Commit] + since).value.check, c.check)
  {
    hide RunTx;
    RunConcat(app, s, before, [Commit]);
    var b := Run(app, s, before).value;
    assert Run(app, b, [Commit]) == Step(app, b, Commit);
    RunConcat(app, s, before + [Commit], since);
    CheckUntouched(app, Run(app, s, before + [Commit]).value, since);
  }

  lemma {:induction false} CheckUntouched<S, M>(app: App<S, M>, s: AppState<S>, acts: seq<Action>)
    requires forall a :: a in acts ==> a.BeginBlock? || a.DeliverTx? || a.EndBlock?
    requires Run(app, s, acts).Some?
    ensures SameBranch(Run(app, s, acts).value.check, s.check)
    decreases |acts|
  {
    hide RunTx;
    if acts != [] {
      assert acts[0] in acts;
      CheckUntouched(app, Step(app, s, acts[0]).value, acts[1..]);
    }
  }

  // ---- Commits are folds of blocks ----

  datatype Block = Block(height: int, txs: seq<bytes>)

  function Deliveries(txs: seq<bytes>): seq<Action> {
    seq(|txs|, i requires 0 <= i < |txs| => DeliverTx(txs[i]))
  }

  function Calls(b: Block): seq<Action> {
    [BeginBlock(b.height)] + Deliveries(b.txs) + [EndBlock, Commit]
  }

  function AllCalls(blocks: seq<Block>): seq<Action> {
    if blocks == [] then [] else Calls(blocks[0]) + AllCalls(blocks[1..])
  }

  /** Reference meaning of one block: begin blocker, every transaction in order under the
      block's own gas meter, end blocker; the result is the store to commit. */
  function ApplyBlock<S, M>(app: App<S, M>, start: State<S>, b: Block): Option<S> {
    match BlockMeter(app.maxBlockGas(start.ms))
    case None => None
    case Some(bm) =>
      match RunBlocker(app.beginBlocker, start.(blockMeter := Some(bm), height := b.height))
      case None => None
      case Some(d) =>
        match RunBlocker(app.endBlocker, DeliverAll(app, d, b.txs))
        case None => None
        case Some(d') => Some(d'.ms)
  }

  /** Reference meaning of a chain: the fold of its blocks, the first one from `start`. */
  function ApplyChain<S, M>(app: App<S, M>, start: State<S>, blocks: seq<Block>): Option<S>
    decreases |blocks|
  {
    if blocks == [] then Some(start.ms)
    else match ApplyBlock(app, start, blocks[0])
      case None => None
      case Some(ms) =>
        if |blocks| == 1 then Some(ms) else ApplyChain(app, Branch(ms, blocks[1].height), blocks[1..])
  }

  lemma {:induction false} RunDeliveries<S, M>(app: App<S, M>, s: AppState<S>, txs: seq<bytes>)
    requires s.deliver.Some? && s.deliver.value.blockMeter.Some? && (s.check.Some? ==> Linked(s))
    ensures Run(app, s, Deliveries(txs)) == Some(WithDeliver(s, DeliverAll(app, s.deliver.value, txs)))
    decreases |txs|
  {
    if txs != [] {
      assert Deliveries(txs)[1..] == Deliveries(txs[1..]);
      hide RunTx;
      RunDeliveries(app, Step(app, s, DeliverTx(txs[0])).value, txs[1..]);
    }
  }

  lemma RunFirst<S, M>(app: App<S, M>, s: AppState<S>, a: Action, rest: seq<Action>)
    ensures Run(app, s, [a] + rest) == (match Step(app, s, a) case None => None case Some(t) => Run(app, t, rest))
  {
    hide Step;
    assert ([a] + rest)[1..] == rest;
  }

  lemma RunNothing<S, M>(app: App<S, M>, s: AppState<S>)
    ensures Run(app, s, []) == Some(s)
  {
  }

  /** One block of calls either panics or commits exactly the meaning of the block; it is
      accepted only at the expected height. */
  lemma {:induction false} RunBlock<S, M>(app: App<S, M>, s: AppState<S>, b: Block)
    ensures var r := Run(app, s, Calls(b));
            var meaning := ApplyBlock(app, BlockStart(s, b.height), b);
            && (r.Some? <==> b.height >= 1 && b.height == ExpectedHeight(s) && meaning.Some?)
            && (r.Some? ==>
                  r == Some(s.(committed := meaning.value, version := CommitVersion(s), deliver := None,
                               check := Some(Branch(meaning.value, b.height)))))
  {
    hide Run, RunTx, DeliverAll, Deliveries;
    RunFirst(app, s, BeginBlock(b.height), Deliveries(b.txs) + [EndBlock, Commit]);
    assert Calls(b) == [BeginBlock(b.height)] + (Deliveries(b.txs) + [EndBlock, Commit]);
    var s1 := Step(app, s, BeginBlock(b.height));
    if s1.Some? {
      RunConcat(app, s1.value, Deliveries(b.txs), [EndBlock, Commit]);
      RunDeliveries(app, s1.value, b.txs);
      var s2 := Run(app, s1.value, Deliveries(b.txs)).value;
      assert [EndBlock, Commit] == [EndBlock] + [Commit] && [Commit] == [Commit] + [];
      RunFirst(app, s2, EndBlock, [Commit]);
      var s3 := Step(app, s2, EndBlock);
      if s3.Some? {
        RunFirst(app, s3.value, Commit, []);
        RunNothing(app, Step(app, s3.value, Commit).value);
      }
    }
  }

  /** Every chain of blocks the node accepts, with mempool calls interleaved anywhere, commits
      the fold of its blocks; heights are consecutive from the expected one, and the committed
      version follows them. */
  lemma {:induction false} CommittedIsFoldOfBlocks<S(!new), M(!new)>(app: App<S, M>, s: AppState<S>,
                                                                     acts: seq<Action>, blocks: seq<Block>)
    requires Linked(s) && QuietChecks(app) && s.version >= 0 && s.initialVersion == s.initialHeight
    requires blocks != [] && OnlyChain(acts) == AllCalls(blocks)
    requires Run(app, s, acts).Some?
    ensures var t := Run(app, s, acts).value;
            && Some(t.committed) == ApplyChain(app, BlockStart(s, blocks[0].height), blocks)
            && (forall i :: 0 <= i < |blocks| ==> blocks[i].height == ExpectedHeight(s) + i)
            && t.version == blocks[|blocks| - 1].height
            && t.deliver.None?
  {
    MempoolNonInterference(app, s, s, acts);
    ChainOfBlocks(app, s, blocks);
  }

  lemma {:induction false} ChainOfBlocks<S, M>(app: App<S, M>, s: AppState<S>, blocks: seq<Block>)
    requires s.version >= 0 && s.initialVersion == s.initialHeight && blocks != []
    requires Run(app, s, AllCalls(blocks)).Some?
    ensures var t := Run(app, s, AllCalls(blocks)).value;
            && Some(t.committed) == ApplyChain(app, BlockStart(s, blocks[0].height), blocks)
            && (forall i :: 0 <= i < |blocks| ==> blocks[i].height == ExpectedHeight(s) + i)
            && t.version == blocks[|blocks| - 1].height
            && t.deliver.None?
    decreases |blocks|
  {
    var b, rest := blocks[0], blocks[1..];
    RunConcat(app, s, Calls(b), AllCalls(rest));
    RunBlock(app, s, b);
    var s1 := Run(app, s, Calls(b)).value;
    if rest == [] {
      assert AllCalls(rest) == [];
    } else {
      ChainOfBlocks(app, s1, rest);
      assert BlockStart(s1, rest[0].height) == Branch(s1.committed, rest[0].height);
      forall i | 0 <= i < |blocks| ensures blocks[i].height == ExpectedHeight(s) + i {
        if i > 0 { assert blocks[i] == rest[i - 1]; }
      }
    }
  }

  // ---- Restarts and abandoned blocks ----

  /** A block that was committed, or calls that were cut off by a crash before any commit. */
  datatype Segment = Full(block: Block) | Crashed(calls: seq<Action>)

  function SegmentCalls(g: Segment): seq<Action> {
    match g
    case Full(b) => Calls(b)
    case Crashed(calls) => calls + [Restart]
  }

  function AllSegments(segs: seq<Segment>): seq<Action> {
    if segs == [] then [] else SegmentCalls(segs[0]) + AllSegments(segs[1..])
  }

  /** The blocks whose commit was reached. */
  function Reached(segs: seq<Segment>): seq<Block> {
    if segs == [] then [] else (if segs[0].Full? then [segs[0].block] else []) + Reached(segs[1..])
  }

  predicate CutOff(g: Segment) {
    g.Crashed? ==> Commit !in g.calls
  }

  /** A commit exists, or no initial height has been set. */
  predicate Settled<S>(s: AppState<S>) {
    s.deliver.None? && (s.version > 0 || (s.version == 0 && s.initialHeight == 0 && s.initialVersion == 0))
  }

  lemma {:induction false} CrashGoesBack<S, M>(app: App<S, M>, s: AppState<S>, calls: seq<Action>)
    requires Commit !in calls && Run(app, s, calls + [Restart]).Some?
    ensures Run(app, s, calls + [Restart]).value == Boot(s.committed, s.version)
  {
    RunConcat(app, s, calls, [Restart]);
    CommittedOnlyByCommit(app, s, calls);
    var e := Run(app, s, calls).value;
    assert Run(app, e, [Restart]) == Some(Boot(e.committed, e.version));
  }

  lemma FoldStep<S, M>(app: App<S, M>, ms: S, h: int, b: Block, rest: seq<Block>)
    ensures ApplyChain(app, Branch(ms, 0), [b] + rest) ==
            match ApplyBlock(app, Branch(ms, h), b)
            case None => None
            case Some(ms') => ApplyChain(app, Branch(ms', 0), rest)
  {
    hide ApplyBlock;
    assert ([b] + rest)[1..] == rest;
    SameBlock(app, ms, 0, h, b);
    if ApplyBlock(app, Branch(ms, h), b).Some? && rest != [] {
      SameBlock(app, ApplyBlock(app, Branch(ms, h), b).value, 0, rest[0].height, rest[0]);
    }
  }

  lemma NoFold<S, M>(app: App<S, M>, ms: S)
    ensures ApplyChain(app, Branch(ms, 0), []) == Some(ms)
  {
  }

  /** A block brings its own height. */
  lemma SameBlock<S, M>(app: App<S, M>, ms: S, h: int, h': int, b: Block)
    ensures ApplyBlock(app, Branch(ms, h), b) == ApplyBlock(app, Branch(ms, h'), b)
  {
    hide DeliverAll;
  }

  /** However often the node crashes, in whatever place, the committed store is the fold of exactly
      the blocks whose commit was reached, at consecutive heights; `tail` is where the run ends. */
  lemma {:induction false} FoldWithRestarts<S, M>(app: App<S, M>, s: AppState<S>, segs: seq<Segment>, tail: seq<Action>)
    requires Settled(s) && (forall i :: 0 <= i < |segs| ==> CutOff(segs[i])) && Commit !in tail
    requires Run(app, s, AllSegments(segs) + tail).Some?
    ensures var t, blocks := Run(app, s, AllSegments(segs) + tail).value, Reached(segs);
            && Some(t.committed) == ApplyChain(app, Branch(s.committed, 0), blocks)
            && (forall i :: 0 <= i < |blocks| ==> blocks[i].height == s.version + 1 + i)
            && t.version == s.version + |blocks|
    decreases |segs|
  {
    hide Step, ApplyBlock, ApplyChain, Run;
    if segs == [] {
      assert AllSegments(segs) + tail == tail;
      NoFold(app, s.committed);
      CommittedOnlyByCommit(app, s, tail);
    } else {
      var g, rest := segs[0], segs[1..];
      assert AllSegments(segs) + tail == SegmentCalls(g) + (AllSegments(rest) + tail);
      RunConcat(app, s, SegmentCalls(g), AllSegments(rest) + tail);
      var s1 := Run(app, s, SegmentCalls(g)).value;
      match g
      case Full(b) =>
        RunBlock(app, s, b);
        FoldWithRestarts(app, s1, rest, tail);
        FoldStep(app, s.committed, b.height, b, Reached(rest));
      case Crashed(calls) =>
        CrashGoesBack(app, s, calls);
        assert Reached(segs) == Reached(rest);
        FoldWithRestarts(app, s1, rest, tail);
    }
  }

  /** The same with mempool calls interleaved anywhere. */
  lemma {:induction false} CommittedIsFoldOfReachedBlocks<S(!new), M(!new)>(app: App<S, M>, s: AppState<S>,
                                                                            acts: seq<Action>, segs: seq<Segment>,
                                                                            tail: seq<Action>)
    requires Linked(s) && QuietChecks(app) && Settled(s)
    requires (forall i :: 0 <= i < |segs| ==> CutOff(segs[i])) && Commit !in tail
    requires OnlyChain(acts) == AllSegments(segs) + tail && Run(app, s, acts).Some?
    ensures var t, blocks := Run(app, s, acts).value, Reached(segs);
            && Some(t.committed) == ApplyChain(app, Branch(s.committed, 0), blocks)
            && (forall i :: 0 <= i < |blocks| ==> blocks[i].height == s.version + 1 + i)
            && t.version == s.version + |blocks|
  {
    hide Run, ApplyChain, QuietChecks, Settled;
    MempoolNonInterference(app, s, s, acts);
    FoldWithRestarts(app, s, segs, tail);
  }

  lemma {:induction false} CrashesGoBack<S, M>(app: App<S, M>, genesis: S, crashes: seq<Segment>)
    requires forall i :: 0 <= i < |crashes| ==> crashes[i].Crashed? && CutOff(crashes[i])
    requires Run(app, Boot(genesis, 0), AllSegments(crashes)).Some?
    ensures Run(app, Boot(genesis, 0), AllSegments(crashes)).value == Boot(genesis, 0)
    decreases |crashes|
  {
    hide Step;
    if crashes != [] {
      RunConcat(app, Boot(genesis, 0), SegmentCalls(crashes[0]), AllSegments(crashes[1..]));
      CrashGoesBack(app, Boot(genesis, 0), crashes[0].calls);
      CrashesGoBack(app, genesis, crashes[1..]);
    }
  }

  /** The calls of a chain from genesis: attempts that crashed before the first commit, the InitChain
      that the first block follows, that block, and then blocks and crashes in any order. */
  function GenesisCalls(crashes: seq<Segment>, init: Action, first: Block, segs: seq<Segment>,
                        tail: seq<Action>): seq<Action> {
    AllSegments(crashes) + ([init] + (Calls(first) + (AllSegments(segs) + tail)))
  }

  /** From genesis: the first block runs on top of the stored parameters and what the init chainer
      wrote, at the initial height; nothing of that is committed before the first commit; and the
      committed store is the fold of the blocks whose commit was reached. */
  lemma {:induction false} GenesisChain<S(!new), M(!new)>(app: App<S, M>, genesis: S, initialHeight: int,
                                                          params: Option<bytes>, acts: seq<Action>,
                                                          crashes: seq<Segment>, first: Block,
                                                          segs: seq<Segment>, tail: seq<Action>)
    requires QuietChecks(app)
    requires forall i :: 0 <= i < |crashes| ==> crashes[i].Crashed? && CutOff(crashes[i])
    requires (forall i :: 0 <= i < |segs| ==> CutOff(segs[i])) && Commit !in tail
    requires OnlyChain(acts) == GenesisCalls(crashes, InitChain(initialHeight, params), first, segs, tail)
    requires Run(app, Boot(genesis, 0), acts).Some?
    ensures DoInitChain(app, Boot(genesis, 0), initialHeight, params).Some?
    ensures var t := Run(app, Boot(genesis, 0), acts).value;
            var h0 := if initialHeight > 1 then initialHeight else 1;
            var s1 := DoInitChain(app, Boot(genesis, 0), initialHeight, params).value;
            var blocks := [first] + Reached(segs);
            && s1.committed == genesis && s1.deliver.Some?
            && Some(t.committed) == ApplyChain(app, s1.deliver.value, blocks)
            && (forall i :: 0 <= i < |blocks| ==> blocks[i].height == h0 + i)
            && t.version == h0 + |blocks| - 1
  {
    hide Run, ApplyBlock, RunBlocker, QuietChecks;
    var s := Boot(genesis, 0);
    var init := InitChain(initialHeight, params);
    MempoolNonInterference(app, s, s, acts);
    RunConcat(app, s, AllSegments(crashes), [init] + (Calls(first) + (AllSegments(segs) + tail)));
    CrashesGoBack(app, genesis, crashes);
    RunFirst(app, s, init, Calls(first) + (AllSegments(segs) + tail));
    var s1 := DoInitChain(app, s, initialHeight, params).value;
    RunConcat(app, s1, Calls(first), AllSegments(segs) + tail);
    RunBlock(app, s1, first);
    var s2 := Run(app, s1, Calls(first)).value;
    FoldWithRestarts(app, s2, segs, tail);
    FirstThenRest(app, s1.deliver.value, first, Reached(segs));
  }

  lemma FirstThenRest<S, M>(app: App<S, M>, start: State<S>, b: Block, rest: seq<Block>)
    ensures ApplyChain(app, start, [b] + rest) ==
            match ApplyBlock(app, start.(height := b.height), b)
            case None => None
            case Some(ms) => ApplyChain(app, Branch(ms, 0), rest)
  {
    hide DeliverAll;
    assert ([b] + rest)[1..] == rest;
    if ApplyBlock(app, start, b).Some? && rest != [] {
      SameBlock(app, ApplyBlock(app, start, b).value, 0, rest[0].height, rest[0]);
    }
  }
}
