/**
 * The ring buffer of ring.c with indices that never wrap: every atomic operation, mutex region and
 * access to shared data is one step, taken by the (single or locked-in) writer or by the reader in
 * any interleaving.
 */
module RingModel {
  import opened Arith

  /** Where the writer is inside a push; a message is carried until it is stored. */
  datatype WPc<T> = WIdle | WCheck(msg: T) | WSync(msg: T) | WStore(msg: T) | WAdd(msg: T) | WPublish(newIdx: nat)
  /** Where the reader is inside a pop. */
  datatype RPc = RIdle | RPublish | RCheck | RWait | RSteal | RLoad

  /**
   * `w`, `wx`, `wc`: writer head, last known end of free space, head of the last synchronization;
   * `r`, `rx`, `rc`: reader head, last known end of the data, head of the last synchronization;
   * `sr`, `sw`: the two shared indices; `last`: the message at `r` is still in use by the reader.
   */
  datatype Ring<T> = Ring(
    size: nat, data: seq<T>,
    wData: nat, w: nat, wx: nat, wc: nat, wpc: WPc<T>,
    rData: nat, r: nat, rx: nat, rc: nat, last: nat, rpc: RPc,
    sr: nat, sw: nat)
  {
    function DivBlock(): nat {
      size / 8
    }

    /** At most this many messages between two synchronizations of one side. */
    function Block(): nat {
      if DivBlock() == 0 then 1 else DivBlock()
    }
  }

  function Init<T>(data: seq<T>): Ring<T> {
    var n := |data|;
    Ring(n, data, 0, 0, n, 0, WIdle, 0, 0, 0, 0, 0, RIdle, 0, n)
  }

  /** The writer lock was taken (several writers) or the only writer called push. */
  function StartPush<T>(s: Ring<T>, m: T): Ring<T>
    requires s.wpc.WIdle?
  {
    s.(wpc := WCheck(m))
  }

  function WriterStep<T>(s: Ring<T>): Ring<T>
    requires !s.wpc.WIdle? && s.wData < |s.data|
  {
    match s.wpc
    case WCheck(m) =>
      s.(wpc := if s.wx - s.w > 0 then WStore(m) else WSync(m))
    case WSync(m) =>
      s.(wx := s.sw, wpc := if s.sw - s.w == 0 then WSync(m) else WStore(m))
    case WStore(m) =>
      s.(data := s.data[s.wData := m], wpc := WAdd(m))
    case WAdd(_) =>
      s.(wData := if s.wData + 1 == s.size then 0 else s.wData + 1,
         w := s.w + 1,
         wpc := if s.w + 1 - s.wc >= s.DivBlock() then WPublish(s.w + 1) else WIdle)
    case WPublish(newIdx) =>
      s.(sr := newIdx, wx := s.sw, wc := newIdx, wpc := WIdle)
  }

  /** Starting a pop releases the message of the previous one. */
  function StartPop<T>(s: Ring<T>): Ring<T>
    requires s.rpc.RIdle?
  {
    var r := s.r + s.last;
    s.(rData := if s.rData + s.last == s.size then 0 else s.rData + s.last,
       r := r, last := 0,
       rpc := if r - s.rc >= s.DivBlock() then RPublish else RCheck)
  }

  function ReaderStep<T>(s: Ring<T>): Ring<T>
    requires !s.rpc.RIdle? && s.r >= s.rc
  {
    match s.rpc
    case RPublish =>
      s.(sw := s.sw + (s.r - s.rc), rx := s.sr, rc := s.r, rpc := RCheck)
    case RCheck =>
      s.(rpc := if s.rx - s.r > 0 then RLoad else RWait)
    case RWait =>
      s.(rx := s.sr, rpc := if s.sr - s.r > 0 then RLoad else RSteal)
    case RSteal =>
      s.(sr := s.w, rx := s.w, rpc := if s.w - s.r > 0 then RLoad else RWait)
    case RLoad =>
      s.(last := 1, rpc := RIdle)
  }

  // ---------------------------------------------------------------- the invariant

  /** The order of all indices, which makes every unsigned difference a true one. */
  predicate Chain<T>(s: Ring<T>) {
    && s.rc <= s.r <= s.rx <= s.sr <= s.w <= s.wx <= s.sw == s.rc + s.size
    && s.wc <= s.sr
  }

  ghost predicate Inv<T>(s: Ring<T>) {
    && 0 < s.size == |s.data|
    && Chain(s)
    && s.wData == Pos(s.w, s.size) && s.rData == Pos(s.r, s.size)
    && s.last <= 1 && s.r + s.last <= s.rx
    && (s.last == 1 ==> s.rpc.RIdle?)
    && s.r + s.last - s.rc <= s.Block()
    && (s.rpc.RCheck? || s.rpc.RWait? || s.rpc.RSteal? || s.rpc.RLoad? ==> s.r - s.rc < s.Block())
    && (s.rpc.RLoad? ==> s.r < s.rx)
    && (if s.wpc.WPublish? then s.wpc.newIdx == s.w && s.w - s.wc <= s.Block() else s.w - s.wc < s.Block())
    && (s.wpc.WStore? || s.wpc.WAdd? ==> s.w < s.wx)
    && (s.wpc.WAdd? ==> s.data[s.wData] == s.wpc.msg)
  }

  /** The messages pushed but not popped, in order. */
  function Queue<T>(s: Ring<T>): seq<T>
    requires Inv(s)
  {
    seq(s.w - s.r - s.last, k requires 0 <= k < s.w - s.r - s.last => s.data[Pos(s.r + s.last + k, s.size)])
  }

  /** The slot of the `k`-th message in a buffer of `n`. */
  function Pos(k: nat, n: nat): (p: nat)
    requires n > 0
    ensures p < n
  {
    ModSucc(k, n);
    k % n
  }

  lemma NextPos(k: nat, n: nat)
    requires n > 0
    ensures Pos(k + 1, n) == if Pos(k, n) + 1 == n then 0 else Pos(k, n) + 1
  {
    ModSucc(k, n);
  }

  lemma FirstPos(n: nat)
    requires n > 0
    ensures Pos(0, n) == 0
  {
    DivModUnique(0, n, 0, 0);
  }

  lemma DistinctPos(j: nat, k: nat, n: nat)
    requires j < k < j + n
    ensures Pos(j, n) != Pos(k, n)
  {
    ModDistinct(j, k, n);
  }

  lemma InitInv<T>(data: seq<T>)
    requires 0 < |data|
    ensures Inv(Init(data)) && Queue(Init(data)) == []
  {
    hide Pos;
    FirstPos(|data|);
  }

  // ---------------------------------------------------------------- every step refines the queue

  lemma WriterKeepsInv<T>(s: Ring<T>)
    requires Inv(s) && !s.wpc.WIdle?
    ensures s.wData < |s.data| && Inv(WriterStep(s))
  {
    hide Pos;
    NextPos(s.w, s.size);
  }

  lemma ReaderKeepsInv<T>(s: Ring<T>)
    requires Inv(s) && !s.rpc.RIdle?
    ensures s.rData < |s.data| && Inv(ReaderStep(s))
  {
    hide Pos;
  }

  lemma QueueUnmoved<T>(s: Ring<T>, s': Ring<T>)
    requires Inv(s) && Inv(s') && s'.size == s.size && s'.w == s.w && s'.r + s'.last == s.r + s.last
    requires forall k | s.r + s.last <= k < s.w :: s'.data[Pos(k, s.size)] == s.data[Pos(k, s.size)]
    ensures Queue(s') == Queue(s)
  {
    hide Pos;
    forall k | 0 <= k < |Queue(s)| ensures Queue(s')[k] == Queue(s)[k] {
      assert s'.data[Pos(s.r + s.last + k, s.size)] == s.data[Pos(s.r + s.last + k, s.size)];
    }
  }

  /** A push takes effect when the writer index is advanced, and nowhere else. */
  lemma WriterRefines<T>(s: Ring<T>)
    requires Inv(s) && !s.wpc.WIdle?
    ensures s.wData < |s.data|
    ensures var s' := WriterStep(s);
            && Inv(s')
            && Queue(s') == Queue(s) + (if s.wpc.WAdd? then [s.wpc.msg] else [])
  {
    hide Pos;
    WriterKeepsInv(s);
    var s' := WriterStep(s);
    if s.wpc.WStore? {
      StoreIsFree(s);
      QueueUnmoved(s, s');
    } else if s.wpc.WAdd? {
      var n := s.w - s.r - s.last;
      assert s.r + s.last + n == s.w;
    } else {
      QueueUnmoved(s, s');
    }
  }

  /** The slot being written holds no message that is queued or still in use by the reader. */
  lemma StoreIsFree<T>(s: Ring<T>)
    requires Inv(s) && s.wpc.WStore?
    ensures forall k | s.r <= k < s.w :: Pos(k, s.size) != s.wData
  {
    hide Pos;
    forall k | s.r <= k < s.w ensures Pos(k, s.size) != s.wData {
      DistinctPos(k, s.w, s.size);
    }
  }

  /** A pop takes effect when the message is loaded: it is the oldest one. */
  lemma ReaderRefines<T>(s: Ring<T>)
    requires Inv(s) && !s.rpc.RIdle?
    ensures Inv(ReaderStep(s)) && s.rData < |s.data|
    ensures if s.rpc.RLoad? then Queue(s) == [s.data[s.rData]] + Queue(ReaderStep(s)) else Queue(ReaderStep(s)) == Queue(s)
  {
    hide Pos;
    ReaderKeepsInv(s);
    var s' := ReaderStep(s);
    if s.rpc.RLoad? {
      LoadIsOldest(s, s');
    } else {
      QueueUnmoved(s, s');
    }
  }

  lemma LoadIsOldest<T>(s: Ring<T>, s': Ring<T>)
    requires Inv(s) && Inv(s') && s.last == 0 && s.r < s.w && s' == s.(last := 1, rpc := RIdle)
    ensures s.rData < |s.data| && Queue(s) == [s.data[s.rData]] + Queue(s')
  {
    hide Pos, Chain;
    var q := [s.data[s.rData]] + Queue(s');
    assert |q| == |Queue(s)|;
    forall k | 0 <= k < |q| ensures q[k] == Queue(s)[k] {
      assert s.r + 1 + (k - 1) == s.r + k;
    }
  }

  lemma StartsRefine<T>(s: Ring<T>, m: T)
    requires Inv(s)
    ensures s.wpc.WIdle? ==> Inv(StartPush(s, m)) && Queue(StartPush(s, m)) == Queue(s)
    ensures s.rpc.RIdle? ==> Inv(StartPop(s)) && Queue(StartPop(s)) == Queue(s)
  {
    hide Pos;
    if s.wpc.WIdle? {
      QueueUnmoved(s, StartPush(s, m));
    }
    if s.rpc.RIdle? {
      NextPos(s.r, s.size);
      QueueUnmoved(s, StartPop(s));
    }
  }

  // ---------------------------------------------------------------- all runs

  datatype Action<T> = Push(msg: T) | Writer | Pop | Reader

  predicate Enabled<T>(s: Ring<T>, a: Action<T>) {
    match a
    case Push(_) => s.wpc.WIdle?
    case Writer => !s.wpc.WIdle?
    case Pop => s.rpc.RIdle?
    case Reader => !s.rpc.RIdle?
  }

  function Step<T>(s: Ring<T>, a: Action<T>): (s': Ring<T>)
    requires Inv(s) && Enabled(s, a)
    ensures Inv(s') && s'.size == s.size
  {
    match a
    case Push(m) => StartsRefine(s, m); StartPush(s, m)
    case Writer => WriterRefines(s); WriterStep(s)
    case Pop => StartsRefine(s, s.data[0]); StartPop(s)
    case Reader => ReaderRefines(s); ReaderStep(s)
  }

  predicate IsRun<T>(s: Ring<T>, run: seq<Action<T>>)
    requires Inv(s)
    decreases |run|
  {
    run != [] ==> Enabled(s, run[0]) && IsRun(Step(s, run[0]), run[1..])
  }

  function After<T>(s: Ring<T>, run: seq<Action<T>>): (s': Ring<T>)
    requires Inv(s) && IsRun(s, run)
    ensures Inv(s') && s'.size == s.size
    decreases |run|
  {
    if run == [] then s else After(Step(s, run[0]), run[1..])
  }

  /** Messages in the order in which their pushes take effect. */
  function Pushed<T>(s: Ring<T>, run: seq<Action<T>>): seq<T>
    requires Inv(s) && IsRun(s, run)
    decreases |run|
  {
    if run == [] then []
    else (if run[0].Writer? && s.wpc.WAdd? then [s.wpc.msg] else []) + Pushed(Step(s, run[0]), run[1..])
  }

  /** Messages in the order in which pops return them. */
  function Popped<T>(s: Ring<T>, run: seq<Action<T>>): seq<T>
    requires Inv(s) && IsRun(s, run)
    decreases |run|
  {
    if run == [] then []
    else
      ReaderInBounds(s);
      (if run[0].Reader? && s.rpc.RLoad? then [s.data[s.rData]] else []) + Popped(Step(s, run[0]), run[1..])
  }

  lemma ReaderInBounds<T>(s: Ring<T>)
    requires Inv(s)
    ensures s.rData < |s.data|
  {
  }

  lemma StepRefines<T>(s: Ring<T>, a: Action<T>)
    requires Inv(s) && Enabled(s, a)
    ensures s.rData < |s.data|
    ensures var pushed := if a.Writer? && s.wpc.WAdd? then [s.wpc.msg] else [];
            var popped := if a.Reader? && s.rpc.RLoad? then [s.data[s.rData]] else [];
            Queue(s) + pushed == popped + Queue(Step(s, a))
  {
    ReaderInBounds(s);
    match a
    case Push(m) => StartsRefine(s, m);
    case Writer => WriterRefines(s);
    case Pop => StartsRefine(s, s.data[0]);
    case Reader => ReaderRefines(s);
  }

  /** Over any run, what is popped followed by what is left is what was there followed by what was pushed. */
  lemma {:induction false} RunRefines<T>(s: Ring<T>, run: seq<Action<T>>)
    requires Inv(s) && IsRun(s, run)
    ensures Queue(s) + Pushed(s, run) == Popped(s, run) + Queue(After(s, run))
    decreases |run|
  {
    if run != [] {
      hide Inv, Queue, Step, Enabled;
      StepRefines(s, run[0]);
      var s' := Step(s, run[0]);
      RunRefines(s', run[1..]);
      var pushed := if run[0].Writer? && s.wpc.WAdd? then [s.wpc.msg] else [];
      var popped := if run[0].Reader? && s.rpc.RLoad? then [s.data[s.rData]] else [];
      Exchange(Queue(s), pushed, popped, Queue(s'), Pushed(s', run[1..]), Popped(s', run[1..]), Queue(After(s', run[1..])));
    }
  }

  lemma Exchange<T>(q: seq<T>, a: seq<T>, b: seq<T>, q': seq<T>, a': seq<T>, b': seq<T>, q'': seq<T>)
    requires q + a == b + q' && q' + a' == b' + q''
    ensures q + (a + a') == b + b' + q''
  {
    assert q + (a + a') == q + a + a';
    assert b + q' + a' == b + (q' + a');
    assert b + (b' + q'') == b + b' + q'';
  }

  /** From the empty ring, in every interleaving: the popped messages are a prefix of the pushed ones. */
  lemma PoppedArePrefix<T>(data: seq<T>, run: seq<Action<T>>)
    requires 0 < |data| && Inv(Init(data)) && IsRun(Init(data), run)
    ensures Popped(Init(data), run) <= Pushed(Init(data), run)
  {
    hide Inv, Queue;
    InitInv(data);
    RunRefines(Init(data), run);
    assert [] + Pushed(Init(data), run) == Pushed(Init(data), run);
  }

  // ---------------------------------------------------------------- progress

  /** Looking at the shared indices again would not let the writer go on. */
  predicate WriterBlocked<T>(s: Ring<T>) {
    s.wpc.WSync? && s.sw == s.w
  }

  /** Not even stealing the writer's index would let the reader go on. */
  predicate ReaderBlocked<T>(s: Ring<T>) {
    (s.rpc.RWait? || s.rpc.RSteal?) && s.sr == s.r && s.w == s.r
  }

  /** No reachable state has both sides blocked, for any size, also below 8 where every message synchronizes. */
  lemma NeverBothBlocked<T>(s: Ring<T>)
    requires Inv(s)
    ensures !(WriterBlocked(s) && ReaderBlocked(s))
  {
    BlockFits(s.size);
    hide Pos;
  }

  lemma BlockFits(size: nat)
    requires 0 < size
    ensures size / 8 < size && 1 <= size
  {
  }

  /** How far a push is from its end. */
  function ToGo<T>(pc: WPc<T>): nat {
    match pc
    case WCheck(_) => 5
    case WSync(_) => 4
    case WStore(_) => 3
    case WAdd(_) => 2
    case WPublish(_) => 1
    case WIdle => 0
  }

  /** A push comes to its end in at most five steps of the writer, unless it finds no free slot. */
  lemma PushGoesOn<T>(s: Ring<T>)
    requires Inv(s) && !s.wpc.WIdle? && (s.wpc.WSync? ==> s.sw > s.w)
    ensures s.wData < |s.data| && ToGo(WriterStep(s).wpc) < ToGo(s.wpc) <= 5
  {
    hide Pos;
  }

  /**
   * A writer waits only for a full ring: all slots are taken by queued messages, the one in use and those the
   * reader has released since it last published, of which there are at most max(1, size / 8).
   */
  lemma WaitsWhenFull<T>(s: Ring<T>)
    requires Inv(s) && WriterBlocked(s)
    ensures |Queue(s)| + s.last + (s.r - s.rc) == s.size
    ensures s.last + (s.r - s.rc) <= if s.size / 8 == 0 then 1 else s.size / 8
  {
    hide Pos;
  }

  /** The only thread that may run is the reader: it starts a pop or goes on with it. */
  function ReaderTurn<T>(s: Ring<T>): (s': Ring<T>)
    requires Inv(s)
    ensures Inv(s') && s'.size == s.size
  {
    if s.rpc.RIdle? then Step(s, Pop) else Step(s, Reader)
  }

  /** How far the reader is from publishing, in steps; a turn through all points of a pop weighs less than one message. */
  function Rank(pc: RPc): nat {
    match pc
    case RIdle => 6
    case RPublish => 5
    case RCheck => 4
    case RWait => 3
    case RSteal => 2
    case RLoad => 1
  }

  function Distance<T>(s: Ring<T>): nat
    requires Inv(s)
  {
    7 * (s.Block() - (s.r + s.last - s.rc)) + Rank(s.rpc)
  }

  /** Messages that the reader may still take before it has to publish. */
  function Credit<T>(s: Ring<T>): nat
    requires Inv(s)
  {
    s.Block() - (s.r + s.last - s.rc)
  }

  lemma TurnProgress<T>(s: Ring<T>)
    requires Inv(s) && WriterBlocked(s)
    ensures var s' := ReaderTurn(s);
            && s'.wpc == s.wpc && s'.w == s.w
            && (WriterBlocked(s') ==> Distance(s') < Distance(s) && Credit(s') == Credit(s) - if s.rpc.RLoad? then 1 else 0)
  {
    BlockFits(s.size);
    hide Pos;
  }

  function Turns<T>(s: Ring<T>, n: nat): (s': Ring<T>)
    requires Inv(s)
    ensures Inv(s')
    decreases n
  {
    hide Inv;
    if n == 0 then s else Turns(ReaderTurn(s), n - 1)
  }

  /** Pops that return during `n` turns of the reader. */
  function Loads<T>(s: Ring<T>, n: nat): nat
    requires Inv(s)
    decreases n
  {
    hide Inv;
    if n == 0 then 0 else (if s.rpc.RLoad? then 1 else 0) + Loads(ReaderTurn(s), n - 1)
  }

  /**
   * A blocked writer is released after finitely many steps of a reader that keeps popping, during
   * which every pop succeeds: at most max(1, size / 8) of them return before it.
   */
  lemma {:induction false} WriterReleased<T>(s: Ring<T>) returns (n: nat)
    requires Inv(s) && WriterBlocked(s)
    ensures n <= Distance(s) && !WriterBlocked(Turns(s, n)) && Turns(s, n).sw > Turns(s, n).w == s.w
    ensures forall k | 0 <= k < n :: WriterBlocked(Turns(s, k))
    ensures Loads(s, n) <= Credit(s) <= s.Block()
    decreases Distance(s)
  {
    hide Inv, Distance, Credit, WriterBlocked, ReaderTurn;
    TurnProgress(s);
    var s' := ReaderTurn(s);
    CreditBound(s);
    if WriterBlocked(s') {
      var m := WriterReleased(s');
      n := m + 1;
      forall k | 0 <= k < n ensures WriterBlocked(Turns(s, k)) {
        if k > 0 {
          assert Turns(s, k) == Turns(s', k - 1);
        }
      }
    } else {
      n := 1;
      assert Turns(s, 1) == Turns(s', 0);
      assert Loads(s, 1) == (if s.rpc.RLoad? then 1 else 0) + Loads(s', 0);
      Released(s);
    }
  }

  /** The writer is blocked all along a run. */
  ghost predicate BlockedThrough<T>(s: Ring<T>, run: seq<Action<T>>)
    requires Inv(s) && IsRun(s, run)
    decreases |run|
  {
    WriterBlocked(s) && (run != [] ==> BlockedThrough(Step(s, run[0]), run[1..]))
  }

  function ReaderActions<T>(run: seq<Action<T>>): nat {
    if run == [] then 0 else (if run[0].Pop? || run[0].Reader? then 1 else 0) + ReaderActions(run[1..])
  }

  /** However the two threads interleave, the reader cannot go on for long without releasing the writer. */
  lemma {:induction false} BlockedRunBound<T>(s: Ring<T>, run: seq<Action<T>>)
    requires Inv(s) && IsRun(s, run) && BlockedThrough(s, run)
    ensures ReaderActions(run) + Distance(After(s, run)) <= Distance(s)
    ensures |Popped(s, run)| + Credit(After(s, run)) <= Credit(s)
    decreases |run|
  {
    if run != [] {
      hide Inv, Distance, Credit, WriterBlocked, ReaderStep, StartPop;
      BlockedStep(s, run[0]);
      BlockedRunBound(Step(s, run[0]), run[1..]);
    }
  }

  lemma BlockedStep<T>(s: Ring<T>, a: Action<T>)
    requires Inv(s) && Enabled(s, a) && WriterBlocked(s) && WriterBlocked(Step(s, a))
    ensures var s', turn := Step(s, a), a.Pop? || a.Reader?;
            && Distance(s') + (if turn then 1 else 0) <= Distance(s)
            && Credit(s') == Credit(s) - (if a.Reader? && s.rpc.RLoad? then 1 else 0)
  {
    hide Pos;
    if a.Pop? || a.Reader? {
      TurnProgress(s);
    }
  }

  lemma CreditBound<T>(s: Ring<T>)
    requires Inv(s)
    ensures Credit(s) <= s.Block() && Distance(s) >= 1
    ensures s.rpc.RLoad? ==> Credit(s) >= 1
  {
  }

  lemma Released<T>(s: Ring<T>)
    requires Inv(s) && WriterBlocked(s) && !WriterBlocked(ReaderTurn(s))
    ensures ReaderTurn(s).sw > ReaderTurn(s).w == s.w
  {
    hide Pos;
  }

  /** A reader that waits while messages are there gets one within two steps, by stealing at worst. */
  lemma StealSucceeds<T>(s: Ring<T>)
    requires Inv(s) && (s.rpc.RWait? || s.rpc.RSteal?) && s.w > s.r
    ensures ReaderTurn(s).rpc.RLoad? || ReaderTurn(ReaderTurn(s)).rpc.RLoad?
  {
    hide Pos;
  }
}
