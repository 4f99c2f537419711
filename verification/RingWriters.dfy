/**
 * Several writers on one ring (the multi-writer mode of ring.c): each takes the spin lock around its
 * whole push, so that to the ring they are one writer, and each keeps its own order.
 */
module RingWriters {
  import opened Bytes
  import opened RingModel

  /** A message and the writer that pushes it. */
  datatype Tagged<T> = Tagged(writer: nat, msg: T)

  /** A writer is outside of push, spins for the lock with its message, or holds the lock. */
  datatype Writer<T> = Outside | Spinning(msg: T) | Inside

  datatype Multi<T> = Multi(ring: Ring<Tagged<T>>, writers: seq<Writer<T>>, lock: Option<nat>)

  datatype Act<T> = Call(i: nat, msg: T) | Lock(i: nat) | Go(i: nat) | Unlock(i: nat) | StartRead | GoRead

  ghost predicate MInv<T(!new)>(s: Multi<T>) {
    && Inv(s.ring)
    && (forall i | 0 <= i < |s.writers| :: s.writers[i].Inside? <==> s.lock == Some(i))
    && (s.lock == None ==> s.ring.wpc.WIdle?)
    && (s.lock.Some? ==> s.lock.value < |s.writers| && forall m | Carried(s.ring) == Some(m) :: m.writer == s.lock.value)
  }

  /** The message inside a push that is not yet visible to the reader. */
  function Carried<T>(s: Ring<T>): Option<T> {
    match s.wpc
    case WCheck(m) => Some(m)
    case WSync(m) => Some(m)
    case WStore(m) => Some(m)
    case WAdd(m) => Some(m)
    case _ => None
  }

  predicate Can<T>(s: Multi<T>, a: Act<T>) {
    match a
    case Call(i, _) => i < |s.writers| && s.writers[i].Outside?
    case Lock(i) => i < |s.writers| && s.writers[i].Spinning? && s.lock == None
    case Go(i) => i < |s.writers| && s.writers[i].Inside? && !s.ring.wpc.WIdle?
    case Unlock(i) => i < |s.writers| && s.writers[i].Inside? && s.ring.wpc.WIdle?
    case StartRead => s.ring.rpc.RIdle?
    case GoRead => !s.ring.rpc.RIdle?
  }

  /** What the ring sees of a step. */
  function Seen<T>(s: Multi<T>, a: Act<T>): seq<Action<Tagged<T>>>
    requires Can(s, a)
  {
    match a
    case Lock(i) => [Push(Tagged(i, s.writers[i].msg))]
    case Go(_) => [RingModel.Writer]
    case StartRead => [Pop]
    case GoRead => [Reader]
    case _ => []
  }

  /** The ring sees a run of its single writer: a locked-out push never starts. */
  lemma SeenIsRun<T(!new)>(s: Multi<T>, a: Act<T>)
    requires MInv(s) && Can(s, a)
    ensures IsRun(s.ring, Seen(s, a))
  {
    hide Inv, Step;
    var seen := Seen(s, a);
    if a.Lock? || a.Go? || a.StartRead? || a.GoRead? {
      assert seen[1..] == [];
    }
  }

  function Next<T(!new)>(s: Multi<T>, a: Act<T>): (s': Multi<T>)
    requires MInv(s) && Can(s, a)
  {
    SeenIsRun(s, a);
    var t := s.(ring := After(s.ring, Seen(s, a)));
    match a
    case Call(i, m) => t.(writers := s.writers[i := Spinning(m)])
    case Lock(i) => t.(writers := s.writers[i := Inside], lock := Some(i))
    case Unlock(i) => t.(writers := s.writers[i := Outside], lock := None)
    case _ => t
  }

  lemma NextInv<T(!new)>(s: Multi<T>, a: Act<T>)
    requires MInv(s) && Can(s, a)
    ensures MInv(Next(s, a)) && |Next(s, a).writers| == |s.writers|
  {
    SeenIsRun(s, a);
    CarriedNext(s, a);
    hide Inv, Step;
  }

  /** A message in a push stays that of the lock holder until it is visible. */
  lemma CarriedNext<T(!new)>(s: Multi<T>, a: Act<T>)
    requires MInv(s) && Can(s, a)
    ensures IsRun(s.ring, Seen(s, a))
    ensures var c := Carried(After(s.ring, Seen(s, a)));
            if a.Lock? then c == Some(Tagged(a.i, s.writers[a.i].msg)) else c == Carried(s.ring) || (a.Go? && c == None)
    ensures !a.Lock? && s.ring.wpc.WIdle? ==> After(s.ring, Seen(s, a)).wpc.WIdle?
  {
    SeenIsRun(s, a);
    var seen := Seen(s, a);
    if seen != [] {
      assert seen[1..] == [];
      assert After(s.ring, seen) == Step(s.ring, seen[0]);
    }
    hide Inv;
  }

  // ---------------------------------------------------------------- runs

  ghost predicate IsMulti<T(!new)>(s: Multi<T>, acts: seq<Act<T>>)
    requires MInv(s)
    decreases |acts|
  {
    acts != [] ==>
      Can(s, acts[0]) && (NextInv(s, acts[0]); IsMulti(Next(s, acts[0]), acts[1..]))
  }

  ghost function SeenAll<T(!new)>(s: Multi<T>, acts: seq<Act<T>>): seq<Action<Tagged<T>>>
    requires MInv(s) && IsMulti(s, acts)
    decreases |acts|
  {
    if acts == [] then [] else
      NextInv(s, acts[0]);
      Seen(s, acts[0]) + SeenAll(Next(s, acts[0]), acts[1..])
  }

  ghost function Final<T(!new)>(s: Multi<T>, acts: seq<Act<T>>): Multi<T>
    requires MInv(s) && IsMulti(s, acts)
    decreases |acts|
  {
    if acts == [] then s else
      NextInv(s, acts[0]);
      Final(Next(s, acts[0]), acts[1..])
  }

  /** Every interleaving of any number of writers with the reader is a run of the ring with one writer. */
  lemma {:induction false} MultiIsRun<T(!new)>(s: Multi<T>, acts: seq<Act<T>>)
    requires MInv(s) && IsMulti(s, acts)
    ensures IsRun(s.ring, SeenAll(s, acts)) && MInv(Final(s, acts))
    ensures After(s.ring, SeenAll(s, acts)) == Final(s, acts).ring
    decreases |acts|
  {
    if acts != [] {
      SeenIsRun(s, acts[0]);
      NextInv(s, acts[0]);
      var s' := Next(s, acts[0]);
      MultiIsRun(s', acts[1..]);
      hide Inv, Step, MInv;
      Chained(s.ring, Seen(s, acts[0]), SeenAll(s', acts[1..]));
    }
  }

  lemma {:induction false} Chained<T(!new)>(s: Ring<T>, a: seq<Action<T>>, b: seq<Action<T>>)
    requires Inv(s) && IsRun(s, a) && IsRun(After(s, a), b)
    ensures IsRun(s, a + b) && After(s, a + b) == After(After(s, a), b)
    ensures Pushed(s, a + b) == Pushed(s, a) + Pushed(After(s, a), b)
    decreases |a|
  {
    hide Inv, Step, Enabled;
    if a == [] {
      assert a + b == b;
      assert [] + Pushed(s, b) == Pushed(s, b);
    } else {
      Chained(Step(s, a[0]), a[1..], b);
      ChainedFront(s, a, b);
      hide Pushed, After, IsRun;
      var one := if a[0].Writer? && s.wpc.WAdd? then [s.wpc.msg] else [];
      var p, q := Pushed(Step(s, a[0]), a[1..]), Pushed(After(Step(s, a[0]), a[1..]), b);
      assert one + (p + q) == one + p + q;
    }
  }

  lemma ChainedFront<T(!new)>(s: Ring<T>, a: seq<Action<T>>, b: seq<Action<T>>)
    requires Inv(s) && a != [] && Enabled(s, a[0]) && IsRun(Step(s, a[0]), a[1..]) && IsRun(Step(s, a[0]), a[1..] + b)
    ensures IsRun(s, a) && IsRun(s, a + b)
    ensures var one := if a[0].Writer? && s.wpc.WAdd? then [s.wpc.msg] else [];
            && Pushed(s, a) == one + Pushed(Step(s, a[0]), a[1..])
            && Pushed(s, a + b) == one + Pushed(Step(s, a[0]), a[1..] + b)
    ensures After(s, a) == After(Step(s, a[0]), a[1..]) && After(s, a + b) == After(Step(s, a[0]), a[1..] + b)
  {
    hide Inv, Step, Enabled;
    assert (a + b)[0] == a[0] && (a + b)[1..] == a[1..] + b;
  }

  // ---------------------------------------------------------------- the order of one writer

  function Of<T>(q: seq<Tagged<T>>, i: nat): seq<T> {
    if q == [] then [] else (if q[0].writer == i then [q[0].msg] else []) + Of(q[1..], i)
  }

  lemma {:induction false} OfAppend<T>(p: seq<Tagged<T>>, q: seq<Tagged<T>>, i: nat)
    ensures Of(p + q, i) == Of(p, i) + Of(q, i)
  {
    if p == [] {
      assert p + q == q;
    } else {
      OfAppend(p[1..], q, i);
      OfMore(p[0], p[1..], q, i);
      assert p == [p[0]] + p[1..];
    }
  }

  lemma OfMore<T>(x: Tagged<T>, p: seq<Tagged<T>>, q: seq<Tagged<T>>, i: nat)
    requires Of(p + q, i) == Of(p, i) + Of(q, i)
    ensures Of([x] + p + q, i) == Of([x] + p, i) + Of(q, i)
  {
    hide Of;
    OfFront(x, p, i);
    OfFront(x, p + q, i);
    assert [x] + p + q == [x] + (p + q);
    var one := if x.writer == i then [x.msg] else [];
    assert one + (Of(p, i) + Of(q, i)) == one + Of(p, i) + Of(q, i);
  }

  lemma OfFront<T>(x: Tagged<T>, q: seq<Tagged<T>>, i: nat)
    ensures Of([x] + q, i) == (if x.writer == i then [x.msg] else []) + Of(q, i)
  {
    assert ([x] + q)[1..] == q;
  }

  /** Messages that writer `i` called push for. */
  function Called<T>(acts: seq<Act<T>>, i: nat): seq<T> {
    if acts == [] then [] else (if acts[0].Call? && acts[0].i == i then [acts[0].msg] else []) + Called(acts[1..], i)
  }

  /** The message of writer `i` that is not yet visible, if any. */
  function Waiting<T>(s: Multi<T>, i: nat): seq<T>
    requires i < |s.writers|
  {
    if s.writers[i].Spinning? then [s.writers[i].msg]
    else if s.writers[i].Inside? && Carried(s.ring).Some? then [Carried(s.ring).value.msg]
    else []
  }

  /** One step: what becomes visible of writer `i`, and what it still waits for. */
  lemma OneWriter<T(!new)>(s: Multi<T>, a: Act<T>, i: nat)
    requires MInv(s) && Can(s, a) && i < |s.writers|
    ensures IsRun(s.ring, Seen(s, a)) && |Next(s, a).writers| == |s.writers|
    ensures Waiting(s, i) + (if a.Call? && a.i == i then [a.msg] else [])
            == Of(Pushed(s.ring, Seen(s, a)), i) + Waiting(Next(s, a), i)
  {
    SeenIsRun(s, a);
    NextInv(s, a);
    CarriedNext(s, a);
    var seen := Seen(s, a);
    if seen != [] {
      assert seen[1..] == [];
      assert After(s.ring, seen) == Step(s.ring, seen[0]);
      var one := if seen[0].Writer? && s.ring.wpc.WAdd? then [s.ring.wpc.msg] else [];
      assert Pushed(s.ring, seen) == one + [] == one;
      assert one != [] ==> one[1..] == [];
    }
    hide Inv;
  }

  /** Over any run, the visible messages of a writer are those it called push for, in its order, up to one still under way. */
  lemma {:induction false} WriterOrder<T(!new)>(s: Multi<T>, acts: seq<Act<T>>, i: nat)
    requires MInv(s) && IsMulti(s, acts) && i < |s.writers|
    ensures IsRun(s.ring, SeenAll(s, acts)) && |Final(s, acts).writers| == |s.writers|
    ensures Waiting(s, i) + Called(acts, i) == Of(Pushed(s.ring, SeenAll(s, acts)), i) + Waiting(Final(s, acts), i)
    decreases |acts|
  {
    MultiIsRun(s, acts);
    if acts != [] {
      NextInv(s, acts[0]);
      OneWriter(s, acts[0], i);
      var s' := Next(s, acts[0]);
      WriterOrder(s', acts[1..], i);
      MultiIsRun(s', acts[1..]);
      hide Inv, Step, MInv, Enabled, Of, Waiting, Can, Seen, IsRun, Pushed, After;
      Chained(s.ring, Seen(s, acts[0]), SeenAll(s', acts[1..]));
      var p, q := Pushed(s.ring, Seen(s, acts[0])), Pushed(s'.ring, SeenAll(s', acts[1..]));
      OfAppend(p, q, i);
      var now := if acts[0].Call? && acts[0].i == i then [acts[0].msg] else [];
      Shift(Waiting(s, i), now, Called(acts[1..], i), Of(p, i), Waiting(s', i), Of(q, i), Waiting(Final(s, acts), i));
    } else {
      assert Waiting(s, i) + [] == [] + Waiting(s, i);
    }
  }

  lemma Shift<T>(w: seq<T>, now: seq<T>, later: seq<T>, p: seq<T>, w': seq<T>, q: seq<T>, w'': seq<T>)
    requires w + now == p + w' && w' + later == q + w''
    ensures w + (now + later) == p + q + w''
  {
    assert w + (now + later) == w + now + later;
    assert p + w' + later == p + (w' + later);
    assert p + (q + w'') == p + q + w'';
  }
}
