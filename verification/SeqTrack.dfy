/**
 * Tracking of the expected sequence number in 32 bits, by the NetFlow v9 converter (netflow9.c) and
 * by the parser (parser.c), against a tracker with unbounded numbers.
 */
module SeqTrack {
  import opened Bytes
  import opened Nf9Spec

  const HALF := 0x8000_0000

  /** The true number of a message lies within the window of the serial number comparison. */
  predicate InWindow(n: nat, next: nat) {
    -HALF <= n - next < HALF
  }

  // ---------------------------------------------------------------- NetFlow v9: messages are counted

  /** Expected number after a message `n`; `None` before the first message. */
  function TrueNext(next: Option<nat>, n: nat): nat {
    if next == None || n >= next.value then n + 1 else next.value
  }

  function Low(next: Option<nat>): u32 {
    if next == None then 0 else next.value % U32_SIZE
  }

  /** The comparison of 32-bit numbers is right exactly when the numbers are less than half the range apart. */
  lemma SerialOrder(a: nat, b: nat)
    ensures InWindow(a, b) ==> (SeqNewer(a % U32_SIZE, b % U32_SIZE) <==> a > b)
    ensures SeqNewer(a % U32_SIZE, b % U32_SIZE) <==> 0 < (a - b) % U32_SIZE < HALF
  {
    Diff32(a, b);
  }

  /** Exactly when one step of the 32-bit tracker is the step of the unbounded one. */
  lemma TrackStepExact(next: nat, n: nat)
    ensures var d := (n - next) % U32_SIZE;
            TrackSeq(next % U32_SIZE, true, n % U32_SIZE) == TrueNext(Some(next), n) % U32_SIZE
            <==> if n >= next then d < HALF || d == U32_SIZE - 1 else d >= HALF
  {
    SerialOrder(n, next);
    Diff32(n, next);
    Diff32(n + 1, next);
    Add32(n, 1);
    LastBefore(n - next);
    hide SeqNewer;
  }

  lemma LastBefore(x: int)
    ensures (x + 1) % U32_SIZE == 0 <==> x % U32_SIZE == U32_SIZE - 1
  {
  }

  function TrackAll(next: u32, valid: bool, ns: seq<nat>): u32
    decreases |ns|
  {
    if ns == [] then next else TrackAll(TrackSeq(next, valid, ns[0] % U32_SIZE), true, ns[1..])
  }

  function TrueAll(next: Option<nat>, ns: seq<nat>): Option<nat>
    decreases |ns|
  {
    if ns == [] then next else TrueAll(Some(TrueNext(next, ns[0])), ns[1..])
  }

  predicate AllInWindow(next: Option<nat>, ns: seq<nat>)
    decreases |ns|
  {
    ns != [] ==>
      && (next.Some? ==> InWindow(ns[0], next.value))
      && AllInWindow(Some(TrueNext(next, ns[0])), ns[1..])
  }

  /** Over any run, with losses, reordering and any number of wrap-arounds. */
  lemma {:induction false} TrackerFaithful(next: Option<nat>, ns: seq<nat>)
    requires AllInWindow(next, ns)
    ensures TrackAll(Low(next), next.Some?, ns) == Low(TrueAll(next, ns))
    decreases |ns|
  {
    if ns != [] {
      hide TrackSeq, Low, TrueNext, InWindow;
      TrackStep(next, ns[0]);
      TrackerFaithful(Some(TrueNext(next, ns[0])), ns[1..]);
    }
  }

  lemma TrackStep(next: Option<nat>, n: nat)
    requires next.Some? ==> InWindow(n, next.value)
    ensures TrackSeq(Low(next), next.Some?, n % U32_SIZE) == Low(Some(TrueNext(next, n)))
  {
    Add32(n, 1);
    if next.Some? {
      SerialOrder(n, next.value);
      Diff32(n, next.value);
      hide SeqNewer;
    }
  }

  /** The unbounded tracker: one more than the largest number seen. */
  lemma {:induction false} TrueIsMaximum(next: Option<nat>, ns: seq<nat>)
    requires ns != []
    ensures var t := TrueAll(next, ns);
            && t.Some? && (next.Some? ==> t.value >= next.value)
            && (forall i | 0 <= i < |ns| :: ns[i] < t.value)
            && (next == Some(t.value) || exists i | 0 <= i < |ns| :: ns[i] + 1 == t.value)
    decreases |ns|
  {
    var one := TrueNext(next, ns[0]);
    if |ns| > 1 {
      TrueIsMaximum(Some(one), ns[1..]);
      var t := TrueAll(next, ns).value;
      assert forall i | 1 <= i < |ns| :: ns[i] == ns[1..][i - 1];
      if one != t {
        var i :| 0 <= i < |ns[1..]| && ns[1..][i] + 1 == t;
        assert ns[i + 1] + 1 == t;
      } else if next != Some(t) {
        assert ns[0] + 1 == t;
      }
    } else if next != Some(one) {
      assert ns[0] + 1 == one;
    }
  }

  // ---------------------------------------------------------------- the parser: Data Records are counted

  /** A message with the number it carries in truth, its Data Records, and whether it could be parsed. */
  datatype Msg = Msg(n: nat, recs: nat, parsed: bool)

  function TrueAfter(next: Option<nat>, m: Msg): nat {
    if next.Some? && m.n < next.value then next.value else m.n + if m.parsed then m.recs else 0
  }

  function TrueRun(next: Option<nat>, ms: seq<Msg>): Option<nat>
    decreases |ms|
  {
    if ms == [] then next else TrueRun(Some(TrueAfter(next, ms[0])), ms[1..])
  }

  predicate RunInWindow(next: Option<nat>, ms: seq<Msg>)
    decreases |ms|
  {
    ms != [] ==>
      && (next.Some? ==> InWindow(ms[0].n, next.value))
      && RunInWindow(Some(TrueAfter(next, ms[0])), ms[1..])
  }

  /** Stream state: expected number and whether a message was seen. */
  function Expect(seqNum: u32, seen: bool, m: Msg): u32 {
    var msgSeq := m.n % U32_SIZE;
    var newer := seqNum == msgSeq || !seen || SeqNewer(msgSeq, seqNum);
    if newer then (if m.parsed then (msgSeq + m.recs) % U32_SIZE else msgSeq) else seqNum
  }

  function ExpectAll(seqNum: u32, seen: bool, ms: seq<Msg>): u32
    decreases |ms|
  {
    if ms == [] then seqNum else ExpectAll(Expect(seqNum, seen, ms[0]), true, ms[1..])
  }

  class StreamInfo {
    var seqNum: u32
    var seen: bool

    constructor ()
      ensures seqNum == 0 && !seen
    {
      seqNum, seen := 0, false;
    }

    /** Compares the number of a message with the expected one; `old` tells that it is out of sequence and older. */
    method Check(msgSeq: u32) returns (oldOos: bool)
      modifies this
      ensures seen && oldOos == (old(seqNum) != msgSeq && old(seen) && !SeqNewer(msgSeq, old(seqNum)))
      ensures seqNum == if oldOos then old(seqNum) else msgSeq
    {
      oldOos := false;
      if seqNum != msgSeq {
        if !seen {
          seen := true;
          seqNum := msgSeq;
        } else if SeqNewer(msgSeq, seqNum) {
          seqNum := msgSeq;
        } else {
          oldOos := true;
        }
      }
      seen := true;
    }

    /** A whole message: the number is checked first, and advanced only if its sets were parsed. */
    method Process(m: Msg)
      modifies this
      ensures seen && seqNum == Expect(old(seqNum), old(seen), m)
    {
      var oldOos := Check(m.n % U32_SIZE);
      if !m.parsed {
        return;
      }
      if !oldOos {
        seqNum := (seqNum + m.recs) % U32_SIZE;
      }
    }
  }

  lemma {:induction false} ParserFaithful(next: Option<nat>, ms: seq<Msg>)
    requires RunInWindow(next, ms)
    ensures ExpectAll(Low(next), next.Some?, ms) == Low(TrueRun(next, ms))
    decreases |ms|
  {
    if ms != [] {
      hide Expect, Low, TrueAfter, InWindow;
      ParserStep(next, ms[0]);
      ParserFaithful(Some(TrueAfter(next, ms[0])), ms[1..]);
    }
  }

  lemma ParserStep(next: Option<nat>, m: Msg)
    requires next.Some? ==> InWindow(m.n, next.value)
    ensures Expect(Low(next), next.Some?, m) == Low(Some(TrueAfter(next, m)))
  {
    Add32(m.n, m.recs);
    if next.Some? {
      SerialOrder(m.n, next.value);
      Diff32(m.n, next.value);
      hide SeqNewer;
    }
  }

  /** The parser accepts what an exporter sends in order: no fully parsed message is ever out of sequence. */
  lemma {:induction false} InOrderExpected(next: nat, ms: seq<Msg>, k: nat)
    requires k < |ms| && forall i | 0 <= i < |ms| :: ms[i].parsed && ms[i].n == next + SumRecs(ms[..i])
    ensures TrueRun(Some(next), ms[..k]) == Some(ms[k].n)
    decreases k
  {
    if k == 0 {
      assert ms[..0] == [];
    } else {
      assert ms[..0] == [] && ms[0].n == next;
      var rest := ms[1..];
      forall i | 0 <= i < |rest| ensures rest[i].parsed && rest[i].n == next + ms[0].recs + SumRecs(rest[..i]) {
        assert ms[..i + 1][0] == ms[0] && ms[..i + 1][1..] == rest[..i];
      }
      InOrderExpected(next + ms[0].recs, rest, k - 1);
      assert ms[..k][1..] == rest[..k - 1];
    }
  }

  function SumRecs(ms: seq<Msg>): nat {
    if ms == [] then 0 else ms[0].recs + SumRecs(ms[1..])
  }
}
