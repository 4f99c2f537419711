/**
 * The filter of Observation Domain IDs (odid_range.c): an expression of comma-separated values and
 * intervals, kept as a sorted list of nodes that a scan with early exit searches.
 */
module OdidRange {
  import opened Bytes

  // ---------------------------------------------------------------- numbers as text

  predicate IsSpace(c: char) {
    c == ' ' || '\t' <= c <= '\r'
  }

  predicate IsDigit(c: char) {
    '0' <= c <= '9'
  }

  predicate Blank(s: string) {
    forall i | 0 <= i < |s| :: IsSpace(s[i])
  }

  predicate AllDigits(s: string) {
    forall i | 0 <= i < |s| :: IsDigit(s[i])
  }

  /** Length of the longest prefix of spaces. */
  function Spaces(s: string): (n: nat)
    ensures n <= |s| && Blank(s[..n]) && (n < |s| ==> !IsSpace(s[n]))
  {
    if s == "" || !IsSpace(s[0]) then 0 else 1 + Spaces(s[1..])
  }

  function Digits(s: string): (n: nat)
    ensures n <= |s| && AllDigits(s[..n]) && (n < |s| ==> !IsDigit(s[n]))
  {
    if s == "" || !IsDigit(s[0]) then 0 else 1 + Digits(s[1..])
  }

  function DigitVal(c: char): nat {
    if IsDigit(c) then (c as int) - ('0' as int) else 0
  }

  function Value(ds: string): nat {
    if ds == "" then 0 else 10 * Value(ds[..|ds| - 1]) + DigitVal(ds[|ds| - 1])
  }

  /** strtoul as range_str2uint32 uses it: spaces, an optional sign, digits; the rest must be spaces. A minus negates modulo 2^64. */
  function StrToU32(s: string): Option<u32> {
    FromSign(s[Spaces(s)..])
  }

  function FromSign(t: string): Option<u32> {
    if t != "" && (t[0] == '+' || t[0] == '-') then FromDigits(t[1..], t[0] == '-') else FromDigits(t, false)
  }

  function FromDigits(u: string, negated: bool): Option<u32> {
    var n := Digits(u);
    if n == 0 || !Blank(u[n..]) then None else Number(Value(u[..n]), negated)
  }

  /** An overflow of the unsigned long is an error, and so is what does not fit 32 bits. */
  function Number(v: nat, negated: bool): Option<u32> {
    if v >= U64_SIZE then None
    else
      var r := if negated then (U64_SIZE - v) % U64_SIZE else v;
      if r >= U32_SIZE then None else Some(r)
  }

  lemma {:induction false} SpacesOf(a: string, b: string)
    requires Blank(a) && (b == "" || !IsSpace(b[0]))
    ensures Spaces(a + b) == |a|
  {
    if a == "" {
      assert a + b == b;
    } else {
      assert (a + b)[1..] == a[1..] + b;
      SpacesOf(a[1..], b);
    }
  }

  lemma {:induction false} DigitsOf(a: string, b: string)
    requires AllDigits(a) && (b == "" || !IsDigit(b[0]))
    ensures Digits(a + b) == |a|
  {
    if a == "" {
      assert a + b == b;
    } else {
      assert (a + b)[1..] == a[1..] + b;
      DigitsOf(a[1..], b);
    }
  }

  lemma NumberExact(v: nat, negated: bool)
    ensures Number(v, negated) == if !negated then (if v < U32_SIZE then Some(v) else None)
                                  else if v == 0 then Some(0)
                                  else if U64_SIZE - U32_SIZE < v < U64_SIZE then Some(U64_SIZE - v) else None
  {
  }

  /**
   * Exactly which numbers are accepted: without a sign or with a plus those below 2^32, with a minus
   * zero and those whose negation modulo 2^64 is below 2^32.
   */
  lemma NumberForms(ws: string, sign: string, ds: string, ws': string)
    requires Blank(ws) && Blank(ws') && ds != "" && AllDigits(ds) && (sign == "" || sign == "+" || sign == "-")
    ensures var r, v := StrToU32(ws + (sign + (ds + ws'))), Value(ds);
            r == if sign != "-" then (if v < U32_SIZE then Some(v) else None)
                 else if v == 0 then Some(0)
                 else if U64_SIZE - U32_SIZE < v < U64_SIZE then Some(U64_SIZE - v) else None
  {
    hide Value, Spaces, FromDigits, Number;
    var u := ds + ws';
    var t := sign + u;
    assert t[0] == if sign == "" then ds[0] else sign[0];
    SpacesOf(ws, t);
    assert (ws + t)[|ws|..] == t;
    assert sign != "" ==> t[1..] == u;
    assert sign == "" ==> t == u;
    assert FromSign(t) == FromDigits(u, sign == "-");
    hide FromSign;
    DigitsForm(ds, ws', sign == "-");
    NumberExact(Value(ds), sign == "-");
  }

  lemma DigitsForm(ds: string, ws': string, negated: bool)
    requires Blank(ws') && ds != "" && AllDigits(ds)
    ensures FromDigits(ds + ws', negated) == Number(Value(ds), negated)
  {
    hide Value, Number, Digits;
    assert ws' != "" ==> IsSpace(ws'[0]);
    DigitsOf(ds, ws');
    var u := ds + ws';
    assert u[..|ds|] == ds && u[|ds|..] == ws';
  }

  /** What is accepted always has that form. */
  lemma NumberShape(s: string) returns (ws: string, sign: string, ds: string, ws': string)
    requires StrToU32(s).Some?
    ensures s == ws + (sign + (ds + ws')) && Blank(ws) && Blank(ws') && ds != "" && AllDigits(ds)
    ensures sign == "" || sign == "+" || sign == "-"
  {
    hide Spaces, Blank, AllDigits, FromSign;
    ws := s[..Spaces(s)];
    var t := s[Spaces(s)..];
    assert s == ws + t;
    sign, ds, ws' := SignShape(t);
  }

  lemma SignShape(t: string) returns (sign: string, ds: string, ws': string)
    requires FromSign(t).Some?
    ensures t == sign + (ds + ws') && Blank(ws') && ds != "" && AllDigits(ds)
    ensures sign == "" || sign == "+" || sign == "-"
  {
    hide FromDigits, Blank, AllDigits;
    sign := if t != "" && (t[0] == '+' || t[0] == '-') then [t[0]] else "";
    var u := t[|sign|..];
    assert t == sign + u;
    ds, ws' := DigitsShape(u, sign == "-");
  }

  lemma DigitsShape(u: string, negated: bool) returns (ds: string, ws': string)
    requires FromDigits(u, negated).Some?
    ensures u == ds + ws' && Blank(ws') && ds != "" && AllDigits(ds)
  {
    hide Digits, Blank, AllDigits, Value, Number;
    ds, ws' := u[..Digits(u)], u[Digits(u)..];
    assert |ds| > 0;
  }

  // ---------------------------------------------------------------- tokens

  /** Position of the first `c`, or the length. */
  function Find(s: string, c: char): (n: nat)
    ensures n <= |s| && (forall i | 0 <= i < n :: s[i] != c) && (n < |s| ==> s[n] == c)
  {
    if s == "" || s[0] == c then 0 else 1 + Find(s[1..], c)
  }

  /** What follows the first comma. */
  function Rest(s: string): (r: string)
    requires s != ""
    ensures |r| < |s|
  {
    var k := Find(s, ',');
    if k < |s| then s[k + 1..] else ""
  }

  /** The non-empty pieces between commas. */
  function Tokens(s: string): seq<string>
    decreases |s|
  {
    if s == "" then []
    else
      var k := Find(s, ',');
      (if k > 0 then [s[..k]] else []) + Tokens(Rest(s))
  }

  /** A piece of the expression that reaches from a comma or the start to a comma or the end. */
  predicate Delimited(s: string, a: nat, b: nat) {
    && a < b <= |s| && (forall i | a <= i < b :: s[i] != ',')
    && (a == 0 || s[a - 1] == ',') && (b == |s| || s[b] == ',')
  }

  /** The first piece, and the others. */
  lemma TokensFront(s: string)
    requires s != ""
    ensures var k := Find(s, ',');
            && Tokens(s) == (if k > 0 then [s[0..k]] else []) + Tokens(Rest(s))
            && (k > 0 ==> Delimited(s, 0, k)) && (k == |s| ==> Tokens(Rest(s)) == [])
            && (forall b: nat | Delimited(s, 0, b) :: b == k) && (forall a: nat, b: nat | a > 0 && Delimited(s, a, b) :: k < a)
  {
    TokensUnfold(s);
    hide Find, Tokens, Rest;
    FrontPiece(s, Find(s, ','));
  }

  lemma TokensUnfold(s: string)
    requires s != ""
    ensures var k := Find(s, ',');
            && Tokens(s) == (if k > 0 then [s[0..k]] else []) + Tokens(Rest(s))
            && (k == |s| ==> Tokens(Rest(s)) == [])
  {
    hide Find;
    var k := Find(s, ',');
    assert s[0..k] == s[..k];
  }

  lemma FrontPiece(s: string, k: nat)
    requires k <= |s| && (forall i | 0 <= i < k :: s[i] != ',') && (k < |s| ==> s[k] == ',')
    ensures k > 0 ==> Delimited(s, 0, k)
    ensures (forall b: nat | Delimited(s, 0, b) :: b == k) && (forall a: nat, b: nat | a > 0 && Delimited(s, a, b) :: k < a)
  {
  }

  lemma NoTokens()
    ensures Tokens("") == []
  {
  }

  lemma DelimitedBounds(s: string, a: nat, b: nat)
    requires Delimited(s, a, b)
    ensures a < b <= |s|
  {
  }

  /** Every token is such a piece. */
  lemma {:induction false} TokenIsDelimited(s: string, n: nat) returns (a: nat, b: nat)
    requires n < |Tokens(s)|
    ensures Delimited(s, a, b) && Tokens(s)[n] == s[a..b]
    decreases |s|
  {
    hide Find, Rest, Tokens, Delimited;
    NoTokens();
    TokensFront(s);
    var k := Find(s, ',');
    if k > 0 && n == 0 {
      a, b := 0, k;
    } else {
      a, b := TokenIsDelimited(Rest(s), if k > 0 then n - 1 else n);
      TokenStep(s, n, a, b);
      a, b := k + 1 + a, k + 1 + b;
    }
  }

  lemma TokenStep(s: string, n: nat, x: nat, y: nat)
    requires s != "" && n < |Tokens(s)| && Delimited(Rest(s), x, y) && Tokens(Rest(s)) != []
    requires var k := Find(s, ',');
             var p := if k > 0 then n - 1 else n;
             0 <= p < |Tokens(Rest(s))| && Tokens(Rest(s))[p] == Rest(s)[x..y]
    ensures var k := Find(s, ','); Delimited(s, k + 1 + x, k + 1 + y) && Tokens(s)[n] == s[k + 1 + x..k + 1 + y]
  {
    hide Find, Delimited, Tokens;
    TokensFront(s);
    RestDelimited(s, x, y);
  }

  /** Positions behind the first comma, seen from the rest and from the whole. */
  lemma RestDelimited(s: string, x: nat, y: nat)
    requires s != "" && Find(s, ',') < |s|
    ensures var k := Find(s, ',');
            && |Rest(s)| == |s| - k - 1
            && (Delimited(Rest(s), x, y) ==> x <= y <= |Rest(s)| && Rest(s)[x..y] == s[k + 1 + x..k + 1 + y])
            && (Delimited(Rest(s), x, y) <==> Delimited(s, k + 1 + x, k + 1 + y))
  {
    hide Find;
    var k := Find(s, ',');
    assert forall i | 0 <= i < |Rest(s)| :: Rest(s)[i] == s[k + 1 + i];
    if Delimited(Rest(s), x, y) {
      forall i | k + 1 + x <= i < k + 1 + y ensures s[i] != ',' {
        assert s[i] == Rest(s)[i - k - 1];
      }
    }
    if Delimited(s, k + 1 + x, k + 1 + y) {
      forall i | x <= i < y ensures Rest(s)[i] != ',' {
        assert Rest(s)[i] == s[k + 1 + i];
      }
    }
  }

  /** Every such piece is a token. */
  lemma {:induction false} DelimitedIsToken(s: string, a: nat, b: nat) returns (n: nat)
    requires Delimited(s, a, b)
    ensures n < |Tokens(s)| && Tokens(s)[n] == s[a..b]
    decreases |s|
  {
    hide Find, Rest, Tokens, Delimited;
    DelimitedBounds(s, a, b);
    TokensFront(s);
    var k := Find(s, ',');
    if a == 0 {
      n := 0;
    } else {
      RestDelimited(s, a - k - 1, b - k - 1);
      n := DelimitedIsToken(Rest(s), a - k - 1, b - k - 1);
      n := if k > 0 then n + 1 else n;
    }
  }

  /** The interval that a token denotes: a value, or two values around the first dash, one of which may be blank. */
  function Bounds(t: string): Option<(u32, u32)> {
    var d := Find(t, '-');
    if d == |t| then
      match StrToU32(t)
      case None => None
      case Some(v) => Some((v, v))
    else
      var l, r := t[..d], t[d + 1..];
      var lo := if Blank(l) then Some(0) else StrToU32(l);
      var hi := if Blank(r) then Some(U32_SIZE - 1) else StrToU32(r);
      if (Blank(l) && Blank(r)) || lo == None || hi == None || lo.value > hi.value then None
      else Some((lo.value, hi.value))
  }

  predicate Denotes(t: string, odid: u32) {
    Bounds(t).Some? && Bounds(t).value.0 <= odid <= Bounds(t).value.1
  }

  /** A consequence of strtoul: two dashes may form an interval, such as 0--18446744073709551615, which is 0-1. */
  lemma NegatedBound(v: u32, ds: string)
    requires AllDigits(ds) && Value(ds) == U64_SIZE - v && 0 < v
    ensures Bounds("0--" + ds) == Some((0, v))
  {
    hide Value, Digits, Spaces, FromSign, Number;
    var t := "0" + "-" + ("-" + ds);
    assert t == "0--" + ds;
    FindFirst("0", "-" + ds);
    assert t[..1] == "0" && t[2..] == "-" + ds;
    ZeroText();
    assert "" + ("-" + (ds + "")) == "-" + ds;
    NumberForms("", "-", ds, "") by { assert ds != "" by { EmptyValue(); } }
    assert ("-" + ds)[0] == '-' && "0"[0] == '0';
  }

  const HUGE := "18446744073709551615"

  /** An expression that reads like a huge interval admits 0 and 1 only. */
  lemma HugeUpperBound()
    ensures Bounds("0--" + HUGE) == Some((0, 1))
  {
    HugeValue();
    hide Value, Bounds;
    NegatedBound(1, HUGE);
  }

  lemma HugeValue()
    ensures AllDigits(HUGE) && Value(HUGE) == U64_SIZE - 1
  {
    hide Value, AllDigits;
    HugeDigits();
    HugePart();
    HugeRest();
    assert HUGE[..20] == HUGE;
  }

  lemma HugeDigits()
    ensures AllDigits(HUGE) && Value(HUGE[..1]) == 1
  {
    assert HUGE[..1][..0] == "";
    EmptyValue();
  }

  lemma HugeRest()
    requires Value(HUGE[..10]) == 1844674407
    ensures Value(HUGE[..20]) == U64_SIZE - 1
  {
    hide Value;
    ValueStep(HUGE, 10); ValueStep(HUGE, 11); ValueStep(HUGE, 12); ValueStep(HUGE, 13); ValueStep(HUGE, 14);
    ValueStep(HUGE, 15); ValueStep(HUGE, 16); ValueStep(HUGE, 17); ValueStep(HUGE, 18); ValueStep(HUGE, 19);
  }

  lemma HugePart()
    requires Value(HUGE[..1]) == 1
    ensures Value(HUGE[..10]) == 1844674407
  {
    hide Value;
    ValueStep(HUGE, 1); ValueStep(HUGE, 2); ValueStep(HUGE, 3); ValueStep(HUGE, 4); ValueStep(HUGE, 5);
    ValueStep(HUGE, 6); ValueStep(HUGE, 7); ValueStep(HUGE, 8); ValueStep(HUGE, 9);
  }

  lemma ValueStep(ds: string, k: nat)
    requires k < |ds|
    ensures Value(ds[..k + 1]) == 10 * Value(ds[..k]) + DigitVal(ds[k])
  {
    assert ds[..k + 1][..k] == ds[..k];
  }

  lemma EmptyValue()
    ensures Value("") == 0
  {
  }

  lemma ZeroText()
    ensures StrToU32("0") == Some(0)
  {
    assert Value("0") == 0 by { assert "0"[..0] == ""; EmptyValue(); }
    hide Value;
    assert "" + ("" + ("0" + "")) == "0";
    NumberForms("", "", "0", "");
  }

  lemma {:induction false} FindFirst(a: string, b: string)
    requires forall i | 0 <= i < |a| :: a[i] != '-'
    ensures Find(a + "-" + b, '-') == |a|
  {
    var s := a + "-" + b;
    assert s[|a|] == '-';
    assert forall i | 0 <= i < |a| :: s[i] == a[i];
  }

  // ---------------------------------------------------------------- nodes

  datatype Node = IntervalNode(from: u32, upto: u32) | ValueNode(val: u32) {
    function Min(): u32 {
      if ValueNode? then val else from
    }

    function Max(): u32 {
      if ValueNode? then val else upto
    }

    predicate Has(odid: u32) {
      Min() <= odid <= Max()
    }

    /** As the parser builds them. */
    predicate Proper() {
      IntervalNode? ==> from < upto
    }
  }

  function NodeOf(b: (u32, u32)): Node {
    if b.0 == b.1 then ValueNode(b.0) else IntervalNode(b.0, b.1)
  }

  /** The comparison of range_node_cmp: less or equal. */
  predicate Leq(a: Node, b: Node) {
    a.Min() < b.Min() || (a.Min() == b.Min() && a.Max() <= b.Max())
  }

  predicate SortedNodes(ns: seq<Node>) {
    forall i, j | 0 <= i < j < |ns| :: Leq(ns[i], ns[j])
  }

  function Insert(n: Node, ns: seq<Node>): seq<Node> {
    if ns == [] then [n] else if Leq(n, ns[0]) then [n] + ns else [ns[0]] + Insert(n, ns[1..])
  }

  /** Stands for qsort: by SortUnique its result is the only one there is. */
  function Sort(ns: seq<Node>): seq<Node> {
    if ns == [] then [] else Insert(ns[0], Sort(ns[1..]))
  }

  lemma {:induction false} InsertAdds(n: Node, ns: seq<Node>)
    ensures multiset(Insert(n, ns)) == multiset(ns) + multiset{n}
  {
    if ns != [] {
      assert ns == [ns[0]] + ns[1..];
      InsertAdds(n, ns[1..]);
    }
  }

  lemma {:induction false} InsertSorts(n: Node, ns: seq<Node>)
    requires SortedNodes(ns)
    ensures SortedNodes(Insert(n, ns))
  {
    if ns != [] && !Leq(n, ns[0]) {
      InsertSorts(n, ns[1..]);
      InsertAdds(n, ns[1..]);
      SortedFront(n, ns);
    }
  }

  lemma SortedFront(n: Node, ns: seq<Node>)
    requires SortedNodes(ns) && ns != [] && Leq(ns[0], n)
    requires var rest := Insert(n, ns[1..]); SortedNodes(rest) && multiset(rest) == multiset(ns[1..]) + multiset{n}
    ensures SortedNodes([ns[0]] + Insert(n, ns[1..]))
  {
    hide Insert, Leq;
    var rest := Insert(n, ns[1..]);
    forall i | 0 <= i < |rest| ensures Leq(ns[0], rest[i]) {
      assert rest[i] in multiset(rest);
      if rest[i] != n {
        assert rest[i] in ns[1..];
        var k :| 0 <= k < |ns[1..]| && ns[1..][k] == rest[i];
        assert ns[k + 1] == rest[i];
      }
    }
  }

  lemma {:induction false} SortSorts(ns: seq<Node>)
    ensures SortedNodes(Sort(ns)) && multiset(Sort(ns)) == multiset(ns)
  {
    if ns != [] {
      SortSorts(ns[1..]);
      InsertSorts(ns[0], Sort(ns[1..]));
      InsertAdds(ns[0], Sort(ns[1..]));
      assert ns == [ns[0]] + ns[1..];
    }
  }

  /** Nodes that compare as equal are equal, so a sorted arrangement is unique. */
  lemma {:induction false} SortUnique(a: seq<Node>, b: seq<Node>)
    requires SortedNodes(a) && SortedNodes(b) && multiset(a) == multiset(b)
    requires forall n | n in multiset(a) :: n.Proper()
    ensures a == b
  {
    hide SortedNodes, Leq, Node.Proper;
    assert |a| == |multiset(a)| == |multiset(b)| == |b|;
    if a != [] {
      FirstIsLeast(a, b);
      FirstIsLeast(b, a);
      assert a[0] in multiset(a) && b[0] in multiset(b);
      SameNode(a[0], b[0]);
      assert a == [a[0]] + a[1..] && b == [b[0]] + b[1..];
      assert multiset(a[1..]) == multiset(a) - multiset{a[0]};
      assert multiset(b[1..]) == multiset(b) - multiset{b[0]};
      TailSorted(a);
      TailSorted(b);
      SortUnique(a[1..], b[1..]);
    }
  }

  lemma SameNode(a: Node, b: Node)
    requires Leq(a, b) && Leq(b, a) && a.Proper() && b.Proper()
    ensures a == b
  {
  }

  lemma TailSorted(a: seq<Node>)
    requires SortedNodes(a) && a != []
    ensures SortedNodes(a[1..])
  {
  }

  lemma FirstIsLeast(a: seq<Node>, b: seq<Node>)
    requires SortedNodes(a) && a != [] && b != [] && multiset(a) == multiset(b)
    ensures Leq(a[0], b[0])
  {
    assert b[0] in multiset(a);
    var k :| 0 <= k < |a| && a[k] == b[0];
    assert k > 0 ==> Leq(a[0], a[k]);
  }

  /** Some node contains the value. */
  predicate Contains(ns: seq<Node>, odid: u32) {
    exists k :: 0 <= k < |ns| && ns[k].Has(odid)
  }

  /** Some token denotes the value. */
  predicate Denoted(ts: seq<string>, odid: u32) {
    exists k :: 0 <= k < |ts| && Denotes(ts[k], odid)
  }

  // ---------------------------------------------------------------- the filter

  class Range {
    var nodes: seq<Node>
    /** The expression that the nodes stand for. */
    ghost var expr: string

    ghost predicate Valid()
      reads this
    {
      && SortedNodes(nodes)
      && forall odid: u32 :: Contains(nodes, odid) <==> Denoted(Tokens(expr), odid)
    }

    constructor ()
      ensures Valid() && nodes == [] && expr == ""
    {
      nodes, expr := [], "";
    }

    /** One token becomes one node. */
    method Add(token: string) returns (ok: bool)
      modifies this`nodes
      ensures ok <==> Bounds(token).Some?
      ensures nodes == if ok then old(nodes) + [NodeOf(Bounds(token).value)] else old(nodes)
    {
      hide Find, Blank, StrToU32;
      var dash := Find(token, '-');
      if dash == |token| {
        var v := StrToU32(token);
        if v == None {
          return false;
        }
        nodes := nodes + [ValueNode(v.value)];
        return true;
      }
      var fromStr, toStr := token[..dash], token[dash + 1..];
      var fromEmpty, toEmpty := Blank(fromStr), Blank(toStr);
      if fromEmpty && toEmpty {
        return false;
      }
      var from, upto := Some(0), Some(U32_SIZE - 1);
      if !fromEmpty {
        from := StrToU32(fromStr);
        if from == None {
          return false;
        }
      }
      if !toEmpty {
        upto := StrToU32(toStr);
        if upto == None {
          return false;
        }
      }
      if from.value > upto.value {
        return false;
      }
      var node := if from.value == upto.value then ValueNode(from.value) else IntervalNode(from.value, upto.value);
      nodes := nodes + [node];
      return true;
    }

    /** Accepted are expressions with nothing but correct tokens; otherwise the filter is left empty. */
    method Parse(text: Option<string>) returns (ok: bool)
      modifies this
      ensures Valid()
      ensures ok <==> text.Some? && text.value != "" && forall t | t in Tokens(text.value) :: Bounds(t).Some?
      ensures ok ==> expr == text.value
      ensures !ok ==> nodes == [] && expr == ""
    {
      hide Bounds, Denoted, Contains, Sort, SortedNodes;
      nodes, expr := [], "";
      NothingDenoted();
      if text == None || text.value == "" {
        return false;
      }
      ok := AddAll(text.value);
      if !ok {
        nodes := [];
        return;
      }
      ghost var tokens := Tokens(text.value);
      forall odid: u32 ensures Contains(Sort(nodes), odid) <==> Denoted(tokens, odid) {
        SortKeepsMeaning(nodes, tokens, odid);
      }
      SortSorts(nodes);
      nodes := Sort(nodes);
      expr := text.value;
    }

    /** The loop over the tokens, up to the first that is not correct. */
    method AddAll(text: string) returns (ok: bool)
      requires nodes == []
      modifies this`nodes
      ensures ok <==> forall t | t in Tokens(text) :: Bounds(t).Some?
      ensures ok ==> |nodes| == |Tokens(text)|
      ensures ok ==> forall k | 0 <= k < |nodes| :: Bounds(Tokens(text)[k]).Some? && nodes[k] == NodeOf(Bounds(Tokens(text)[k]).value)
    {
      hide Bounds, NodeOf, Find, Rest, Tokens, Delimited;
      NoTokens();
      var rest := text;
      ghost var all := Tokens(text);
      while rest != ""
        invariant |nodes| <= |all| && all[|nodes|..] == Tokens(rest)
        invariant forall k | 0 <= k < |nodes| :: Bounds(all[k]).Some? && nodes[k] == NodeOf(Bounds(all[k]).value)
        decreases |rest|
      {
        var k := Find(rest, ',');
        TokensFront(rest);
        if k > 0 {
          assert rest[0..k] == rest[..k];
          assert all[|nodes|] == Tokens(rest)[0] == rest[..k] && Tokens(rest)[1..] == Tokens(Rest(rest));
          assert all[|nodes|..][1..] == all[|nodes| + 1..];
          var added := Add(rest[..k]);
          if !added {
            return false;
          }
        } else {
          assert Tokens(rest) == Tokens(Rest(rest));
        }
        rest := Rest(rest);
      }
      return true;
    }

    /** The scan stops at the first node that begins behind the value. */
    method In(odid: u32) returns (found: bool)
      requires Valid()
      ensures found <==> Denoted(Tokens(expr), odid)
    {
      found := false;
      for idx := 0 to |nodes|
        invariant forall k | 0 <= k < idx :: !nodes[k].Has(odid)
      {
        var node := nodes[idx];
        match node {
          case ValueNode(val) =>
            if odid == val {
              assert nodes[idx].Has(odid);
              return true;
            }
            if odid < val {
              assert forall k | idx <= k < |nodes| :: !nodes[k].Has(odid);
              break;
            }
          case IntervalNode(from, upto) =>
            if odid >= from && odid <= upto {
              assert nodes[idx].Has(odid);
              return true;
            }
            if odid < from {
              assert forall k | idx <= k < |nodes| :: !nodes[k].Has(odid);
              break;
            }
        }
      }
      assert !Contains(nodes, odid);
    }
  }

  lemma NothingDenoted()
    ensures SortedNodes([]) && forall odid: u32 :: !Contains([], odid) && !Denoted(Tokens(""), odid)
  {
  }

  /** Whatever the order, overlap or repetition of tokens: the sorted nodes are their union. */
  lemma SortKeepsMeaning(ns: seq<Node>, tokens: seq<string>, odid: u32)
    requires |ns| == |tokens|
    requires forall k | 0 <= k < |tokens| :: Bounds(tokens[k]).Some? && ns[k] == NodeOf(Bounds(tokens[k]).value)
    ensures Contains(Sort(ns), odid) <==> Denoted(tokens, odid)
  {
    SortSorts(ns);
    hide Bounds, Sort;
    if Contains(Sort(ns), odid) {
      var j :| 0 <= j < |Sort(ns)| && Sort(ns)[j].Has(odid);
      assert Sort(ns)[j] in multiset(ns);
      var k :| 0 <= k < |ns| && ns[k] == Sort(ns)[j];
      assert Denotes(tokens[k], odid);
    }
    if Denoted(tokens, odid) {
      var k :| 0 <= k < |tokens| && Denotes(tokens[k], odid);
      assert ns[k] in multiset(ns);
      assert ns[k] in multiset(Sort(ns));
      var j :| 0 <= j < |Sort(ns)| && Sort(ns)[j] == ns[k];
      assert Sort(ns)[j].Has(odid);
    }
  }

  // ---------------------------------------------------------------- what an expression means, as it is written

  predicate IsGap(s: string) {
    forall i | 0 <= i < |s| :: s[i] as int in {9, 10, 11, 12, 13, 32}
  }

  /** A decimal number with spaces around it. */
  datatype Numeral = Numeral(before: string, digits: string, after: string) {
    predicate Proper() {
      && digits != "" && (forall i | 0 <= i < |digits| :: 48 <= digits[i] as int <= 57)
      && IsGap(before) && IsGap(after)
    }

    function Text(): string {
      before + (digits + after)
    }
  }

  /** The forms of an item: a value, an interval that is open on one side, and one with two bounds. */
  datatype Item = Just(a: Numeral) | AtLeast(a: Numeral, gap: string) | AtMost(gap: string, b: Numeral) | Between(a: Numeral, b: Numeral) {
    predicate Proper() {
      match this
      case Just(a) => a.Proper()
      case AtLeast(a, gap) => a.Proper() && IsGap(gap)
      case AtMost(gap, b) => b.Proper() && IsGap(gap)
      case Between(a, b) => a.Proper() && b.Proper()
    }

    function Text(): string {
      match this
      case Just(a) => a.Text()
      case AtLeast(a, gap) => a.Text() + "-" + gap
      case AtMost(gap, b) => gap + "-" + b.Text()
      case Between(a, b) => a.Text() + "-" + b.Text()
    }
  }

  lemma NumeralRead(n: Numeral)
    requires n.Proper()
    ensures StrToU32(n.Text()) == if Value(n.digits) < 0x1_0000_0000 then Some(Value(n.digits)) else None
    ensures n.Text() != "" && !Blank(n.Text()) && forall i | 0 <= i < |n.Text()| :: n.Text()[i] != '-' && n.Text()[i] != ','
  {
    NumeralChars(n);
    assert "" + (n.digits + n.after) == n.digits + n.after;
    hide Value, StrToU32, Blank, AllDigits;
    NumberForms(n.before, "", n.digits, n.after);
  }

  lemma NumeralChars(n: Numeral)
    requires n.Proper()
    ensures Blank(n.before) && Blank(n.after) && AllDigits(n.digits)
    ensures var s := n.Text(); s != "" && !Blank(s) && forall i | 0 <= i < |s| :: s[i] != '-' && s[i] != ','
  {
    var s := n.Text();
    assert s[|n.before|] == n.digits[0];
    forall i | 0 <= i < |s| ensures s[i] != '-' && s[i] != ',' {
      var a, b := |n.before|, |n.before| + |n.digits|;
      assert s[i] == if i < a then n.before[i] else if i < b then n.digits[i - a] else n.after[i - b];
    }
  }

  /**
   * What each form denotes: that value, all from it on, all up to it, or all between the two. An item
   * is rejected exactly if a number does not fit 32 bits or the bounds are the wrong way round.
   */
  lemma ItemMeans(t: Item, v: u32)
    requires t.Proper()
    ensures t.Just? ==> (Denotes(t.Text(), v) <==> v == Value(t.a.digits))
                        && (Bounds(t.Text()).Some? <==> Value(t.a.digits) < 0x1_0000_0000)
    ensures t.AtLeast? ==> (Denotes(t.Text(), v) <==> Value(t.a.digits) <= v)
                           && (Bounds(t.Text()).Some? <==> Value(t.a.digits) < 0x1_0000_0000)
    ensures t.AtMost? ==> (Denotes(t.Text(), v) <==> v <= Value(t.b.digits) < 0x1_0000_0000)
                          && (Bounds(t.Text()).Some? <==> Value(t.b.digits) < 0x1_0000_0000)
    ensures t.Between? ==> (Denotes(t.Text(), v) <==> Value(t.a.digits) <= v <= Value(t.b.digits) < 0x1_0000_0000)
                           && (Bounds(t.Text()).Some? <==> Value(t.a.digits) <= Value(t.b.digits) < 0x1_0000_0000)
  {
    hide Value, StrToU32, Find, Blank, IsGap, Numeral.Text, Numeral.Proper;
    match t {
      case Just(a) =>
        NumeralRead(a);
        NoDash(a.Text());
      case AtLeast(a, gap) =>
        NumeralRead(a);
        GapIsBlank(gap);
        Dashed(a.Text(), gap);
      case AtMost(gap, b) =>
        NumeralRead(b);
        GapIsBlank(gap);
        Dashed(gap, b.Text());
      case Between(a, b) =>
        NumeralRead(a);
        NumeralRead(b);
        Dashed(a.Text(), b.Text());
    }
  }

  /** Nothing but a dash is no interval. */
  lemma OnlyDash(l: string, r: string)
    requires IsGap(l) && IsGap(r)
    ensures Bounds(l + "-" + r) == None
  {
    GapIsBlank(l);
    GapIsBlank(r);
    hide StrToU32, Find, Blank;
    Dashed(l, r);
  }

  lemma NoDash(s: string)
    requires forall i | 0 <= i < |s| :: s[i] != '-'
    ensures Find(s, '-') == |s|
  {
  }

  lemma GapIsBlank(s: string)
    requires IsGap(s)
    ensures Blank(s) && forall i | 0 <= i < |s| :: s[i] != '-' && s[i] != ','
  {
  }

  lemma Dashed(l: string, r: string)
    requires forall i | 0 <= i < |l| :: l[i] != '-'
    ensures var t := l + "-" + r; Find(t, '-') == |l| < |t| && t[..|l|] == l && t[|l| + 1..] == r
  {
    FindFirst(l, r);
  }

  /** Items separated by commas. */
  function Print(items: seq<Item>): string {
    if items == [] then "" else if |items| == 1 then items[0].Text() else items[0].Text() + "," + Print(items[1..])
  }

  function Texts(items: seq<Item>): seq<string> {
    seq(|items|, i requires 0 <= i < |items| => items[i].Text())
  }

  lemma ItemText(t: Item)
    requires t.Proper()
    ensures t.Text() != "" && forall i | 0 <= i < |t.Text()| :: t.Text()[i] != ','
  {
    hide Blank, IsGap, Numeral.Text, Numeral.Proper;
    match t {
      case Just(a) => NumeralRead(a);
      case AtLeast(a, gap) => NumeralRead(a); GapIsBlank(gap);
      case AtMost(gap, b) => NumeralRead(b); GapIsBlank(gap);
      case Between(a, b) => NumeralRead(a); NumeralRead(b);
    }
  }

  /** The tokens of a printed expression are the items. */
  lemma {:induction false} PrintedTokens(items: seq<Item>)
    requires forall i | 0 <= i < |items| :: items[i].Proper()
    ensures Tokens(Print(items)) == Texts(items) && (items != [] ==> Print(items) != "")
  {
    hide Tokens, Item.Text, Item.Proper;
    NoTokens();
    if items != [] {
      ItemText(items[0]);
      PrintedTokens(items[1..]);
      var x := items[0].Text();
      assert Texts(items) == [x] + Texts(items[1..]);
      if |items| == 1 {
        assert x + "" == x;
        FirstItem(x, "");
      } else {
        assert x + "," + Print(items[1..]) == x + ("," + Print(items[1..]));
        FirstItem(x, "," + Print(items[1..]));
      }
    }
  }

  lemma FirstItem(x: string, rest: string)
    requires x != "" && (forall i | 0 <= i < |x| :: x[i] != ',') && (rest == "" || rest[0] == ',')
    ensures x + rest != "" && Tokens(x + rest) == [x] + Tokens(if rest == "" then "" else rest[1..])
  {
    var s := x + rest;
    assert forall i | 0 <= i < |x| :: s[i] == x[i];
    assert rest != "" ==> s[|x|] == ',';
    assert Find(s, ',') == |x|;
    TokensFront(s);
    assert s[0..|x|] == x;
    assert rest != "" ==> Rest(s) == rest[1..];
  }

  /** The numbers fit 32 bits, and bounds are in order. */
  predicate Accepted(t: Item) {
    match t
    case Just(a) => Value(a.digits) < 0x1_0000_0000
    case AtLeast(a, _) => Value(a.digits) < 0x1_0000_0000
    case AtMost(_, b) => Value(b.digits) < 0x1_0000_0000
    case Between(a, b) => Value(a.digits) <= Value(b.digits) < 0x1_0000_0000
  }

  predicate Covers(t: Item, v: u32) {
    match t
    case Just(a) => v == Value(a.digits)
    case AtLeast(a, _) => Value(a.digits) <= v
    case AtMost(_, b) => v <= Value(b.digits)
    case Between(a, b) => Value(a.digits) <= v <= Value(b.digits)
  }

  /**
   * From the text to the answer: the filter made of an expression is accepted exactly if every item is,
   * and then admits exactly the values that some item covers.
   */
  method Filtered(items: seq<Item>, odid: u32) returns (ok: bool, found: bool)
    requires items != [] && forall i | 0 <= i < |items| :: items[i].Proper()
    ensures ok <==> forall i | 0 <= i < |items| :: Accepted(items[i])
    ensures ok ==> (found <==> exists i :: 0 <= i < |items| && Covers(items[i], odid))
    ensures !ok ==> !found
  {
    hide Bounds, Tokens, Print, Item.Text, Item.Proper, Value;
    PrintedTokens(items);
    var range := new Range();
    ok := range.Parse(Some(Print(items)));
    found := range.In(odid);
    ghost var ts := Tokens(Print(items));
    forall i | 0 <= i < |items| ensures Bounds(ts[i]).Some? <==> Accepted(items[i]) {
      ItemMeans(items[i], odid);
    }
    if ok {
      forall i | 0 <= i < |items| ensures Denotes(ts[i], odid) <==> Covers(items[i], odid) {
        assert ts[i] in ts;
        ItemMeans(items[i], odid);
      }
    } else {
      NothingDenoted();
    }
  }
}
