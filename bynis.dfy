/** BYNIS: the payload stream `[bytewidth][count][payload]` is written into a
    synthetic edge list, one edge per byte, whose endpoint IDs sum to the byte
    modulo 256. The first endpoint walks down a non-increasing reference
    degree sequence; the second is moved up by multiples of 256 while the
    edge already exists. */
module Bynis {
  import opened Common
  import opened Utils
  import opened Header

  // -----------------------------------------------------------------------
  // The graph under construction.

  /** Whether `e` is already an edge: as given, or reversed when undirected. */
  predicate Present(edges: set<Row>, directed: bool, e: Row) {
    e in edges || (!directed && (e.1, e.0) in edges)
  }

  /** The graph that `engine.create_graph` returns and the encoder fills. */
  class EdgeGraph {
    var edges: set<Row>
    const directed: bool

    constructor (directed: bool)
      ensures this.directed == directed && edges == {}
    {
      this.directed := directed;
      edges := {};
    }

    predicate HasEdge(a: Node, b: Node)
      reads this
    {
      Present(edges, directed, (a, b))
    }

    method AddEdge(a: Node, b: Node)
      modifies this
      ensures edges == old(edges) + {(a, b)}
    {
      edges := edges + {(a, b)};
    }
  }

  // -----------------------------------------------------------------------
  // The offset added to every byte.

  /** Doubling from a power of two p until it reaches n. */
  function CeilPow2From(n: nat, p: nat): (r: nat)
    requires IsPowerOfTwo(p) && (p == 1 || p / 2 < n)
    ensures IsPowerOfTwo(r) && n <= r && (r == 1 || r / 2 < n)
    decreases n - p
  {
    if n <= p then p
    else
      assert IsPowerOfTwo(2 * p) by {
        assert (2 * p) % 2 == 0 && (2 * p) / 2 == p;
      }
      CeilPow2From(n, 2 * p)
  }

  /** `int(2**ceil(log2(n)))` over the integers: the least power of two that
      is at least n. */
  function CeilPow2(n: nat): (r: nat)
    ensures IsPowerOfTwo(r) && n <= r && (r == 1 || r / 2 < n)
  {
    CeilPow2From(n, 1)
  }

  /** `n_adjusted`: the least power of two that is at least both the node
      estimate and 256; it is a multiple of 256. */
  function NAdjusted(nNodes: nat): (r: nat)
    ensures IsPowerOfTwo(r) && 256 <= r && nNodes <= r
    ensures r == 256 || r / 2 < nNodes
    ensures r % 256 == 0
  {
    var p := CeilPow2(nNodes);
    Pow2Of8();
    Pow2IsPowerOfTwo(8);
    if p >= 256 then
      PowerOfTwoDivides(p, 256);
      p
    else 256
  }

  /** `data_origin.astype(np.uint16) + n_adjusted`, without wrap-around. */
  function Adjusted(data: seq<byte>, offset: nat): (r: seq<int>)
    ensures |r| == |data|
  {
    seq(|data|, i requires 0 <= i < |data| => data[i] + offset)
  }

  /** The adjusted values keep every byte as their residue modulo 256. */
  lemma AdjustedResidues(data: seq<byte>, nNodes: nat)
    ensures forall i :: 0 <= i < |data| ==> Adjusted(data, NAdjusted(nNodes))[i] % 256 == data[i]
  {
    var offset := NAdjusted(nNodes);
    var k := offset / 256;
    assert offset == 256 * k;
    var adjusted := Adjusted(data, offset);
    forall i | 0 <= i < |data|
      ensures adjusted[i] % 256 == data[i]
    {
      var v: int := data[i];
      assert adjusted[i] == v + 256 * k;
      ModOfMultiple(v, 256, k);
      DivModUnique(v, 256, 0, v);
    }
  }

  // -----------------------------------------------------------------------
  // The reference degrees, sorted in non-increasing order.

  predicate NonIncreasing(s: seq<nat>) {
    forall i, j :: 0 <= i < j < |s| ==> s[i] >= s[j]
  }

  function Insert(x: nat, s: seq<nat>): (r: seq<nat>)
    requires NonIncreasing(s)
    ensures |r| == |s| + 1 && NonIncreasing(r) && multiset(r) == multiset(s) + multiset{x}
    ensures forall k :: 0 <= k < |r| ==> r[k] == x || r[k] in s
  {
    if |s| == 0 || s[0] <= x then [x] + s
    else
      assert s == [s[0]] + s[1..];
      [s[0]] + Insert(x, s[1..])
  }

  /** `degree_ref[::-1].sort()`: the degrees in non-increasing order. */
  function SortDescending(s: seq<nat>): (r: seq<nat>)
    ensures |r| == |s| && NonIncreasing(r) && multiset(r) == multiset(s)
  {
    if |s| == 0 then []
    else
      assert s == [s[0]] + s[1..];
      Insert(s[0], SortDescending(s[1..]))
  }

  // -----------------------------------------------------------------------
  // Collision probing.

  const RenameFailed := "Failed to create target node..."

  /** The `while g.has_edge(*edge)` loop entered with counter j: each probe
      adds 256*j to the target, a negative target raises ValueError, and
      RuntimeError follows as soon as the counter passes `max_try_rename`,
      before the new edge is tested. */
  function Probe(edges: set<Row>, directed: bool, a: Node, b: int, j: nat, maxTry: int): (r: Result<Node>)
    ensures r.Ok? ==> !Present(edges, directed, (a, r.value)) && r.value >= b
    ensures r.Err? ==> Present(edges, directed, (a, b))
    ensures r.Err? ==> r.error == ValueError || r.error == RuntimeError(RenameFailed)
    ensures r == Err(ValueError) ==> b < 0
    decreases maxTry - j
  {
    if !Present(edges, directed, (a, b)) then Ok(b)
    else if b + 256 * j < 0 then Err(ValueError)
    else if j + 1 > maxTry then Err(RuntimeError(RenameFailed))
    else Probe(edges, directed, a, b + 256 * j, j + 1, maxTry)
  }

  /** j + (j + 1) + ... + (j + k - 1): the multiples of 256 added by k probes
      that start with counter j. */
  function Shifts(j: nat, k: nat): nat
    decreases k
  {
    if k == 0 then 0 else j + Shifts(j + 1, k - 1)
  }

  /** A found target lies k probes above the start, for some k that keeps
      the counter within `max_try_rename`. */
  lemma {:induction false} ProbeShift(edges: set<Row>, directed: bool, a: Node, b: int, j: nat, maxTry: int)
    requires Probe(edges, directed, a, b, j, maxTry).Ok?
    ensures exists k: nat ::
      (k == 0 || j + k <= maxTry) && Probe(edges, directed, a, b, j, maxTry).value == b + 256 * Shifts(j, k)
    decreases maxTry - j
  {
    if !Present(edges, directed, (a, b)) {
      assert Shifts(j, 0) == 0;
    } else {
      ProbeShift(edges, directed, a, b + 256 * j, j + 1, maxTry);
      var k: nat :| (k == 0 || j + 1 + k <= maxTry) &&
        Probe(edges, directed, a, b + 256 * j, j + 1, maxTry).value == b + 256 * j + 256 * Shifts(j + 1, k);
      assert Shifts(j, k + 1) == j + Shifts(j + 1, k);
    }
  }

  /** From the start of the loop, at most `max_try_rename - 1` probes can
      succeed, each a whole number of 256-steps above the first target. */
  lemma ProbedTarget(edges: set<Row>, directed: bool, a: Node, b: int, maxTry: int)
    requires Probe(edges, directed, a, b, 1, maxTry).Ok?
    ensures exists k: nat ::
      (k == 0 || k < maxTry) && Probe(edges, directed, a, b, 1, maxTry).value == b + 256 * Shifts(1, k)
    ensures (a + Probe(edges, directed, a, b, 1, maxTry).value) % 256 == (a + b) % 256
  {
    ProbeShift(edges, directed, a, b, 1, maxTry);
    var k: nat :| (k == 0 || 1 + k <= maxTry) &&
      Probe(edges, directed, a, b, 1, maxTry).value == b + 256 * Shifts(1, k);
    ModOfMultiple(a + b, 256, Shifts(1, k));
  }

  /** The probe loop on the graph itself. */
  method ProbeTarget(g: EdgeGraph, a: Node, b0: int, maxTry: int) returns (r: Result<Node>)
    ensures r == Probe(g.edges, g.directed, a, b0, 1, maxTry)
  {
    var b := b0;
    var j := 1;
    while g.HasEdge(a, b)
      invariant j >= 1
      invariant Probe(g.edges, g.directed, a, b, j, maxTry) == Probe(g.edges, g.directed, a, b0, 1, maxTry)
      decreases maxTry - j
    {
      b := b + 256 * j;
      if b < 0 {
        return Err(ValueError);
      }
      j := j + 1;
      if j > maxTry {
        return Err(RuntimeError(RenameFailed));
      }
    }
    return Ok(b);
  }

  // -----------------------------------------------------------------------
  // The degree walk.

  /** The walk's state: `cur_num`, `num_use_degree`, the edges of `g` and
      `list_edges_stego`. */
  datatype Progress = Progress(cur: nat, used: seq<nat>, edges: set<Row>, out: seq<Row>)

  function Start(n: nat): (s: Progress)
    ensures |s.used| == n && forall k :: 0 <= k < n ==> s.used[k] == 0
  {
    Progress(0, seq(n, _ => 0), {}, [])
  }

  /** One iteration for the adjusted value d: read `degree_ref[cur_num]`
      (IndexError past the end) and move on when that node is used up, probe
      for an absent edge, add it, and count it for its first endpoint
      (IndexError when the walk has just run off the end). */
  function Step(ref: seq<nat>, directed: bool, maxTry: int, s: Progress, d: int): (r: Result<Progress>)
    requires |s.used| == |ref|
    ensures r.Ok? ==> |r.value.used| == |ref| && |r.value.out| == |s.out| + 1
    ensures r.Err? ==> r.error in {IndexError, ValueError, RuntimeError(RenameFailed)}
  {
    if s.cur >= |ref| then Err(IndexError)
    else
      var cur := if ref[s.cur] <= s.used[s.cur] then s.cur + 1 else s.cur;
      match Probe(s.edges, directed, cur, d - cur, 1, maxTry)
      case Err(e) => Err(e)
      case Ok(b) =>
        if cur >= |ref| then Err(IndexError)
        else Ok(Progress(cur, s.used[cur := s.used[cur] + 1], s.edges + {(cur, b)}, s.out + [(cur, b)]))
  }

  /** The loop over the adjusted values, as a fold over the prefix. */
  function Run(ref: seq<nat>, directed: bool, maxTry: int, ds: seq<int>): (r: Result<Progress>)
    ensures r.Ok? ==> |r.value.used| == |ref| && |r.value.out| == |ds|
    decreases |ds|
  {
    if |ds| == 0 then Ok(Start(|ref|))
    else
      match Run(ref, directed, maxTry, ds[..|ds| - 1])
      case Err(e) => Err(e)
      case Ok(s) => Step(ref, directed, maxTry, s, ds[|ds| - 1])
  }

  /** Once a prefix fails, the whole walk fails with the same error. */
  lemma {:induction false} RunFailed(ref: seq<nat>, directed: bool, maxTry: int, ds: seq<int>, i: nat)
    requires i <= |ds| && Run(ref, directed, maxTry, ds[..i]).Err?
    ensures Run(ref, directed, maxTry, ds) == Run(ref, directed, maxTry, ds[..i])
    decreases |ds| - i
  {
    if i < |ds| {
      var n := |ds| - 1;
      assert ds[..n][..i] == ds[..i];
      RunFailed(ref, directed, maxTry, ds[..n], i);
      RunNext(ref, directed, maxTry, ds, n);
      assert ds[..n + 1] == ds;
    } else {
      assert ds[..i] == ds;
    }
  }

  // -----------------------------------------------------------------------
  // What the walk guarantees.

  function Sum(s: seq<nat>): nat {
    if |s| == 0 then 0 else s[0] + Sum(s[1..])
  }

  lemma {:induction false} SumUpdate(s: seq<nat>, k: nat, v: nat)
    requires k < |s|
    ensures Sum(s[k := v]) == Sum(s) - s[k] + v
  {
    if k == 0 {
      assert s[k := v][1..] == s[1..];
    } else {
      SumUpdate(s[1..], k - 1, v);
      assert s[k := v][1..] == s[1..][k - 1 := v];
    }
  }

  lemma {:induction false} SumZeros(s: seq<nat>)
    requires forall k :: 0 <= k < |s| ==> s[k] == 0
    ensures Sum(s) == 0
  {
    if |s| > 0 {
      SumZeros(s[1..]);
    }
  }

  lemma {:induction false} SumBelow(s: seq<nat>, t: seq<nat>)
    requires |s| == |t| && forall k :: 0 <= k < |s| ==> s[k] <= t[k]
    ensures Sum(s) <= Sum(t)
  {
    if |s| > 0 {
      SumBelow(s[1..], t[1..]);
    }
  }

  /** Two rows name the same edge of the graph. */
  predicate SameEdge(directed: bool, e: Row, f: Row) {
    e == f || (!directed && e == (f.1, f.0))
  }

  /** No edge is emitted twice (in either orientation when undirected). */
  ghost predicate Distinct(directed: bool, out: seq<Row>) {
    forall i, j :: 0 <= i < j < |out| ==> !SameEdge(directed, out[i], out[j])
  }

  /** The graph holds exactly the emitted rows. */
  ghost predicate Recorded(edges: set<Row>, out: seq<Row>) {
    forall e :: e in edges <==> e in out
  }

  /** Row i carries value i: its endpoint sum agrees with it modulo 256. */
  ghost predicate Keyed(out: seq<Row>, ds: seq<int>)
    requires |out| == |ds|
  {
    forall i :: 0 <= i < |ds| ==> (out[i].0 + out[i].1) % 256 == ds[i] % 256
  }

  /** The first endpoints start at 0 or 1, never go down, rise by at most one
      per row, and end at `cur_num` (which is 0 before the first row). */
  predicate Advances(out: seq<Row>, cur: nat) {
    (|out| == 0 ==> cur == 0) &&
    (|out| > 0 ==> 0 <= out[0].0 <= 1 && out[|out| - 1].0 == cur) &&
    forall i :: 0 < i < |out| ==> out[i - 1].0 <= out[i].0 <= out[i - 1].0 + 1
  }

  /** Nodes before `cur_num` have used up their reference degree, nodes
      after it are untouched, and no node goes past its degree (or past one
      edge, for a degree of zero). */
  predicate Counters(ref: seq<nat>, cur: nat, used: seq<nat>)
    requires |used| == |ref|
  {
    (forall k :: 0 <= k < |ref| && k < cur ==> ref[k] <= used[k]) &&
    (forall k :: cur < k < |ref| ==> used[k] == 0) &&
    (forall k :: 0 <= k < |ref| ==> used[k] <= Max1(ref[k]))
  }

  function Max1(x: nat): nat {
    if x >= 1 then x else 1
  }

  /** Everything the walk keeps true after consuming `ds`: one row per value,
      each keyed by it, all distinct and all in the graph, the first
      endpoints advancing, and the counters summing to the row count. */
  ghost predicate Good(ref: seq<nat>, directed: bool, ds: seq<int>, s: Progress) {
    |s.used| == |ref| && |s.out| == |ds| &&
    (|ds| > 0 ==> s.cur < |ref|) &&
    Keyed(s.out, ds) &&
    Recorded(s.edges, s.out) &&
    Distinct(directed, s.out) &&
    Advances(s.out, s.cur) &&
    Sum(s.used) == |s.out| &&
    Counters(ref, s.cur, s.used)
  }

  /** What one successful step did: it moved `cur_num` by one exactly when
      the node was used up, and added one absent edge keyed by the value. */
  lemma StepFacts(ref: seq<nat>, directed: bool, maxTry: int, s: Progress, d: int)
    requires |s.used| == |ref| && Step(ref, directed, maxTry, s, d).Ok?
    ensures var t := Step(ref, directed, maxTry, s, d).value;
      var e := (t.cur, t.out[|s.out|].1);
      s.cur < |ref| && t.cur < |ref| &&
      (t.cur == s.cur || t.cur == s.cur + 1) &&
      (t.cur == s.cur <==> s.used[s.cur] < ref[s.cur]) &&
      t == Progress(t.cur, s.used[t.cur := s.used[t.cur] + 1], s.edges + {e}, s.out + [e]) &&
      !Present(s.edges, directed, e) && (e.0 + e.1) % 256 == d % 256
  {
    var cur := if ref[s.cur] <= s.used[s.cur] then s.cur + 1 else s.cur;
    var p := Probe(s.edges, directed, cur, d - cur, 1, maxTry);
    assert p.Ok?;
    ProbedTarget(s.edges, directed, cur, d - cur, maxTry);
  }

  lemma CountersStep(ref: seq<nat>, cur0: nat, used: seq<nat>, cur: nat)
    requires |used| == |ref| && Counters(ref, cur0, used) && cur0 < |ref| && cur < |ref|
    requires (cur == cur0 || cur == cur0 + 1) && (cur == cur0 <==> used[cur0] < ref[cur0])
    ensures Counters(ref, cur, used[cur := used[cur] + 1])
  {
  }

  lemma AdvancesSnoc(out: seq<Row>, cur0: nat, e: Row)
    requires Advances(out, cur0) && (e.0 == cur0 || e.0 == cur0 + 1)
    ensures Advances(out + [e], e.0)
  {
  }

  lemma KeyedSnoc(out: seq<Row>, ds: seq<int>, e: Row, d: int)
    requires |out| == |ds| && Keyed(out, ds) && (e.0 + e.1) % 256 == d % 256
    ensures Keyed(out + [e], ds + [d])
  {
    forall i | 0 <= i < |ds| + 1
      ensures ((out + [e])[i].0 + (out + [e])[i].1) % 256 == (ds + [d])[i] % 256
    {
      if i < |ds| {
        assert (out + [e])[i] == out[i];
      }
    }
  }

  lemma DistinctSnoc(directed: bool, out: seq<Row>, edges: set<Row>, e: Row)
    requires Distinct(directed, out) && Recorded(edges, out)
    requires !Present(edges, directed, e)
    ensures Distinct(directed, out + [e]) && Recorded(edges + {e}, out + [e])
  {
    var o := out + [e];
    forall i, j | 0 <= i < j < |o|
      ensures !SameEdge(directed, o[i], o[j])
    {
      if j == |out| {
        assert o[i] in out;
      }
    }
  }

  lemma StepGood(ref: seq<nat>, directed: bool, maxTry: int, ds: seq<int>, s: Progress, d: int)
    requires Good(ref, directed, ds, s)
    ensures Step(ref, directed, maxTry, s, d).Ok? ==>
      Good(ref, directed, ds + [d], Step(ref, directed, maxTry, s, d).value)
  {
    if Step(ref, directed, maxTry, s, d).Ok? {
      StepFacts(ref, directed, maxTry, s, d);
      var t := Step(ref, directed, maxTry, s, d).value;
      GoodSnoc(ref, directed, ds, s, d, t, (t.cur, t.out[|s.out|].1));
    }
  }

  /** One step that adds the absent edge `e`, keyed by `d`, from the node
      the counters point at keeps the walk good. */
  lemma GoodSnoc(ref: seq<nat>, directed: bool, ds: seq<int>, s: Progress, d: int, t: Progress, e: Row)
    requires Good(ref, directed, ds, s)
    requires s.cur < |ref| && t.cur < |ref| && e.0 == t.cur
    requires (t.cur == s.cur || t.cur == s.cur + 1) && (t.cur == s.cur <==> s.used[s.cur] < ref[s.cur])
    requires t == Progress(t.cur, s.used[t.cur := s.used[t.cur] + 1], s.edges + {e}, s.out + [e])
    requires !Present(s.edges, directed, e) && (e.0 + e.1) % 256 == d % 256
    ensures Good(ref, directed, ds + [d], t)
  {
    SumUpdate(s.used, t.cur, s.used[t.cur] + 1);
    CountersStep(ref, s.cur, s.used, t.cur);
    AdvancesSnoc(s.out, s.cur, e);
    KeyedSnoc(s.out, ds, e, d);
    DistinctSnoc(directed, s.out, s.edges, e);
  }

  /** Unfolding the walk by one value. */
  lemma RunNext(ref: seq<nat>, directed: bool, maxTry: int, ds: seq<int>, i: nat)
    requires i < |ds|
    ensures Run(ref, directed, maxTry, ds[..i]).Err? ==>
      Run(ref, directed, maxTry, ds[..i + 1]) == Run(ref, directed, maxTry, ds[..i])
    ensures Run(ref, directed, maxTry, ds[..i]).Ok? ==>
      Run(ref, directed, maxTry, ds[..i + 1]) == Step(ref, directed, maxTry, Run(ref, directed, maxTry, ds[..i]).value, ds[i])
  {
    assert ds[..i + 1][..i] == ds[..i];
  }

  lemma {:induction false} RunGood(ref: seq<nat>, directed: bool, maxTry: int, ds: seq<int>)
    ensures Run(ref, directed, maxTry, ds).Ok? ==> Good(ref, directed, ds, Run(ref, directed, maxTry, ds).value)
    decreases |ds|
  {
    if |ds| == 0 {
      SumZeros(Start(|ref|).used);
    } else {
      var n := |ds| - 1;
      var pre := ds[..n];
      RunGood(ref, directed, maxTry, pre);
      RunNext(ref, directed, maxTry, ds, n);
      assert ds[..n + 1] == ds && pre + [ds[n]] == ds;
      var r := Run(ref, directed, maxTry, pre);
      if r.Ok? {
        StepGood(ref, directed, maxTry, pre, r.value, ds[n]);
      }
    }
  }

  /** The walk can only finish when the stream is no longer than the sum,
      over the reference nodes, of their degrees (counting 0 as 1). */
  lemma RunCapacity(ref: seq<nat>, directed: bool, maxTry: int, ds: seq<int>)
    requires Run(ref, directed, maxTry, ds).Ok?
    ensures |ds| <= Sum(seq(|ref|, k requires 0 <= k < |ref| => Max1(ref[k])))
  {
    RunGood(ref, directed, maxTry, ds);
    var s := Run(ref, directed, maxTry, ds).value;
    SumBelow(s.used, seq(|ref|, k requires 0 <= k < |ref| => Max1(ref[k])));
  }

  // -----------------------------------------------------------------------
  // Encoding.

  /** What `BYNIS.encode` returns as its edge list, for a node estimate
      `n_nodes` and the degrees of the reference graph. An unsupported
      payload type leaves `data_origin` unbound (NameError). */
  function EncodeSpec(msg: Message, nNodes: nat, refDegrees: seq<nat>, directed: bool, maxTry: int): Result<seq<Row>> {
    match DataStream(msg, NameError)
    case Err(e) => Err(e)
    case Ok(data) =>
      match Run(SortDescending(refDegrees), directed, maxTry, Adjusted(data, NAdjusted(nNodes)))
      case Err(e) => Err(e)
      case Ok(s) => Ok(s.out)
  }

  /** One pass of the main loop, on the counter array and the graph. */
  method EmbedByte(g: EdgeGraph, ref: seq<nat>, used: array<nat>, cur0: nat, out0: seq<Row>, d: int, maxTry: int)
    returns (r: Result<(nat, seq<Row>)>)
    requires used.Length == |ref|
    modifies g, used
    ensures var st := Step(ref, g.directed, maxTry, Progress(cur0, old(used[..]), old(g.edges), out0), d);
      (st.Err? ==> r == Err(st.error)) &&
      (st.Ok? ==> r == Ok((st.value.cur, st.value.out)) && used[..] == st.value.used && g.edges == st.value.edges)
  {
    var cur := cur0;
    if cur >= used.Length {
      return Err(IndexError);
    }
    if ref[cur] <= used[cur] {
      cur := cur + 1;
    }
    var b := ProbeTarget(g, cur, d - cur, maxTry);
    if b.Err? {
      return Err(b.error);
    }
    g.AddEdge(cur, b.value);
    if cur >= used.Length {
      return Err(IndexError);
    }
    used[cur] := used[cur] + 1;
    return Ok((cur, out0 + [(cur, b.value)]));
  }

  /** The main loop of `encode` over the adjusted values, with the degree
      counters in an array and the edges added to `g`. */
  method Embed(g: EdgeGraph, ref: seq<nat>, data: seq<int>, maxTry: int) returns (r: Result<seq<Row>>)
    requires g.edges == {}
    modifies g
    ensures Run(ref, g.directed, maxTry, data).Err? ==> r == Err(Run(ref, g.directed, maxTry, data).error)
    ensures Run(ref, g.directed, maxTry, data).Ok? ==>
      r == Ok(Run(ref, g.directed, maxTry, data).value.out) && g.edges == Run(ref, g.directed, maxTry, data).value.edges
  {
    var used := new nat[|ref|](_ => 0);
    var cur := 0;
    var out := [];
    assert used[..] == Start(|ref|).used;
    for i := 0 to |data|
      invariant Run(ref, g.directed, maxTry, data[..i]) == Ok(Progress(cur, used[..], g.edges, out))
    {
      RunNext(ref, g.directed, maxTry, data, i);
      var step := EmbedByte(g, ref, used, cur, out, data[i], maxTry);
      if step.Err? {
        RunFailed(ref, g.directed, maxTry, data, i + 1);
        return Err(step.error);
      }
      cur, out := step.value.0, step.value.1;
    }
    assert data[..|data|] == data;
    return Ok(out);
  }

  /** `BYNIS.encode`: the stream, the offset, the sorted reference degrees
      and the walk over a fresh graph. */
  method Encode(msg: Message, nNodes: nat, refDegrees: seq<nat>, directed: bool, maxTry: int)
    returns (r: Result<seq<Row>>, g: EdgeGraph?)
    ensures r == EncodeSpec(msg, nNodes, refDegrees, directed, maxTry)
    ensures r.Ok? ==> g != null && fresh(g) && g.directed == directed
    ensures r.Ok? ==> g != null && forall e :: e in g.edges <==> e in r.value
  {
    var stream := DataStream(msg, NameError);
    if stream.Err? {
      return Err(stream.error), null;
    }
    var data := Adjusted(stream.value, NAdjusted(nNodes));
    var ref := SortDescending(refDegrees);
    g := new EdgeGraph(directed);
    r := Embed(g, ref, data, maxTry);
    RunGood(ref, directed, maxTry, data);
  }

  /** The pieces of a successful encoding. */
  lemma EncodeSpecParts(msg: Message, nNodes: nat, refDegrees: seq<nat>, directed: bool, maxTry: int)
    requires EncodeSpec(msg, nNodes, refDegrees, directed, maxTry).Ok?
    ensures DataStream(msg, NameError).Ok?
    ensures var ds := Adjusted(DataStream(msg, NameError).value, NAdjusted(nNodes));
      var run := Run(SortDescending(refDegrees), directed, maxTry, ds);
      run.Ok? && EncodeSpec(msg, nNodes, refDegrees, directed, maxTry).value == run.value.out
  {
  }

  /** A successful encoding has exactly one row per stream byte, in stream
      order: the residue of each row is its byte, no edge repeats, and the
      first endpoints walk down the sorted reference nodes one at a time. */
  lemma EncodedRows(msg: Message, nNodes: nat, refDegrees: seq<nat>, directed: bool, maxTry: int)
    requires EncodeSpec(msg, nNodes, refDegrees, directed, maxTry).Ok?
    ensures var out := EncodeSpec(msg, nNodes, refDegrees, directed, maxTry).value;
      var data := DataStream(msg, NameError).value;
      Residues(out) == data && Distinct(directed, out) &&
      (|out| > 0 ==> Advances(out, out[|out| - 1].0) && out[|out| - 1].0 < |refDegrees|)
  {
    EncodeSpecParts(msg, nNodes, refDegrees, directed, maxTry);
    var data := DataStream(msg, NameError).value;
    var ds := Adjusted(data, NAdjusted(nNodes));
    var ref := SortDescending(refDegrees);
    RunGood(ref, directed, maxTry, ds);
    var s := Run(ref, directed, maxTry, ds).value;
    assert Keyed(s.out, ds);
    KeyedResidues(s.out, data, nNodes);
  }

  /** Rows keyed by the adjusted stream have the stream itself as residues. */
  lemma KeyedResidues(out: seq<Row>, data: seq<byte>, nNodes: nat)
    requires |out| == |data| && Keyed(out, Adjusted(data, NAdjusted(nNodes)))
    ensures Residues(out) == data
  {
    AdjustedResidues(data, nNodes);
    var ds := Adjusted(data, NAdjusted(nNodes));
    forall i | 0 <= i < |out|
      ensures Residues(out)[i] == data[i]
    {
      assert (out[i].0 + out[i].1) % 256 == ds[i] % 256;
    }
  }

  // -----------------------------------------------------------------------
  // Decoding.

  /** `sum(row[:2]) % 256`. */
  function Residue(e: Row): byte {
    (e.0 + e.1) % 256
  }

  function Residues(rows: seq<Row>): (r: seq<byte>)
    ensures |r| == |rows| && forall i :: 0 <= i < |rows| ==> r[i] == Residue(rows[i])
  {
    seq(|rows|, i requires 0 <= i < |rows| => Residue(rows[i]))
  }

  /** What `BYNIS.decode` returns: the width from row 0 (IndexError on an
      empty list), the count from the next width rows (IndexError when they
      are missing), the width looked up in `bw2fmt` (KeyError), then one
      byte per remaining row into a zero-filled array of the counted size
      (IndexError when there are more rows than that). */
  function DecodeSpec(rows: seq<Row>): Result<seq<byte>> {
    if |rows| == 0 then Err(IndexError)
    else
      var keys := Residues(rows);
      var bw := keys[0] as nat;
      if 1 + bw > |rows| then Err(IndexError)
      else if !InFormatTable(bw) then Err(KeyError)
      else
        var n := FromLE(keys[1..1 + bw]);
        var tail := keys[1 + bw..];
        if |tail| > n then Err(IndexError)
        else Ok(tail + seq(n - |tail|, _ => 0))
  }

  /** `BYNIS.decode` with its two loops. */
  method Decode(rows: seq<Row>) returns (r: Result<seq<byte>>)
    ensures r == DecodeSpec(rows)
  {
    if |rows| == 0 {
      return Err(IndexError);
    }
    var bw := Residue(rows[0]) as nat;
    var count := new byte[bw](_ => 0);
    for i := 0 to bw
      invariant i < |rows|
      invariant forall k :: 0 <= k < i ==> count[k] == Residue(rows[1 + k])
    {
      if 1 + i >= |rows| {
        return Err(IndexError);
      }
      count[i] := Residue(rows[1 + i]);
    }
    if !InFormatTable(bw) {
      return Err(KeyError);
    }
    assert count[..] == Residues(rows)[1..1 + bw];
    var n := FromLE(count[..]);
    assert Residues(rows[1 + bw..]) == Residues(rows)[1 + bw..];
    r := Fill(rows[1 + bw..], n);
  }

  /** The second loop of `decode`: one byte per row into `np.zeros(n)`,
      IndexError at the first row past the end. */
  method Fill(body: seq<Row>, n: nat) returns (r: Result<seq<byte>>)
    ensures |body| > n ==> r == Err(IndexError)
    ensures |body| <= n ==> r == Ok(Residues(body) + seq(n - |body|, _ => 0))
  {
    var rec := new byte[n](_ => 0);
    for i := 0 to |body|
      invariant i <= n
      invariant forall k :: 0 <= k < i ==> rec[k] == Residue(body[k])
      invariant forall k :: i <= k < n ==> rec[k] == 0
    {
      if i >= n {
        return Err(IndexError);
      }
      rec[i] := Residue(body[i]);
    }
    assert rec[..] == Residues(body) + seq(n - |body|, _ => 0);
    return Ok(rec[..]);
  }

  /** Rows whose residues are a stream decode to that stream's payload. */
  lemma DecodeStream(rows: seq<Row>, msg: Message)
    requires DataStream(msg, NameError).Ok? && Residues(rows) == DataStream(msg, NameError).value
    ensures DecodeSpec(rows) == Ok(msg.data)
  {
    DataStreamLayout(msg, NameError);
    var keys := Residues(rows);
    var bw := keys[0] as nat;
    assert |keys| == 1 + bw + |msg.data|;
    assert FromLE(keys[1..1 + bw]) == |msg.data|;
    assert keys[1 + bw..] == msg.data;
    assert seq(0, _ => 0) == [];
    assert keys[1 + bw..] + seq(0, _ => 0) == msg.data;
  }

  /** Decoding an encoded edge list gives back the payload. */
  lemma RoundTrip(msg: Message, nNodes: nat, refDegrees: seq<nat>, directed: bool, maxTry: int)
    requires EncodeSpec(msg, nNodes, refDegrees, directed, maxTry).Ok?
    ensures DecodeSpec(EncodeSpec(msg, nNodes, refDegrees, directed, maxTry).value) == Ok(msg.data)
  {
    EncodeSpecParts(msg, nNodes, refDegrees, directed, maxTry);
    EncodedRows(msg, nNodes, refDegrees, directed, maxTry);
    DecodeStream(EncodeSpec(msg, nNodes, refDegrees, directed, maxTry).value, msg);
  }
}
