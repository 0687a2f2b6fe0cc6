/**
 * Contour tracing (`turnPriority`, `traceContours`): boundary edges are
 * linked into walks. From the current edge the walk continues with the unused
 * edge that starts where the current one ends and turns least to the left:
 * right turn, then straight on, then left turn, then reversal. Ties go to the
 * candidate that comes first. Every edge is consumed by exactly one walk;
 * walks of fewer than four edges are discarded.
 */
module Contours {
  import opened Wrappers
  import opened Boundary

  type Key = (Point, Point)

  /** The direction turned right (clockwise on screen, where y grows downwards). */
  function RightTurn(v: Vec): Vec {
    Vec(-v.dy, v.dx)
  }

  function LeftTurn(v: Vec): Vec {
    Vec(v.dy, -v.dx)
  }

  function Reversed(v: Vec): Vec {
    Vec(-v.dx, -v.dy)
  }

  /** `turnPriority`: 0 right turn, 1 straight, 2 left turn, 3 anything else. */
  function TurnPriority(incoming: Vec, outgoing: Vec): (p: nat)
    ensures p <= 3
  {
    if outgoing.dx == -incoming.dy && outgoing.dy == incoming.dx then 0
    else if outgoing.dx == incoming.dx && outgoing.dy == incoming.dy then 1
    else if outgoing.dx == incoming.dy && outgoing.dy == -incoming.dx then 2
    else 3
  }

  /** Between cardinal directions the four ranks are the four possible turns. */
  lemma TurnPriorityCardinal(incoming: Vec, outgoing: Vec)
    requires Cardinal(incoming) && Cardinal(outgoing)
    ensures TurnPriority(incoming, outgoing) == 0 <==> outgoing == RightTurn(incoming)
    ensures TurnPriority(incoming, outgoing) == 1 <==> outgoing == incoming
    ensures TurnPriority(incoming, outgoing) == 2 <==> outgoing == LeftTurn(incoming)
    ensures TurnPriority(incoming, outgoing) == 3 <==> outgoing == Reversed(incoming)
  {
  }

  /** The bucket `edgesByStart.get(ptKey(p))`: the edges starting at p, in input order. */
  function StartingAt(es: seq<Edge>, p: Point): seq<Edge> {
    if es == [] then []
    else StartingAt(es[..|es| - 1], p) + (if es[|es| - 1].start == p then [es[|es| - 1]] else [])
  }

  /** The bucket holds exactly the edges of `es` that start at p. */
  lemma {:induction false} StartingAtMembers(es: seq<Edge>, p: Point)
    ensures forall e :: e in StartingAt(es, p) <==> e in es && e.start == p
  {
    if es != [] {
      var init := es[..|es| - 1];
      StartingAtMembers(init, p);
      assert es == init + [es[|es| - 1]];
    }
  }

  /** `.filter(e => !used.has(edgeKey(e)))`, order preserved. */
  function Unused(es: seq<Edge>, used: set<Key>): seq<Edge> {
    if es == [] then []
    else (if EdgeKey(es[0]) !in used then [es[0]] else []) + Unused(es[1..], used)
  }

  /** The filter keeps exactly the edges of `es` whose key is not in `used`. */
  lemma {:induction false} UnusedMembers(es: seq<Edge>, used: set<Key>)
    ensures forall e :: e in Unused(es, used) <==> e in es && EdgeKey(e) !in used
  {
    if es != [] {
      UnusedMembers(es[1..], used);
      assert es == [es[0]] + es[1..];
    }
  }

  /** The candidates are exactly the unused edges starting at p. */
  lemma CandidatesMembers(edges: seq<Edge>, used: set<Key>, p: Point)
    ensures forall e :: e in Candidates(edges, used, p) <==> e in edges && e.start == p && EdgeKey(e) !in used
  {
    StartingAtMembers(edges, p);
    UnusedMembers(StartingAt(edges, p), used);
  }

  /** The unused edges that start at p, in input order. */
  function Candidates(edges: seq<Edge>, used: set<Key>, p: Point): seq<Edge> {
    Unused(StartingAt(edges, p), used)
  }

  /**
   * `candidates.reduce(...)`: a left fold that replaces the best so far only
   * by a candidate of strictly lower rank, returned as a position.
   */
  function BestIndex(inDir: Vec, cands: seq<Edge>): (k: nat)
    requires |cands| > 0
    ensures k < |cands|
  {
    if |cands| == 1 then 0
    else
      var k := BestIndex(inDir, cands[..|cands| - 1]);
      if TurnPriority(inDir, cands[|cands| - 1].dir) < TurnPriority(inDir, cands[k].dir) then |cands| - 1 else k
  }

  /** The fold ends at a candidate of least rank, and every earlier candidate ranks strictly worse. */
  lemma {:induction false} BestIndexSpec(inDir: Vec, cands: seq<Edge>)
    requires |cands| > 0
    ensures var k := BestIndex(inDir, cands);
      && (forall j :: 0 <= j < |cands| ==> TurnPriority(inDir, cands[k].dir) <= TurnPriority(inDir, cands[j].dir))
      && (forall j :: 0 <= j < k ==> TurnPriority(inDir, cands[k].dir) < TurnPriority(inDir, cands[j].dir))
  {
    if |cands| > 1 {
      var init := cands[..|cands| - 1];
      BestIndexSpec(inDir, init);
      assert forall j :: 0 <= j < |init| ==> init[j] == cands[j];
    }
  }

  /**
   * One step of the walk: the edge that follows `cur` once the edges in
   * `used` are consumed, or None when no unused edge starts where `cur` ends.
   */
  function ChooseNext(edges: seq<Edge>, used: set<Key>, cur: Edge): (o: Option<Edge>)
    ensures o.Some? ==> o.value in Candidates(edges, used, cur.end)
  {
    var cands := Candidates(edges, used, cur.end);
    if |cands| == 0 then None else Some(cands[BestIndex(cur.dir, cands)])
  }

  /**
   * The step stops exactly when every edge starting where `cur` ends is used;
   * otherwise it takes an unused such edge of least turn rank.
   */
  lemma ChooseNextSpec(edges: seq<Edge>, used: set<Key>, cur: Edge)
    ensures ChooseNext(edges, used, cur).None? <==> forall e :: e in edges && e.start == cur.end ==> EdgeKey(e) in used
    ensures ChooseNext(edges, used, cur).Some? ==>
      var next := ChooseNext(edges, used, cur).value;
      && next in edges && next.start == cur.end && EdgeKey(next) !in used
      && forall e :: e in edges && e.start == cur.end && EdgeKey(e) !in used ==>
           TurnPriority(cur.dir, next.dir) <= TurnPriority(cur.dir, e.dir)
  {
    var cands := Candidates(edges, used, cur.end);
    CandidatesMembers(edges, used, cur.end);
    if |cands| > 0 {
      var k := BestIndex(cur.dir, cands);
      BestIndexSpec(cur.dir, cands);
      assert forall e :: e in cands ==> TurnPriority(cur.dir, cands[k].dir) <= TurnPriority(cur.dir, e.dir);
    }
  }

  /** Ties go to the earliest candidate: every candidate before the choice ranks strictly worse. */
  lemma ChooseNextEarliest(edges: seq<Edge>, used: set<Key>, cur: Edge)
    requires ChooseNext(edges, used, cur).Some?
    ensures exists k ::
      && 0 <= k < |Candidates(edges, used, cur.end)|
      && Candidates(edges, used, cur.end)[k] == ChooseNext(edges, used, cur).value
      && forall j :: 0 <= j < k ==>
           TurnPriority(cur.dir, Candidates(edges, used, cur.end)[j].dir) > TurnPriority(cur.dir, ChooseNext(edges, used, cur).value.dir)
  {
    var cands := Candidates(edges, used, cur.end);
    var k := BestIndex(cur.dir, cands);
    BestIndexSpec(cur.dir, cands);
    assert cands[k] == ChooseNext(edges, used, cur).value;
  }

  /** Reads a bucket of the start-point index; a missing bucket is empty. */
  function Lookup(m: map<Point, seq<Edge>>, p: Point): seq<Edge> {
    if p in m then m[p] else []
  }

  /** Builds `edgesByStart`: one bucket per start point, edges in input order. */
  method IndexByStart(edges: seq<Edge>) returns (m: map<Point, seq<Edge>>)
    ensures forall p :: Lookup(m, p) == StartingAt(edges, p)
  {
    m := map[];
    for i := 0 to |edges|
      invariant forall p :: Lookup(m, p) == StartingAt(edges[..i], p)
    {
      var key := edges[i].start;
      if key !in m {
        m := m[key := []];
      }
      m := m[key := m[key] + [edges[i]]];
      assert edges[..i + 1][..i] == edges[..i];
    }
    assert edges[..|edges|] == edges;
  }

  /** The keys of the edges of s. */
  function KeySet(s: seq<Edge>): set<Key> {
    set e | e in s :: EdgeKey(e)
  }

  function Flatten(ws: seq<seq<Edge>>): seq<Edge> {
    if ws == [] then [] else Flatten(ws[..|ws| - 1]) + ws[|ws| - 1]
  }

  /** The keys consumed by the walks before walk w. */
  function Before(walks: seq<seq<Edge>>, w: nat): set<Key>
    requires w <= |walks|
  {
    KeySet(Flatten(walks[..w]))
  }

  /** The walks that are kept: `if (contour.length >= 4) contours.push(contour)`. */
  function LongWalks(ws: seq<seq<Edge>>): seq<seq<Edge>> {
    if ws == [] then []
    else LongWalks(ws[..|ws| - 1]) + (if |ws[|ws| - 1]| >= 4 then [ws[|ws| - 1]] else [])
  }

  /** Every edge of `walk` after the first is the step `ChooseNext` takes from its predecessor. */
  ghost predicate Steps(edges: seq<Edge>, before: set<Key>, walk: seq<Edge>) {
    forall i :: 1 <= i < |walk| ==> ChooseNext(edges, before + KeySet(walk[..i]), walk[i - 1]) == Some(walk[i])
  }

  /**
   * `walk` is what the tracer produces from its first edge when the keys in
   * `before` are already consumed: each edge is the step chosen after the
   * previous one, and the walk stops when no unused edge continues it.
   */
  ghost predicate WalkFrom(edges: seq<Edge>, before: set<Key>, walk: seq<Edge>) {
    && |walk| > 0
    && EdgeKey(walk[0]) !in before
    && Steps(edges, before, walk)
    && ChooseNext(edges, before + KeySet(walk), walk[|walk| - 1]) == None
  }

  /**
   * Walk `walk` is seeded by edges[seed], the first input edge not among the
   * keys in `before`, and is the walk traced from it once `before` is consumed.
   */
  ghost predicate Seeded(edges: seq<Edge>, before: set<Key>, walk: seq<Edge>, seed: nat) {
    && seed < |edges|
    && WalkFrom(edges, before, walk)
    && walk[0] == edges[seed]
    && forall j :: 0 <= j < seed ==> EdgeKey(edges[j]) in before
  }

  /**
   * The walks `traceContours` produces, in order, each seeded once the walks
   * before it are consumed, with their seed positions increasing.
   */
  ghost predicate Traced(edges: seq<Edge>, walks: seq<seq<Edge>>, seeds: seq<nat>)
    decreases |walks|
  {
    && |seeds| == |walks|
    && (walks != [] ==>
          var k := |walks| - 1;
          && Traced(edges, walks[..k], seeds[..k])
          && (k > 0 ==> seeds[k - 1] < seeds[k])
          && Seeded(edges, KeySet(Flatten(walks[..k])), walks[k], seeds[k]))
  }

  /** The run of `traceContours` once its seed loop has looked at edges[..n]. */
  ghost predicate TracedUpTo(edges: seq<Edge>, walks: seq<seq<Edge>>, seeds: seq<nat>, n: nat) {
    && Traced(edges, walks, seeds)
    && (walks != [] ==> seeds[|walks| - 1] < n)
    && forall j :: 0 <= j < n && j < |edges| ==> EdgeKey(edges[j]) in KeySet(Flatten(walks))
  }

  /** The complete run of `traceContours` on `edges`: every input edge is consumed. */
  ghost predicate IsTrace(edges: seq<Edge>, walks: seq<seq<Edge>>, seeds: seq<nat>) {
    TracedUpTo(edges, walks, seeds, |edges|)
  }

  /** Every walk of a trace is seeded once the walks before it are consumed. */
  lemma {:induction false} TraceWalk(edges: seq<Edge>, walks: seq<seq<Edge>>, seeds: seq<nat>, w: nat)
    requires Traced(edges, walks, seeds) && w < |walks|
    ensures Seeded(edges, Before(walks, w), walks[w], seeds[w])
    decreases |walks|
  {
    var k := |walks| - 1;
    if w < k {
      TraceWalk(edges, walks[..k], seeds[..k], w);
      SeededPrefix(edges, walks, seeds, w);
    }
  }

  /** Walk w of the walks before the last one is seeded as it is among all walks. */
  lemma SeededPrefix(edges: seq<Edge>, walks: seq<seq<Edge>>, seeds: seq<nat>, w: nat)
    requires |walks| == |seeds| && w < |walks| - 1
    requires Seeded(edges, Before(walks[..|walks| - 1], w), walks[..|walks| - 1][w], seeds[..|walks| - 1][w])
    ensures Seeded(edges, Before(walks, w), walks[w], seeds[w])
  {
    assert walks[..|walks| - 1][..w] == walks[..w];
  }

  lemma KeySetAppend(a: seq<Edge>, b: seq<Edge>)
    ensures KeySet(a + b) == KeySet(a) + KeySet(b)
  {
  }

  /** A nonempty list of walks is its prefix followed by its last walk. */
  lemma SplitLast(ws: seq<seq<Edge>>)
    requires ws != []
    ensures ws == ws[..|ws| - 1] + [ws[|ws| - 1]]
  {
  }

  lemma FlattenAppend(ws: seq<seq<Edge>>, w: seq<Edge>)
    ensures Flatten(ws + [w]) == Flatten(ws) + w
    ensures LongWalks(ws + [w]) == LongWalks(ws) + (if |w| >= 4 then [w] else [])
  {
    assert (ws + [w])[..|ws|] == ws;
  }

  lemma StepsExtend(edges: seq<Edge>, before: set<Key>, walk: seq<Edge>, next: Edge)
    requires |walk| > 0 && Steps(edges, before, walk)
    requires ChooseNext(edges, before + KeySet(walk), walk[|walk| - 1]) == Some(next)
    ensures Steps(edges, before, walk + [next])
  {
    var walk' := walk + [next];
    forall i | 1 <= i < |walk|
      ensures ChooseNext(edges, before + KeySet(walk'[..i]), walk'[i - 1]) == Some(walk'[i])
    {
      assert walk'[..i] == walk[..i];
    }
    assert walk'[..|walk|] == walk;
  }

  /** A seed that is already consumed is skipped. */
  lemma TraceSkip(edges: seq<Edge>, walks: seq<seq<Edge>>, seeds: seq<nat>, n: nat)
    requires n < |edges| && TracedUpTo(edges, walks, seeds, n)
    requires EdgeKey(edges[n]) in KeySet(Flatten(walks))
    ensures TracedUpTo(edges, walks, seeds, n + 1)
  {
  }

  /** A seed that is not consumed starts the next walk. */
  lemma TraceExtend(edges: seq<Edge>, walks: seq<seq<Edge>>, seeds: seq<nat>, n: nat, walk: seq<Edge>)
    requires n < |edges| && TracedUpTo(edges, walks, seeds, n)
    requires WalkFrom(edges, KeySet(Flatten(walks)), walk) && walk[0] == edges[n]
    ensures TracedUpTo(edges, walks + [walk], seeds + [n], n + 1)
  {
    TracedExtend(edges, walks, seeds, n, walk);
    CoveredExtend(edges, walks, n, walk);
  }

  lemma TracedExtend(edges: seq<Edge>, walks: seq<seq<Edge>>, seeds: seq<nat>, n: nat, walk: seq<Edge>)
    requires n < |edges| && TracedUpTo(edges, walks, seeds, n)
    requires WalkFrom(edges, KeySet(Flatten(walks)), walk) && walk[0] == edges[n]
    ensures Traced(edges, walks + [walk], seeds + [n])
  {
    var walks', seeds' := walks + [walk], seeds + [n];
    assert walks'[..|walks|] == walks;
    assert seeds'[..|walks|] == seeds;
  }

  lemma CoveredExtend(edges: seq<Edge>, walks: seq<seq<Edge>>, n: nat, walk: seq<Edge>)
    requires n < |edges| && walk != [] && walk[0] == edges[n]
    requires forall j :: 0 <= j < n && j < |edges| ==> EdgeKey(edges[j]) in KeySet(Flatten(walks))
    ensures forall j :: 0 <= j < n + 1 && j < |edges| ==> EdgeKey(edges[j]) in KeySet(Flatten(walks + [walk]))
  {
    FlattenAppend(walks, walk);
    KeySetAppend(Flatten(walks), walk);
    assert EdgeKey(walk[0]) in KeySet(walk);
  }

  /**
   * The state of the inner loop: `contour` is a walk of steps from
   * `startEdge`, `used'` adds its keys to `used`, and `current` is the unused
   * edge chosen after it.
   */
  ghost predicate Following(edges: seq<Edge>, used: set<Key>, startEdge: Edge, contour: seq<Edge>, used': set<Key>, current: Edge) {
    && current in edges && EdgeKey(current) !in used'
    && used' == used + KeySet(contour)
    && (contour == [] ==> current == startEdge)
    && (contour != [] ==> contour[0] == startEdge && EdgeKey(startEdge) !in used)
    && (contour != [] ==> ChooseNext(edges, used', contour[|contour| - 1]) == Some(current))
    && Steps(edges, used, contour)
  }

  /** Taking the current edge extends the walk and its keys. */
  lemma TakeEdge(edges: seq<Edge>, used: set<Key>, startEdge: Edge, contour: seq<Edge>, used': set<Key>, current: Edge)
    requires Following(edges, used, startEdge, contour, used', current)
    ensures var walk := contour + [current];
      && walk[0] == startEdge && EdgeKey(startEdge) !in used
      && used' + {EdgeKey(current)} == used + KeySet(walk)
      && Steps(edges, used, walk)
  {
    if contour != [] {
      StepsExtend(edges, used, contour, current);
    }
    KeySetAppend(contour, [current]);
  }

  /**
   * The inner `while (true)` of `traceContours`: starting from `startEdge`,
   * mark the current edge used, append it, and continue with the best unused
   * candidate until there is none.
   */
  method FollowWalk(edges: seq<Edge>, edgesByStart: map<Point, seq<Edge>>, used: set<Key>, startEdge: Edge)
    returns (contour: seq<Edge>, used': set<Key>)
    requires forall p :: Lookup(edgesByStart, p) == StartingAt(edges, p)
    requires startEdge in edges && EdgeKey(startEdge) !in used
    ensures WalkFrom(edges, used, contour) && contour[0] == startEdge
    ensures used' == used + KeySet(contour)
  {
    ghost var allKeys := KeySet(edges);
    used' := used;
    contour := [];
    var current := startEdge;
    while true
      invariant Following(edges, used, startEdge, contour, used', current)
      decreases allKeys - used'
    {
      var ck := EdgeKey(current);
      if ck in used' {
        break;
      }
      TakeEdge(edges, used, startEdge, contour, used', current);
      used' := used' + {ck};
      contour := contour + [current];
      var candidates := Unused(Lookup(edgesByStart, current.end), used');
      assert candidates == Candidates(edges, used', current.end);
      if |candidates| == 0 {
        assert ChooseNext(edges, used', contour[|contour| - 1]) == None;
        break;
      }
      CandidatesMembers(edges, used', current.end);
      var inDir := current.dir;
      current := candidates[BestIndex(inDir, candidates)];
    }
  }

  /**
   * `traceContours`: index the edges by start point, then seed a walk at
   * every edge not yet consumed. The ghost results record every walk (also
   * the discarded ones) and the input position of its seed.
   */
  method TraceContours(edges: seq<Edge>) returns (contours: seq<seq<Edge>>, ghost walks: seq<seq<Edge>>, ghost seeds: seq<nat>)
    ensures IsTrace(edges, walks, seeds)
    ensures contours == LongWalks(walks)
  {
    var edgesByStart := IndexByStart(edges);
    var used: set<Key> := {};
    contours, walks, seeds := [], [], [];
    for i := 0 to |edges|
      invariant TracedUpTo(edges, walks, seeds, i)
      invariant used == KeySet(Flatten(walks))
      invariant contours == LongWalks(walks)
    {
      var startEdge := edges[i];
      if EdgeKey(startEdge) in used {
        TraceSkip(edges, walks, seeds, i);
        continue;
      }
      var contour;
      contour, used := FollowWalk(edges, edgesByStart, used, startEdge);
      TraceExtend(edges, walks, seeds, i, contour);
      FlattenAppend(walks, contour);
      KeySetAppend(Flatten(walks), contour);
      if |contour| >= 4 {
        contours := contours + [contour];
      }
      ghost var seed: nat := i;
      walks := walks + [contour];
      seeds := seeds + [seed];
    }
  }

  /** No key occurs twice in s. */
  ghost predicate KeysDistinct(s: seq<Edge>) {
    forall i, j :: 0 <= i < j < |s| ==> EdgeKey(s[i]) != EdgeKey(s[j])
  }

  /** A walk is chained through the input edges, and takes no key twice nor one in `before`. */
  lemma WalkShape(edges: seq<Edge>, before: set<Key>, walk: seq<Edge>)
    requires WalkFrom(edges, before, walk)
    ensures forall i :: 1 <= i < |walk| ==> walk[i] in edges && walk[i].start == walk[i - 1].end
    ensures forall i :: 0 <= i < |walk| ==> EdgeKey(walk[i]) !in before
    ensures KeysDistinct(walk)
  {
    forall i | 1 <= i < |walk|
      ensures walk[i] in edges && walk[i].start == walk[i - 1].end
      ensures EdgeKey(walk[i]) !in before + KeySet(walk[..i])
    {
      ChooseNextSpec(edges, before + KeySet(walk[..i]), walk[i - 1]);
    }
    forall i, j | 0 <= i < j < |walk|
      ensures EdgeKey(walk[i]) != EdgeKey(walk[j])
    {
      assert walk[i] in walk[..j];
    }
  }

  lemma KeysDistinctAppend(a: seq<Edge>, b: seq<Edge>)
    requires KeysDistinct(a) && KeysDistinct(b)
    requires forall j :: 0 <= j < |b| ==> EdgeKey(b[j]) !in KeySet(a)
    ensures KeysDistinct(a + b)
  {
    var ab := a + b;
    forall i, j | 0 <= i < j < |ab|
      ensures EdgeKey(ab[i]) != EdgeKey(ab[j])
    {
      if i < |a| && j >= |a| {
        assert ab[i] in a;
        assert ab[j] == b[j - |a|];
      }
    }
  }

  lemma {:induction false} KeySetMono(ws: seq<seq<Edge>>)
    ensures KeySet(Flatten(LongWalks(ws))) <= KeySet(Flatten(ws))
    decreases |ws|
  {
    if ws != [] {
      var k := |ws| - 1;
      KeySetMono(ws[..k]);
      SplitLast(ws);
      FlattenAppend(ws[..k], ws[k]);
      KeySetAppend(Flatten(ws[..k]), ws[k]);
      if |ws[k]| >= 4 {
        FlattenAppend(LongWalks(ws[..k]), ws[k]);
        KeySetAppend(Flatten(LongWalks(ws[..k])), ws[k]);
      } else {
        assert LongWalks(ws) == LongWalks(ws[..k]);
      }
    }
  }

  /** Across all walks of a trace no key is taken twice, and the same holds for the kept contours. */
  lemma {:induction false} TracedDistinct(edges: seq<Edge>, walks: seq<seq<Edge>>, seeds: seq<nat>)
    requires Traced(edges, walks, seeds)
    ensures KeysDistinct(Flatten(walks))
    ensures KeysDistinct(Flatten(LongWalks(walks)))
    decreases |walks|
  {
    if walks != [] {
      var k := |walks| - 1;
      var init, last := walks[..k], walks[k];
      SplitLast(walks);
      TracedDistinct(edges, init, seeds[..k]);
      TraceWalk(edges, walks, seeds, k);
      assert Before(walks, k) == KeySet(Flatten(init));
      WalkShape(edges, KeySet(Flatten(init)), last);
      FlattenAppend(init, last);
      KeysDistinctAppend(Flatten(init), last);
      if |last| >= 4 {
        KeySetMono(init);
        FlattenAppend(LongWalks(init), last);
        KeysDistinctAppend(Flatten(LongWalks(init)), last);
      } else {
        assert LongWalks(walks) == LongWalks(init);
      }
    }
  }

  /** Every edge a trace takes is an input edge. */
  lemma {:induction false} TracedInEdges(edges: seq<Edge>, walks: seq<seq<Edge>>, seeds: seq<nat>)
    requires Traced(edges, walks, seeds)
    ensures forall e :: e in Flatten(walks) ==> e in edges
    decreases |walks|
  {
    if walks != [] {
      var k := |walks| - 1;
      var init, last := walks[..k], walks[k];
      TracedInEdges(edges, init, seeds[..k]);
      SeededInEdges(edges, KeySet(Flatten(init)), last, seeds[k]);
      SplitLast(walks);
      FlattenAppend(init, last);
    }
  }

  /** A seeded walk takes only input edges. */
  lemma SeededInEdges(edges: seq<Edge>, before: set<Key>, walk: seq<Edge>, seed: nat)
    requires Seeded(edges, before, walk, seed)
    ensures forall e :: e in walk ==> e in edges
  {
    WalkShape(edges, before, walk);
    forall e | e in walk
      ensures e in edges
    {
      var i :| 0 <= i < |walk| && walk[i] == e;
      if i == 0 {
        assert e == edges[seed];
      }
    }
  }

  lemma {:induction false} LongWalksMembers(ws: seq<seq<Edge>>)
    ensures forall c :: c in LongWalks(ws) <==> c in ws && |c| >= 4
    decreases |ws|
  {
    if ws != [] {
      var k := |ws| - 1;
      LongWalksMembers(ws[..k]);
      SplitLast(ws);
    }
  }

  /**
   * What `traceContours` returns, for a complete trace: every kept contour has
   * at least four input edges, each starting where the previous one ends; no
   * edge key occurs twice in one contour or in two contours; and every input
   * edge is taken by exactly one walk (kept or discarded).
   */
  lemma TraceContoursSpec(edges: seq<Edge>, walks: seq<seq<Edge>>, seeds: seq<nat>)
    requires IsTrace(edges, walks, seeds)
    ensures forall c: seq<Edge> :: c in LongWalks(walks) ==>
      && |c| >= 4
      && (forall i :: 0 <= i < |c| ==> c[i] in edges)
      && (forall i :: 1 <= i < |c| ==> c[i].start == c[i - 1].end)
    ensures KeysDistinct(Flatten(LongWalks(walks)))
    ensures KeysDistinct(Flatten(walks)) && KeySet(Flatten(walks)) == KeySet(edges)
  {
    TracedDistinct(edges, walks, seeds);
    TracedInEdges(edges, walks, seeds);
    LongWalksMembers(walks);
    forall c: seq<Edge> | c in LongWalks(walks)
      ensures forall i :: 0 <= i < |c| ==> c[i] in edges
      ensures forall i :: 1 <= i < |c| ==> c[i].start == c[i - 1].end
    {
      var w :| 0 <= w < |walks| && walks[w] == c;
      TraceWalk(edges, walks, seeds, w);
      WalkShape(edges, Before(walks, w), c);
      assert c[0] == edges[seeds[w]];
    }
    forall key | key in KeySet(edges)
      ensures key in KeySet(Flatten(walks))
    {
      var e :| e in edges && EdgeKey(e) == key;
      var j :| 0 <= j < |edges| && edges[j] == e;
    }
  }
}
