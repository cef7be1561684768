/**
 * The adjacency protocol of graph/vertex.go on values. A vertex's part of the protocol
 * is its `Side`: its incident-edge list and its two cached degree counters. The recursive
 * Adjoin and RemoveAdjoin of the source each act on two vertices; `AdjoinPair` and
 * `RemovePair` give their combined effect on both sides, and the class in vertex.dfy
 * is proved to do exactly that. Vertices are compared by identity (`V(==)`).
 */
module Adjacency {
  import opened Wrappers
  import opened Edges
  import SimpleVectors

  datatype Side<V(==)> = Side(edges: seq<Link<V>>, indegree: int, outdegree: int)

  datatype VertexError =
    | UnknownEdgeType(kind: EdgeType)
    | VertexNotAdjoined
    | SelfAdjoin  // only from AdjoinChecked, the corrected Adjoin

  /** Which of the two filtered views of the incident list: EdgesForward or EdgesBackward. */
  datatype Direction = In | Out

  predicate Selects(d: Direction, t: EdgeType) {
    match d
    case In => t.Incoming()
    case Out => t.Outgoing()
  }

  /** The links of `s` whose type `d` selects, in list order. */
  function View<V(==)>(s: seq<Link<V>>, d: Direction): (r: seq<Link<V>>)
    ensures |r| <= |s|
    ensures forall l :: l in r ==> l in s && Selects(d, l.kind)
  {
    if s == [] then []
    else (if Selects(d, s[0].kind) then [s[0]] else []) + View(s[1..], d)
  }

  /** EdgesForward: the links counted by `indegree`. */
  function ForwardView<V(==)>(s: seq<Link<V>>): seq<Link<V>> { View(s, In) }

  /** EdgesBackward: the links counted by `outdegree`. */
  function BackwardView<V(==)>(s: seq<Link<V>>): seq<Link<V>> { View(s, Out) }

  /** The cached counters agree with the list: the degree-consistency invariant. */
  predicate DegreesMatch<V(==)>(side: Side<V>) {
    side.indegree == |ForwardView(side.edges)| && side.outdegree == |BackwardView(side.edges)|
  }

  /** Every link on `me`'s list is one Adjoin could have stored there: a known type, `me` at
      the end the type says and a different vertex at the other end. */
  predicate Anchored<V(==)>(s: seq<Link<V>>, me: V) {
    forall i :: 0 <= i < |s| ==>
      && s[i].kind.Known()
      && (if s[i].kind.ForwardEdge? then s[i].to == me && s[i].from != me
          else s[i].from == me && s[i].to != me)
  }

  /** No undirected link: the lists on which RemoveAdjoin keeps the counters right. */
  predicate DirectedOnly<V(==)>(s: seq<Link<V>>) {
    forall i :: 0 <= i < |s| ==> !s[i].kind.UndirectedEdge?
  }

  /** Number of links of `s` with `u` at one end. */
  function Count<V(==)>(s: seq<Link<V>>, u: V): nat {
    if s == [] then 0 else (if s[0].Touches(u) then 1 else 0) + Count(s[1..], u)
  }

  /** A one-link list touches `u` once or not at all. */
  lemma CountOne<V>(l: Link<V>, u: V)
    ensures Count([l], u) == if l.Touches(u) then 1 else 0
  {
    assert [l][1..] == [];
  }

  /** Index of the first link with `u` at one end, or -1: the scan of FindAdjoin. */
  function FirstTouching<V(==)>(s: seq<Link<V>>, u: V): (i: int)
    ensures -1 <= i < |s|
    ensures i >= 0 ==> s[i].Touches(u) && forall j :: 0 <= j < i ==> !s[j].Touches(u)
    ensures i == -1 ==> forall j :: 0 <= j < |s| ==> !s[j].Touches(u)
  {
    if s == [] then -1
    else if s[0].Touches(u) then 0
    else
      var k := FirstTouching(s[1..], u);
      if k < 0 then -1 else k + 1
  }

  /** FindAdjoin: a vertex is never adjoined to itself; otherwise the first link touching `other`. */
  function FindIn<V(==)>(s: seq<Link<V>>, me: V, other: V): int {
    if me == other then -1 else FirstTouching(s, other)
  }

  predicate Adjoined<V(==)>(s: seq<Link<V>>, me: V, other: V) {
    FindIn(s, me, other) >= 0
  }

  /** What the successful branch of Adjoin does to its own vertex: bump the counter(s) the
      type names, set the endpoints, and push the link. */
  function Attach<V(==)>(side: Side<V>, me: V, them: V, e: Edge): Side<V>
    requires e.kind.Known()
  {
    match e.kind
    case BackwardEdge =>
      Side(side.edges + [Link(BackwardEdge, e.weight, me, them)], side.indegree, side.outdegree + 1)
    case ForwardEdge =>
      Side(side.edges + [Link(ForwardEdge, e.weight, them, me)], side.indegree + 1, side.outdegree)
    case UndirectedEdge =>
      Side(side.edges + [Link(UndirectedEdge, e.weight, me, them)], side.indegree + 1, side.outdegree + 1)
  }

  datatype AdjoinOutcome<V(==)> = AdjoinOutcome(mine: Side<V>, theirs: Side<V>, err: Option<VertexError>)

  /**
   * `me.Adjoin(them, e)`, both recursive steps included: nothing if `me` is already adjoined
   * to `them`; an error before any change if the type is unknown; otherwise attach `e` on
   * `me`, then `them.Adjoin(me, mirror)` attaches the mirror unless `them` already has a link
   * to `me`, and its own recursive call finds `them` on `me` and stops.
   */
  function AdjoinPair<V(==)>(mine: Side<V>, theirs: Side<V>, me: V, them: V, e: Edge): AdjoinOutcome<V>
    requires me != them
  {
    if Adjoined(mine.edges, me, them) then AdjoinOutcome(mine, theirs, None)
    else if !e.kind.Known() then AdjoinOutcome(mine, theirs, Some(UnknownEdgeType(e.kind)))
    else
      var theirs' := if Adjoined(theirs.edges, them, me) then theirs else Attach(theirs, them, me, e.Mirror());
      AdjoinOutcome(Attach(mine, me, them, e), theirs', None)
  }

  /** One step of RemoveAdjoin: drop link `i`, then lower `indegree` if it was a forward
      link and `outdegree` otherwise (an undirected link included). */
  function RemoveStep<V(==)>(side: Side<V>, i: nat): Side<V>
    requires i < |side.edges|
  {
    var forward := side.edges[i].kind.ForwardEdge?;
    Side(SimpleVectors.RemoveAt(side.edges, i),
         if forward then side.indegree - 1 else side.indegree,
         if forward then side.outdegree else side.outdegree - 1)
  }

  /**
   * `me.RemoveAdjoin(them)` with all its recursion: if `me` has a link touching `them`,
   * remove the first one and let `them.RemoveAdjoin(me)` continue; the calls alternate until
   * the vertex whose turn it is has no link to the other. Result: (me's side, them's side).
   */
  function RemovePair<V(==)>(mine: Side<V>, theirs: Side<V>, me: V, them: V): (Side<V>, Side<V>)
    requires me != them
    decreases Count(mine.edges, them) + Count(theirs.edges, me)
  {
    var i := FindIn(mine.edges, me, them);
    if i < 0 then (mine, theirs)
    else
      RemoveAtCount(mine.edges, i, them);
      var mine' := RemoveStep(mine, i);
      var r := RemovePair(theirs, mine', them, me);
      (r.1, r.0)
  }

  /** SetEdge's update: the weight of link `i` and nothing else. */
  function SetWeightAt<V(==)>(side: Side<V>, i: nat, w: int): Side<V>
    requires i < |side.edges|
  {
    side.(edges := side.edges[i := side.edges[i].(weight := w)])
  }

  // ---------------------------------------------------------------------------------
  // Lists, views and counts
  // ---------------------------------------------------------------------------------

  /** Filtering distributes over concatenation: the views keep list order. */
  lemma {:induction false} ViewAppend<V>(a: seq<Link<V>>, b: seq<Link<V>>, d: Direction)
    ensures View(a + b, d) == View(a, d) + View(b, d)
  {
    if a == [] {
      assert a + b == b;
    } else {
      assert (a + b)[1..] == a[1..] + b;
      ViewAppend(a[1..], b, d);
    }
  }

  /** A view holds exactly the links of the list whose type it selects. */
  lemma {:induction false} ViewMembers<V>(s: seq<Link<V>>, d: Direction, l: Link<V>)
    ensures l in View(s, d) <==> l in s && Selects(d, l.kind)
  {
    if s != [] {
      ViewMembers(s[1..], d, l);
      assert s == [s[0]] + s[1..];
    }
  }

  lemma {:induction false} CountAppend<V>(a: seq<Link<V>>, b: seq<Link<V>>, u: V)
    ensures Count(a + b, u) == Count(a, u) + Count(b, u)
  {
    if a == [] {
      assert a + b == b;
    } else {
      assert (a + b)[1..] == a[1..] + b;
      CountAppend(a[1..], b, u);
    }
  }

  /** No link touches `u` exactly when the count is zero, so FindAdjoin's -1 means "none". */
  lemma {:induction false} FirstTouchingCount<V>(s: seq<Link<V>>, u: V)
    ensures FirstTouching(s, u) == -1 <==> Count(s, u) == 0
  {
    if s != [] {
      FirstTouchingCount(s[1..], u);
    }
  }

  /** Removing a link that touches `u` lowers the count for `u` by one and leaves the count
      of any vertex the link does not touch alone. */
  lemma RemoveAtCount<V>(s: seq<Link<V>>, i: nat, u: V)
    requires i < |s|
    ensures s[i].Touches(u) ==> Count(SimpleVectors.RemoveAt(s, i), u) == Count(s, u) - 1
    ensures !s[i].Touches(u) ==> Count(SimpleVectors.RemoveAt(s, i), u) == Count(s, u)
  {
    var front, back := s[..i], s[i + 1..];
    assert SimpleVectors.RemoveAt(s, i) == front + back;
    assert s == front + [s[i]] + back;
    CountAppend(front + [s[i]], back, u);
    CountAppend(front, [s[i]], u);
    CountOne(s[i], u);
    CountAppend(front, back, u);
  }

  lemma RemoveAtView<V>(s: seq<Link<V>>, i: nat, d: Direction)
    requires i < |s|
    ensures |View(SimpleVectors.RemoveAt(s, i), d)| == |View(s, d)| - (if Selects(d, s[i].kind) then 1 else 0)
  {
    assert s == s[..i] + [s[i]] + s[i + 1..];
    ViewAppend(s[..i] + [s[i]], s[i + 1..], d);
    ViewAppend(s[..i], [s[i]], d);
    ViewAppend(s[..i], s[i + 1..], d);
  }

  // ---------------------------------------------------------------------------------
  // Adjoin
  // ---------------------------------------------------------------------------------

  lemma AttachFacts<V>(side: Side<V>, me: V, them: V, e: Edge)
    requires e.kind.Known()
    ensures var s' := Attach(side, me, them, e);
      && |s'.edges| == |side.edges| + 1
      && s'.edges[..|side.edges|] == side.edges
      && s'.edges[|side.edges|].kind == e.kind
      && s'.edges[|side.edges|].weight == e.weight
      && s'.edges[|side.edges|].Touches(them)
      && (forall w :: Count(s'.edges, w) == Count(side.edges, w) + (if w == me || w == them then 1 else 0))
      && (forall d :: View(s'.edges, d) == View(side.edges, d) + View([s'.edges[|side.edges|]], d))
  {
    var s' := Attach(side, me, them, e);
    assert s'.edges == side.edges + [s'.edges[|side.edges|]];
    forall w ensures Count(s'.edges, w) == Count(side.edges, w) + (if w == me || w == them then 1 else 0) {
      CountAppend(side.edges, [s'.edges[|side.edges|]], w);
    }
    forall d ensures View(s'.edges, d) == View(side.edges, d) + View([s'.edges[|side.edges|]], d) {
      ViewAppend(side.edges, [s'.edges[|side.edges|]], d);
    }
  }

  /** Adjoin's counter updates match its list update: a vertex whose counters agreed with
      its list still agrees after attaching, whatever the (known) type. */
  lemma AttachKeepsDegrees<V>(side: Side<V>, me: V, them: V, e: Edge)
    requires e.kind.Known() && DegreesMatch(side)
    ensures DegreesMatch(Attach(side, me, them, e))
  {
    AttachFacts(side, me, them, e);
  }

  lemma AttachKeepsAnchored<V>(side: Side<V>, me: V, them: V, e: Edge)
    requires e.kind.Known() && me != them && Anchored(side.edges, me)
    ensures Anchored(Attach(side, me, them, e).edges, me)
  {
    AttachFacts(side, me, them, e);
  }

  /**
   * Adjoining two vertices with no link between them, with a known type: no error, one
   * link more on each side, both now adjoined to each other, the two new links carry the
   * caller's weight and mutually reversed types, and no other vertex's count changes.
   */
  lemma AdjoinLinksBoth<V>(mine: Side<V>, theirs: Side<V>, me: V, them: V, e: Edge)
    requires me != them && e.kind.Known()
    requires !Adjoined(mine.edges, me, them) && !Adjoined(theirs.edges, them, me)
    ensures var o := AdjoinPair(mine, theirs, me, them, e);
      && o.err == None
      && |o.mine.edges| == |mine.edges| + 1 && o.mine.edges[..|mine.edges|] == mine.edges
      && |o.theirs.edges| == |theirs.edges| + 1 && o.theirs.edges[..|theirs.edges|] == theirs.edges
      && Adjoined(o.mine.edges, me, them) && Adjoined(o.theirs.edges, them, me)
      && o.mine.edges[|mine.edges|].kind == e.kind
      && o.theirs.edges[|theirs.edges|].kind == Reversed(e.kind)
      && o.mine.edges[|mine.edges|].weight == e.weight == o.theirs.edges[|theirs.edges|].weight
      && Count(o.mine.edges, them) == 1 && Count(o.theirs.edges, me) == 1
  {
    var o := AdjoinPair(mine, theirs, me, them, e);
    AttachFacts(mine, me, them, e);
    AttachFacts(theirs, them, me, e.Mirror());
    FirstTouchingCount(mine.edges, them);
    FirstTouchingCount(theirs.edges, me);
    FirstTouchingCount(o.mine.edges, them);
    FirstTouchingCount(o.theirs.edges, me);
  }

  /** Re-adjoining is idempotent: once an Adjoin has succeeded, a second Adjoin of the same
      pair, with any edge, returns no error and changes neither side. */
  lemma AdjoinIdempotent<V>(mine: Side<V>, theirs: Side<V>, me: V, them: V, e: Edge, e2: Edge)
    requires me != them
    requires AdjoinPair(mine, theirs, me, them, e).err == None
    ensures var o := AdjoinPair(mine, theirs, me, them, e);
      AdjoinPair(o.mine, o.theirs, me, them, e2) == AdjoinOutcome(o.mine, o.theirs, None)
  {
    if !Adjoined(mine.edges, me, them) {
      AttachFacts(mine, me, them, e);
      FirstTouchingCount(mine.edges, them);
      var o := AdjoinPair(mine, theirs, me, them, e);
      FirstTouchingCount(o.mine.edges, them);
    }
  }

  /** Adjoin keeps the degree-consistency invariant on both vertices. */
  lemma AdjoinKeepsDegrees<V>(mine: Side<V>, theirs: Side<V>, me: V, them: V, e: Edge)
    requires me != them && DegreesMatch(mine) && DegreesMatch(theirs)
    ensures var o := AdjoinPair(mine, theirs, me, them, e);
      DegreesMatch(o.mine) && DegreesMatch(o.theirs)
  {
    if !Adjoined(mine.edges, me, them) && e.kind.Known() {
      AttachKeepsDegrees(mine, me, them, e);
      AttachKeepsDegrees(theirs, them, me, e.Mirror());
    }
  }

  /** Adjoin keeps both lists anchored: it only ever stores links it set the endpoints of. */
  lemma AdjoinKeepsAnchored<V>(mine: Side<V>, theirs: Side<V>, me: V, them: V, e: Edge)
    requires me != them && Anchored(mine.edges, me) && Anchored(theirs.edges, them)
    ensures var o := AdjoinPair(mine, theirs, me, them, e);
      Anchored(o.mine.edges, me) && Anchored(o.theirs.edges, them)
  {
    if !Adjoined(mine.edges, me, them) && e.kind.Known() {
      AttachKeepsAnchored(mine, me, them, e);
      AttachKeepsAnchored(theirs, them, me, e.Mirror());
    }
  }

  /** Mirror symmetry is kept: if both vertices held equally many links to each other,
      they still do, and the count toward any third vertex is unchanged. */
  lemma AdjoinKeepsSymmetry<V>(mine: Side<V>, theirs: Side<V>, me: V, them: V, e: Edge)
    requires me != them
    requires Count(mine.edges, them) == Count(theirs.edges, me)
    ensures var o := AdjoinPair(mine, theirs, me, them, e);
      && Count(o.mine.edges, them) == Count(o.theirs.edges, me)
      && (forall w :: w != me && w != them ==> Count(o.mine.edges, w) == Count(mine.edges, w))
      && (forall w :: w != me && w != them ==> Count(o.theirs.edges, w) == Count(theirs.edges, w))
  {
    if !Adjoined(mine.edges, me, them) && e.kind.Known() {
      FirstTouchingCount(mine.edges, them);
      FirstTouchingCount(theirs.edges, me);
      AttachFacts(mine, me, them, e);
      AttachFacts(theirs, them, me, e.Mirror());
    }
  }

  /** The undirected case: adjoining two unlinked vertices with an undirected edge raises
      both counters of both vertices by one. */
  lemma AdjoinUndirectedRaisesBoth<V>(mine: Side<V>, theirs: Side<V>, me: V, them: V, w: int)
    requires me != them
    requires !Adjoined(mine.edges, me, them) && !Adjoined(theirs.edges, them, me)
    ensures var o := AdjoinPair(mine, theirs, me, them, Edge(UndirectedEdge, w));
      && o.mine.indegree == mine.indegree + 1 && o.mine.outdegree == mine.outdegree + 1
      && o.theirs.indegree == theirs.indegree + 1 && o.theirs.outdegree == theirs.outdegree + 1
      && o.mine.edges[|mine.edges|].kind == UndirectedEdge
      && o.theirs.edges[|theirs.edges|].kind == UndirectedEdge
  {
  }

  // ---------------------------------------------------------------------------------
  // RemoveAdjoin
  // ---------------------------------------------------------------------------------

  /** One removal step keeps the counters right for a forward or backward link. */
  lemma RemoveStepDirectedKeepsDegrees<V>(side: Side<V>, i: nat)
    requires i < |side.edges| && DegreesMatch(side)
    requires !side.edges[i].kind.UndirectedEdge? && side.edges[i].kind.Known()
    ensures DegreesMatch(RemoveStep(side, i))
  {
    RemoveAtView(side.edges, i, In);
    RemoveAtView(side.edges, i, Out);
  }

  /** For an undirected link it does not: only `outdegree` is lowered, so `indegree` is left
      one higher than the forward view of the list. */
  lemma RemoveStepUndirectedLeavesIndegree<V>(side: Side<V>, i: nat)
    requires i < |side.edges| && DegreesMatch(side)
    requires side.edges[i].kind.UndirectedEdge?
    ensures var s' := RemoveStep(side, i);
      s'.indegree == |ForwardView(s'.edges)| + 1 && s'.outdegree == |BackwardView(s'.edges)|
  {
    RemoveAtView(side.edges, i, In);
    RemoveAtView(side.edges, i, Out);
  }

  /** RemoveAdjoin's step with the counter update mirroring Adjoin's: lower `indegree` for
      a link Adjoin counted as incoming and `outdegree` for one it counted as outgoing, so
      an undirected link lowers both. */
  function RemoveStepBalanced<V(==)>(side: Side<V>, i: nat): Side<V>
    requires i < |side.edges|
  {
    var t := side.edges[i].kind;
    Side(SimpleVectors.RemoveAt(side.edges, i),
         if t.Incoming() then side.indegree - 1 else side.indegree,
         if t.Outgoing() then side.outdegree - 1 else side.outdegree)
  }

  /** The balanced step keeps the degree-consistency invariant for every link type. */
  lemma RemoveStepBalancedKeepsDegrees<V>(side: Side<V>, i: nat)
    requires i < |side.edges| && DegreesMatch(side)
    ensures DegreesMatch(RemoveStepBalanced(side, i))
  {
    RemoveAtView(side.edges, i, In);
    RemoveAtView(side.edges, i, Out);
  }

  lemma RemoveStepKeepsShape<V>(side: Side<V>, i: nat, me: V)
    requires i < |side.edges|
    ensures Anchored(side.edges, me) ==> Anchored(RemoveStep(side, i).edges, me)
    ensures DirectedOnly(side.edges) ==> DirectedOnly(RemoveStep(side, i).edges)
  {
  }

  /**
   * The exact outcome of RemoveAdjoin's alternation on the counts: with `a` links from
   * `me` to `them` and `b` back, it ends with (0, b - a) when a <= b and with
   * (a - b - 1, 0) otherwise. Counts toward any third vertex are untouched.
   */
  lemma {:induction false} RemovePairCounts<V>(mine: Side<V>, theirs: Side<V>, me: V, them: V)
    requires me != them && Anchored(mine.edges, me) && Anchored(theirs.edges, them)
    decreases Count(mine.edges, them) + Count(theirs.edges, me)
    ensures var a, b := Count(mine.edges, them), Count(theirs.edges, me);
      var r := RemovePair(mine, theirs, me, them);
      && Count(r.0.edges, them) == (if a <= b then 0 else a - b - 1)
      && Count(r.1.edges, me) == (if a <= b then b - a else 0)
      && Anchored(r.0.edges, me) && Anchored(r.1.edges, them)
      && (forall w :: w != me && w != them ==> Count(r.0.edges, w) == Count(mine.edges, w))
      && (forall w :: w != me && w != them ==> Count(r.1.edges, w) == Count(theirs.edges, w))
  {
    var i := FindIn(mine.edges, me, them);
    FirstTouchingCount(mine.edges, them);
    if i >= 0 {
      RemoveAtCount(mine.edges, i, them);
      var mine' := RemoveStep(mine, i);
      forall w | w != me && w != them ensures Count(mine'.edges, w) == Count(mine.edges, w) {
        RemoveAtCount(mine.edges, i, w);
      }
      RemovePairCounts(theirs, mine', them, me);
    }
  }

  /** With mirror symmetry (equal counts both ways) RemoveAdjoin leaves no link between the two. */
  lemma RemovePairSevers<V>(mine: Side<V>, theirs: Side<V>, me: V, them: V)
    requires me != them && Anchored(mine.edges, me) && Anchored(theirs.edges, them)
    requires Count(mine.edges, them) == Count(theirs.edges, me)
    ensures var r := RemovePair(mine, theirs, me, them);
      Count(r.0.edges, them) == 0 && Count(r.1.edges, me) == 0
      && !Adjoined(r.0.edges, me, them) && !Adjoined(r.1.edges, them, me)
  {
    RemovePairCounts(mine, theirs, me, them);
    var r := RemovePair(mine, theirs, me, them);
    FirstTouchingCount(r.0.edges, them);
    FirstTouchingCount(r.1.edges, me);
  }

  /** For a single mirrored pair RemoveAdjoin removes exactly the first link on each side
      (the edge and its mirror) and the second recursive call finds nothing. */
  lemma RemovePairSingle<V>(mine: Side<V>, theirs: Side<V>, me: V, them: V)
    requires me != them
    requires Count(mine.edges, them) == 1 && Count(theirs.edges, me) == 1
    ensures var i, j := FindIn(mine.edges, me, them), FindIn(theirs.edges, them, me);
      && 0 <= i < |mine.edges| && 0 <= j < |theirs.edges|
      && RemovePair(mine, theirs, me, them) == (RemoveStep(mine, i), RemoveStep(theirs, j))
  {
    FirstTouchingCount(mine.edges, them);
    FirstTouchingCount(theirs.edges, me);
    var i, j := FindIn(mine.edges, me, them), FindIn(theirs.edges, them, me);
    RemoveAtCount(mine.edges, i, them);
    RemoveAtCount(theirs.edges, j, me);
    var mine' := RemoveStep(mine, i);
    var theirs' := RemoveStep(theirs, j);
    FirstTouchingCount(mine'.edges, them);
    assert RemovePair(mine', theirs', me, them) == (mine', theirs');
  }

  /** On directed-only lists RemoveAdjoin keeps the degree-consistency invariant on both vertices. */
  lemma {:induction false} RemovePairDirectedKeepsDegrees<V>(mine: Side<V>, theirs: Side<V>, me: V, them: V)
    requires me != them
    requires Anchored(mine.edges, me) && Anchored(theirs.edges, them)
    requires DirectedOnly(mine.edges) && DirectedOnly(theirs.edges)
    requires DegreesMatch(mine) && DegreesMatch(theirs)
    decreases Count(mine.edges, them) + Count(theirs.edges, me)
    ensures var r := RemovePair(mine, theirs, me, them);
      && DegreesMatch(r.0) && DegreesMatch(r.1)
      && DirectedOnly(r.0.edges) && DirectedOnly(r.1.edges)
  {
    var i := FindIn(mine.edges, me, them);
    if i >= 0 {
      RemoveAtCount(mine.edges, i, them);
      RemoveStepDirectedKeepsDegrees(mine, i);
      RemoveStepKeepsShape(mine, i, me);
      RemovePairDirectedKeepsDegrees(theirs, RemoveStep(mine, i), them, me);
    }
  }

  // ---------------------------------------------------------------------------------
  // SetEdge
  // ---------------------------------------------------------------------------------

  /** SetEdge changes only one link's weight: list length, types, endpoints, counts and the
      degree-consistency invariant all stay as they were. */
  lemma SetWeightKeeps<V>(side: Side<V>, i: nat, w: int, me: V)
    requires i < |side.edges|
    ensures var s' := SetWeightAt(side, i, w);
      && |s'.edges| == |side.edges| && s'.edges[i].weight == w
      && s'.edges[i].kind == side.edges[i].kind
      && s'.edges[i].from == side.edges[i].from && s'.edges[i].to == side.edges[i].to
      && (forall j :: 0 <= j < |side.edges| && j != i ==> s'.edges[j] == side.edges[j])
      && (forall u :: Count(s'.edges, u) == Count(side.edges, u))
      && (forall u :: KindsToward(s'.edges, u) == KindsToward(side.edges, u))
      && (DegreesMatch(side) ==> DegreesMatch(s'))
      && (Anchored(side.edges, me) ==> Anchored(s'.edges, me))
  {
    var s := side.edges;
    var s' := SetWeightAt(side, i, w).edges;
    assert s == s[..i] + [s[i]] + s[i + 1..];
    assert s' == s[..i] + [s'[i]] + s[i + 1..];
    forall u ensures KindsToward(s', u) == KindsToward(s, u) && Count(s', u) == Count(s, u) {
      KindsAppend(s[..i] + [s[i]], s[i + 1..], u);
      KindsAppend(s[..i], [s[i]], u);
      KindsAppend(s[..i] + [s'[i]], s[i + 1..], u);
      KindsAppend(s[..i], [s'[i]], u);
      KindsOne(s[i], u);
      KindsOne(s'[i], u);
    }
    forall d ensures |View(s', d)| == |View(s, d)| {
      ViewAppend(s[..i] + [s[i]], s[i + 1..], d);
      ViewAppend(s[..i], [s[i]], d);
      ViewAppend(s[..i] + [s'[i]], s[i + 1..], d);
      ViewAppend(s[..i], [s'[i]], d);
    }
  }

  // ---------------------------------------------------------------------------------
  // The links between two vertices, with their types
  // ---------------------------------------------------------------------------------

  /** The types of the links of `s` with `u` at one end, in list order. */
  function KindsToward<V(==)>(s: seq<Link<V>>, u: V): (r: seq<EdgeType>)
    ensures |r| == Count(s, u)
  {
    if s == [] then [] else (if s[0].Touches(u) then [s[0].kind] else []) + KindsToward(s[1..], u)
  }

  /**
   * The typed mirror between `u`, holding the list `su`, and `w`, holding `sw`: at most
   * one link between them on each side, as many on one side as on the other, and when
   * there is one, its type on `w`'s side is the reverse of its type on `u`'s side, as
   * Adjoin builds them.
   */
  predicate TypedMirror<V(==)>(su: seq<Link<V>>, w: V, sw: seq<Link<V>>, u: V) {
    var ku, kw := KindsToward(su, w), KindsToward(sw, u);
    |ku| <= 1 && |kw| == |ku| && (|ku| == 1 ==> ku[0].Known() && kw[0] == Reversed(ku[0]))
  }

  /** The typed mirror reads the same from either vertex. */
  lemma TypedMirrorSymmetric<V>(su: seq<Link<V>>, w: V, sw: seq<Link<V>>, u: V)
    requires TypedMirror(su, w, sw, u)
    ensures TypedMirror(sw, u, su, w)
  {
  }

  lemma {:induction false} KindsAppend<V>(a: seq<Link<V>>, b: seq<Link<V>>, u: V)
    ensures KindsToward(a + b, u) == KindsToward(a, u) + KindsToward(b, u)
  {
    if a == [] {
      assert a + b == b;
    } else {
      assert (a + b)[1..] == a[1..] + b;
      KindsAppend(a[1..], b, u);
    }
  }

  lemma KindsOne<V>(l: Link<V>, u: V)
    ensures KindsToward([l], u) == if l.Touches(u) then [l.kind] else []
  {
    assert [l][1..] == [];
  }

  /** Attaching appends the new link's type to the types toward each of its two endpoints,
      and to no other. */
  lemma AttachKinds<V>(side: Side<V>, me: V, them: V, e: Edge)
    requires e.kind.Known()
    ensures forall w ::
      KindsToward(Attach(side, me, them, e).edges, w) == KindsToward(side.edges, w) + (if w == me || w == them then [e.kind] else [])
  {
    var s' := Attach(side, me, them, e).edges;
    var l := s'[|side.edges|];
    assert s' == side.edges + [l];
    forall w ensures KindsToward(s', w) == (KindsToward(side.edges, w) + if w == me || w == them then [e.kind] else []) {
      KindsAppend(side.edges, [l], w);
      KindsOne(l, w);
    }
  }

  /**
   * Adjoin keeps the typed mirror between the two vertices: a fresh pair gains one link on
   * each side, the edge and its reversed mirror, and a linked pair is left alone. The types
   * of the links toward every third vertex stay as they were.
   */
  lemma AdjoinKeepsTyped<V>(mine: Side<V>, theirs: Side<V>, me: V, them: V, e: Edge)
    requires me != them && TypedMirror(mine.edges, them, theirs.edges, me)
    ensures var o := AdjoinPair(mine, theirs, me, them, e);
      && TypedMirror(o.mine.edges, them, o.theirs.edges, me)
      && (forall w :: w != me && w != them ==> KindsToward(o.mine.edges, w) == KindsToward(mine.edges, w))
      && (forall w :: w != me && w != them ==> KindsToward(o.theirs.edges, w) == KindsToward(theirs.edges, w))
  {
    if !Adjoined(mine.edges, me, them) && e.kind.Known() {
      FirstTouchingCount(mine.edges, them);
      FirstTouchingCount(theirs.edges, me);
      AttachKinds(mine, me, them, e);
      AttachKinds(theirs, them, me, e.Mirror());
    }
  }

  // ---------------------------------------------------------------------------------
  // A list without the links toward one vertex
  // ---------------------------------------------------------------------------------

  /** The links of `s` that do not touch `u`, in list order. */
  function Without<V(==)>(s: seq<Link<V>>, u: V): (r: seq<Link<V>>)
    ensures |r| == |s| - Count(s, u)
  {
    if s == [] then [] else (if s[0].Touches(u) then [] else [s[0]]) + Without(s[1..], u)
  }

  lemma {:induction false} WithoutAppend<V>(a: seq<Link<V>>, b: seq<Link<V>>, u: V)
    ensures Without(a + b, u) == Without(a, u) + Without(b, u)
  {
    if a == [] {
      assert a + b == b;
    } else {
      assert (a + b)[1..] == a[1..] + b;
      WithoutAppend(a[1..], b, u);
    }
  }

  /** Nothing touches `u` any more, and pruning again changes nothing. */
  lemma {:induction false} WithoutCount<V>(s: seq<Link<V>>, u: V)
    ensures Count(Without(s, u), u) == 0
    ensures Without(Without(s, u), u) == Without(s, u)
  {
    if s != [] {
      WithoutCount(s[1..], u);
      var head := if s[0].Touches(u) then [] else [s[0]];
      CountAppend(head, Without(s[1..], u), u);
      WithoutAppend(head, Without(s[1..], u), u);
      if !s[0].Touches(u) {
        CountOne(s[0], u);
        assert Without(head, u) == head by { assert head[1..] == []; }
      }
    }
  }

  /** A list with no link touching `u` is its own pruning. */
  lemma {:induction false} WithoutNone<V>(s: seq<Link<V>>, u: V)
    requires Count(s, u) == 0
    ensures Without(s, u) == s
  {
    if s != [] {
      WithoutNone(s[1..], u);
    }
  }

  /** Cutting one link that touches `u` out of a list does not change the pruned list. */
  lemma WithoutSplice<V>(front: seq<Link<V>>, l: Link<V>, back: seq<Link<V>>, u: V)
    requires l.Touches(u)
    ensures Without(front + [l] + back, u) == Without(front + back, u)
  {
    assert Without([l], u) == [] by { assert [l][1..] == []; }
    WithoutAppend(front + [l], back, u);
    WithoutAppend(front, [l], u);
    WithoutAppend(front, back, u);
  }

  /** Removing one link that touches `u` does not change the pruned list. */
  lemma WithoutRemoveTouching<V>(s: seq<Link<V>>, i: nat, u: V)
    requires i < |s| && s[i].Touches(u)
    ensures Without(SimpleVectors.RemoveAt(s, i), u) == Without(s, u)
  {
    assert SimpleVectors.RemoveAt(s, i) == s[..i] + s[i + 1..];
    assert s == s[..i] + [s[i]] + s[i + 1..];
    WithoutSplice(s[..i], s[i], s[i + 1..], u);
  }

  /** On a list anchored at `me`, pruning the links toward `u` keeps the links toward every
      vertex other than `me` and `u`, types included. */
  lemma {:induction false} WithoutKinds<V>(s: seq<Link<V>>, me: V, u: V, w: V)
    requires Anchored(s, me) && u != me && w != me && w != u
    ensures KindsToward(Without(s, u), w) == KindsToward(s, w)
  {
    if s != [] {
      WithoutKinds(s[1..], me, u, w);
      var head := if s[0].Touches(u) then [] else [s[0]];
      KindsAppend(head, Without(s[1..], u), w);
      if !s[0].Touches(u) {
        KindsOne(s[0], w);
      }
    }
  }

  /**
   * When `me` holds as many links to `them` as `them` holds back, or one more, RemoveAdjoin's
   * alternation removes every link between the two and nothing else: each list ends as
   * itself without the links touching the other vertex.
   */
  lemma {:induction false} RemovePairWithout<V>(mine: Side<V>, theirs: Side<V>, me: V, them: V)
    requires me != them
    requires Count(mine.edges, them) == Count(theirs.edges, me) || Count(mine.edges, them) == Count(theirs.edges, me) + 1
    decreases Count(mine.edges, them) + Count(theirs.edges, me)
    ensures var r := RemovePair(mine, theirs, me, them);
      r.0.edges == Without(mine.edges, them) && r.1.edges == Without(theirs.edges, me)
  {
    var i := FindIn(mine.edges, me, them);
    FirstTouchingCount(mine.edges, them);
    if i < 0 {
      WithoutNone(mine.edges, them);
      WithoutNone(theirs.edges, me);
    } else {
      RemoveAtCount(mine.edges, i, them);
      WithoutRemoveTouching(mine.edges, i, them);
      RemovePairWithout(theirs, RemoveStep(mine, i), them, me);
    }
  }

  // ---------------------------------------------------------------------------------
  // Adjoining a vertex to itself
  // ---------------------------------------------------------------------------------

  /** The as-written Adjoin of a vertex with itself, `n` calls deep: FindAdjoin reports no
      link (it returns -1 for the vertex itself), so each call attaches its edge and calls
      Adjoin again with the mirror. */
  function SelfAdjoinLevels<V(==)>(side: Side<V>, me: V, e: Edge, n: nat): Side<V>
    requires e.kind.Known()
    decreases n
  {
    if n == 0 then side else SelfAdjoinLevels(Attach(side, me, me, e), me, e.Mirror(), n - 1)
  }

  /** As written, Adjoin of a vertex with itself never reaches its base case: at every depth
      `n` the lookup still reports no link, the list has grown by `n` links from the vertex
      to itself, and from the first call on the list is no longer anchored. */
  lemma {:induction false} SelfAdjoinNeverStops<V>(side: Side<V>, me: V, e: Edge, n: nat)
    requires e.kind.Known()
    decreases n
    ensures var s := SelfAdjoinLevels(side, me, e, n).edges;
      && FindIn(s, me, me) == -1
      && |s| == |side.edges| + n
      && s[..|side.edges|] == side.edges
      && (forall j :: |side.edges| <= j < |s| ==> s[j].from == me && s[j].to == me)
      && (n > 0 ==> !Anchored(s, me))
  {
    if n > 0 {
      var side' := Attach(side, me, me, e);
      SelfAdjoinNeverStops(side', me, e.Mirror(), n - 1);
      var s := SelfAdjoinLevels(side, me, e, n).edges;
      assert s[..|side'.edges|] == side'.edges;
      assert s[..|side.edges|] == side'.edges[..|side.edges|];
      assert s[|side.edges|] == side'.edges[|side.edges|];
    }
  }

  /** Adjoin with the check FindAdjoin's special case evidently stood for: a vertex is
      refused as its own neighbour before anything changes. */
  function AdjoinChecked<V(==)>(mine: Side<V>, theirs: Side<V>, me: V, them: V, e: Edge): AdjoinOutcome<V>
  {
    if me == them then AdjoinOutcome(mine, theirs, Some(SelfAdjoin)) else AdjoinPair(mine, theirs, me, them, e)
  }

  /** With the check, Adjoin keeps both lists anchored and both counters consistent for
      every pair of arguments, a vertex and itself included, and the self-adjoin is the
      one call refused with `SelfAdjoin`. */
  lemma AdjoinCheckedKeepsShape<V>(mine: Side<V>, theirs: Side<V>, me: V, them: V, e: Edge)
    requires Anchored(mine.edges, me) && Anchored(theirs.edges, them)
    requires DegreesMatch(mine) && DegreesMatch(theirs)
    ensures var o := AdjoinChecked(mine, theirs, me, them, e);
      && Anchored(o.mine.edges, me) && Anchored(o.theirs.edges, them)
      && DegreesMatch(o.mine) && DegreesMatch(o.theirs)
      && (o.err == Some(SelfAdjoin) <==> me == them)
  {
    if me != them {
      AdjoinKeepsAnchored(mine, theirs, me, them, e);
      AdjoinKeepsDegrees(mine, theirs, me, them, e);
    }
  }
}
