/**
 * `encode_egraph` (rejoice/lib.py): an e-graph becomes a feature graph.
 * Eclass rows come first in class order, then one row per enode in
 * class-then-node order. Each enode gets a membership edge from its eclass
 * row, and one argument edge to each child eclass row. The library's
 * `add_remaining_self_loops` then adds one self-loop per node.
 */
module EGraphEncoder {
  import opened Wrappers
  import opened NodeFeatures

  /** One entry of `classes()`: an eclass id and the enodes it lists (its analysis data is unused). */
  datatype EClass = EClass(id: ClassId, nodes: seq<Node>)

  /** `classes()`, in the dictionary's iteration order. */
  type EGraph = seq<EClass>

  /** Dictionary keys are unique. */
  predicate DistinctIds(g: EGraph)
  {
    forall i, j :: 0 <= i < j < |g| ==> g[i].id != g[j].id
  }

  function Ids(g: EGraph): set<ClassId>
  {
    set c | c in g :: c.id
  }

  /** `eclass_to_ind`: each id to the row of its eclass; a later entry would overwrite an earlier one. */
  function IndexMap(g: EGraph): (m: map<ClassId, nat>)
    ensures forall id :: id in m ==> m[id] < |g|
  {
    if |g| == 0 then map[] else IndexMap(g[..|g| - 1])[g[|g| - 1].id := |g| - 1]
  }

  lemma IdsSnoc(g: EGraph)
    requires |g| > 0
    ensures Ids(g) == Ids(g[..|g| - 1]) + {g[|g| - 1].id}
  {
    assert forall c :: c in g <==> c in g[..|g| - 1] || c == g[|g| - 1];
  }

  /** Every eclass id has a row, holding an eclass of that id, and no later eclass has that id. */
  lemma {:induction false} IndexMapSpec(g: EGraph)
    ensures IndexMap(g).Keys == Ids(g)
    ensures forall id :: id in IndexMap(g) ==> g[IndexMap(g)[id]].id == id
    ensures forall id, j :: id in IndexMap(g) && IndexMap(g)[id] < j < |g| ==> g[j].id != id
  {
    if |g| > 0 {
      var n := |g|;
      var g' := g[..n - 1];
      var m', m := IndexMap(g'), IndexMap(g);
      var last := g[n - 1].id;
      assert m == m'[last := n - 1];
      IndexMapSpec(g');
      IdsSnoc(g);
      forall id | id in m
        ensures g[m[id]].id == id
      {
        if id != last {
          assert g[m'[id]] == g'[m'[id]];
        }
      }
      forall id, j | id in m && m[id] < j < n
        ensures g[j].id != id
      {
        if id != last && j < n - 1 {
          assert g[j] == g'[j];
        }
      }
    }
  }

  /** The row an id maps to holds the eclass of that id. */
  lemma IndexMapOwner(g: EGraph, id: ClassId)
    requires id in IndexMap(g)
    ensures g[IndexMap(g)[id]].id == id
  {
    IndexMapSpec(g);
  }

  /** With unique ids, eclass `i` sits at row `i`. */
  lemma IndexMapDistinct(g: EGraph, i: nat)
    requires DistinctIds(g) && i < |g|
    ensures g[i].id in IndexMap(g) && IndexMap(g)[g[i].id] == i
  {
    IndexMapSpec(g);
    assert g[i] in g;
  }

  /** An enode together with the id of the eclass that lists it. */
  datatype Slot = Slot(classId: ClassId, node: Node)

  function ClassSlots(c: EClass): (r: seq<Slot>)
    ensures |r| == |c.nodes|
    ensures forall k :: 0 <= k < |r| ==> r[k] == Slot(c.id, c.nodes[k])
  {
    seq(|c.nodes|, k requires 0 <= k < |c.nodes| => Slot(c.id, c.nodes[k]))
  }

  /** The enodes in the order the nested loops visit them. */
  function Slots(g: EGraph): seq<Slot>
  {
    if |g| == 0 then [] else ClassSlots(g[0]) + Slots(g[1..])
  }

  /** The number of enodes listed by the first `i` eclasses. */
  function Offset(g: EGraph, i: nat): nat
    requires i <= |g|
  {
    if i == 0 then 0 else |g[0].nodes| + Offset(g[1..], i - 1)
  }

  /** Node `k` of eclass `i` is enode number `Offset(g, i) + k`, and every enode is one of these. */
  lemma {:induction false} SlotsPosition(g: EGraph, i: nat, k: nat)
    requires i < |g| && k < |g[i].nodes|
    ensures Offset(g, i) + k < |Slots(g)|
    ensures Slots(g)[Offset(g, i) + k] == Slot(g[i].id, g[i].nodes[k])
  {
    if i > 0 {
      SlotsPosition(g[1..], i - 1, k);
    }
  }

  lemma {:induction false} SlotsCount(g: EGraph)
    ensures |Slots(g)| == Offset(g, |g|)
  {
    if |g| > 0 {
      SlotsCount(g[1..]);
    }
  }

  /** Every enode is node `k` of some eclass `i`, at position `Offset(g, i) + k`. */
  lemma {:induction false} SlotsOwner(g: EGraph, p: nat) returns (i: nat, k: nat)
    requires p < |Slots(g)|
    ensures i < |g| && k < |g[i].nodes| && p == Offset(g, i) + k
  {
    if p < |g[0].nodes| {
      i, k := 0, p;
    } else {
      var i', k' := SlotsOwner(g[1..], p - |g[0].nodes|);
      i, k := i' + 1, k';
    }
  }

  lemma {:induction false} SlotClassIds(g: EGraph)
    ensures forall k :: 0 <= k < |Slots(g)| ==> Slots(g)[k].classId in Ids(g)
  {
    if |g| > 0 {
      SlotClassIds(g[1..]);
      assert g[0] in g;
      forall k | 0 <= k < |Slots(g)|
        ensures Slots(g)[k].classId in Ids(g)
      {
        if k >= |g[0].nodes| {
          var c := g[1..][0];
          assert Slots(g)[k] == Slots(g[1..])[k - |g[0].nodes|];
          assert Ids(g[1..]) <= Ids(g) by {
            forall c | c in g[1..] ensures c in g { }
          }
        }
      }
    }
  }

  /** The child eclasses an enode points at: none for a scalar, the operator's arguments otherwise. */
  function Children(n: Node): seq<ClassId>
  {
    if n.Op? then n.children else []
  }

  function ChildCount(slots: seq<Slot>): nat
  {
    if |slots| == 0 then 0 else |Children(slots[0].node)| + ChildCount(slots[1..])
  }

  datatype Edge = Edge(src: nat, dst: nat, attr: seq<real>)

  /** Attribute of an eclass-to-enode edge. */
  const MembershipAttr: seq<real> := [0.0, 1.0]
  /** Attribute of an enode-to-child edge. */
  const ArgumentAttr: seq<real> := [1.0, 0.0]

  /** `c` is the first child, in argument order, that has no row. */
  predicate FirstMissing(idx: map<ClassId, nat>, cs: seq<ClassId>, c: ClassId)
  {
    exists k :: 0 <= k < |cs| && cs[k] == c && c !in idx && forall j :: 0 <= j < k ==> cs[j] in idx
  }

  /** The argument edges of the enode at row `own`, once every child has a row. */
  function ArgEdges(idx: map<ClassId, nat>, own: nat, cs: seq<ClassId>): (r: seq<Edge>)
    requires forall c :: c in cs ==> c in idx
    ensures |r| == |cs|
  {
    seq(|cs|, k requires 0 <= k < |cs| => Edge(own, idx[cs[k]], ArgumentAttr))
  }

  /**
   * The argument edges of the enode at row `own`, one per child in argument
   * order, failing at the first child with no row.
   */
  function ArgumentEdges(idx: map<ClassId, nat>, own: nat, cs: seq<ClassId>): (r: Result<seq<Edge>, EncodeError>)
    ensures r.Ok? <==> forall c :: c in cs ==> c in idx
    ensures r.Ok? ==> r.value == ArgEdges(idx, own, cs)
    ensures r.Err? ==> r.error.MissingChild? && FirstMissing(idx, cs, r.error.id)
  {
    if |cs| == 0 then Ok([])
    else if cs[0] !in idx then
      assert 0 < |cs| && cs[0] == cs[0];
      Err(MissingChild(cs[0]))
    else
      match ArgumentEdges(idx, own, cs[1..])
      case Err(e) =>
        assert exists k :: 0 <= k < |cs| && cs[k] == e.id && e.id !in idx && forall j :: 0 <= j < k ==> cs[j] in idx by {
          var k :| 0 <= k < |cs[1..]| && cs[1..][k] == e.id && e.id !in idx && forall j :: 0 <= j < k ==> cs[1..][j] in idx;
          assert cs[k + 1] == e.id;
          assert forall j :: 0 <= j < k + 1 ==> cs[j] in idx by {
            forall j | 0 <= j < k + 1 ensures cs[j] in idx {
              if j > 0 { assert cs[j] == cs[1..][j - 1]; }
            }
          }
        }
        Err(e)
      case Ok(rest) =>
        assert [Edge(own, idx[cs[0]], ArgumentAttr)] + rest == ArgEdges(idx, own, cs);
        Ok([Edge(own, idx[cs[0]], ArgumentAttr)] + rest)
  }

  /** The enode can be encoded and all its children have rows. */
  predicate SlotEncodable(ops: Vocabulary, idx: map<ClassId, nat>, s: Slot)
  {
    EncodeNode(ops, s.node).Ok? && forall c :: c in Children(s.node) ==> c in idx
  }

  /** `err` is the exception the enode raises: its unknown operator first, else its first missing child. */
  predicate SlotFailure(ops: Vocabulary, idx: map<ClassId, nat>, s: Slot, err: EncodeError)
  {
    if EncodeNode(ops, s.node).Err? then err == UnknownOperator(s.node.kind)
    else err.MissingChild? && FirstMissing(idx, Children(s.node), err.id)
  }

  predicate SlotsInIndex(idx: map<ClassId, nat>, slots: seq<Slot>)
  {
    forall k :: 0 <= k < |slots| ==> slots[k].classId in idx
  }

  /** Every child of every enode has a row. */
  predicate ChildrenIndexed(idx: map<ClassId, nat>, slots: seq<Slot>)
  {
    forall k, c :: 0 <= k < |slots| && c in Children(slots[k].node) ==> c in idx
  }

  /**
   * The enode loop of `encode_egraph`, starting at row `base`: per enode, its
   * feature row, then its membership edge, then its argument edges.
   */
  function EncodeSlots(ops: Vocabulary, idx: map<ClassId, nat>, slots: seq<Slot>, base: nat)
    : (r: Result<(seq<Row>, seq<Edge>), EncodeError>)
    requires SlotsInIndex(idx, slots)
    decreases |slots|
  {
    if |slots| == 0 then Ok(([], []))
    else
      var s := slots[0];
      var row :- EncodeNode(ops, s.node);
      var args :- ArgumentEdges(idx, base, Children(s.node));
      var rest :- EncodeSlots(ops, idx, slots[1..], base + 1);
      Ok(([row] + rest.0, [Edge(idx[s.classId], base, MembershipAttr)] + args + rest.1))
  }

  /** The enode loop succeeds exactly when every enode can be encoded and all its children have rows. */
  lemma {:induction false} EncodeSlotsSucceeds(ops: Vocabulary, idx: map<ClassId, nat>, slots: seq<Slot>, base: nat)
    requires SlotsInIndex(idx, slots)
    ensures EncodeSlots(ops, idx, slots, base).Ok? <==> forall k :: 0 <= k < |slots| ==> SlotEncodable(ops, idx, slots[k])
  {
    if |slots| > 0 {
      EncodeSlotsSucceeds(ops, idx, slots[1..], base + 1);
      if forall k :: 0 <= k < |slots[1..]| ==> SlotEncodable(ops, idx, slots[1..][k]) {
        assert forall k :: 0 < k < |slots| ==> slots[k] == slots[1..][k - 1];
      } else {
        var k :| 0 <= k < |slots[1..]| && !SlotEncodable(ops, idx, slots[1..][k]);
        assert slots[k + 1] == slots[1..][k];
      }
    }
  }

  /** On success the loop yields one row per enode, that enode's `encode_node` row. */
  lemma {:induction false} EncodeSlotsRows(ops: Vocabulary, idx: map<ClassId, nat>, slots: seq<Slot>, base: nat)
    requires SlotsInIndex(idx, slots)
    requires EncodeSlots(ops, idx, slots, base).Ok?
    ensures |EncodeSlots(ops, idx, slots, base).value.0| == |slots|
    ensures forall k :: 0 <= k < |slots| ==> EncodeNode(ops, slots[k].node) == Ok(EncodeSlots(ops, idx, slots, base).value.0[k])
  {
    if |slots| > 0 {
      EncodeSlotsRows(ops, idx, slots[1..], base + 1);
      var rows := EncodeSlots(ops, idx, slots, base).value.0;
      var rest := EncodeSlots(ops, idx, slots[1..], base + 1).value.0;
      assert rows == [EncodeNode(ops, slots[0].node).value] + rest;
      forall k | 0 < k < |slots|
        ensures EncodeNode(ops, slots[k].node) == Ok(rows[k])
      {
        assert slots[k] == slots[1..][k - 1];
      }
    }
  }

  /** A failing enode loop reports the exception of the first enode that cannot be encoded. */
  lemma {:induction false} EncodeSlotsError(ops: Vocabulary, idx: map<ClassId, nat>, slots: seq<Slot>, base: nat)
    requires SlotsInIndex(idx, slots)
    requires EncodeSlots(ops, idx, slots, base).Err?
    ensures exists k :: (&& 0 <= k < |slots|
                         && (forall j :: 0 <= j < k ==> SlotEncodable(ops, idx, slots[j]))
                         && SlotFailure(ops, idx, slots[k], EncodeSlots(ops, idx, slots, base).error))
  {
    var err := EncodeSlots(ops, idx, slots, base).error;
    var s := slots[0];
    if SlotEncodable(ops, idx, s) {
      EncodeSlotsError(ops, idx, slots[1..], base + 1);
      var k :| 0 <= k < |slots[1..]| && (forall j :: 0 <= j < k ==> SlotEncodable(ops, idx, slots[1..][j]))
        && SlotFailure(ops, idx, slots[1..][k], err);
      assert forall j :: 0 <= j < k + 1 ==> SlotEncodable(ops, idx, slots[j]) by {
        forall j | 0 <= j < k + 1 ensures SlotEncodable(ops, idx, slots[j]) {
          if j > 0 { assert slots[j] == slots[1..][j - 1]; }
        }
      }
      assert SlotFailure(ops, idx, slots[k + 1], err);
    } else {
      assert SlotFailure(ops, idx, slots[0], err);
    }
  }

  /** The edges the enode loop emits once every child has a row: membership edge, then argument edges, per enode. */
  function SlotEdges(idx: map<ClassId, nat>, slots: seq<Slot>, base: nat): seq<Edge>
    requires SlotsInIndex(idx, slots) && ChildrenIndexed(idx, slots)
    decreases |slots|
  {
    if |slots| == 0 then []
    else
      assert forall k :: 0 <= k < |slots| - 1 ==> slots[1..][k] == slots[k + 1];
      [Edge(idx[slots[0].classId], base, MembershipAttr)] + ArgEdges(idx, base, Children(slots[0].node))
        + SlotEdges(idx, slots[1..], base + 1)
  }

  /** A successful enode loop had every child resolved, and its edges are `SlotEdges`. */
  lemma {:induction false} EncodeSlotsEdges(ops: Vocabulary, idx: map<ClassId, nat>, slots: seq<Slot>, base: nat)
    requires SlotsInIndex(idx, slots)
    requires EncodeSlots(ops, idx, slots, base).Ok?
    ensures ChildrenIndexed(idx, slots)
    ensures EncodeSlots(ops, idx, slots, base).value.1 == SlotEdges(idx, slots, base)
  {
    if |slots| > 0 {
      var cs := Children(slots[0].node);
      var args := ArgumentEdges(idx, base, cs).value;
      EncodeSlotsEdges(ops, idx, slots[1..], base + 1);
      assert forall k, c :: 0 < k < |slots| && c in Children(slots[k].node) ==> c in idx by {
        forall k, c | 0 < k < |slots| && c in Children(slots[k].node) ensures c in idx {
          assert slots[k] == slots[1..][k - 1];
        }
      }
      assert args == ArgEdges(idx, base, cs);
    }
  }

  /** Number of membership edges into row `d`. */
  function MembershipInto(edges: seq<Edge>, d: nat): nat
  {
    if |edges| == 0 then 0
    else (if edges[0].attr == MembershipAttr && edges[0].dst == d then 1 else 0) + MembershipInto(edges[1..], d)
  }

  lemma {:induction false} MembershipIntoAppend(a: seq<Edge>, b: seq<Edge>, d: nat)
    ensures MembershipInto(a + b, d) == MembershipInto(a, d) + MembershipInto(b, d)
  {
    if |a| > 0 {
      assert (a + b)[1..] == a[1..] + b;
      MembershipIntoAppend(a[1..], b, d);
    } else {
      assert a + b == b;
    }
  }

  lemma {:induction false} MembershipIntoNone(edges: seq<Edge>, d: nat)
    requires forall e :: e in edges && e.attr == MembershipAttr ==> e.dst != d
    ensures MembershipInto(edges, d) == 0
  {
    if |edges| > 0 {
      assert edges[0] in edges;
      assert forall e :: e in edges[1..] ==> e in edges;
      MembershipIntoNone(edges[1..], d);
    }
  }

  lemma {:induction false} MembershipIntoWitness(edges: seq<Edge>, d: nat)
    requires MembershipInto(edges, d) > 0
    ensures exists e :: e in edges && e.attr == MembershipAttr && e.dst == d
  {
    if edges[0].attr != MembershipAttr || edges[0].dst != d {
      MembershipIntoWitness(edges[1..], d);
      var e :| e in edges[1..] && e.attr == MembershipAttr && e.dst == d;
      assert e in edges;
    } else {
      assert edges[0] in edges;
    }
  }

  /**
   * Where an edge of the enode loop may point: a membership edge runs from
   * the row of the eclass listing the enode into the enode's own row; an
   * argument edge runs from an enode row to the row of one of its children.
   */
  predicate Placed(idx: map<ClassId, nat>, slots: seq<Slot>, base: nat, e: Edge)
  {
    || (&& e.attr == MembershipAttr
        && base <= e.dst < base + |slots|
        && slots[e.dst - base].classId in idx
        && e.src == idx[slots[e.dst - base].classId])
    || (&& e.attr == ArgumentAttr
        && base <= e.src < base + |slots|
        && exists c :: c in Children(slots[e.src - base].node) && c in idx && e.dst == idx[c])
  }

  lemma PlacedShift(idx: map<ClassId, nat>, slots: seq<Slot>, base: nat, e: Edge)
    requires |slots| > 0 && Placed(idx, slots[1..], base + 1, e)
    ensures Placed(idx, slots, base, e)
  {
    if e.attr == MembershipAttr {
      assert slots[1..][e.dst - (base + 1)] == slots[e.dst - base];
    } else {
      assert slots[1..][e.src - (base + 1)] == slots[e.src - base];
    }
  }

  /** Unfolds one step of `SlotEdges`: the head's membership edge, its argument edges, then the rest. */
  lemma SlotEdgesStep(idx: map<ClassId, nat>, slots: seq<Slot>, base: nat)
    requires SlotsInIndex(idx, slots) && ChildrenIndexed(idx, slots) && |slots| > 0
    ensures SlotsInIndex(idx, slots[1..]) && ChildrenIndexed(idx, slots[1..])
    ensures forall c :: c in Children(slots[0].node) ==> c in idx
    ensures SlotEdges(idx, slots, base)
      == [Edge(idx[slots[0].classId], base, MembershipAttr)] + ArgEdges(idx, base, Children(slots[0].node))
        + SlotEdges(idx, slots[1..], base + 1)
  {
    assert forall k :: 0 <= k < |slots| - 1 ==> slots[1..][k] == slots[k + 1];
  }

  /** The enode loop emits one membership edge per enode and one argument edge per child. */
  lemma {:induction false} SlotEdgesCount(idx: map<ClassId, nat>, slots: seq<Slot>, base: nat)
    requires SlotsInIndex(idx, slots) && ChildrenIndexed(idx, slots)
    ensures |SlotEdges(idx, slots, base)| == |slots| + ChildCount(slots)
  {
    if |slots| > 0 {
      SlotEdgesStep(idx, slots, base);
      SlotEdgesCount(idx, slots[1..], base + 1);
    }
  }

  /** Every edge of the enode loop is a membership edge or an argument edge, placed as `Placed` says. */
  lemma {:induction false} SlotEdgesPlaced(idx: map<ClassId, nat>, slots: seq<Slot>, base: nat)
    requires SlotsInIndex(idx, slots) && ChildrenIndexed(idx, slots)
    ensures forall e :: e in SlotEdges(idx, slots, base) ==> Placed(idx, slots, base, e)
  {
    if |slots| > 0 {
      SlotEdgesStep(idx, slots, base);
      var cs := Children(slots[0].node);
      var args := ArgEdges(idx, base, cs);
      var rest := SlotEdges(idx, slots[1..], base + 1);
      SlotEdgesPlaced(idx, slots[1..], base + 1);
      forall e | e in SlotEdges(idx, slots, base)
        ensures Placed(idx, slots, base, e)
      {
        if e in rest {
          PlacedShift(idx, slots, base, e);
        } else if e in args {
          var k :| 0 <= k < |args| && args[k] == e;
          assert cs[k] in cs && e.dst == idx[cs[k]];
        }
      }
    }
  }

  /** One enode's own edges: its membership edge into its row, then argument edges only. */
  lemma MembershipHead(m: Edge, args: seq<Edge>, d: nat)
    requires m.attr == MembershipAttr
    requires forall e :: e in args ==> e.attr == ArgumentAttr
    ensures MembershipInto([m] + args, d) == (if m.dst == d then 1 else 0)
  {
    MembershipIntoAppend([m], args, d);
    MembershipIntoNone(args, d);
  }

  /** The first enode's edges add one membership edge, into row `base`, to those of the rest. */
  lemma SlotEdgesMembershipStep(idx: map<ClassId, nat>, slots: seq<Slot>, base: nat, d: nat)
    requires SlotsInIndex(idx, slots) && ChildrenIndexed(idx, slots) && |slots| > 0
    ensures SlotsInIndex(idx, slots[1..]) && ChildrenIndexed(idx, slots[1..])
    ensures MembershipInto(SlotEdges(idx, slots, base), d)
      == (if d == base then 1 else 0) + MembershipInto(SlotEdges(idx, slots[1..], base + 1), d)
  {
    SlotEdgesStep(idx, slots, base);
    var m := Edge(idx[slots[0].classId], base, MembershipAttr);
    var args := ArgEdges(idx, base, Children(slots[0].node));
    MembershipIntoAppend([m] + args, SlotEdges(idx, slots[1..], base + 1), d);
    MembershipHead(m, args, d);
  }

  /** No membership edge of the enode loop points above or below the rows it fills. */
  lemma SlotEdgesMembershipOutside(idx: map<ClassId, nat>, slots: seq<Slot>, base: nat, d: nat)
    requires SlotsInIndex(idx, slots) && ChildrenIndexed(idx, slots)
    requires d < base || base + |slots| <= d
    ensures MembershipInto(SlotEdges(idx, slots, base), d) == 0
  {
    SlotEdgesPlaced(idx, slots, base);
    MembershipIntoNone(SlotEdges(idx, slots, base), d);
  }

  /** Each enode row receives exactly one membership edge. */
  lemma {:induction false} SlotEdgesMembership(idx: map<ClassId, nat>, slots: seq<Slot>, base: nat, d: nat)
    requires SlotsInIndex(idx, slots) && ChildrenIndexed(idx, slots)
    requires base <= d < base + |slots|
    ensures MembershipInto(SlotEdges(idx, slots, base), d) == 1
  {
    SlotEdgesMembershipStep(idx, slots, base, d);
    if d == base {
      SlotEdgesMembershipOutside(idx, slots[1..], base + 1, d);
    } else {
      SlotEdgesMembership(idx, slots[1..], base + 1, d);
    }
  }

  /** Each child of each enode yields an argument edge from the enode's row to the child's row. */
  lemma {:induction false} SlotEdgesArgument(idx: map<ClassId, nat>, slots: seq<Slot>, base: nat, k: nat, c: ClassId)
      returns (q: nat)
    requires SlotsInIndex(idx, slots) && ChildrenIndexed(idx, slots)
    requires k < |slots| && c in Children(slots[k].node)
    ensures c in idx && q < |SlotEdges(idx, slots, base)|
    ensures SlotEdges(idx, slots, base)[q] == Edge(base + k, idx[c], ArgumentAttr)
  {
    SlotEdgesStep(idx, slots, base);
    var edges := SlotEdges(idx, slots, base);
    var head := [Edge(idx[slots[0].classId], base, MembershipAttr)];
    var args := ArgEdges(idx, base, Children(slots[0].node));
    var rest := SlotEdges(idx, slots[1..], base + 1);
    if k == 0 {
      var cs := Children(slots[0].node);
      var j :| 0 <= j < |cs| && cs[j] == c;
      assert args[j] == Edge(base, idx[c], ArgumentAttr);
      q := 1 + j;
    } else {
      assert slots[1..][k - 1] == slots[k];
      var j := SlotEdgesArgument(idx, slots[1..], base + 1, k - 1, c);
      q := |head| + |args| + j;
      assert edges[q] == rest[j];
    }
  }

  /** Number of self-loops on node `i`. */
  function SelfLoopsAt(edges: seq<Edge>, i: nat): nat
  {
    if |edges| == 0 then 0
    else (if edges[0].src == i && edges[0].dst == i then 1 else 0) + SelfLoopsAt(edges[1..], i)
  }

  lemma {:induction false} SelfLoopsAppend(a: seq<Edge>, b: seq<Edge>, i: nat)
    ensures SelfLoopsAt(a + b, i) == SelfLoopsAt(a, i) + SelfLoopsAt(b, i)
  {
    if |a| > 0 {
      assert (a + b)[1..] == a[1..] + b;
      SelfLoopsAppend(a[1..], b, i);
    } else {
      assert a + b == b;
    }
  }

  function Max(a: nat, b: nat): nat
  {
    if a < b then b else a
  }

  /** `maybe_num_nodes` minus one: the largest endpoint mentioned by any edge. */
  function MaxNode(edges: seq<Edge>): (m: nat)
    requires |edges| > 0
    ensures forall e :: e in edges ==> e.src <= m && e.dst <= m
    ensures exists e :: e in edges && (e.src == m || e.dst == m)
  {
    var hi := Max(edges[0].src, edges[0].dst);
    if |edges| == 1 then hi
    else
      var m := MaxNode(edges[1..]);
      assert forall e :: e in edges ==> e == edges[0] || e in edges[1..];
      Max(hi, m)
  }

  /** `maybe_num_nodes`: the largest endpoint plus one, or 0 with no edges. */
  function NodeCount(edges: seq<Edge>): nat
  {
    if |edges| == 0 then 0 else MaxNode(edges) + 1
  }

  /** The input edges that are not self-loops, in order. */
  function NonLoops(edges: seq<Edge>): seq<Edge>
  {
    if |edges| == 0 then []
    else (if edges[0].src != edges[0].dst then [edges[0]] else []) + NonLoops(edges[1..])
  }

  /** `NonLoops` drops exactly the self-loops: no self-loop survives and every other edge does. */
  lemma {:induction false} NonLoopsSpec(edges: seq<Edge>)
    ensures forall i: nat :: SelfLoopsAt(NonLoops(edges), i) == 0
    ensures forall e :: e in edges && e.src != e.dst ==> e in NonLoops(edges)
    ensures forall e :: e in NonLoops(edges) ==> e in edges && e.src != e.dst
  {
    if |edges| > 0 {
      var rest := NonLoops(edges[1..]);
      var head := if edges[0].src != edges[0].dst then [edges[0]] else [];
      NonLoopsSpec(edges[1..]);
      assert NonLoops(edges) == head + rest;
      assert forall e :: e in edges ==> e == edges[0] || e in edges[1..];
      assert forall e :: e in head + rest ==> e in head || e in rest;
      forall i: nat
        ensures SelfLoopsAt(head + rest, i) == 0
      {
        SelfLoopsAppend(head, rest, i);
      }
    }
  }

  predicate NoSelfLoops(edges: seq<Edge>)
  {
    forall e :: e in edges ==> e.src != e.dst
  }

  /** Without self-loops in the input, every input edge is kept, in order. */
  lemma {:induction false} NonLoopsKeepsAll(edges: seq<Edge>)
    requires NoSelfLoops(edges)
    ensures NonLoops(edges) == edges
  {
    if |edges| > 0 {
      assert edges[0] in edges;
      assert forall e :: e in edges[1..] ==> e in edges;
      NonLoopsKeepsAll(edges[1..]);
      assert edges == [edges[0]] + edges[1..];
    }
  }

  /** The attribute a new self-loop on `i` gets: that of an existing self-loop on `i`, else `fill`. */
  function LoopAttr(edges: seq<Edge>, i: nat, fill: seq<real>): seq<real>
  {
    if |edges| == 0 then fill
    else
      var last := edges[|edges| - 1];
      if last.src == i && last.dst == i then last.attr else LoopAttr(edges[..|edges| - 1], i, fill)
  }

  /** Without self-loops in the input, every new self-loop gets the fill attribute. */
  lemma {:induction false} LoopAttrFill(edges: seq<Edge>, i: nat, fill: seq<real>)
    requires NoSelfLoops(edges)
    ensures LoopAttr(edges, i, fill) == fill
  {
    if |edges| > 0 {
      assert edges[|edges| - 1] in edges;
      assert forall e :: e in edges[..|edges| - 1] ==> e in edges;
      LoopAttrFill(edges[..|edges| - 1], i, fill);
    }
  }

  /** One self-loop on each of the nodes `0..n-1`, in node order. */
  function LoopEdges(edges: seq<Edge>, n: nat, fill: seq<real>): (r: seq<Edge>)
    ensures |r| == n
  {
    if n == 0 then [] else LoopEdges(edges, n - 1, fill) + [Edge(n - 1, n - 1, LoopAttr(edges, n - 1, fill))]
  }

  /** Entry `j` of `LoopEdges` is the self-loop on `j`, so each node below `n` has exactly one. */
  lemma {:induction false} LoopEdgesSpec(edges: seq<Edge>, n: nat, fill: seq<real>)
    ensures forall j :: 0 <= j < n ==> LoopEdges(edges, n, fill)[j] == Edge(j, j, LoopAttr(edges, j, fill))
    ensures forall i: nat :: SelfLoopsAt(LoopEdges(edges, n, fill), i) == (if i < n then 1 else 0)
    ensures forall e :: e in LoopEdges(edges, n, fill) ==> e.src == e.dst < n
  {
    if n > 0 {
      var prev := LoopEdges(edges, n - 1, fill);
      var last := [Edge(n - 1, n - 1, LoopAttr(edges, n - 1, fill))];
      LoopEdgesSpec(edges, n - 1, fill);
      assert LoopEdges(edges, n, fill) == prev + last;
      forall i: nat
        ensures SelfLoopsAt(prev + last, i) == (if i < n then 1 else 0)
      {
        SelfLoopsAppend(prev, last, i);
      }
    }
  }

  /**
   * `add_remaining_self_loops(edge_index, edge_attr)` with no node count:
   * existing self-loops are dropped, the other edges kept in order, then
   * one self-loop is appended for every node.
   */
  function AddRemainingSelfLoops(edges: seq<Edge>, fill: seq<real>): seq<Edge>
  {
    NonLoops(edges) + LoopEdges(edges, NodeCount(edges), fill)
  }

  /**
   * After `add_remaining_self_loops` every node below the node count has
   * exactly one self-loop and no other node has any; every edge that is not
   * a self-loop is kept, and nothing else but the new loops is added.
   */
  lemma AddRemainingSelfLoopsSpec(edges: seq<Edge>, fill: seq<real>)
    ensures forall i: nat :: SelfLoopsAt(AddRemainingSelfLoops(edges, fill), i) == (if i < NodeCount(edges) then 1 else 0)
    ensures forall e :: e in edges && e.src != e.dst ==> e in AddRemainingSelfLoops(edges, fill)
    ensures forall e :: e in AddRemainingSelfLoops(edges, fill) ==> (e in edges && e.src != e.dst) || e.src == e.dst < NodeCount(edges)
  {
    var kept, loops := NonLoops(edges), LoopEdges(edges, NodeCount(edges), fill);
    NonLoopsSpec(edges);
    LoopEdgesSpec(edges, NodeCount(edges), fill);
    forall i: nat
      ensures SelfLoopsAt(kept + loops, i) == (if i < NodeCount(edges) then 1 else 0)
    {
      SelfLoopsAppend(kept, loops, i);
    }
  }

  /** On edges without self-loops, the self-loop step keeps them all and appends the loops `0..n-1` with attribute `fill`. */
  lemma AddSelfLoopsToLoopFree(edges: seq<Edge>, fill: seq<real>)
    requires NoSelfLoops(edges)
    ensures var r, n := AddRemainingSelfLoops(edges, fill), NodeCount(edges);
      && |r| == |edges| + n
      && r[..|edges|] == edges
      && forall j :: 0 <= j < n ==> r[|edges|..][j] == Edge(j, j, fill)
  {
    var n := NodeCount(edges);
    NonLoopsKeepsAll(edges);
    var loops := LoopEdges(edges, n, fill);
    LoopEdgesSpec(edges, n, fill);
    var r := AddRemainingSelfLoops(edges, fill);
    assert r == edges + loops;
    assert r[|edges|..] == loops;
    forall j | 0 <= j < n
      ensures loops[j] == Edge(j, j, fill)
    {
      LoopAttrFill(edges, j, fill);
    }
  }

  /** Every enode's class id has a row. */
  lemma SlotsIndexed(g: EGraph)
    ensures SlotsInIndex(IndexMap(g), Slots(g))
  {
    IndexMapSpec(g);
    SlotClassIds(g);
  }

  /** Every child of every enode names an eclass of the e-graph. */
  predicate Resolved(g: EGraph)
  {
    ChildrenIndexed(IndexMap(g), Slots(g))
  }

  /** The edges `encode_egraph` emits itself, before the self-loop step. */
  function GraphEdges(g: EGraph): seq<Edge>
    requires Resolved(g)
  {
    SlotsIndexed(g);
    SlotEdges(IndexMap(g), Slots(g), |g|)
  }

  /** The second loop of `encode_egraph`: enode rows from row `|g|` on, with their edges. */
  function EnodeLoop(ops: Vocabulary, g: EGraph): Result<(seq<Row>, seq<Edge>), EncodeError>
  {
    SlotsIndexed(g);
    EncodeSlots(ops, IndexMap(g), Slots(g), |g|)
  }

  /** The rows of the first loop of `encode_egraph`: one eclass row per eclass. */
  function EClassRows(ops: Vocabulary, n: nat): (r: seq<Row>)
    ensures |r| == n && forall i :: 0 <= i < n ==> r[i] == EncodeEClass(ops)
  {
    seq(n, _ => EncodeEClass(ops))
  }

  /** The `Data(x, edge_index, edge_attr)` object, with edges and their attributes zipped. */
  datatype EncodedGraph = EncodedGraph(x: seq<Row>, edges: seq<Edge>)

  /**
   * `encode_egraph`: eclass rows, then the enode loop, then the stacks and
   * the self-loops; `fill` is the attribute the library gives a new self-loop.
   */
  function EncodeEGraph(ops: Vocabulary, g: EGraph, fill: seq<real>): Result<EncodedGraph, EncodeError>
  {
    var enc :- EnodeLoop(ops, g);
    var x := EClassRows(ops, |g|) + enc.0;
    if |x| == 0 || |enc.1| == 0 then Err(EmptyStack)
    else Ok(EncodedGraph(x, AddRemainingSelfLoops(enc.1, fill)))
  }

  /** A successful enode loop resolved every child and emitted `GraphEdges`, one row per enode. */
  lemma EnodeLoopOk(ops: Vocabulary, g: EGraph)
    requires EnodeLoop(ops, g).Ok?
    ensures Resolved(g)
    ensures EnodeLoop(ops, g).value.1 == GraphEdges(g)
    ensures |EnodeLoop(ops, g).value.0| == |Slots(g)|
  {
    SlotsIndexed(g);
    EncodeSlotsEdges(ops, IndexMap(g), Slots(g), |g|);
    EncodeSlotsRows(ops, IndexMap(g), Slots(g), |g|);
  }

  /** The graph's own edges: one membership edge per enode, one argument edge per child. */
  lemma GraphEdgesCount(g: EGraph)
    requires Resolved(g)
    ensures |GraphEdges(g)| == |Slots(g)| + ChildCount(Slots(g))
  {
    SlotsIndexed(g);
    SlotEdgesCount(IndexMap(g), Slots(g), |g|);
  }

  /** Every edge the graph emits itself is a membership or argument edge placed as `Placed` says. */
  lemma GraphEdgesPlaced(g: EGraph)
    requires Resolved(g)
    ensures forall e :: e in GraphEdges(g) ==> Placed(IndexMap(g), Slots(g), |g|, e)
  {
    SlotsIndexed(g);
    SlotEdgesPlaced(IndexMap(g), Slots(g), |g|);
  }

  /** Those edges join an eclass row and an enode row: none is a self-loop and all stay below the node count. */
  lemma GraphEdgesBounded(g: EGraph)
    requires Resolved(g)
    ensures NoSelfLoops(GraphEdges(g))
    ensures forall e :: e in GraphEdges(g) ==> e.src < |g| + |Slots(g)| && e.dst < |g| + |Slots(g)|
  {
    IndexMapSpec(g);
    GraphEdgesPlaced(g);
  }

  /** The graph's own edges mention the last row, so PyG counts exactly `|g| + |Slots(g)|` nodes. */
  lemma GraphNodeCount(g: EGraph)
    requires Resolved(g) && |Slots(g)| > 0
    ensures NodeCount(GraphEdges(g)) == |g| + |Slots(g)|
  {
    SlotsIndexed(g);
    var edges := GraphEdges(g);
    var last := |g| + |Slots(g)| - 1;
    SlotEdgesMembership(IndexMap(g), Slots(g), |g|, last);
    MembershipIntoWitness(edges, last);
    GraphEdgesBounded(g);
  }

  /** Enode row `d` gets exactly one membership edge, from the row its eclass id maps to. */
  lemma GraphMembershipInto(g: EGraph, d: nat)
    requires Resolved(g) && |g| <= d < |g| + |Slots(g)|
    ensures Slots(g)[d - |g|].classId in IndexMap(g)
    ensures Edge(IndexMap(g)[Slots(g)[d - |g|].classId], d, MembershipAttr) in GraphEdges(g)
    ensures MembershipInto(GraphEdges(g), d) == 1
  {
    SlotsIndexed(g);
    var idx, slots := IndexMap(g), Slots(g);
    var edges := GraphEdges(g);
    SlotEdgesMembership(idx, slots, |g|, d);
    MembershipIntoWitness(edges, d);
    var e :| e in edges && e.attr == MembershipAttr && e.dst == d;
    GraphEdgesPlaced(g);
    assert Placed(idx, slots, |g|, e);
  }

  /** With unique class ids, node `k` of eclass `i` gets exactly one membership edge, and it comes from row `i`. */
  lemma GraphMembership(g: EGraph, i: nat, k: nat)
    requires Resolved(g) && DistinctIds(g)
    requires i < |g| && k < |g[i].nodes|
    ensures Edge(i, |g| + Offset(g, i) + k, MembershipAttr) in GraphEdges(g)
    ensures MembershipInto(GraphEdges(g), |g| + Offset(g, i) + k) == 1
  {
    SlotsPosition(g, i, k);
    IndexMapDistinct(g, i);
    GraphMembershipInto(g, |g| + Offset(g, i) + k);
  }

  /** Each child of enode `p` gets an argument edge to the row of an eclass with the child's id. */
  lemma GraphArgument(g: EGraph, p: nat, c: ClassId)
    requires Resolved(g)
    requires p < |Slots(g)| && c in Children(Slots(g)[p].node)
    ensures c in IndexMap(g) && Edge(|g| + p, IndexMap(g)[c], ArgumentAttr) in GraphEdges(g)
  {
    SlotsIndexed(g);
    var q := SlotEdgesArgument(IndexMap(g), Slots(g), |g|, p, c);
    assert GraphEdges(g)[q] == Edge(|g| + p, IndexMap(g)[c], ArgumentAttr);
  }

  /**
   * `encode_egraph` succeeds exactly when the e-graph has an enode and every
   * enode has a known operator and children with rows; with no enode at all
   * the edge stack is empty and `torch.stack` raises.
   */
  lemma EncodeEGraphOutcome(ops: Vocabulary, g: EGraph, fill: seq<real>)
    ensures EncodeEGraph(ops, g, fill).Ok? <==>
      |Slots(g)| > 0 && forall k :: 0 <= k < |Slots(g)| ==> SlotEncodable(ops, IndexMap(g), Slots(g)[k])
    ensures EncodeEGraph(ops, g, fill) == Err(EmptyStack) <==> |Slots(g)| == 0
  {
    SlotsIndexed(g);
    var idx, slots := IndexMap(g), Slots(g);
    EncodeSlotsSucceeds(ops, idx, slots, |g|);
    if EnodeLoop(ops, g).Ok? {
      EnodeLoopOk(ops, g);
      GraphEdgesCount(g);
    } else {
      EncodeSlotsError(ops, idx, slots, |g|);
    }
  }

  /** A failing `encode_egraph` raises the exception of the first enode, in loop order, that cannot be encoded. */
  lemma EncodeEGraphError(ops: Vocabulary, g: EGraph, fill: seq<real>)
    requires EncodeEGraph(ops, g, fill).Err? && EncodeEGraph(ops, g, fill) != Err(EmptyStack)
    ensures exists k :: (&& 0 <= k < |Slots(g)|
                         && (forall j :: 0 <= j < k ==> SlotEncodable(ops, IndexMap(g), Slots(g)[j]))
                         && SlotFailure(ops, IndexMap(g), Slots(g)[k], EncodeEGraph(ops, g, fill).error))
  {
    SlotsIndexed(g);
    var idx, slots := IndexMap(g), Slots(g);
    EncodeSlotsSucceeds(ops, idx, slots, |g|);
    EncodeEGraphOutcome(ops, g, fill);
    EncodeSlotsError(ops, idx, slots, |g|);
  }

  /** A successful `encode_egraph` stacks the eclass rows on the enode rows and adds self-loops to the graph's own edges. */
  lemma EncodeEGraphUnfold(ops: Vocabulary, g: EGraph, fill: seq<real>)
    requires EncodeEGraph(ops, g, fill).Ok?
    ensures EnodeLoop(ops, g).Ok? && Resolved(g) && |Slots(g)| > 0
    ensures EncodeEGraph(ops, g, fill).value.x == EClassRows(ops, |g|) + EnodeLoop(ops, g).value.0
    ensures |EncodeEGraph(ops, g, fill).value.x| == |g| + |Slots(g)|
    ensures EncodeEGraph(ops, g, fill).value.edges == AddRemainingSelfLoops(GraphEdges(g), fill)
  {
    EnodeLoopOk(ops, g);
    EncodeEGraphOutcome(ops, g, fill);
  }

  /** A successful enode loop yields each enode's `encode_node` row, in loop order. */
  lemma EnodeLoopRows(ops: Vocabulary, g: EGraph)
    requires EnodeLoop(ops, g).Ok?
    ensures |EnodeLoop(ops, g).value.0| == |Slots(g)|
    ensures forall k :: 0 <= k < |Slots(g)| ==> EncodeNode(ops, Slots(g)[k].node) == Ok(EnodeLoop(ops, g).value.0[k])
  {
    SlotsIndexed(g);
    EncodeSlotsRows(ops, IndexMap(g), Slots(g), |g|);
  }

  /** A feature matrix for `n` eclasses and the enodes `slots`: eclass rows first, then each enode's `encode_node` row. */
  predicate FeatureRows(ops: Vocabulary, n: nat, slots: seq<Slot>, x: seq<Row>)
  {
    && |x| == n + |slots|
    && (forall i :: 0 <= i < n ==> x[i] == EncodeEClass(ops))
    && (forall p :: n <= p < |x| ==> EncodeNode(ops, slots[p - n].node) == Ok(x[p]))
  }

  /** Eclass rows stacked on top of the enode rows form a feature matrix. */
  lemma StackedRows(ops: Vocabulary, n: nat, rows: seq<Row>, slots: seq<Slot>)
    requires |rows| == |slots|
    requires forall k :: 0 <= k < |slots| ==> EncodeNode(ops, slots[k].node) == Ok(rows[k])
    ensures FeatureRows(ops, n, slots, EClassRows(ops, n) + rows)
  {
    var x := EClassRows(ops, n) + rows;
    forall p | n <= p < |x|
      ensures EncodeNode(ops, slots[p - n].node) == Ok(x[p])
    {
      assert x[p] == rows[p - n];
    }
  }

  /** The feature matrix: one eclass row per eclass, then each enode's `encode_node` row, in loop order. */
  lemma EncodeEGraphRows(ops: Vocabulary, g: EGraph, fill: seq<real>)
    requires EncodeEGraph(ops, g, fill).Ok?
    ensures FeatureRows(ops, |g|, Slots(g), EncodeEGraph(ops, g, fill).value.x)
  {
    EncodeEGraphUnfold(ops, g, fill);
    EnodeLoopRows(ops, g);
    StackedRows(ops, |g|, EnodeLoop(ops, g).value.0, Slots(g));
  }

  /** Round trip: decoding the feature matrix recovers each node's kind, scalar value and operator name. */
  lemma EncodeEGraphDecodes(ops: Vocabulary, g: EGraph, fill: seq<real>)
    requires EncodeEGraph(ops, g, fill).Ok?
    ensures |EncodeEGraph(ops, g, fill).value.x| == |g| + |Slots(g)|
    ensures forall i :: 0 <= i < |g| ==>
      DecodeNode(ops, EncodeEGraph(ops, g, fill).value.x[i]) == Ok(Decoded("eclass", false, 0.0, None))
    ensures forall p :: |g| <= p < |EncodeEGraph(ops, g, fill).value.x| ==>
      DecodeNode(ops, EncodeEGraph(ops, g, fill).value.x[p]) == Ok(Classification(Slots(g)[p - |g|].node))
  {
    var x := EncodeEGraph(ops, g, fill).value.x;
    EncodeEGraphRows(ops, g, fill);
    DecodeEncodedEClass(ops);
    forall p | |g| <= p < |x|
      ensures DecodeNode(ops, x[p]) == Ok(Classification(Slots(g)[p - |g|].node))
    {
      assert EncodeNode(ops, Slots(g)[p - |g|].node) == Ok(x[p]);
      DecodeEncodedNode(ops, Slots(g)[p - |g|].node);
    }
  }

  /**
   * The edge list: the graph's own edges unchanged (none is a self-loop),
   * then one self-loop with attribute `fill` on every row, in row order.
   */
  lemma EncodeEGraphEdgeLayout(ops: Vocabulary, g: EGraph, fill: seq<real>)
    requires EncodeEGraph(ops, g, fill).Ok?
    ensures Resolved(g)
    ensures var n, edges := |EncodeEGraph(ops, g, fill).value.x|, EncodeEGraph(ops, g, fill).value.edges;
      && |edges| == n + |Slots(g)| + ChildCount(Slots(g))
      && edges[..|edges| - n] == GraphEdges(g)
      && (forall j :: 0 <= j < n ==> edges[|edges| - n..][j] == Edge(j, j, fill))
  {
    EncodeEGraphUnfold(ops, g, fill);
    GraphEdgesCount(g);
    GraphEdgesBounded(g);
    GraphNodeCount(g);
    AddSelfLoopsToLoopFree(GraphEdges(g), fill);
  }

  /**
   * Every row has exactly one self-loop, every endpoint is a row, and every
   * other edge is a membership or argument edge placed as `Placed` says.
   */
  lemma EncodeEGraphEdgeShape(ops: Vocabulary, g: EGraph, fill: seq<real>)
    requires EncodeEGraph(ops, g, fill).Ok?
    ensures var n, edges := |EncodeEGraph(ops, g, fill).value.x|, EncodeEGraph(ops, g, fill).value.edges;
      && (forall i: nat :: SelfLoopsAt(edges, i) == (if i < n then 1 else 0))
      && (forall e :: e in edges ==> e.src < n && e.dst < n)
      && (forall e :: e in edges ==> e.src == e.dst || Placed(IndexMap(g), Slots(g), |g|, e))
  {
    EncodeEGraphUnfold(ops, g, fill);
    GraphNodeCount(g);
    AddRemainingSelfLoopsSpec(GraphEdges(g), fill);
    GraphEdgesBounded(g);
    GraphEdgesPlaced(g);
  }

  /** Every edge the graph emits itself survives into the encoded graph. */
  lemma EncodeEGraphKeepsEdges(ops: Vocabulary, g: EGraph, fill: seq<real>)
    requires EncodeEGraph(ops, g, fill).Ok?
    ensures Resolved(g)
    ensures forall e :: e in GraphEdges(g) ==> e in EncodeEGraph(ops, g, fill).value.edges
  {
    EncodeEGraphUnfold(ops, g, fill);
    GraphEdgesBounded(g);
    AddRemainingSelfLoopsSpec(GraphEdges(g), fill);
  }

  /** With unique class ids, node `k` of eclass `i` keeps its membership edge from row `i`. */
  lemma EncodeEGraphMembership(ops: Vocabulary, g: EGraph, fill: seq<real>, i: nat, k: nat)
    requires EncodeEGraph(ops, g, fill).Ok? && DistinctIds(g)
    requires i < |g| && k < |g[i].nodes|
    ensures Edge(i, |g| + Offset(g, i) + k, MembershipAttr) in EncodeEGraph(ops, g, fill).value.edges
  {
    EncodeEGraphKeepsEdges(ops, g, fill);
    GraphMembership(g, i, k);
  }

  /** Each child of enode `p` keeps its argument edge from the enode's row to the child's eclass row. */
  lemma EncodeEGraphArgument(ops: Vocabulary, g: EGraph, fill: seq<real>, p: nat, c: ClassId)
    requires EncodeEGraph(ops, g, fill).Ok?
    requires p < |Slots(g)| && c in Children(Slots(g)[p].node)
    ensures c in IndexMap(g) && g[IndexMap(g)[c]].id == c
    ensures Edge(|g| + p, IndexMap(g)[c], ArgumentAttr) in EncodeEGraph(ops, g, fill).value.edges
  {
    EncodeEGraphKeepsEdges(ops, g, fill);
    GraphArgument(g, p, c);
    IndexMapOwner(g, c);
  }
}
