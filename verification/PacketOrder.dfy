/** The order in which the QD3D renderer emits packets (gpu_compute/qd3d.rs,
    `render_inner`): opaque packets as they come, then blended ones back to front. */
module PacketOrder {

  datatype Packet = Packet(blend: bool, sortDepth: real)

  /** Drawing precedence of two packets, by their positions in the submission. */
  predicate Before(packets: seq<Packet>, i: nat, j: nat)
    requires i < |packets| && j < |packets|
  {
    var a, b := packets[i], packets[j];
    if a.blend != b.blend then b.blend
    else if !a.blend || a.sortDepth == b.sortDepth then i < j
    else a.sortDepth > b.sortDepth
  }

  ghost predicate Ordered(packets: seq<Packet>, order: seq<nat>) {
    && (forall k :: 0 <= k < |order| ==> order[k] < |packets|)
    && (forall j, k :: 0 <= j < k < |order| ==> Before(packets, order[j], order[k]))
  }

  /** Stable descending insertion: after every packet at least as deep. */
  function Insert(packets: seq<Packet>, sorted: seq<nat>, i: nat): (r: seq<nat>)
    requires i < |packets| && forall k :: 0 <= k < |sorted| ==> sorted[k] < |packets|
    ensures forall k :: 0 <= k < |r| ==> r[k] < |packets|
    ensures forall n :: n in r <==> n in sorted || n == i
  {
    if sorted == [] then [i]
    else
      var last := |sorted| - 1;
      if packets[sorted[last]].sortDepth >= packets[i].sortDepth then sorted + [i]
      else
        var rest := Insert(packets, sorted[..last], i);
        assert forall n :: n in sorted <==> n in sorted[..last] || n == sorted[last];
        rest + [sorted[last]]
  }

  lemma {:induction false} InsertKeepsOrder(packets: seq<Packet>, sorted: seq<nat>, i: nat)
    requires i < |packets| && packets[i].blend && Ordered(packets, sorted)
    requires forall k :: 0 <= k < |sorted| ==> packets[sorted[k]].blend && sorted[k] < i
    ensures Ordered(packets, Insert(packets, sorted, i))
  {
    if sorted != [] {
      var last := |sorted| - 1;
      if packets[sorted[last]].sortDepth < packets[i].sortDepth {
        var front, rest := sorted[..last], Insert(packets, sorted[..last], i);
        InsertKeepsOrder(packets, front, i);
        forall k | 0 <= k < |rest|
          ensures Before(packets, rest[k], sorted[last])
        {
          if rest[k] != i {
            assert rest[k] in front;
            var j :| 0 <= j < |front| && front[j] == rest[k];
            assert Before(packets, sorted[j], sorted[last]);
          }
        }
      }
    }
  }

  /** `sort_by` on descending depth: a stable sort. */
  function SortDescending(packets: seq<Packet>, list: seq<nat>): (r: seq<nat>)
    requires forall k :: 0 <= k < |list| ==> list[k] < |packets|
    ensures forall k :: 0 <= k < |r| ==> r[k] < |packets|
    ensures forall n :: n in r <==> n in list
  {
    if list == [] then []
    else
      assert list == list[..|list| - 1] + [list[|list| - 1]];
      Insert(packets, SortDescending(packets, list[..|list| - 1]), list[|list| - 1])
  }

  /** Sorting blended packets that were pushed in submission order yields the precedence order. */
  lemma {:induction false} SortYieldsOrder(packets: seq<Packet>, list: seq<nat>)
    requires forall k :: 0 <= k < |list| ==> list[k] < |packets| && packets[list[k]].blend
    requires forall j, k :: 0 <= j < k < |list| ==> list[j] < list[k]
    ensures Ordered(packets, SortDescending(packets, list))
  {
    if list != [] {
      var front, i := list[..|list| - 1], list[|list| - 1];
      SortYieldsOrder(packets, front);
      var sorted := SortDescending(packets, front);
      forall k | 0 <= k < |sorted|
        ensures packets[sorted[k]].blend && sorted[k] < i
      {
        assert sorted[k] in front;
      }
      InsertKeepsOrder(packets, sorted, i);
    }
  }

  /** Emission: opaque packets at once, blended ones held back and sorted. The emitted order
      holds every packet exactly once and respects the precedence. */
  method Emit(packets: seq<Packet>) returns (order: seq<nat>)
    ensures Ordered(packets, order)
    ensures forall n :: n in order <==> 0 <= n < |packets|
    ensures forall j, k :: 0 <= j < k < |order| && !packets[order[k]].blend ==>
              !packets[order[j]].blend && order[j] < order[k]
    ensures forall j, k :: 0 <= j < k < |order| && packets[order[j]].blend ==>
              && packets[order[k]].blend && packets[order[j]].sortDepth >= packets[order[k]].sortDepth
              && (packets[order[j]].sortDepth == packets[order[k]].sortDepth ==> order[j] < order[k])
  {
    var triangles: seq<nat>, deferred: seq<nat> := [], [];
    for i := 0 to |packets|
      invariant forall k :: 0 <= k < |triangles| ==> triangles[k] < i && !packets[triangles[k]].blend
      invariant forall k :: 0 <= k < |deferred| ==> deferred[k] < i && packets[deferred[k]].blend
      invariant forall j, k :: 0 <= j < k < |triangles| ==> triangles[j] < triangles[k]
      invariant forall j, k :: 0 <= j < k < |deferred| ==> deferred[j] < deferred[k]
      invariant forall n :: n in triangles || n in deferred <==> 0 <= n < i
    {
      if packets[i].blend {
        deferred := deferred + [i];
      } else {
        triangles := triangles + [i];
      }
    }
    SortYieldsOrder(packets, deferred);
    var sorted := SortDescending(packets, deferred);
    forall k | 0 <= k < |sorted|
      ensures packets[sorted[k]].blend
    {
      assert sorted[k] in deferred;
    }
    order := triangles + sorted;
    forall j, k | 0 <= j < k < |order| ensures Before(packets, order[j], order[k]) {
    }
  }

  /** Precedence is a strict total order, so the emitted order is the only one possible. */
  lemma {:induction false} OrderIsUnique(packets: seq<Packet>, a: seq<nat>, b: seq<nat>)
    requires Ordered(packets, a) && Ordered(packets, b)
    requires forall n :: n in a <==> n in b
    ensures a == b
  {
    if a == [] {
      NonemptyHasMember(b);
    } else {
      assert a[0] in b;
      assert b[0] in a;
      var j :| 0 <= j < |b| && b[j] == a[0];
      var k :| 0 <= k < |a| && a[k] == b[0];
      assert a[0] == b[0];
      forall n ensures n in a[1..] <==> n in b[1..] {
        TailMembers(packets, a, n);
        TailMembers(packets, b, n);
      }
      OrderIsUnique(packets, a[1..], b[1..]);
      assert a == [a[0]] + a[1..] && b == [b[0]] + b[1..];
    }
  }

  lemma NonemptyHasMember(s: seq<nat>)
    ensures s != [] ==> exists n :: n in s
  {
    if s != [] {
      assert s[0] in s;
    }
  }

  lemma TailMembers(packets: seq<Packet>, a: seq<nat>, n: nat)
    requires Ordered(packets, a) && a != []
    ensures n in a[1..] <==> n in a && n != a[0]
  {
    if n in a[1..] {
      var j :| 0 <= j < |a[1..]| && a[1..][j] == n;
      assert a[j + 1] == n && Before(packets, a[0], a[j + 1]);
    }
  }
}
