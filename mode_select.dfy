/** The topology rules of the select mode (modules/modes/select.js): pruning the
    selection against the graph, the parent ways shared by selected vertices, the
    remembered "related" parent, vertex and parent cycling, the relations whose
    missing members are fetched, the operations offered, and the rule that drops
    an untouched new relation when the mode exits. */
module ModeSelect {
  import opened Common
  import opened OsmGraph

  // ---------------------------------------------------------------------------
  // Pruning stale IDs (checkSelectedIDs)

  /** The selected IDs that the graph still holds, in their original order. */
  function PresentIDs(g: Graph, ids: seq<Id>): (r: seq<Id>)
    ensures forall x :: x in r <==> x in ids && HasEntity(g, x)
    ensures forall x :: HasEntity(g, x) ==> multiset(r)[x] == multiset(ids)[x]
    ensures IsSubsequence(r, ids)
    ensures (forall i :: 0 <= i < |ids| ==> HasEntity(g, ids[i])) ==> r == ids
  {
    if |ids| == 0 then []
    else
      var rest := PresentIDs(g, ids[1..]);
      assert ids == [ids[0]] + ids[1..];
      assert multiset(ids) == multiset{ids[0]} + multiset(ids[1..]);
      if HasEntity(g, ids[0]) then
        SubsequenceCons(ids[0], rest, ids[1..]);
        [ids[0]] + rest
      else
        SubsequenceOfTailAll(rest, ids);
        rest
  }

  /** Pruning a pruned selection changes nothing. */
  lemma PresentIDsIdempotent(g: Graph, ids: seq<Id>)
    ensures PresentIDs(g, PresentIDs(g, ids)) == PresentIDs(g, ids)
    ensures |PresentIDs(g, ids)| > 0 ==> |PresentIDs(g, PresentIDs(g, ids))| > 0
  {
    var r := PresentIDs(g, ids);
    assert forall i :: 0 <= i < |r| ==> r[i] in r;
  }

  // ---------------------------------------------------------------------------
  // Common parent ways (commonParents)

  predicate AllVertices(g: Graph, ids: seq<Id>) {
    forall i :: 0 <= i < |ids| ==> IsVertex(g, ids[i])
  }

  /** Way w is a parent of every one of ids. */
  predicate InAllParents(g: Graph, w: Id, ids: seq<Id>) {
    forall j :: 0 <= j < |ids| ==> w in ParentWays(g, ids[j])
  }

  /** `utilArrayIntersection(a, b)`: the elements of a that b also holds. */
  function Intersect(a: seq<Id>, b: seq<Id>): (r: seq<Id>)
    ensures forall x :: x in r <==> x in a && x in b
  {
    if |a| == 0 then []
    else (if a[0] in b then [a[0]] else []) + Intersect(a[1..], b)
  }

  /** The elements of ws that are parent ways of every one of ids, in the order of ws. */
  function SharedBy(g: Graph, ws: seq<Id>, ids: seq<Id>): seq<Id> {
    if |ws| == 0 then []
    else (if InAllParents(g, ws[0], ids) then [ws[0]] else []) + SharedBy(g, ws[1..], ids)
  }

  /** SharedBy keeps exactly the shared ways, in order. */
  lemma {:induction false} SharedBySpec(g: Graph, ws: seq<Id>, ids: seq<Id>)
    ensures forall w :: w in SharedBy(g, ws, ids) <==> w in ws && InAllParents(g, w, ids)
    ensures IsSubsequence(SharedBy(g, ws, ids), ws)
  {
    if |ws| > 0 {
      SharedBySpec(g, ws[1..], ids);
      var rest := SharedBy(g, ws[1..], ids);
      assert ws == [ws[0]] + ws[1..];
      if InAllParents(g, ws[0], ids) {
        SubsequenceCons(ws[0], rest, ws[1..]);
      } else {
        assert SharedBy(g, ws, ids) == rest;
        SubsequenceOfTailAll(rest, ws);
      }
    }
  }

  /** The parent ways shared by all selected vertices, in the order in which the
      first selected vertex lists them; none when some selected ID is missing or
      is not a vertex. */
  function CommonParentsOf(g: Graph, ids: seq<Id>): seq<Id> {
    if |ids| == 0 || !AllVertices(g, ids) then []
    else SharedBy(g, ParentWays(g, ids[0]), ids)
  }

  /** The common parents are parents of every selected vertex, every way shared
      by all selected vertices is among them, they keep the order of the first
      vertex's parent list, and there are none when some selected ID is missing
      or is not a vertex. */
  lemma CommonParentsSpec(g: Graph, ids: seq<Id>)
    ensures (exists i :: 0 <= i < |ids| && !IsVertex(g, ids[i])) ==> CommonParentsOf(g, ids) == []
    ensures forall w :: w in CommonParentsOf(g, ids) ==> InAllParents(g, w, ids)
    ensures |ids| > 0 && AllVertices(g, ids) ==> forall w :: InAllParents(g, w, ids) ==> w in CommonParentsOf(g, ids)
    ensures |ids| > 0 ==> IsSubsequence(CommonParentsOf(g, ids), ParentWays(g, ids[0]))
    ensures |ids| == 0 ==> CommonParentsOf(g, ids) == []
  {
    if |ids| > 0 && AllVertices(g, ids) {
      SharedBySpec(g, ParentWays(g, ids[0]), ids);
    }
  }

  lemma InAllParentsSnoc(g: Graph, w: Id, ids: seq<Id>, v: Id)
    ensures InAllParents(g, w, ids + [v]) <==> InAllParents(g, w, ids) && w in ParentWays(g, v)
  {
    var s := ids + [v];
    assert forall j :: 0 <= j < |ids| ==> s[j] == ids[j];
    assert s[|ids|] == v;
  }

  /** Intersecting the running result with the next vertex's parents extends it by that vertex. */
  lemma {:induction false} IntersectSharedBy(g: Graph, ws: seq<Id>, ids: seq<Id>, v: Id)
    ensures Intersect(SharedBy(g, ws, ids), ParentWays(g, v)) == SharedBy(g, ws, ids + [v])
  {
    if |ws| > 0 {
      IntersectSharedBy(g, ws[1..], ids, v);
      InAllParentsSnoc(g, ws[0], ids, v);
      var rest := SharedBy(g, ws[1..], ids);
      var s := (if InAllParents(g, ws[0], ids) then [ws[0]] else []) + rest;
      if InAllParents(g, ws[0], ids) {
        assert s[0] == ws[0] && s[1..] == rest;
      } else {
        assert s == rest;
      }
    }
  }

  lemma {:induction false} SharedByAll(g: Graph, ws: seq<Id>, ids: seq<Id>)
    requires forall w :: w in ws ==> InAllParents(g, w, ids)
    ensures SharedBy(g, ws, ids) == ws
  {
    if |ws| > 0 {
      assert ws[0] in ws;
      assert forall w :: w in ws[1..] ==> w in ws;
      SharedByAll(g, ws[1..], ids);
    }
  }

  lemma AllVerticesSnoc(g: Graph, ids: seq<Id>, i: int)
    requires 0 <= i < |ids| && AllVertices(g, ids[..i]) && IsVertex(g, ids[i])
    ensures AllVertices(g, ids[..i + 1])
  {
    assert forall k :: 0 <= k < i ==> ids[..i + 1][k] == ids[..i][k];
  }

  /** Once no way is shared by a prefix of the selection, none is shared by all of it. */
  lemma SharedByPrefixEmpty(g: Graph, ws: seq<Id>, ids: seq<Id>, i: int)
    requires 0 <= i <= |ids| && SharedBy(g, ws, ids[..i]) == []
    ensures SharedBy(g, ws, ids) == []
  {
    SharedBySpec(g, ws, ids);
    SharedBySpec(g, ws, ids[..i]);
  }

  lemma FirstParentsShared(g: Graph, ids: seq<Id>)
    requires |ids| > 0
    ensures SharedBy(g, ParentWays(g, ids[0]), ids[..1]) == ParentWays(g, ids[0])
  {
    assert ids[..1] == [ids[0]];
    assert forall w :: w in ParentWays(g, ids[0]) ==> InAllParents(g, w, ids[..1]);
    SharedByAll(g, ParentWays(g, ids[0]), ids[..1]);
  }

  lemma IntersectStep(g: Graph, ids: seq<Id>, i: int)
    requires 0 < i < |ids|
    ensures Intersect(SharedBy(g, ParentWays(g, ids[0]), ids[..i]), ParentWays(g, ids[i])) ==
      SharedBy(g, ParentWays(g, ids[0]), ids[..i + 1])
  {
    assert ids[..i + 1] == ids[..i] + [ids[i]];
    IntersectSharedBy(g, ParentWays(g, ids[0]), ids[..i], ids[i]);
  }

  /** commonParents: the loop of the source, which stops as soon as the running
      intersection is empty. */
  method CommonParents(g: Graph, ids: seq<Id>) returns (r: seq<Id>)
    ensures r == CommonParentsOf(g, ids)
  {
    var acc: seq<Id> := [];
    var i := 0;
    while i < |ids|
      invariant 0 <= i <= |ids|
      invariant AllVertices(g, ids[..i])
      invariant i == 0 ==> acc == []
      invariant i > 0 ==> |acc| > 0 && acc == SharedBy(g, ParentWays(g, ids[0]), ids[..i])
    {
      if !HasEntity(g, ids[i]) || !IsVertex(g, ids[i]) {
        return [];  // selection includes some not vertexes
      }
      var currParents := ParentWays(g, ids[i]);
      AllVerticesSnoc(g, ids, i);
      if |acc| == 0 {
        FirstParentsShared(g, ids);
        acc := currParents;
      } else {
        IntersectStep(g, ids, i);
        acc := Intersect(acc, currParents);
        if |acc| == 0 {
          SharedByPrefixEmpty(g, ParentWays(g, ids[0]), ids, i + 1);
          return [];
        }
      }
      i := i + 1;
    }
    assert ids[..i] == ids;
    r := acc;
  }

  // ---------------------------------------------------------------------------
  // The remembered related parent (singularParent, nextParent)

  /** The parent singularParent reports: none without candidates, otherwise the
      remembered parent when it is still a candidate, otherwise the first one. */
  function PreferredParent(parents: seq<Id>, remembered: Option<Id>): (r: Option<Id>)
    ensures r.Some? <==> |parents| > 0
    ensures r.Some? ==> r.value in parents
    ensures remembered.Some? && remembered.value in parents ==> r == remembered
    ensures |parents| > 0 && (remembered.None? || remembered.value !in parents) ==> r == Some(parents[0])
  {
    if |parents| == 0 then None
    else if |parents| == 1 then Some(parents[0])
    else if IndexOfOption(parents, remembered) != -1 then remembered
    else Some(parents[0])
  }

  /** What singularParent leaves remembered: nothing without a common parent,
      the only one when there is one, and the old memory otherwise. */
  function MemoryAfter(parents: seq<Id>, remembered: Option<Id>): (r: Option<Id>)
    ensures r.None? <==> |parents| == 0 || (|parents| > 1 && remembered.None?)
    ensures |parents| == 1 ==> r == Some(parents[0])
    ensures |parents| > 1 ==> r == remembered
  {
    if |parents| == 0 then None else if |parents| == 1 then Some(parents[0]) else remembered
  }

  /** The parent nextParent remembers: the one after the remembered parent,
      wrapping around, or the first when none is remembered. */
  function NextParentOf(parents: seq<Id>, remembered: Option<Id>): Id
    requires |parents| >= 2
  {
    var index := IndexOfOption(parents, remembered);
    if index < 0 || index > |parents| - 2 then parents[0] else parents[index + 1]
  }

  /** The next parent is the one after the remembered one, counted around the
      list; a parent that is not remembered or is no longer a candidate counts as
      index -1, so the first parent follows it. */
  lemma NextParentIsSuccessor(parents: seq<Id>, remembered: Option<Id>)
    requires |parents| >= 2
    ensures NextParentOf(parents, remembered) == parents[(IndexOfOption(parents, remembered) + 1) % |parents|]
  {
    var index := IndexOfOption(parents, remembered);
    var n := |parents|;
    if index + 1 < n {
      DivModUnique(index + 1, n, 0, index + 1);
    } else {
      DivModUnique(index + 1, n, 1, 0);
    }
  }

  /** With distinct parents, the parent after the m-th is the (m + 1)-th, and the
      first one after the last: cycling visits every parent in turn. */
  lemma NextOfDistinct(parents: seq<Id>, m: int)
    requires |parents| >= 2 && NoDuplicates(parents) && 0 <= m < |parents|
    ensures NextParentOf(parents, Some(parents[m])) == if m + 1 < |parents| then parents[m + 1] else parents[0]
  {
    IndexOfDistinct(parents, m);
  }

  lemma IndexOfDistinct(s: seq<Id>, k: int)
    requires NoDuplicates(s) && 0 <= k < |s|
    ensures IndexOf(s, s[k]) == k
  {
  }

  // ---------------------------------------------------------------------------
  // Vertex cycling (previousVertex, nextVertex, firstVertex, lastVertex)

  /** The index previousVertex moves to from index curr (-1 when the selected
      node is not on the way). */
  function PreviousIndex(nodes: seq<Id>, curr: int): (index: Option<nat>)
    requires -1 <= curr < |nodes|
    ensures index.Some? ==> index.value < |nodes|
    ensures curr > 0 ==> index == Some(curr - 1)
    ensures curr <= 0 ==> (index.Some? <==> IsClosed(nodes))
    ensures curr <= 0 && IsClosed(nodes) ==> index == Some(|nodes| - 2)
  {
    var index := if curr > 0 then curr - 1 else if IsClosed(nodes) then |nodes| - 2 else -1;
    if index != -1 then Some(index) else None
  }

  /** The index nextVertex moves to from index curr. */
  function NextIndex(nodes: seq<Id>, curr: int): (index: Option<nat>)
    requires -1 <= curr < |nodes|
    ensures index.Some? ==> index.value < |nodes|
    ensures curr < |nodes| - 1 ==> index == Some(curr + 1)
    ensures curr == |nodes| - 1 ==> (index.Some? <==> IsClosed(nodes))
    ensures curr == |nodes| - 1 && IsClosed(nodes) ==> index == Some(0)
  {
    var index := if curr < |nodes| - 1 then curr + 1 else if IsClosed(nodes) then 0 else -1;
    if index != -1 then Some(index) else None
  }

  /** The node previousVertex selects on a way, from the selected node x. */
  function PreviousVertexOf(nodes: seq<Id>, x: Id): Option<Id> {
    match PreviousIndex(nodes, IndexOf(nodes, x))
    case None => None
    case Some(index) => Some(nodes[index])
  }

  /** The node nextVertex selects on a way, from the selected node x. */
  function NextVertexOf(nodes: seq<Id>, x: Id): Option<Id> {
    match NextIndex(nodes, IndexOf(nodes, x))
    case None => None
    case Some(index) => Some(nodes[index])
  }

  /** A way that visits no node twice, apart from the closing node of a closed way. */
  predicate SimpleWay(nodes: seq<Id>) {
    if IsClosed(nodes) then NoDuplicates(nodes[..|nodes| - 1]) else NoDuplicates(nodes)
  }

  lemma IndexOfInSimpleWay(nodes: seq<Id>, k: int)
    requires SimpleWay(nodes) && 0 <= k < |nodes|
    ensures IndexOf(nodes, nodes[k]) == if IsClosed(nodes) && k == |nodes| - 1 then 0 else k
  {
    var i := IndexOf(nodes, nodes[k]);
    if IsClosed(nodes) && k == |nodes| - 1 {
      assert nodes[0] == nodes[k];
    } else if IsClosed(nodes) {
      var pre := nodes[..|nodes| - 1];
      assert i < |pre| ==> pre[i] == nodes[i];
      assert pre[k] == nodes[k];
    }
  }

  /** On a closed way the next-vertex key never takes the wrap branch: the last
      distinct node steps onto the closing node, which is the first node again. */
  lemma ClosedWayNextSteps(nodes: seq<Id>, x: Id)
    requires IsClosed(nodes) && x in nodes
    ensures IndexOf(nodes, x) < |nodes| - 1
    ensures NextIndex(nodes, IndexOf(nodes, x)) == Some(IndexOf(nodes, x) + 1)
  {
    assert nodes[0] == nodes[|nodes| - 1];
  }

  /** On a simple closed way, from the last distinct node "next" selects the first
      node, and from the first node "previous" selects the last distinct node. */
  lemma ClosedWayWrapsAround(nodes: seq<Id>)
    requires IsClosed(nodes) && SimpleWay(nodes)
    ensures NextVertexOf(nodes, nodes[|nodes| - 2]) == Some(nodes[0])
    ensures PreviousVertexOf(nodes, nodes[0]) == Some(nodes[|nodes| - 2])
  {
    IndexOfInSimpleWay(nodes, |nodes| - 2);
    IndexOfInSimpleWay(nodes, 0);
  }

  /** On a simple way, "previous" undoes "next". */
  lemma NextThenPrevious(nodes: seq<Id>, x: Id)
    requires SimpleWay(nodes) && x in nodes && NextVertexOf(nodes, x).Some?
    ensures PreviousVertexOf(nodes, NextVertexOf(nodes, x).value) == Some(x)
  {
    var i := IndexOf(nodes, x);
    var n := |nodes|;
    if IsClosed(nodes) {
      ClosedWayNextSteps(nodes, x);
      IndexOfInSimpleWay(nodes, i + 1);
      if i + 1 == n - 1 {
        IndexOfInSimpleWay(nodes, i);
      }
    } else {
      assert i < n - 1;
      IndexOfInSimpleWay(nodes, i + 1);
    }
  }

  /** On a simple way, "next" undoes "previous". */
  lemma PreviousThenNext(nodes: seq<Id>, x: Id)
    requires SimpleWay(nodes) && x in nodes && PreviousVertexOf(nodes, x).Some?
    ensures NextVertexOf(nodes, PreviousVertexOf(nodes, x).value) == Some(x)
  {
    var i := IndexOf(nodes, x);
    var n := |nodes|;
    if i > 0 {
      IndexOfInSimpleWay(nodes, i - 1);
      if IsClosed(nodes) {
        ClosedWayNextSteps(nodes, x);
      }
    } else {
      assert IsClosed(nodes);
      IndexOfInSimpleWay(nodes, n - 2);
    }
  }

  /** `way.first()`. On a way without nodes it is `undefined`: the source then
      enters a select mode on `[undefined]`, whose first pruning leaves nothing
      and switches to browse mode; the model reports no target instead. */
  function First(nodes: seq<Id>): Option<Id> {
    if |nodes| > 0 then Some(nodes[0]) else None
  }

  /** `way.last()`, with the same reading of a way without nodes. */
  function Last(nodes: seq<Id>): Option<Id> {
    if |nodes| > 0 then Some(nodes[|nodes| - 1]) else None
  }

  // ---------------------------------------------------------------------------
  // Members to fetch (scheduleMissingMemberDownload)

  /** At most this many missing members are requested at once. */
  const MAX_MEMBERS_TO_LOAD: nat := 150

  /** Some member of ms has ID x. */
  predicate HasMemberId(ms: seq<Member>, x: Id) {
    exists k :: 0 <= k < |ms| && ms[k].id == x
  }

  /** The member IDs of ms that the graph lacks, in member order. */
  function MissingIn(g: Graph, ms: seq<Member>): seq<Id> {
    if |ms| == 0 then []
    else
      var last := ms[|ms| - 1];
      MissingIn(g, ms[..|ms| - 1]) + if last.id !in g.entities then [last.id] else []
  }

  lemma {:induction false} MissingInSpec(g: Graph, ms: seq<Member>)
    ensures forall x :: x in MissingIn(g, ms) <==> x !in g.entities && HasMemberId(ms, x)
  {
    if |ms| > 0 {
      var front := ms[..|ms| - 1];
      MissingInSpec(g, front);
      assert forall k :: 0 <= k < |front| ==> front[k] == ms[k];
      forall x | HasMemberId(ms, x) && !HasMemberId(front, x)
        ensures x == ms[|ms| - 1].id
      {
      }
    }
  }

  /** The missing members of the selected entity id, when it is a relation. */
  function MissingOf(g: Graph, id: Id): seq<Id> {
    if id in g.entities && g.entities[id].Relation? then MissingIn(g, g.entities[id].members) else []
  }

  /** Entity id is a relation of the graph with a member whose ID is x. */
  predicate RelationHasMember(g: Graph, id: Id, x: Id) {
    id in g.entities && g.entities[id].Relation? &&
    HasMemberId(g.entities[id].members, x)
  }

  /** Some selected relation has a member whose ID is x. */
  predicate SelectedRelationHasMember(g: Graph, ids: seq<Id>, x: Id) {
    exists i :: 0 <= i < |ids| && RelationHasMember(g, ids[i], x)
  }

  lemma SelectedRelationSnoc(g: Graph, ids: seq<Id>, x: Id)
    requires |ids| > 0
    ensures SelectedRelationHasMember(g, ids, x) <==>
      SelectedRelationHasMember(g, ids[..|ids| - 1], x) || RelationHasMember(g, ids[|ids| - 1], x)
  {
    var front := ids[..|ids| - 1];
    if SelectedRelationHasMember(g, ids, x) {
      var i :| 0 <= i < |ids| && RelationHasMember(g, ids[i], x);
      if i < |front| {
        assert front[i] == ids[i];
      }
    }
    if SelectedRelationHasMember(g, front, x) {
      var i :| 0 <= i < |front| && RelationHasMember(g, front[i], x);
      assert ids[i] == front[i];
    }
  }

  /** The missing members of all selected relations, with repetitions, in visiting order. */
  function MissingMembers(g: Graph, ids: seq<Id>): seq<Id> {
    if |ids| == 0 then []
    else MissingMembers(g, ids[..|ids| - 1]) + MissingOf(g, ids[|ids| - 1])
  }

  /** The missing members are exactly the absent IDs that are members of some selected relation. */
  lemma {:induction false} MissingMembersSpec(g: Graph, ids: seq<Id>)
    ensures forall x :: x in MissingMembers(g, ids) <==> x !in g.entities && SelectedRelationHasMember(g, ids, x)
  {
    if |ids| > 0 {
      var front := ids[..|ids| - 1];
      var last := ids[|ids| - 1];
      MissingMembersSpec(g, front);
      if last in g.entities && g.entities[last].Relation? {
        MissingInSpec(g, g.entities[last].members);
      }
      forall x { SelectedRelationSnoc(g, ids, x); }
    }
  }

  /** The members scheduleMissingMemberDownload requests are distinct, at most 150,
      each missing from the graph and a member of a selected relation; when no
      more than 150 are missing, all of them are requested. */
  lemma {:induction false} MissingMemberRequestSound(g: Graph, ids: seq<Id>)
    ensures var toLoad := Take(Dedup(MissingMembers(g, ids)), MAX_MEMBERS_TO_LOAD);
      && NoDuplicates(toLoad) && |toLoad| <= MAX_MEMBERS_TO_LOAD
      && (forall x :: x in toLoad ==> x !in g.entities && SelectedRelationHasMember(g, ids, x))
      && (|Dedup(MissingMembers(g, ids))| <= MAX_MEMBERS_TO_LOAD ==>
            forall x :: x !in g.entities && SelectedRelationHasMember(g, ids, x) ==> x in toLoad)
  {
    var d := Dedup(MissingMembers(g, ids));
    var toLoad := Take(d, MAX_MEMBERS_TO_LOAD);
    MissingMembersSpec(g, ids);
    DedupSpec(MissingMembers(g, ids));
    assert forall x :: x in toLoad ==> x in d;
    assert forall i, j :: 0 <= i < j < |toLoad| ==> toLoad[i] == d[i] && toLoad[j] == d[j];
  }

  lemma MissingInSnoc(g: Graph, ms: seq<Member>, j: int)
    requires 0 <= j < |ms|
    ensures ms[j].id !in g.entities ==> MissingIn(g, ms[..j + 1]) == MissingIn(g, ms[..j]) + [ms[j].id]
    ensures ms[j].id in g.entities ==> MissingIn(g, ms[..j + 1]) == MissingIn(g, ms[..j])
  {
    assert ms[..j + 1][..j] == ms[..j];
  }

  lemma MissingMembersSnoc(g: Graph, ids: seq<Id>, i: int)
    requires 0 <= i < |ids|
    ensures MissingMembers(g, ids[..i + 1]) == MissingMembers(g, ids[..i]) + MissingOf(g, ids[i])
  {
    assert ids[..i + 1][..i] == ids[..i];
  }

  lemma DedupSnoc(s: seq<Id>, x: Id)
    ensures Dedup(s + [x]) == if x in Dedup(s) then Dedup(s) else Dedup(s) + [x]
  {
    assert (s + [x])[..|s + [x]| - 1] == s;
  }

  /** The inner loop of scheduleMissingMemberDownload: adds the missing members
      of one relation to the Set, given as the sequence of all insertions so far. */
  method AddMissingMembers(g: Graph, members: seq<Member>, missing: seq<Id>, ghost inserted: seq<Id>)
    returns (missing': seq<Id>)
    requires missing == Dedup(inserted)
    ensures missing' == Dedup(inserted + MissingIn(g, members))
  {
    missing' := missing;
    ghost var trace := inserted;
    var j := 0;
    assert members[..j] == [];
    while j < |members|
      invariant 0 <= j <= |members|
      invariant trace == inserted + MissingIn(g, members[..j])
      invariant missing' == Dedup(trace)
    {
      MissingInSnoc(g, members, j);
      if members[j].id !in g.entities {
        DedupSnoc(trace, members[j].id);
        if members[j].id !in missing' {
          missing' := missing' + [members[j].id];
        }
        trace := trace + [members[j].id];
      }
      j := j + 1;
    }
    assert members[..j] == members;
  }

  /** The IDs scheduleMissingMemberDownload passes to `context.loadEntities`
      (the empty sequence when it makes no call). */
  method ScheduleMissingMemberDownload(g: Graph, ids: seq<Id>) returns (toLoad: seq<Id>)
    ensures toLoad == Take(Dedup(MissingMembers(g, ids)), MAX_MEMBERS_TO_LOAD)
  {
    var missing: seq<Id> := [];  // the insertion-ordered Set of the source
    var i := 0;
    while i < |ids|
      invariant 0 <= i <= |ids|
      invariant missing == Dedup(MissingMembers(g, ids[..i]))
    {
      var id := ids[i];
      MissingMembersSnoc(g, ids, i);
      if id in g.entities && g.entities[id].Relation? {
        missing := AddMissingMembers(g, g.entities[id].members, missing, MissingMembers(g, ids[..i]));
      } else {
        assert MissingMembers(g, ids[..i + 1]) == MissingMembers(g, ids[..i]);
      }
      i := i + 1;
    }
    assert ids[..i] == ids;
    toLoad := Take(missing, MAX_MEMBERS_TO_LOAD);
  }

  // ---------------------------------------------------------------------------
  // The operations offered (mode.enter)

  datatype OperationSummary = OperationSummary(id: string, available: bool)

  /** The available operations other than delete and downgrade, in registry order. */
  function OfferedBeforeLast(ops: seq<OperationSummary>): (r: seq<string>)
    ensures forall x :: x in r <==> exists o :: o in ops && o.available && o.id == x && x != "delete" && x != "downgrade"
  {
    if |ops| == 0 then []
    else
      var o := ops[0];
      assert forall p :: p in ops <==> p == o || p in ops[1..];
      (if o.available && o.id != "delete" && o.id != "downgrade" then [o.id] else []) + OfferedBeforeLast(ops[1..])
  }

  /** The IDs of mode.enter's operations list: the available operations except
      delete and downgrade, then downgrade when it is available outside the
      walkthrough, otherwise delete. */
  function AssembleOperations(ops: seq<OperationSummary>, downgradeAvailable: bool, inIntro: bool): (r: seq<string>)
    ensures |r| >= 1
    ensures r[|r| - 1] == if !inIntro && downgradeAvailable then "downgrade" else "delete"
    ensures forall k :: 0 <= k < |r| - 1 ==> r[k] != "delete" && r[k] != "downgrade"
    ensures forall k :: 0 <= k < |r| - 1 ==> exists o :: o in ops && o.available && o.id == r[k]
    ensures forall o :: o in ops && o.available && o.id != "delete" && o.id != "downgrade" ==>
      exists k :: 0 <= k < |r| - 1 && r[k] == o.id
  {
    var offered := OfferedBeforeLast(ops);
    var r := offered + [if !inIntro && downgradeAvailable then "downgrade" else "delete"];
    assert forall k :: 0 <= k < |r| - 1 ==> r[k] == offered[k] && r[k] in offered;
    assert forall o :: o in ops && o.available && o.id != "delete" && o.id != "downgrade" ==> o.id in offered;
    assert forall x :: x in offered ==> exists k :: 0 <= k < |offered| && offered[k] == x;
    r
  }

  // ---------------------------------------------------------------------------
  // Dropping an untouched new relation (mode.exit)

  /** A relation nobody has edited: no tags, no parent relations, and no members
      or a single member without a role. */
  predicate Untouched(g: Graph, id: Id)
    requires id in g.entities && g.entities[id].Relation?
  {
    var r := g.entities[id];
    |r.tags| == 0 && |ParentRelations(g, id)| == 0 &&
    (|r.members| == 0 || (|r.members| == 1 && r.members[0].role == ""))
  }

  /** The relation mode.exit deletes, if any. */
  function DeletedOnExit(g: Graph, newFeature: bool, ids: seq<Id>): (deleted: Option<Id>)
    ensures deleted.Some? <==>
      newFeature && |ids| == 1 && ids[0] in g.entities && g.entities[ids[0]].Relation? && Untouched(g, ids[0])
    ensures deleted.Some? ==> deleted.value == ids[0]
  {
    var entity := if |ids| == 1 && HasEntity(g, ids[0]) then Some(ids[0]) else None;
    if newFeature && entity.Some? && g.entities[entity.value].Relation? && Untouched(g, entity.value)
    then entity else None
  }

  /** Any edit to a new relation keeps it: a tag, a role on a member, a second
      member or a parent relation. */
  lemma EditedRelationSurvivesExit(g: Graph, newFeature: bool, id: Id)
    requires id in g.entities && g.entities[id].Relation?
    requires || |g.entities[id].tags| > 0
             || |ParentRelations(g, id)| > 0
             || |g.entities[id].members| >= 2
             || (exists k :: 0 <= k < |g.entities[id].members| && g.entities[id].members[k].role != "")
    ensures DeletedOnExit(g, newFeature, [id]) == None
  {
  }

  // ---------------------------------------------------------------------------
  // The mode's state

  /** One instance of the select mode. */
  class SelectMode {
    var selectedIDs: seq<Id>
    /** The module-level `_relatedParent` of the source, which outlives a mode
        instance: a new instance is given the value the previous one left. */
    var relatedParent: Option<Id>
    var newFeature: bool
    /** Whether the mode has asked the context to switch to browse mode. */
    var enteredBrowse: bool
    /** The IDs of the operations the edit menu offers. */
    var operations: seq<string>

    constructor(ids: seq<Id>, remembered: Option<Id>)
      ensures selectedIDs == ids && relatedParent == remembered
      ensures !newFeature && !enteredBrowse && operations == []
    {
      selectedIDs := ids;
      relatedParent := remembered;
      newFeature := false;
      enteredBrowse := false;
      operations := [];
    }

    /** checkSelectedIDs: keeps the present IDs, or switches to browse mode
        (leaving the selection as it was) when none is left. */
    method CheckSelectedIDs(g: Graph) returns (ok: bool)
      modifies this`selectedIDs, this`enteredBrowse
      ensures ok <==> |PresentIDs(g, old(selectedIDs))| > 0
      ensures ok ==> selectedIDs == PresentIDs(g, old(selectedIDs)) && enteredBrowse == old(enteredBrowse)
      ensures !ok ==> selectedIDs == old(selectedIDs) && enteredBrowse
    {
      var ids := PresentIDs(g, selectedIDs);
      if |ids| > 0 {
        selectedIDs := ids;
      } else {
        enteredBrowse := true;
      }
      ok := |ids| > 0;
    }

    /** singularParent: forgets the remembered parent when there is no common
        parent, remembers the only one, and otherwise keeps the memory. */
    method SingularParent(g: Graph) returns (parent: Option<Id>)
      modifies this`relatedParent
      ensures parent == PreferredParent(CommonParentsOf(g, selectedIDs), old(relatedParent))
      ensures relatedParent == MemoryAfter(CommonParentsOf(g, selectedIDs), old(relatedParent))
    {
      var parents := CommonParents(g, selectedIDs);
      if |parents| == 0 {
        relatedParent := None;
        return None;
      }
      if |parents| == 1 {
        relatedParent := Some(parents[0]);  // remember this parent for later
        return relatedParent;
      }
      if IndexOfOption(parents, relatedParent) != -1 {
        return relatedParent;  // prefer the previously seen parent
      }
      return Some(parents[0]);
    }

    /** The parent way found by singularParent is a way of the graph that holds
        the first selected node. */
    lemma ParentWayHoldsSelection(g: Graph, parent: Id)
      requires Valid(g) && parent in CommonParentsOf(g, selectedIDs)
      ensures |selectedIDs| > 0 && parent in g.entities && g.entities[parent].Way?
      ensures selectedIDs[0] in g.entities[parent].nodes
    {
      CommonParentsSpec(g, selectedIDs);
      ParentIsWay(g, selectedIDs[0], parent);
    }

    /** previousVertex: the node to select next, if any. */
    method PreviousVertex(g: Graph) returns (target: Option<Id>)
      requires Valid(g)
      modifies this`relatedParent
      ensures var p := PreferredParent(CommonParentsOf(g, selectedIDs), old(relatedParent));
        p.Some? ==> |selectedIDs| > 0 && p.value in g.entities && g.entities[p.value].Way?
      ensures var p := PreferredParent(CommonParentsOf(g, selectedIDs), old(relatedParent));
        target == if p.None? then None else PreviousVertexOf(g.entities[p.value].nodes, selectedIDs[0])
      ensures relatedParent == MemoryAfter(CommonParentsOf(g, selectedIDs), old(relatedParent))
    {
      var parent := SingularParent(g);
      if parent.None? {
        return None;
      }
      ParentWayHoldsSelection(g, parent.value);
      target := PreviousVertexOf(g.entities[parent.value].nodes, selectedIDs[0]);
    }

    /** nextVertex: the node to select next, if any. */
    method NextVertex(g: Graph) returns (target: Option<Id>)
      requires Valid(g)
      modifies this`relatedParent
      ensures var p := PreferredParent(CommonParentsOf(g, selectedIDs), old(relatedParent));
        p.Some? ==> |selectedIDs| > 0 && p.value in g.entities && g.entities[p.value].Way?
      ensures var p := PreferredParent(CommonParentsOf(g, selectedIDs), old(relatedParent));
        target == if p.None? then None else NextVertexOf(g.entities[p.value].nodes, selectedIDs[0])
      ensures relatedParent == MemoryAfter(CommonParentsOf(g, selectedIDs), old(relatedParent))
    {
      var parent := SingularParent(g);
      if parent.None? {
        return None;
      }
      ParentWayHoldsSelection(g, parent.value);
      target := NextVertexOf(g.entities[parent.value].nodes, selectedIDs[0]);
    }

    /** The single selected entity, when exactly one present ID is selected (`singular()`). */
    function Singular(g: Graph): (r: Option<Id>)
      reads this
      ensures r.Some? ==> r.value in g.entities
    {
      if |selectedIDs| == 1 && HasEntity(g, selectedIDs[0]) then Some(selectedIDs[0]) else None
    }

    /** The way whose first or last node firstVertex and lastVertex select: the
        selected way itself, otherwise the related parent. */
    function EndpointWay(g: Graph, parent: Option<Id>): (nodes: Option<seq<Id>>)
      reads this
      requires parent.Some? ==> parent.value in g.entities && g.entities[parent.value].Way?
    {
      var entity := Singular(g);
      if entity.Some? && g.entities[entity.value].Way? then Some(g.entities[entity.value].nodes)
      else if parent.Some? then Some(g.entities[parent.value].nodes)
      else None
    }

    /** firstVertex: selects `way.first()` of the selected way or of the related parent. */
    method FirstVertex(g: Graph) returns (target: Option<Id>)
      requires Valid(g)
      modifies this`relatedParent
      ensures var p := PreferredParent(CommonParentsOf(g, selectedIDs), old(relatedParent));
        p.Some? ==> p.value in g.entities && g.entities[p.value].Way?
      ensures var p := PreferredParent(CommonParentsOf(g, selectedIDs), old(relatedParent));
        var way := EndpointWay(g, p);
        target == if way.None? then None else First(way.value)
      ensures relatedParent == MemoryAfter(CommonParentsOf(g, selectedIDs), old(relatedParent))
    {
      var parent := SingularParent(g);
      if parent.Some? {
        ParentWayHoldsSelection(g, parent.value);
      }
      var way := EndpointWay(g, parent);
      target := if way.None? then None else First(way.value);
    }

    /** lastVertex: selects `way.last()` of the selected way or of the related parent. */
    method LastVertex(g: Graph) returns (target: Option<Id>)
      requires Valid(g)
      modifies this`relatedParent
      ensures var p := PreferredParent(CommonParentsOf(g, selectedIDs), old(relatedParent));
        p.Some? ==> p.value in g.entities && g.entities[p.value].Way?
      ensures var p := PreferredParent(CommonParentsOf(g, selectedIDs), old(relatedParent));
        var way := EndpointWay(g, p);
        target == if way.None? then None else Last(way.value)
      ensures relatedParent == MemoryAfter(CommonParentsOf(g, selectedIDs), old(relatedParent))
    {
      var parent := SingularParent(g);
      if parent.Some? {
        ParentWayHoldsSelection(g, parent.value);
      }
      var way := EndpointWay(g, parent);
      target := if way.None? then None else Last(way.value);
    }

    /** nextParent: with two or more common parents, remembers the next one. */
    method NextParent(g: Graph)
      modifies this`relatedParent
      ensures var ps := CommonParentsOf(g, selectedIDs);
        relatedParent == if |ps| < 2 then old(relatedParent) else Some(NextParentOf(ps, old(relatedParent)))
    {
      var parents := CommonParents(g, selectedIDs);
      if |parents| < 2 {
        return;
      }
      var index := IndexOfOption(parents, relatedParent);
      if index < 0 || index > |parents| - 2 {
        relatedParent := Some(parents[0]);
      } else {
        relatedParent := Some(parents[index + 1]);
      }
    }

    /** The state part of selectElements: prunes the selection again (stopping
        when nothing is left) and updates the remembered parent. */
    method SelectElements(g: Graph) returns (ok: bool)
      modifies this`selectedIDs, this`enteredBrowse, this`relatedParent
      ensures ok <==> |PresentIDs(g, old(selectedIDs))| > 0
      ensures !ok ==> selectedIDs == old(selectedIDs) && enteredBrowse && relatedParent == old(relatedParent)
      ensures ok ==>
        && selectedIDs == PresentIDs(g, old(selectedIDs)) && enteredBrowse == old(enteredBrowse)
        && relatedParent == MemoryAfter(CommonParentsOf(g, selectedIDs), old(relatedParent))
    {
      ok := CheckSelectedIDs(g);
      if !ok {
        return;
      }
      var _ := SingularParent(g);
    }

    /** mode.enter: prunes the selection (stopping when nothing is left), then
        schedules the download of missing members, builds the operations list
        and, through selectElements, prunes again and updates the remembered
        parent. `ops` are the operations built for the pruned selection. */
    method Enter(g: Graph, ops: seq<OperationSummary>, downgradeAvailable: bool, inIntro: bool)
      returns (entered: bool, toLoad: seq<Id>)
      modifies this`selectedIDs, this`enteredBrowse, this`operations, this`relatedParent
      ensures entered <==> |PresentIDs(g, old(selectedIDs))| > 0
      ensures !entered ==>
        && selectedIDs == old(selectedIDs) && enteredBrowse && operations == old(operations) && toLoad == []
        && relatedParent == old(relatedParent)
      ensures entered ==>
        && selectedIDs == PresentIDs(g, old(selectedIDs))
        && enteredBrowse == old(enteredBrowse)
        && toLoad == Take(Dedup(MissingMembers(g, selectedIDs)), MAX_MEMBERS_TO_LOAD)
        && operations == AssembleOperations(ops, downgradeAvailable, inIntro)
      ensures entered ==> relatedParent == MemoryAfter(CommonParentsOf(g, selectedIDs), old(relatedParent))
    {
      ghost var initial := selectedIDs;
      entered := CheckSelectedIDs(g);
      if !entered {
        return entered, [];
      }
      toLoad := ScheduleMissingMemberDownload(g, selectedIDs);
      operations := AssembleOperations(ops, downgradeAvailable, inIntro);
      ghost var pruned := selectedIDs;
      assert pruned == PresentIDs(g, initial);
      PresentIDsIdempotent(g, initial);
      assert PresentIDs(g, pruned) == pruned;
      var again := SelectElements(g);
      assert again;
      assert selectedIDs == pruned;
    }
  }
}
