/** The bezierize operation (modules/operations/bezierize.js): which selected
    vertices get an action, when the operation is offered, why it is disabled,
    its tooltip, and the combined action it performs. */
module OperationBezierize {
  import opened Common
  import opened OsmGraph
  import opened ActionBezierize

  const OPERATION_ID: string := "bezierize"
  const ANNOTATION_KEY: string := "operations.bezierize.annotation.points"
  const DESCRIPTION_KEY: string := "operations.bezierize.description.points"
  const REASON_KEY_PREFIX: string := "operations.bezierize."

  predicate AllPresent(g: Graph, ids: seq<Id>) {
    forall i :: 0 <= i < |ids| ==> ids[i] in g.entities
  }

  /** A vertex with exactly one parent way, sitting strictly inside it: the only
      entities chooseAction gives an action. */
  predicate Bezierizable(g: Graph, id: Id)
    requires Valid(g)
  {
    IsVertex(g, id) && |ParentWays(g, id)| == 1 &&
    (ParentIsWay(g, id, ParentWays(g, id)[0]);
     var nodes := g.entities[ParentWays(g, id)[0]].nodes;
     0 < IndexOf(nodes, id) < |nodes| - 1)
  }

  /** chooseAction as the source writes it: the vertex ID string is passed as
      `nodeIDs` and the parent way as `projection`. */
  function ChooseActionAsWritten(g: Graph, id: Id): (r: Option<BezierizeAction>)
    requires Valid(g) && id in g.entities
    ensures r.Some? <==> Bezierizable(g, id)
    ensures r.Some? ==> r.value == BezierizeAction(IdString(id), NotAFunction)
  {
    if IsVertex(g, id) && |ParentWays(g, id)| == 1 then
      var w := ParentWays(g, id)[0];
      ParentIsWay(g, id, w);
      var nodes := g.entities[w].nodes;
      var index := IndexOf(nodes, id);
      if index > 0 && index < |nodes| - 1 then Some(BezierizeAction(IdString(id), NotAFunction)) else None
    else None
  }

  /** chooseAction as evidently intended by "bezierize a single vertex using
      previous and next node": the action gets the three node IDs and the map
      projection. */
  function ChooseAction(g: Graph, id: Id): (r: Option<BezierizeAction>)
    requires Valid(g) && id in g.entities
    ensures r.Some? <==> Bezierizable(g, id)
    ensures r.Some? ==>
      var nodes := g.entities[ParentWays(g, id)[0]].nodes;
      var index := IndexOf(nodes, id);
      0 < index < |nodes| - 1 &&
      r.value == BezierizeAction(IdList([nodes[index - 1], id, nodes[index + 1]]), ProjectionFunction)
  {
    if IsVertex(g, id) && |ParentWays(g, id)| == 1 then
      var w := ParentWays(g, id)[0];
      ParentIsWay(g, id, w);
      var nodes := g.entities[w].nodes;
      var index := IndexOf(nodes, id);
      if index > 0 && index < |nodes| - 1
      then Some(BezierizeAction(IdList([nodes[index - 1], id, nodes[index + 1]]), ProjectionFunction))
      else None
    else None
  }

  /** Which chooseAction builds the operation's actions: the source's, or the
      evidently intended one. */
  datatype Chooser = AsWritten | Intended

  function ChooseWith(c: Chooser, g: Graph, id: Id): (r: Option<BezierizeAction>)
    requires Valid(g) && id in g.entities
    ensures r.Some? <==> Bezierizable(g, id)
  {
    match c
    case AsWritten => ChooseActionAsWritten(g, id)
    case Intended => ChooseAction(g, id)
  }

  /** `selectedIDs.map(chooseAction).filter(Boolean)`. */
  function Chosen(g: Graph, ids: seq<Id>, c: Chooser): seq<BezierizeAction>
    requires Valid(g) && AllPresent(g, ids)
  {
    if |ids| == 0 then []
    else
      var front := ids[..|ids| - 1];
      assert forall i :: 0 <= i < |front| ==> front[i] == ids[i];
      var a := ChooseWith(c, g, ids[|ids| - 1]);
      Chosen(g, front, c) + if a.Some? then [a.value] else []
  }

  /** The last selected ID adds one action exactly when it qualifies. */
  lemma ChosenLength(g: Graph, ids: seq<Id>, c: Chooser)
    requires Valid(g) && AllPresent(g, ids) && |ids| > 0
    ensures AllPresent(g, ids[..|ids| - 1])
    ensures |Chosen(g, ids, c)| ==
      |Chosen(g, ids[..|ids| - 1], c)| + if Bezierizable(g, ids[|ids| - 1]) then 1 else 0
  {
    var front := ids[..|ids| - 1];
    assert forall i :: 0 <= i < |front| ==> front[i] == ids[i];
  }

  /** Every selected ID yields an action exactly when there are as many actions
      as selected IDs; there are never more. */
  lemma {:induction false} ChosenCount(g: Graph, ids: seq<Id>, c: Chooser)
    requires Valid(g) && AllPresent(g, ids)
    ensures |Chosen(g, ids, c)| <= |ids|
    ensures |Chosen(g, ids, c)| == |ids| <==> forall i :: 0 <= i < |ids| ==> Bezierizable(g, ids[i])
  {
    if |ids| > 0 {
      var front := ids[..|ids| - 1];
      ChosenLength(g, ids, c);
      ChosenCount(g, front, c);
      assert forall i :: 0 <= i < |front| ==> front[i] == ids[i];
      if |Chosen(g, ids, c)| == |ids| {
        forall i | 0 <= i < |ids| ensures Bezierizable(g, ids[i]) {
          if i < |front| {
            assert Bezierizable(g, front[i]);
          }
        }
      }
    }
  }

  /** Every action comes from a vertex, so an operation with actions has seen one. */
  lemma {:induction false} ChosenFromVertex(g: Graph, ids: seq<Id>, c: Chooser)
    requires Valid(g) && AllPresent(g, ids) && |Chosen(g, ids, c)| > 0
    ensures exists i :: 0 <= i < |ids| && IsVertex(g, ids[i])
  {
    var front := ids[..|ids| - 1];
    assert forall i :: 0 <= i < |front| ==> front[i] == ids[i];
    if |Chosen(g, front, c)| > 0 {
      ChosenFromVertex(g, front, c);
      var i :| 0 <= i < |front| && IsVertex(g, front[i]);
      assert IsVertex(g, ids[i]);
    } else {
      assert IsVertex(g, ids[|ids| - 1]);
    }
  }

  /** Every intended action is given three node IDs and the projection; in a
      graph that holds every way's nodes, all three are entities. */
  lemma {:induction false} ChosenHaveThreeNodes(g: Graph, ids: seq<Id>)
    requires Valid(g) && AllPresent(g, ids)
    ensures forall k :: 0 <= k < |Chosen(g, ids, Intended)| ==>
      Chosen(g, ids, Intended)[k].nodeIDs.IdList? && |Chosen(g, ids, Intended)[k].nodeIDs.ids| == 3 &&
      Chosen(g, ids, Intended)[k].projection == ProjectionFunction
    ensures WayNodesPresent(g) ==>
      forall k :: 0 <= k < |Chosen(g, ids, Intended)| ==> AllPresent(g, Chosen(g, ids, Intended)[k].nodeIDs.ids)
  {
    if |ids| > 0 {
      var front := ids[..|ids| - 1];
      assert forall i :: 0 <= i < |front| ==> front[i] == ids[i];
      ChosenHaveThreeNodes(g, front);
      var id := ids[|ids| - 1];
      var a := ChooseAction(g, id);
      if a.Some? && WayNodesPresent(g) {
        var w := ParentWays(g, id)[0];
        ParentIsWay(g, id, w);
        var nodes := g.entities[w].nodes;
        var index := IndexOf(nodes, id);
        assert nodes[index - 1] in g.entities && nodes[index + 1] in g.entities;
        assert AllPresent(g, a.value.nodeIDs.ids);
      }
    }
  }

  /** The source's actions are exactly one per bezierizable selected ID, each
      given that ID as a string and the way as projection. */
  lemma {:induction false} ChosenAsWritten(g: Graph, ids: seq<Id>)
    requires Valid(g) && AllPresent(g, ids)
    ensures forall k :: 0 <= k < |Chosen(g, ids, AsWritten)| ==>
      var a := Chosen(g, ids, AsWritten)[k];
      a.nodeIDs.IdString? && a.projection == NotAFunction && a.nodeIDs.s in ids && Bezierizable(g, a.nodeIDs.s)
    ensures forall i :: 0 <= i < |ids| && Bezierizable(g, ids[i]) ==>
      BezierizeAction(IdString(ids[i]), NotAFunction) in Chosen(g, ids, AsWritten)
  {
    if |ids| > 0 {
      var front := ids[..|ids| - 1];
      assert forall i :: 0 <= i < |front| ==> front[i] == ids[i];
      ChosenAsWritten(g, front);
      var rest := Chosen(g, front, AsWritten);
      assert forall x :: x in front ==> x in ids;
      forall i | 0 <= i < |ids| && Bezierizable(g, ids[i])
        ensures BezierizeAction(IdString(ids[i]), NotAFunction) in Chosen(g, ids, AsWritten)
      {
        if i < |front| {
          assert Bezierizable(g, front[i]);
          assert BezierizeAction(IdString(front[i]), NotAFunction) in rest;
        }
      }
    }
  }

  // ---------------------------------------------------------------------------
  // disabled

  /** `actions.every(a => a.disabled(graph))`. */
  predicate AllDisabled(actions: seq<BezierizeAction>) {
    forall k :: 0 <= k < |actions| ==> actions[k].Disabled().Truthy()
  }

  /** The keys of `actionDisableds` once every action has been found disabled. */
  function ReasonSet(actions: seq<BezierizeAction>): set<string> {
    set k | 0 <= k < |actions| && actions[k].Disabled().Truthy() :: actions[k].Disabled().s
  }

  /** The value of `operation.disabled()`, given the answers of the parts this
      model does not compute: whether the union of the entity extents lies less
      than 80% inside the visible extent, whether some node location is not
      loaded (someMissing), and whether some selected ID has hidden connections. */
  function DisabledReason(actions: seq<BezierizeAction>, corner: bool, extentMostlyOutside: bool,
                          someMissing: bool, anyHidden: bool): JsReason
  {
    if |actions| == 0 then Str("")
    else if AllDisabled(actions) then
      if |ReasonSet(actions)| > 1 then Str("multiple_blockers") else actions[0].Disabled()
    else if !corner && extentMostlyOutside then Str("too_large")
    else if someMissing then Str("not_downloaded")
    else if anyHidden then Str("connected_to_hidden")
    else False
  }

  /** With no actions the reason is the falsy `''`; when every action is
      disabled the reason is its one reason, as an action has only one. */
  lemma DisabledWhenBlocked(actions: seq<BezierizeAction>, corner: bool, extentMostlyOutside: bool,
                            someMissing: bool, anyHidden: bool)
    ensures |actions| == 0 ==> !DisabledReason(actions, corner, extentMostlyOutside, someMissing, anyHidden).Truthy()
    ensures |actions| > 0 && AllDisabled(actions) ==>
      DisabledReason(actions, corner, extentMostlyOutside, someMissing, anyHidden) == Str("needs_3_points")
    ensures DisabledReason(actions, corner, extentMostlyOutside, someMissing, anyHidden) != Str("multiple_blockers")
  {
    if |actions| > 0 && AllDisabled(actions) {
      assert ReasonSet(actions) <= {"needs_3_points"};
      SubsetOfSingleton(ReasonSet(actions), "needs_3_points");
    }
  }

  lemma SubsetOfSingleton(s: set<string>, x: string)
    requires s <= {x}
    ensures |s| <= 1
  {
    if s != {} {
      assert s == {x};
    }
  }

  /** When some action is enabled, too_large wins over not_downloaded, which
      wins over connected_to_hidden; too_large needs a selection without vertices. */
  lemma DisabledPrecedence(actions: seq<BezierizeAction>, corner: bool, extentMostlyOutside: bool,
                           someMissing: bool, anyHidden: bool)
    requires |actions| > 0 && !AllDisabled(actions)
    ensures var r := DisabledReason(actions, corner, extentMostlyOutside, someMissing, anyHidden);
      && (r == Str("too_large") <==> !corner && extentMostlyOutside)
      && (r == Str("not_downloaded") <==> !(!corner && extentMostlyOutside) && someMissing)
      && (r == Str("connected_to_hidden") <==> !(!corner && extentMostlyOutside) && !someMissing && anyHidden)
      && (r == False <==> !(!corner && extentMostlyOutside) && !someMissing && !anyHidden)
  {
  }

  /** The node locations `someMissing` finds unloaded, for which it requests tiles. */
  function MissingCoords(coords: seq<Id>, isDataLoaded: Id -> bool): (r: seq<Id>)
    ensures forall x :: x in r <==> x in coords && !isDataLoaded(x)
    ensures IsSubsequence(r, coords)
  {
    if |coords| == 0 then []
    else
      var rest := MissingCoords(coords[1..], isDataLoaded);
      assert coords == [coords[0]] + coords[1..];
      if !isDataLoaded(coords[0]) then
        SubsequenceCons(coords[0], rest, coords[1..]);
        [coords[0]] + rest
      else
        SubsequenceOfTailAll(rest, coords);
        rest
  }

  /** `tooltip()`: the message key for the disabled reason, or the description. */
  function TooltipKey(disabled: JsReason): (key: string)
    ensures disabled.Truthy() ==> key == REASON_KEY_PREFIX + disabled.s
    ensures !disabled.Truthy() ==> key == DESCRIPTION_KEY
  {
    if disabled.Truthy() then REASON_KEY_PREFIX + disabled.s else DESCRIPTION_KEY
  }

  /** Different reasons give different tooltips, none of them the description's. */
  lemma TooltipKeysDistinct(r1: JsReason, r2: JsReason)
    requires r1.Truthy() && r2.Truthy() && r1 != r2
    ensures TooltipKey(r1) != TooltipKey(r2)
  {
    assert TooltipKey(r1)[|REASON_KEY_PREFIX|..] == r1.s;
    assert TooltipKey(r2)[|REASON_KEY_PREFIX|..] == r2.s;
  }

  // ---------------------------------------------------------------------------
  // the combined action

  /** Applying the actions in order: a disabled action is skipped, an error
      ends the run. */
  function CombinedSpec(actions: seq<BezierizeAction>, g: Graph): Result<Graph, ApplyError> {
    if |actions| == 0 then Success(g)
    else if actions[0].Disabled().Truthy() then CombinedSpec(actions[1..], g)
    else match actions[0].Apply(g)
      case Failure(e) => Failure(e)
      case Success(g') => CombinedSpec(actions[1..], g')
  }

  /** Every action returns its graph, so a combined run that succeeds leaves the
      graph unchanged, and one in which every action is disabled succeeds. */
  lemma {:induction false} CombinedKeepsGraph(actions: seq<BezierizeAction>, g: Graph)
    ensures CombinedSpec(actions, g).Success? ==> CombinedSpec(actions, g).value == g
    ensures AllDisabled(actions) ==> CombinedSpec(actions, g) == Success(g)
  {
    if |actions| > 0 {
      CombinedKeepsGraph(actions[1..], g);
      assert AllDisabled(actions) ==> AllDisabled(actions[1..]) by {
        if AllDisabled(actions) {
          forall k | 0 <= k < |actions[1..]| ensures actions[1..][k].Disabled().Truthy() {
            assert actions[1..][k] == actions[k + 1];
          }
        }
      }
    }
  }

  /** The intended actions all succeed when their node IDs are in the graph. */
  lemma {:induction false} CombinedSucceeds(actions: seq<BezierizeAction>, g: Graph)
    requires forall k :: 0 <= k < |actions| ==>
      actions[k].nodeIDs.IdList? && actions[k].projection == ProjectionFunction &&
      AllPresent(g, actions[k].nodeIDs.ids)
    ensures CombinedSpec(actions, g) == Success(g)
  {
    if |actions| > 0 {
      assert forall k :: 0 <= k < |actions[1..]| ==> actions[1..][k] == actions[k + 1];
      CombinedSucceeds(actions[1..], g);
    }
  }

  /** The source's actions exist exactly when some selected ID is bezierizable,
      and are all disabled exactly when none of those has three characters. */
  lemma ChosenAsWrittenBlocked(g: Graph, ids: seq<Id>)
    requires Valid(g) && AllPresent(g, ids)
    ensures forall k :: 0 <= k < |Chosen(g, ids, AsWritten)| ==> Chosen(g, ids, AsWritten)[k].nodeIDs.IdString?
    ensures |Chosen(g, ids, AsWritten)| > 0 <==> exists i :: 0 <= i < |ids| && Bezierizable(g, ids[i])
    ensures AllDisabled(Chosen(g, ids, AsWritten)) <==>
      forall i :: 0 <= i < |ids| && Bezierizable(g, ids[i]) ==> |ids[i]| != 3
  {
    var actions := Chosen(g, ids, AsWritten);
    ChosenAsWritten(g, ids);
    if AllDisabled(actions) {
      forall i | 0 <= i < |ids| && Bezierizable(g, ids[i]) ensures |ids[i]| != 3 {
        var k :| 0 <= k < |actions| && actions[k] == BezierizeAction(IdString(ids[i]), NotAFunction);
        assert actions[k].Disabled().Truthy();
      }
    } else {
      var k :| 0 <= k < |actions| && !actions[k].Disabled().Truthy();
      var x := actions[k].nodeIDs.s;
      var i :| 0 <= i < |ids| && ids[i] == x;
      assert Bezierizable(g, ids[i]) && |ids[i]| == 3;
    }
    if |actions| > 0 {
      var i :| 0 <= i < |ids| && ids[i] == actions[0].nodeIDs.s;
      assert Bezierizable(g, ids[i]);
    }
  }

  /** Actions given a single ID string: the run succeeds when every one is
      disabled, and otherwise the first enabled one throws. */
  lemma {:induction false} CombinedOfIdStrings(actions: seq<BezierizeAction>, g: Graph)
    requires forall k :: 0 <= k < |actions| ==> actions[k].nodeIDs.IdString?
    ensures CombinedSpec(actions, g) == if AllDisabled(actions) then Success(g) else Failure(TypeError)
  {
    if |actions| > 0 {
      assert forall k :: 0 <= k < |actions[1..]| ==> actions[1..][k] == actions[k + 1];
      CombinedOfIdStrings(actions[1..], g);
      if actions[0].Disabled().Truthy() {
        assert AllDisabled(actions) <==> AllDisabled(actions[1..]);
      }
    }
  }

  /** `combinedAction(graph, t)`. */
  method CombinedAction(actions: seq<BezierizeAction>, g: Graph) returns (r: Result<Graph, ApplyError>)
    ensures r == CombinedSpec(actions, g)
  {
    var graph := g;
    var i := 0;
    while i < |actions|
      invariant 0 <= i <= |actions|
      invariant CombinedSpec(actions[i..], graph) == CombinedSpec(actions, g)
    {
      assert actions[i..][1..] == actions[i + 1..];
      if !actions[i].Disabled().Truthy() {
        var next := actions[i].Apply(graph);
        if next.Failure? {
          return Failure(next.error);
        }
        graph := next.value;
      }
      i := i + 1;
    }
    return Success(graph);
  }

  /** `combinedAction.transitionable`. */
  const COMBINED_TRANSITIONABLE: bool := true

  datatype Situation = Toolbar | Elsewhere

  /** Every action is disabled for the given reason. */
  predicate EveryReasonIs(actions: seq<BezierizeAction>, reason: string) {
    forall k :: 0 <= k < |actions| ==> actions[k].Disabled() == Str(reason)
  }

  /** No action reports `end_vertex`, so the toolbar clause of `available` never applies. */
  lemma NeverEndVertex(actions: seq<BezierizeAction>)
    requires |actions| > 0
    ensures !EveryReasonIs(actions, "end_vertex")
  {
    assert actions[0].Disabled() != Str("end_vertex");
  }

  /** One `operationBezierize(selectedIDs, context)` value; `chooser` says
      whether its actions are built as the source builds them or as intended. */
  class BezierizeOperation {
    const selectedIDs: seq<Id>
    /** The nodes of the selection (`utilGetAllNodes`), whose locations someMissing checks. */
    const coords: seq<Id>
    const chooser: Chooser
    var actions: seq<BezierizeAction>
    /** The closure variable `type`, which chooseAction sets to 'corner' on the
        first vertex and which holds no other value. */
    var corner: bool

    ghost predicate Invariant(g: Graph)
      reads this
    {
      Valid(g) && AllPresent(g, selectedIDs) && actions == Chosen(g, selectedIDs, chooser) &&
      (corner <==> exists i :: 0 <= i < |selectedIDs| && IsVertex(g, selectedIDs[i]))
    }

    /** Builds the actions with the map over selectedIDs. */
    constructor(g: Graph, ids: seq<Id>, allNodes: seq<Id>, c: Chooser)
      requires Valid(g) && AllPresent(g, ids)
      ensures selectedIDs == ids && coords == allNodes && chooser == c
      ensures Invariant(g)
    {
      selectedIDs := ids;
      coords := allNodes;
      chooser := c;
      var acts: seq<BezierizeAction> := [];
      var seenVertex := false;
      var i := 0;
      while i < |ids|
        invariant 0 <= i <= |ids|
        invariant acts == Chosen(g, ids[..i], c)
        invariant seenVertex <==> exists k :: 0 <= k < i && IsVertex(g, ids[k])
      {
        assert ids[..i + 1][..i] == ids[..i];
        var a := ChooseWith(c, g, ids[i]);
        if IsVertex(g, ids[i]) {
          seenVertex := true;
        }
        if a.Some? {
          acts := acts + [a.value];
        }
        i := i + 1;
      }
      assert ids[..i] == ids;
      actions := acts;
      corner := seenVertex;
    }

    /** `operation.available(situation)`: every selected ID yielded an action,
        and in the toolbar not every action reports `end_vertex`. */
    function Available(situation: Situation): (r: bool)
      reads this
      ensures r ==> |actions| > 0 && |selectedIDs| == |actions|
      ensures |actions| > 0 && |selectedIDs| == |actions| && situation == Elsewhere ==> r
    {
      if |actions| == 0 || |selectedIDs| != |actions| then false
      else !(situation == Toolbar && EveryReasonIs(actions, "end_vertex"))
    }

    /** The operation is available exactly when every selected entity is a vertex
        inside its single parent way. */
    lemma AvailableIffAllBezierizable(g: Graph, situation: Situation)
      requires Invariant(g)
      ensures Available(situation) <==>
        |selectedIDs| > 0 && forall i :: 0 <= i < |selectedIDs| ==> Bezierizable(g, selectedIDs[i])
    {
      ChosenCount(g, selectedIDs, chooser);
      if |actions| > 0 {
        NeverEndVertex(actions);
      }
    }

    /** `operation.disabled()`; also returns the node locations whose tiles
        someMissing asks the context to load. */
    method Disabled(inIntro: bool, hasConnection: bool, isDataLoaded: Id -> bool,
                    hasHiddenConnections: Id -> bool, extentMostlyOutside: bool)
      returns (reason: JsReason, tilesToLoad: seq<Id>)
      ensures var someMissing := !inIntro && hasConnection && |MissingCoords(coords, isDataLoaded)| > 0;
        var anyHidden := exists i | 0 <= i < |selectedIDs| :: hasHiddenConnections(selectedIDs[i]);
        reason == DisabledReason(actions, corner, extentMostlyOutside, someMissing, anyHidden)
      ensures tilesToLoad ==
        if |actions| > 0 && !AllDisabled(actions) && !(!corner && extentMostlyOutside) && !inIntro && hasConnection
        then MissingCoords(coords, isDataLoaded) else []
    {
      tilesToLoad := [];
      if |actions| == 0 {
        return Str(""), [];
      }
      var reasons: set<string> := {};
      var every := true;
      var i := 0;
      while i < |actions| && every
        invariant 0 <= i <= |actions|
        invariant every <==> forall k :: 0 <= k < i ==> actions[k].Disabled().Truthy()
        invariant reasons == set k | 0 <= k < i && actions[k].Disabled().Truthy() :: actions[k].Disabled().s
      {
        var disabled := actions[i].Disabled();
        if disabled.Truthy() {
          reasons := reasons + {disabled.s};
        } else {
          every := false;
        }
        i := i + 1;
      }
      if every {
        assert i == |actions|;
        var actionDisabled := actions[0].Disabled();
        if |reasons| > 1 {
          return Str("multiple_blockers"), [];
        }
        return actionDisabled, [];
      }
      if !corner && extentMostlyOutside {
        return Str("too_large"), [];
      }
      if !inIntro && hasConnection {
        var missing := MissingCoords(coords, isDataLoaded);
        if |missing| > 0 {
          return Str("not_downloaded"), missing;
        }
        tilesToLoad := missing;
      }
      if exists k | 0 <= k < |selectedIDs| :: hasHiddenConnections(selectedIDs[k]) {
        return Str("connected_to_hidden"), tilesToLoad;
      }
      return False, tilesToLoad;
    }

    /** An operation that has actions has seen a vertex, so it never reports
        too_large, and it is never blocked by two different reasons. */
    lemma DisabledNeverTooLarge(g: Graph, extentMostlyOutside: bool, someMissing: bool, anyHidden: bool)
      requires Invariant(g)
      ensures var r := DisabledReason(actions, corner, extentMostlyOutside, someMissing, anyHidden);
        r != Str("too_large") && r != Str("multiple_blockers")
    {
      DisabledWhenBlocked(actions, corner, extentMostlyOutside, someMissing, anyHidden);
      if |actions| > 0 {
        ChosenFromVertex(g, selectedIDs, chooser);
      }
    }

    /** With the intended actions, which have three nodes each, the operation is
        never blocked by them, and in a graph holding every way's nodes the
        combined action returns the graph. */
    lemma IntendedOutcome(g: Graph, extentMostlyOutside: bool, someMissing: bool, anyHidden: bool)
      requires Invariant(g) && chooser == Intended
      ensures DisabledReason(actions, corner, extentMostlyOutside, someMissing, anyHidden) != Str("needs_3_points")
      ensures WayNodesPresent(g) ==> CombinedSpec(actions, g) == Success(g)
    {
      ChosenHaveThreeNodes(g, selectedIDs);
      if |actions| > 0 {
        assert !actions[0].Disabled().Truthy();
      }
      if WayNodesPresent(g) {
        CombinedSucceeds(actions, g);
      }
    }

    /** With the source's actions, the operation reports needs_3_points exactly
        when some selected ID is bezierizable and none of those has three
        characters, and its combined action throws exactly when one has;
        otherwise the combined action returns the graph. */
    lemma AsWrittenOutcome(g: Graph, extentMostlyOutside: bool, someMissing: bool, anyHidden: bool)
      requires Invariant(g) && chooser == AsWritten
      ensures DisabledReason(actions, corner, extentMostlyOutside, someMissing, anyHidden) == Str("needs_3_points") <==>
        (exists i :: 0 <= i < |selectedIDs| && Bezierizable(g, selectedIDs[i])) &&
        forall i :: 0 <= i < |selectedIDs| && Bezierizable(g, selectedIDs[i]) ==> |selectedIDs[i]| != 3
      ensures CombinedSpec(actions, g) == Failure(TypeError) <==>
        exists i :: 0 <= i < |selectedIDs| && Bezierizable(g, selectedIDs[i]) && |selectedIDs[i]| == 3
      ensures CombinedSpec(actions, g) != Failure(TypeError) ==> CombinedSpec(actions, g) == Success(g)
    {
      ChosenAsWrittenBlocked(g, selectedIDs);
      CombinedOfIdStrings(actions, g);
      DisabledWhenBlocked(actions, corner, extentMostlyOutside, someMissing, anyHidden);
    }

    /** `operation()`: nothing happens without actions; otherwise the combined
        action is performed with the bezierize annotation. */
    method Perform(g: Graph) returns (performed: Option<Result<Graph, ApplyError>>)
      ensures |actions| == 0 ==> performed.None?
      ensures |actions| > 0 ==> performed == Some(CombinedSpec(actions, g))
    {
      if |actions| == 0 {
        return None;
      }
      var r := CombinedAction(actions, g);
      return Some(r);
    }
  }

  // ---------------------------------------------------------------------------
  // The action as the source builds it

  /** As written, the action gets the vertex ID as a string: it is disabled with
      needs_3_points unless the ID happens to have three characters, and applying
      it always throws, since a string has no `map`. */
  lemma AsWrittenActionBroken(g: Graph, id: Id)
    requires Valid(g) && id in g.entities && Bezierizable(g, id)
    ensures ChooseActionAsWritten(g, id).value.Disabled().Truthy() <==> |id| != 3
    ensures ChooseActionAsWritten(g, id).value.Apply(g) == Failure(TypeError)
  {
  }

  /** A way n1 - n22 - n3: the middle vertex "n22" has a three-character ID, so
      the as-written action is enabled and the combined action throws; the
      intended action is enabled and returns the graph. */
  lemma AsWrittenCombinedActionThrows()
    ensures var g := ThreeNodeWay();
      Valid(g) && Bezierizable(g, "n22") &&
      CombinedSpec([ChooseActionAsWritten(g, "n22").value], g) == Failure(TypeError) &&
      CombinedSpec([ChooseAction(g, "n22").value], g) == Success(g)
  {
    var g := ThreeNodeWay();
    assert IndexOf(["n1", "n22", "n3"], "n22") == 1;
    var a := ChooseAction(g, "n22").value;
    assert a.nodeIDs == IdList(["n1", "n22", "n3"]);
    assert AllPresent(g, a.nodeIDs.ids);
  }

  /** The same way with a longer middle ID: the as-written action is always
      disabled, so an operation on that vertex reports needs_3_points and does
      nothing, whereas the intended one is enabled. */
  lemma AsWrittenActionAlwaysBlocked(extentMostlyOutside: bool, someMissing: bool, anyHidden: bool)
    ensures var g := ThreeNodeWayLongId();
      Valid(g) && Bezierizable(g, "n223") &&
      Chosen(g, ["n223"], AsWritten) == [ChooseActionAsWritten(g, "n223").value] &&
      DisabledReason(Chosen(g, ["n223"], AsWritten), true, extentMostlyOutside, someMissing, anyHidden)
        == Str("needs_3_points") &&
      !ChooseAction(g, "n223").value.Disabled().Truthy()
  {
    var g := ThreeNodeWayLongId();
    assert IndexOf(["n1", "n223", "n3"], "n223") == 1;
    assert ["n223"][..0] == [];
    DisabledWhenBlocked(Chosen(g, ["n223"], AsWritten), true, extentMostlyOutside, someMissing, anyHidden);
  }

  function ThreeNodeWay(): Graph {
    Graph(
      map["n1" := Node(map[]), "n22" := Node(map[]), "n3" := Node(map[]), "w1" := Way(["n1", "n22", "n3"], map[])],
      map["n1" := ["w1"], "n22" := ["w1"], "n3" := ["w1"]],
      map[])
  }

  function ThreeNodeWayLongId(): Graph {
    Graph(
      map["n1" := Node(map[]), "n223" := Node(map[]), "n3" := Node(map[]), "w1" := Way(["n1", "n223", "n3"], map[])],
      map["n1" := ["w1"], "n223" := ["w1"], "n3" := ["w1"]],
      map[])
  }
}
