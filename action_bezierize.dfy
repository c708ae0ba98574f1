/** The bezierize action (modules/actions/bezierize.js): an action that is
    disabled unless it is given exactly three nodes, that returns the graph it is
    applied to, and the binomial coefficient helper meant for the curve. */
module ActionBezierize {
  import opened Common
  import opened OsmGraph

  /** What the action is given as `nodeIDs`: a list of node IDs, or a single ID
      string (JavaScript lets both through; `.length` works on both, `.map` only
      on the list). */
  datatype NodeIdsArg = IdList(ids: seq<Id>) | IdString(s: string) {
    /** `nodeIDs.length`. */
    function Length(): nat {
      match this
      case IdList(ids) => |ids|
      case IdString(s) => |s|
    }
  }

  /** What the action is given as `projection`: the map projection (a function)
      or some other value. */
  datatype ProjectionArg = ProjectionFunction | NotAFunction

  /** Why applying the action throws. */
  datatype ApplyError =
    | TypeError             // calling `.map` on a string, or a projection that is not a function
    | EntityNotFound(id: Id) // `graph.entity` on an ID the graph lacks

  /** `action.transitionable`. */
  const TRANSITIONABLE: bool := true

  /** The value `actionBezierize(nodeIDs, projection)` returns. */
  datatype BezierizeAction = BezierizeAction(nodeIDs: NodeIdsArg, projection: ProjectionArg) {

    /** `action.disabled(graph)`: the graph is not consulted. */
    function Disabled(): (r: JsReason)
      ensures r.Truthy() <==> nodeIDs.Length() != 3
      ensures r.Truthy() ==> r == Str("needs_3_points")
      ensures !r.Truthy() ==> r == False
    {
      if nodeIDs.Length() != 3 then Str("needs_3_points") else False
    }

    /** `action(graph, t)`: looks every node up, projects each location, and
        returns the graph it was given. */
    function Apply(g: Graph): (r: Result<Graph, ApplyError>)
      ensures r.Success? ==> r.value == g
      ensures r.Success? <==>
        nodeIDs.IdList? && (forall i :: 0 <= i < |nodeIDs.ids| ==> nodeIDs.ids[i] in g.entities) &&
        (|nodeIDs.ids| == 0 || projection == ProjectionFunction)
      ensures r == Failure(TypeError) <==>
        nodeIDs.IdString? ||
        ((forall i :: 0 <= i < |nodeIDs.ids| ==> nodeIDs.ids[i] in g.entities) &&
         |nodeIDs.ids| > 0 && projection == NotAFunction)
      ensures r.Failure? && r.error.EntityNotFound? ==>
        nodeIDs.IdList? && r.error.id in nodeIDs.ids && r.error.id !in g.entities &&
        forall i :: 0 <= i < IndexOf(nodeIDs.ids, r.error.id) ==> nodeIDs.ids[i] in g.entities
    {
      match nodeIDs
      case IdString(_) => Failure(TypeError)
      case IdList(ids) =>
        assert ids == nodeIDs.ids;
        var missing := FirstMissing(g, ids);
        if missing < |ids| then Failure(EntityNotFound(ids[missing]))
        else if |ids| > 0 && projection == NotAFunction then Failure(TypeError)
        else
          assert forall i :: 0 <= i < |ids| ==> ids[i] in g.entities;
          assert |nodeIDs.ids| == 0 || projection == ProjectionFunction;
          Success(g)
    }
  }

  /** The index of the first ID the graph lacks, or |ids|. */
  function FirstMissing(g: Graph, ids: seq<Id>): (i: nat)
    ensures i <= |ids|
    ensures i < |ids| ==> ids[i] !in g.entities && IndexOf(ids, ids[i]) == i
    ensures forall k :: 0 <= k < i ==> ids[k] in g.entities
  {
    if |ids| == 0 then 0
    else if ids[0] !in g.entities then 0
    else 1 + FirstMissing(g, ids[1..])
  }

  // ---------------------------------------------------------------------------
  // binomial

  /** n choose k, by Pascal's rule. */
  function Choose(n: nat, k: nat): nat {
    if k == 0 then 1
    else if n == 0 then 0
    else Choose(n - 1, k - 1) + Choose(n - 1, k)
  }

  /** The product lo * (lo + 1) * ... * hi, which is 1 when the range is empty. */
  function Product(lo: int, hi: int): int
    decreases hi - lo
  {
    if hi < lo then 1 else Product(lo, hi - 1) * hi
  }

  /** The product can also be peeled from its low end. */
  lemma {:induction false} ProductLow(lo: int, hi: int)
    requires lo <= hi
    ensures Product(lo, hi) == lo * Product(lo + 1, hi)
    decreases hi - lo
  {
    if lo < hi {
      ProductLow(lo, hi - 1);
      assert Product(lo, hi) == Product(lo, hi - 1) * hi;
      assert Product(lo + 1, hi) == Product(lo + 1, hi - 1) * hi;
    }
  }

  /** A range that contains zero has product zero. */
  lemma {:induction false} ProductThroughZero(lo: int, hi: int)
    requires lo <= 0 <= hi
    ensures Product(lo, hi) == 0
    decreases hi - lo
  {
    if hi > 0 {
      ProductThroughZero(lo, hi - 1);
    }
  }

  /** The falling product (n - k + 1) * ... * n is n choose k times k!; with
      k > n it is zero, as is n choose k. */
  lemma {:induction false} FallingProduct(n: nat, k: nat)
    ensures Product(n - k + 1, n) == Choose(n, k) * Product(1, k)
  {
    if k == 0 {
    } else if n == 0 {
      ProductThroughZero(1 - k, 0);
    } else {
      FallingProduct(n - 1, k - 1);
      FallingProduct(n - 1, k);
      var a, b := Choose(n - 1, k - 1), Choose(n - 1, k);
      var f := Product(1, k - 1);
      var p := Product(n - k + 1, n - 1);
      ProductLow(n - k, n - 1);
      PascalStep(a, b, f, p, n, k);
    }
  }

  /** The arithmetic of one step of FallingProduct: with p = a * f and
      (n - k) * p = b * f * k, the sum a + b times f * k is p * n. */
  lemma PascalStep(a: int, b: int, f: int, p: int, n: int, k: int)
    requires p == a * f && b * (f * k) == (n - k) * p
    ensures (a + b) * (f * k) == p * n
  {
    assert (a + b) * (f * k) == a * (f * k) + b * (f * k);
    assert a * (f * k) == (a * f) * k;
    assert (n - k) * p == n * p - k * p;
  }

  lemma MulSwap(c: int, x: int, q: int)
    ensures c * (x * q) == x * (c * q)
  {
  }

  /** `binomial(n, k)`: multiplies n - k + 1 .. n, then divides by 1 .. k in turn;
      every division is exact and the result is n choose k. */
  method Binomial(n: nat, k: nat) returns (coeff: int)
    ensures coeff == Choose(n, k)
  {
    coeff := 1;
    var x := n - k + 1;
    while x <= n
      invariant n - k + 1 <= x <= n + 1
      invariant coeff == Product(n - k + 1, x - 1)
    {
      coeff := coeff * x;
      x := x + 1;
    }
    FallingProduct(n, k);
    x := 1;
    while x <= k
      invariant 1 <= x <= k + 1
      invariant coeff == Choose(n, k) * Product(x, k)
    {
      ProductLow(x, k);
      MulSwap(Choose(n, k), x, Product(x + 1, k));
      DivModUnique(coeff, x, Choose(n, k) * Product(x + 1, k), 0);
      assert coeff % x == 0;
      coeff := coeff / x;
      x := x + 1;
    }
  }

  /** Pascal's rule agrees with the closed forms at the edges: there is one way
      to choose nothing or everything, and none to choose more than there is. */
  lemma {:induction false} ChooseAll(n: nat)
    ensures Choose(n, n) == 1
  {
    if n > 0 {
      ChooseAll(n - 1);
      ChooseAbove(n - 1, n);
    }
  }

  lemma {:induction false} ChooseAbove(n: nat, k: nat)
    ensures k > n ==> Choose(n, k) == 0
  {
    if k > n && n > 0 {
      ChooseAbove(n - 1, k - 1);
      ChooseAbove(n - 1, k);
    }
  }
}
