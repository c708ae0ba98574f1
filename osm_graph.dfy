/** The part of the editor's entity graph that the modelled code reads: an ID to
    entity map and the graph's parent-way and parent-relation indices.
    Graph editing, history and the index maintenance live outside this model. */
module OsmGraph {
  import opened Common

  type Id = string

  type Tags = map<string, string>

  datatype Member = Member(id: Id, role: string)

  datatype Entity =
    | Node(tags: Tags)
    | Way(nodes: seq<Id>, tags: Tags)
    | Relation(members: seq<Member>, tags: Tags)

  /** `entities` is the current generation; `parentWays[v]` lists the IDs of the
      ways that contain node v and `parentRelations[e]` the relations that have e
      as a member, as the graph's cached indices provide them. */
  datatype Graph = Graph(
    entities: map<Id, Entity>,
    parentWays: map<Id, seq<Id>>,
    parentRelations: map<Id, seq<Id>>)

  /** `graph.hasEntity(id)` returns an entity. */
  predicate HasEntity(g: Graph, id: Id) {
    id in g.entities
  }

  /** `graph.parentWays(entity)`, as IDs. */
  function ParentWays(g: Graph, id: Id): seq<Id> {
    if id in g.parentWays then g.parentWays[id] else []
  }

  /** `graph.parentRelations(entity)`, as IDs. */
  function ParentRelations(g: Graph, id: Id): seq<Id> {
    if id in g.parentRelations then g.parentRelations[id] else []
  }

  /** The index is sound: each listed parent is a way of the graph that holds the
      node, and no way is listed twice for one node. */
  ghost predicate Valid(g: Graph) {
    && (forall v, w :: v in g.parentWays && w in g.parentWays[v] ==>
          w in g.entities && g.entities[w].Way? && v in g.entities[w].nodes)
    && (forall v :: v in g.parentWays ==> NoDuplicates(g.parentWays[v]))
  }

  /** Every node a way lists is an entity of the graph, as in a fully loaded graph. */
  ghost predicate WayNodesPresent(g: Graph) {
    forall w, k :: w in g.entities && g.entities[w].Way? && 0 <= k < |g.entities[w].nodes| ==>
      g.entities[w].nodes[k] in g.entities
  }

  lemma ParentIsWay(g: Graph, v: Id, w: Id)
    requires Valid(g) && w in ParentWays(g, v)
    ensures w in g.entities && g.entities[w].Way? && v in g.entities[w].nodes
  {
  }

  /** `entity.geometry(graph) === 'vertex'`: a node that belongs to some way. */
  predicate IsVertex(g: Graph, id: Id) {
    id in g.entities && g.entities[id].Node? && |ParentWays(g, id)| > 0
  }

  /** `way.isClosed()`: at least two nodes, and the last is the first. */
  predicate IsClosed(nodes: seq<Id>) {
    |nodes| > 1 && nodes[0] == nodes[|nodes| - 1]
  }
}
