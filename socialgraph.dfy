/**
 * The follower graph of the social media application: an unweighted
 * directed graph kept as two dictionaries with the same keys, the data of
 * each vertex and its list of outgoing edges (the users it follows).
 * Python dictionaries remember the order in which keys were added, and the
 * listing operations expose that order; `order` holds it. No operation
 * removes a vertex, so both dictionaries share it.
 */
module SocialGraph {
  import opened Options

  type VertexId = string

  /** A user profile, the data stored with each vertex. */
  datatype Person = Person(name: string, gender: string, biography: string, privacy: string)

  ghost predicate NoDuplicates<T>(s: seq<T>)
  {
    forall i, j | 0 <= i < j < |s| :: s[i] != s[j]
  }

  /** The position of the first `v` in `s`, or |s| when there is none. */
  function IndexOf<T(==)>(s: seq<T>, v: T): (i: nat)
    ensures i <= |s| && (i < |s| <==> v in s)
    ensures i < |s| ==> s[i] == v
    ensures forall j | 0 <= j < i :: s[j] != v
  {
    if s == [] then 0
    else if s[0] == v then 0
    else 1 + IndexOf(s[1..], v)
  }

  /** Python's `list.remove` on a list that holds `v`: drops its first occurrence. */
  function RemoveValue<T(==)>(s: seq<T>, v: T): (r: seq<T>)
    ensures v in s ==> |r| == |s| - 1
    ensures v !in s ==> r == s
  {
    var i := IndexOf(s, v);
    if i < |s| then s[..i] + s[i + 1..] else s
  }

  /** In a list without repeats, removing `v` drops exactly `v` and keeps
      the list free of repeats. */
  lemma RemoveValueMembership<T>(s: seq<T>, v: T)
    requires NoDuplicates(s)
    ensures forall w :: w in RemoveValue(s, v) <==> w in s && w != v
    ensures NoDuplicates(RemoveValue(s, v))
  {
    var i := IndexOf(s, v);
    if i < |s| {
      var r := RemoveValue(s, v);
      forall j | 0 <= j < |r|
        ensures r[j] == if j < i then s[j] else s[j + 1]
      {
      }
      forall w
        ensures w in r <==> w in s && w != v
      {
        if w in r {
          var j :| 0 <= j < |r| && r[j] == w;
          assert w == s[if j < i then j else j + 1];
        }
        if w in s && w != v {
          var j :| 0 <= j < |s| && s[j] == w;
          assert j != i;
          assert r[if j < i then j else j - 1] == w;
        }
      }
    }
  }

  /** Removing the edge an append just added gives the list back. */
  lemma RemoveAppended<T>(s: seq<T>, v: T)
    requires v !in s
    ensures RemoveValue(s + [v], v) == s
  {
    assert IndexOf(s + [v], v) == |s|;
  }

  /** The vertices among `keys`, in their order, whose edge list holds `target`. */
  function Followers(keys: seq<VertexId>, edges: map<VertexId, seq<VertexId>>,
                     target: VertexId): seq<VertexId>
  {
    if keys == [] then []
    else
      var u := keys[|keys| - 1];
      Followers(keys[..|keys| - 1], edges, target)
        + (if u in edges && target in edges[u] then [u] else [])
  }

  /** Followers holds exactly the keys whose edge list contains `target`. */
  lemma {:induction false} FollowersMembership(keys: seq<VertexId>, edges: map<VertexId, seq<VertexId>>,
                                               target: VertexId, w: VertexId)
    ensures w in Followers(keys, edges, target) <==> w in keys && w in edges && target in edges[w]
  {
    if keys != [] {
      var n := |keys| - 1;
      FollowersMembership(keys[..n], edges, target, w);
      assert keys == keys[..n] + [keys[n]];
    }
  }

  /** Followers keeps the keys in order, and so repeats none when `keys` repeats none. */
  lemma {:induction false} FollowersNoDuplicates(keys: seq<VertexId>, edges: map<VertexId, seq<VertexId>>,
                                                 target: VertexId)
    requires NoDuplicates(keys)
    ensures NoDuplicates(Followers(keys, edges, target))
  {
    if keys != [] {
      var n := |keys| - 1;
      var prefix := Followers(keys[..n], edges, target);
      FollowersNoDuplicates(keys[..n], edges, target);
      FollowersMembership(keys[..n], edges, target, keys[n]);
      assert keys[n] !in keys[..n];
    }
  }

  class Graph<D> {
    // vertex id to the data of that vertex
    var vertices: map<VertexId, D>
    // vertex id to the ids it has an edge to, in the order they were added
    var edges: map<VertexId, seq<VertexId>>
    // the vertex ids in the order they were added
    var order: seq<VertexId>

    /** Both dictionaries have the same keys, listed once each by `order`;
        no edge list repeats a target and every target is a vertex. */
    ghost predicate Valid()
      reads this
    {
      && edges.Keys == vertices.Keys
      && NoDuplicates(order)
      && (forall i | 0 <= i < |order| :: order[i] in vertices)
      && (forall u | u in vertices :: u in order)
      && (forall u | u in edges :: NoDuplicates(edges[u]))
      && (forall u, v | u in edges && v in edges[u] :: v in vertices)
    }

    constructor ()
      ensures Valid()
      ensures vertices == map[] && edges == map[] && order == []
    {
      vertices := map[];
      edges := map[];
      order := [];
    }

    /** Adds a vertex with no edges, unless the id is already taken. */
    method AddVertex(vertexId: VertexId, vertexData: D) returns (added: bool)
      requires Valid()
      modifies this
      ensures Valid()
      ensures added <==> vertexId !in old(vertices)
      ensures added ==> && vertices == old(vertices)[vertexId := vertexData]
                        && edges == old(edges)[vertexId := []]
                        && order == old(order) + [vertexId]
      ensures !added ==> vertices == old(vertices) && edges == old(edges) && order == old(order)
      ensures added ==> GetVertexData(vertexId) == Some(vertexData)
    {
      if vertexId !in vertices {
        vertices := vertices[vertexId := vertexData];
        edges := edges[vertexId := []];
        order := order + [vertexId];
        return true;
      }
      return false;
    }

    /** Adds the edge from `fromVertex` to `toVertex` when both are
        vertices and the edge is not there yet. */
    method AddEdge(fromVertex: VertexId, toVertex: VertexId) returns (added: bool)
      requires Valid()
      modifies this
      ensures Valid() && vertices == old(vertices) && order == old(order)
      ensures added <==> && fromVertex in old(vertices) && toVertex in old(vertices)
                         && toVertex !in old(edges)[fromVertex]
      ensures added ==> edges == old(edges)[fromVertex := old(edges)[fromVertex] + [toVertex]]
      ensures !added ==> edges == old(edges)
    {
      if fromVertex in vertices && toVertex in vertices {
        if toVertex !in edges[fromVertex] {
          edges := edges[fromVertex := edges[fromVertex] + [toVertex]];
          return true;
        }
      }
      return false;
    }

    /** Removes the edge from `fromVertex` to `toVertex` when it is there. */
    method RemoveEdge(fromVertex: VertexId, toVertex: VertexId) returns (removed: bool)
      requires Valid()
      modifies this
      ensures Valid() && vertices == old(vertices) && order == old(order)
      ensures removed <==> fromVertex in old(vertices) && toVertex in old(edges)[fromVertex]
      ensures removed ==> && edges == old(edges)[fromVertex := RemoveValue(old(edges)[fromVertex], toVertex)]
                          && toVertex !in edges[fromVertex]
      ensures !removed ==> edges == old(edges)
    {
      if fromVertex in vertices && toVertex in edges[fromVertex] {
        RemoveValueMembership(edges[fromVertex], toVertex);
        edges := edges[fromVertex := RemoveValue(edges[fromVertex], toVertex)];
        return true;
      }
      return false;
    }

    /** The ids `vertexId` has an edge to; none for an unknown id. */
    function ListOutgoing(vertexId: VertexId): (r: seq<VertexId>)
      requires Valid()
      reads this
      ensures forall w :: w in r <==> vertexId in vertices && w in edges[vertexId]
      ensures NoDuplicates(r) && forall w | w in r :: w in vertices
    {
      if vertexId in edges then edges[vertexId] else []
    }

    /** Scans every vertex, in insertion order, for an edge to `vertexId`. */
    method ListIncoming(vertexId: VertexId) returns (incoming: seq<VertexId>)
      requires Valid()
      ensures incoming == Followers(order, edges, vertexId)
      ensures forall w :: w in incoming <==> w in vertices && vertexId in edges[w]
      ensures NoDuplicates(incoming)
    {
      incoming := [];
      for i := 0 to |order|
        invariant incoming == Followers(order[..i], edges, vertexId)
      {
        var vertex := order[i];
        if vertexId in edges[vertex] {
          incoming := incoming + [vertex];
        }
        assert order[..i + 1][..i] == order[..i];
      }
      assert order[..|order|] == order;
      forall w
        ensures w in incoming <==> w in vertices && vertexId in edges[w]
      {
        FollowersMembership(order, edges, vertexId, w);
      }
      FollowersNoDuplicates(order, edges, vertexId);
    }

    /** The data of a vertex, or None for an unknown id: data exists
        exactly for the ids that `GetAllVertices` lists. */
    function GetVertexData(vertexId: VertexId): (r: Option<D>)
      requires Valid()
      reads this
      ensures r.Some? <==> vertexId in order
      ensures r.Some? ==> r.value == vertices[vertexId]
    {
      if vertexId in vertices then Some(vertices[vertexId]) else None
    }

    /** Every vertex id once, in the order the vertices were added. */
    function GetAllVertices(): (r: seq<VertexId>)
      requires Valid()
      reads this
      ensures NoDuplicates(r)
      ensures forall w :: w in r <==> w in vertices
    {
      order
    }
  }

  /** Following then unfollowing a user restores the edges. */
  lemma FollowThenUnfollow(edges: map<VertexId, seq<VertexId>>, u: VertexId, v: VertexId)
    requires u in edges && v !in edges[u]
    ensures edges[u := edges[u] + [v]][u := RemoveValue(edges[u] + [v], v)] == edges
  {
    RemoveAppended(edges[u], v);
  }

  // ---------------------------------------------------------------------
  // The follow and unfollow requests of the application
  // ---------------------------------------------------------------------

  datatype FollowOutcome =
    | FollowerNotFound | TargetNotFound | SelfFollow | AlreadyFollowing | Followed | FollowFailed

  /** Checks a follow request in the application's order, then adds the
      edge. The checks leave nothing for the edge insertion to refuse, so
      the request never ends in FollowFailed. */
  method FollowUser(graph: Graph<Person>, follower: VertexId, toFollow: VertexId)
    returns (outcome: FollowOutcome)
    requires graph.Valid()
    modifies graph
    ensures graph.Valid() && graph.vertices == old(graph.vertices) && graph.order == old(graph.order)
    ensures outcome == FollowerNotFound <==> follower !in old(graph.vertices)
    ensures outcome == TargetNotFound <==> follower in old(graph.vertices) && toFollow !in old(graph.vertices)
    ensures outcome == SelfFollow <==>
              follower in old(graph.vertices) && toFollow in old(graph.vertices) && follower == toFollow
    ensures outcome == AlreadyFollowing <==>
              && follower in old(graph.vertices) && toFollow in old(graph.vertices) && follower != toFollow
              && toFollow in old(graph.edges)[follower]
    ensures outcome != FollowFailed
    ensures outcome == Followed ==>
              graph.edges == old(graph.edges)[follower := old(graph.edges)[follower] + [toFollow]]
    ensures outcome != Followed ==> graph.edges == old(graph.edges)
  {
    if follower !in graph.vertices {
      return FollowerNotFound;
    }
    if toFollow !in graph.vertices {
      return TargetNotFound;
    }
    if follower == toFollow {
      return SelfFollow;
    }
    var currentFollowing := graph.ListOutgoing(follower);
    if toFollow in currentFollowing {
      return AlreadyFollowing;
    }
    var success := graph.AddEdge(follower, toFollow);
    if success {
      outcome := Followed;
    } else {
      outcome := FollowFailed;
    }
  }

  datatype UnfollowOutcome =
    | UnfollowerNotFound | FollowsNobody | NotFollowing | Unfollowed | UnfollowFailed

  /** Checks an unfollow request in the application's order, then removes
      the edge; as with FollowUser, the removal itself never fails. */
  method UnfollowUser(graph: Graph<Person>, unfollower: VertexId, toUnfollow: VertexId)
    returns (outcome: UnfollowOutcome)
    requires graph.Valid()
    modifies graph
    ensures graph.Valid() && graph.vertices == old(graph.vertices) && graph.order == old(graph.order)
    ensures outcome == UnfollowerNotFound <==> unfollower !in old(graph.vertices)
    ensures outcome == FollowsNobody <==> unfollower in old(graph.vertices) && old(graph.edges)[unfollower] == []
    ensures outcome == NotFollowing <==>
              && unfollower in old(graph.vertices) && old(graph.edges)[unfollower] != []
              && toUnfollow !in old(graph.edges)[unfollower]
    ensures outcome != UnfollowFailed
    ensures outcome == Unfollowed ==>
              && graph.edges == old(graph.edges)[unfollower := RemoveValue(old(graph.edges)[unfollower], toUnfollow)]
              && toUnfollow !in graph.edges[unfollower]
    ensures outcome != Unfollowed ==> graph.edges == old(graph.edges)
  {
    if unfollower !in graph.vertices {
      return UnfollowerNotFound;
    }
    var currentFollowing := graph.ListOutgoing(unfollower);
    if currentFollowing == [] {
      return FollowsNobody;
    }
    if toUnfollow !in currentFollowing {
      return NotFollowing;
    }
    var success := graph.RemoveEdge(unfollower, toUnfollow);
    if success {
      outcome := Unfollowed;
    } else {
      outcome := UnfollowFailed;
    }
  }
}
