/**
 * The node registry: a process-wide table of `{nodeId, pubKey}` records
 * with two request handlers. `/registerNode` inserts a record unless its
 * `nodeId` is already taken and answers with the whole table;
 * `/getNodeRegistry` answers with the table as it is.
 *
 * The stored `pubKey` is not the one the request carries: the handler
 * generates a fresh RSA key pair and stores the exported public key.
 * Key generation is random, so that exported key is a parameter here.
 */
module Registry {
  import opened Wrappers

  datatype Node = Node(nodeId: int, pubKey: string)

  /** The body of a `/registerNode` request; its `pubKey` is never read. */
  datatype RegisterNodeBody = RegisterNodeBody(nodeId: int, pubKey: string)

  datatype GetNodeRegistryBody = GetNodeRegistryBody(nodes: seq<Node>)

  /** The answer to `/registerNode`: the table, or status 400 with an error text. */
  datatype RegisterResponse =
    | Registered(body: GetNodeRegistryBody)
    | Rejected(status: int, error: string)

  const DuplicateStatus := 400
  const DuplicateError := "Node already registered with the given ID."

  /** The ids of a table, in table order. */
  function NodeIds(nodes: seq<Node>): (ids: seq<int>)
    ensures |ids| == |nodes|
    ensures forall i :: 0 <= i < |nodes| ==> ids[i] == nodes[i].nodeId
  {
    seq(|nodes|, i requires 0 <= i < |nodes| => nodes[i].nodeId)
  }

  /** The table invariant: no two records share a `nodeId`. */
  predicate UniqueIds(nodes: seq<Node>) {
    forall i, j :: 0 <= i < j < |nodes| ==> nodes[i].nodeId != nodes[j].nodeId
  }

  /**
   * `nodes.find(node => node.nodeId === nodeId)`: the first record with
   * that id, or nothing when no record has it.
   */
  function Find(nodes: seq<Node>, nodeId: int): (r: Option<Node>)
    ensures r.None? <==> nodeId !in NodeIds(nodes)
    ensures r.Some? ==> r.value in nodes && r.value.nodeId == nodeId
  {
    if nodes == [] then None
    else if nodes[0].nodeId == nodeId then Some(nodes[0])
    else
      assert NodeIds(nodes) == [nodes[0].nodeId] + NodeIds(nodes[1..]);
      Find(nodes[1..], nodeId)
  }

  /** The record `find` returns is the first one with the id. */
  lemma {:induction false} FindReturnsFirst(nodes: seq<Node>, nodeId: int, k: nat)
    requires k < |nodes| && nodes[k].nodeId == nodeId
    requires forall j :: 0 <= j < k ==> nodes[j].nodeId != nodeId
    ensures Find(nodes, nodeId) == Some(nodes[k])
  {
    if k > 0 {
      assert nodes[0].nodeId != nodeId;
      FindReturnsFirst(nodes[1..], nodeId, k - 1);
    }
  }

  /** The table after one `/registerNode` request, with the answer sent. */
  datatype RegisterStep = RegisterStep(nodes: seq<Node>, response: RegisterResponse)

  /** One `/registerNode` request, handled atomically. */
  function Register(nodes: seq<Node>, body: RegisterNodeBody, generatedPubKey: string): (r: RegisterStep)
    ensures body.nodeId in NodeIds(nodes) ==>
              r.nodes == nodes && r.response == Rejected(DuplicateStatus, DuplicateError)
    ensures body.nodeId !in NodeIds(nodes) ==>
              && r.nodes == nodes + [Node(body.nodeId, generatedPubKey)]
              && r.response == Registered(GetNodeRegistryBody(r.nodes))
    ensures UniqueIds(nodes) ==> UniqueIds(r.nodes)
  {
    var existingNode := Find(nodes, body.nodeId);
    if existingNode.None? then
      var newNodes := nodes + [Node(body.nodeId, generatedPubKey)];
      assert forall i :: 0 <= i < |nodes| ==> newNodes[i] == nodes[i];
      RegisterStep(newNodes, Registered(GetNodeRegistryBody(newNodes)))
    else
      RegisterStep(nodes, Rejected(DuplicateStatus, DuplicateError))
  }

  /** The first record a lookup finds in a table grown by one record at the end. */
  lemma {:induction false} FindAppend(nodes: seq<Node>, n: Node, nodeId: int)
    ensures Find(nodes + [n], nodeId) ==
              if nodeId in NodeIds(nodes) then Find(nodes, nodeId)
              else if n.nodeId == nodeId then Some(n)
              else None
  {
    if nodes != [] {
      assert (nodes + [n])[0] == nodes[0];
      assert (nodes + [n])[1..] == nodes[1..] + [n];
      assert NodeIds(nodes) == [nodes[0].nodeId] + NodeIds(nodes[1..]);
      if nodes[0].nodeId != nodeId {
        FindAppend(nodes[1..], n, nodeId);
      }
    } else {
      assert nodes + [n] == [n];
    }
  }

  /**
   * After a successful registration a lookup of the requested id finds the
   * new record, and that record holds the registry-generated key.
   */
  lemma RegisteredNodeHasGeneratedKey(nodes: seq<Node>, body: RegisterNodeBody, generatedPubKey: string)
    requires Register(nodes, body, generatedPubKey).response.Registered?
    ensures Find(Register(nodes, body, generatedPubKey).nodes, body.nodeId) == Some(Node(body.nodeId, generatedPubKey))
  {
    FindAppend(nodes, Node(body.nodeId, generatedPubKey), body.nodeId);
  }

  // ---------------------------------------------------------------------
  // Sequences of registrations

  /** One `/registerNode` request together with the key the registry generates for it. */
  datatype Request = Request(body: RegisterNodeBody, generatedPubKey: string)

  function RequestIds(requests: seq<Request>): (ids: seq<int>)
    ensures |ids| == |requests|
    ensures forall i :: 0 <= i < |requests| ==> ids[i] == requests[i].body.nodeId
  {
    seq(|requests|, i requires 0 <= i < |requests| => requests[i].body.nodeId)
  }

  /** The table after handling `requests` in order, starting from the empty table. */
  function RegisterAll(requests: seq<Request>): seq<Node>
  {
    if requests == [] then []
    else
      var last := requests[|requests| - 1];
      Register(RegisterAll(requests[..|requests| - 1]), last.body, last.generatedPubKey).nodes
  }

  /**
   * The distinct elements of `s`, in the order of their first occurrences:
   * the same members, no element twice, and wherever in `s` an element
   * occurs, every element listed before it has already occurred.
   */
  function Distinct(s: seq<int>): (d: seq<int>)
    ensures forall x :: x in d <==> x in s
    ensures forall i, j :: 0 <= i < j < |d| ==> d[i] != d[j]
    ensures forall i, j, k :: 0 <= i < j < |d| && 0 <= k < |s| && s[k] == d[j] ==> d[i] in s[..k]
  {
    if s == [] then []
    else
      var front := s[..|s| - 1];
      var last := s[|s| - 1];
      var init := Distinct(front);
      assert s == front + [last];
      if last in init then
        DistinctOrderAtEnd(s, init);
        init
      else
        var d := init + [last];
        assert forall i, j, k :: 0 <= i < j < |d| && 0 <= k < |s| && s[k] == d[j] ==> d[i] in s[..k] by {
          forall i, j, k | 0 <= i < j < |d| && 0 <= k < |s| && s[k] == d[j]
            ensures d[i] in s[..k]
          {
            if j < |init| {
              DistinctOrderStep(s, init, i, j, k);
            } else {
              assert d[j] == last && last !in front;
              assert k == |s| - 1;
              assert d[i] in front;
              assert s[..k] == front;
            }
          }
        }
        d
  }

  /**
   * The order clause of `Distinct` for positions of the list of `front`,
   * extended from `front` to `s`: the occurrence at `k` is either inside
   * `front` or, at the end, a repeat of an occurrence inside `front`.
   */
  lemma DistinctOrderStep(s: seq<int>, init: seq<int>, i: nat, j: nat, k: nat)
    requires s != []
    requires forall x :: x in init <==> x in s[..|s| - 1]
    requires forall i, j, k :: 0 <= i < j < |init| && 0 <= k < |s| - 1 && s[k] == init[j] ==> init[i] in s[..k]
    requires i < j < |init| && k < |s| && s[k] == init[j]
    ensures init[i] in s[..k]
  {
    var front := s[..|s| - 1];
    if k < |s| - 1 {
      assert front[..k] == s[..k];
    } else {
      assert init[j] in init;
      assert init[j] in front;
      var k' :| 0 <= k' < |front| && front[k'] == init[j];
      assert s[k'] == init[j];
      assert init[i] in s[..k'];
      assert s[..k'] <= s[..k];
    }
  }

  /** The order clause of `Distinct` when the last element is a repeat. */
  lemma DistinctOrderAtEnd(s: seq<int>, init: seq<int>)
    requires s != []
    requires forall x :: x in init <==> x in s[..|s| - 1]
    requires forall i, j, k :: 0 <= i < j < |init| && 0 <= k < |s| - 1 && s[k] == init[j] ==> init[i] in s[..k]
    ensures forall i, j, k :: 0 <= i < j < |init| && 0 <= k < |s| && s[k] == init[j] ==> init[i] in s[..k]
  {
    forall i, j, k | 0 <= i < j < |init| && 0 <= k < |s| && s[k] == init[j]
      ensures init[i] in s[..k]
    {
      DistinctOrderStep(s, init, i, j, k);
    }
  }

  /**
   * After any sequence of registrations the table's ids are exactly the
   * distinct requested ids, in the order of their first request, and no id
   * appears twice.
   */
  lemma {:induction false} RegisterAllIds(requests: seq<Request>)
    ensures NodeIds(RegisterAll(requests)) == Distinct(RequestIds(requests))
    ensures UniqueIds(RegisterAll(requests))
  {
    if requests != [] {
      var init := requests[..|requests| - 1];
      var last := requests[|requests| - 1];
      RegisterAllIds(init);
      var before := RegisterAll(init);
      assert RequestIds(init) == RequestIds(requests)[..|requests| - 1];
      var after := Register(before, last.body, last.generatedPubKey).nodes;
      if last.body.nodeId !in NodeIds(before) {
        assert NodeIds(after) == NodeIds(before) + [last.body.nodeId];
      }
    }
  }

  /** The set of ids in the table is the set of requested ids. */
  lemma RegisterAllIdSet(requests: seq<Request>)
    ensures (set id | id in NodeIds(RegisterAll(requests))) == (set id | id in RequestIds(requests))
  {
    RegisterAllIds(requests);
  }

  /**
   * The record kept for an id holds the key generated for the FIRST request
   * with that id; later requests with the same id never replace it.
   */
  lemma {:induction false} RegisterAllFirstKeyWins(requests: seq<Request>, k: nat)
    requires k < |requests|
    requires forall j :: 0 <= j < k ==> requests[j].body.nodeId != requests[k].body.nodeId
    ensures Find(RegisterAll(requests), requests[k].body.nodeId) ==
              Some(Node(requests[k].body.nodeId, requests[k].generatedPubKey))
  {
    var init := requests[..|requests| - 1];
    var last := requests[|requests| - 1];
    var before := RegisterAll(init);
    var id := requests[k].body.nodeId;
    if k < |requests| - 1 {
      RegisterAllFirstKeyWins(init, k);
      if last.body.nodeId !in NodeIds(before) {
        FindAppend(before, Node(last.body.nodeId, last.generatedPubKey), id);
      }
    } else {
      RegisterAllIds(init);
      assert id !in RequestIds(init) by {
        forall j | 0 <= j < |init| ensures RequestIds(init)[j] != id {
          assert init[j] == requests[j];
        }
      }
      assert id !in NodeIds(before);
      FindAppend(before, Node(id, last.generatedPubKey), id);
    }
  }

  // ---------------------------------------------------------------------
  // The registry process

  /** The registry's in-memory table and its two handlers. */
  class NodeRegistry {
    var nodes: seq<Node>

    ghost predicate Valid()
      reads this
    {
      UniqueIds(nodes)
    }

    /** The table starts empty. */
    constructor ()
      ensures Valid() && nodes == []
    {
      nodes := [];
    }

    /**
     * `/registerNode`: append a record with the generated key when the id is
     * new, otherwise reject and leave the table as it was.
     */
    method RegisterNode(body: RegisterNodeBody, generatedPubKey: string) returns (response: RegisterResponse)
      requires Valid()
      modifies this
      ensures Valid()
      ensures nodes == Register(old(nodes), body, generatedPubKey).nodes
      ensures response == Register(old(nodes), body, generatedPubKey).response
    {
      var existingNode := Find(nodes, body.nodeId);
      if existingNode.None? {
        var newNode := Node(body.nodeId, generatedPubKey);
        nodes := nodes + [newNode];
        response := Registered(GetNodeRegistryBody(nodes));
      } else {
        response := Rejected(DuplicateStatus, DuplicateError);
      }
    }

    /** `/getNodeRegistry`: the table as it is. */
    method GetNodeRegistry() returns (body: GetNodeRegistryBody)
      ensures body.nodes == nodes
    {
      body := GetNodeRegistryBody(nodes);
    }
  }
}
