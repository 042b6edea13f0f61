/**
 JSON values, the rows `json_tree` flattens them to, and the two-way EXCEPT that compares a
 stored import cursor with an expected one.
 */
module Json {

  /** Objects are unordered: a map from member name to value (section 4 of RFC 8259). */
  datatype Json =
    | Null
    | Bool(b: bool)
    | Integer(n: int)
    | Real(r: string)
    | Text(s: string)
    | Array(elements: seq<Json>)
    | Object(members: map<string, Json>)

  datatype PathStep = Member(key: string) | Element(index: nat)

  /** `type` and `atom`: containers have a type and no atom. */
  datatype Node = Leaf(value: Json) | ArrayNode | ObjectNode

  /** One row of `json_tree`: `fullkey`, and `type` with `atom`. */
  datatype TreeRow = TreeRow(fullkey: seq<PathStep>, node: Node)

  function NodeOf(j: Json): Node {
    match j
    case Array(_) => ArrayNode
    case Object(_) => ObjectNode
    case _ => Leaf(j)
  }

  /** Every row `json_tree` yields for a value. */
  function Tree(j: Json): set<TreeRow>
    decreases j
  {
    {TreeRow([], NodeOf(j))} +
    (match j
     case Array(elements) =>
       (set k, row | 0 <= k < |elements| && row in Tree(elements[k]) ::
          TreeRow([Element(k)] + row.fullkey, row.node))
     case Object(members) =>
       (set key, row | key in members && row in Tree(members[key]) ::
          TreeRow([Member(key)] + row.fullkey, row.node))
     case _ => {})
  }

  /** `NOT EXISTS (a EXCEPT b) AND NOT EXISTS (b EXCEPT a)`. */
  predicate NoDifference(a: set<TreeRow>, b: set<TreeRow>) {
    a - b == {} && b - a == {}
  }

  lemma Root(j: Json, node: Node)
    ensures TreeRow([], node) in Tree(j) <==> node == NodeOf(j)
  {
  }

  lemma InElement(elements: seq<Json>, k: nat, rest: seq<PathStep>, node: Node)
    ensures TreeRow([Element(k)] + rest, node) in Tree(Array(elements)) <==>
      (k < |elements| && TreeRow(rest, node) in Tree(elements[k]))
  {
    var row := TreeRow([Element(k)] + rest, node);
    if row in Tree(Array(elements)) {
      var n, inner :| 0 <= n < |elements| && inner in Tree(elements[n])
        && row == TreeRow([Element(n)] + inner.fullkey, inner.node);
      assert ([Element(n)] + inner.fullkey)[0] == Element(n) && ([Element(n)] + inner.fullkey)[1..] == inner.fullkey;
      assert ([Element(k)] + rest)[1..] == rest;
      assert inner == TreeRow(rest, node);
    }
  }

  lemma InMember(members: map<string, Json>, key: string, rest: seq<PathStep>, node: Node)
    ensures TreeRow([Member(key)] + rest, node) in Tree(Object(members)) <==>
      (key in members && TreeRow(rest, node) in Tree(members[key]))
  {
    var row := TreeRow([Member(key)] + rest, node);
    if row in Tree(Object(members)) {
      var name, inner :| name in members && inner in Tree(members[name])
        && row == TreeRow([Member(name)] + inner.fullkey, inner.node);
      assert ([Member(name)] + inner.fullkey)[0] == Member(name) && ([Member(name)] + inner.fullkey)[1..] == inner.fullkey;
      assert ([Member(key)] + rest)[1..] == rest;
      assert inner == TreeRow(rest, node);
    }
  }

  lemma ElementRows(a: seq<Json>, b: seq<Json>, k: nat)
    requires Tree(Array(a)) == Tree(Array(b))
    ensures k < |a| <==> k < |b|
    ensures k < |a| && k < |b| ==> Tree(a[k]) == Tree(b[k])
  {
    if k < |a| {
      Root(a[k], NodeOf(a[k]));
      InElement(a, k, [], NodeOf(a[k]));
      InElement(b, k, [], NodeOf(a[k]));
    }
    if k < |b| {
      Root(b[k], NodeOf(b[k]));
      InElement(b, k, [], NodeOf(b[k]));
      InElement(a, k, [], NodeOf(b[k]));
    }
    if k < |a| {
      forall row: TreeRow
        ensures row in Tree(a[k]) <==> row in Tree(b[k])
      {
        InElement(a, k, row.fullkey, row.node);
        InElement(b, k, row.fullkey, row.node);
      }
    }
  }

  lemma MemberRows(a: map<string, Json>, b: map<string, Json>, key: string)
    requires Tree(Object(a)) == Tree(Object(b))
    ensures key in a <==> key in b
    ensures key in a && key in b ==> Tree(a[key]) == Tree(b[key])
  {
    if key in a {
      Root(a[key], NodeOf(a[key]));
      InMember(a, key, [], NodeOf(a[key]));
      InMember(b, key, [], NodeOf(a[key]));
    }
    if key in b {
      Root(b[key], NodeOf(b[key]));
      InMember(b, key, [], NodeOf(b[key]));
      InMember(a, key, [], NodeOf(b[key]));
    }
    if key in a {
      forall row: TreeRow
        ensures row in Tree(a[key]) <==> row in Tree(b[key])
      {
        InMember(a, key, row.fullkey, row.node);
        InMember(b, key, row.fullkey, row.node);
      }
    }
  }

  /** The flattened rows determine the value. */
  lemma {:induction false} TreeInjective(a: Json, b: Json)
    requires Tree(a) == Tree(b)
    ensures a == b
    decreases a
  {
    Root(a, NodeOf(a));
    Root(b, NodeOf(a));
    match a {
      case Array(elements) =>
        forall k: nat
          ensures k < |elements| <==> k < |b.elements|
          ensures k < |elements| && k < |b.elements| ==> elements[k] == b.elements[k]
        {
          ElementRows(elements, b.elements, k);
          if k < |elements| {
            TreeInjective(elements[k], b.elements[k]);
          }
        }
        assert |elements| == |b.elements| by {
          ElementRows(elements, b.elements, |elements|);
          ElementRows(elements, b.elements, |b.elements|);
        }
      case Object(members) =>
        forall key: string
          ensures key in members <==> key in b.members
          ensures key in members && key in b.members ==> members[key] == b.members[key]
        {
          MemberRows(members, b.members, key);
          if key in members {
            TreeInjective(members[key], b.members[key]);
          }
        }
        assert members == b.members;
      case _ =>
    }
  }

  /** The two-way EXCEPT accepts exactly equal values, key order aside. */
  lemma NoDifferenceIsEquality(a: Json, b: Json)
    ensures NoDifference(Tree(a), Tree(b)) <==> a == b
  {
    if NoDifference(Tree(a), Tree(b)) {
      assert forall row :: row in Tree(a) ==> row in Tree(b) by {
        assert forall row :: row in Tree(a) && row !in Tree(b) ==> row in Tree(a) - Tree(b);
      }
      assert forall row :: row in Tree(b) ==> row in Tree(a) by {
        assert forall row :: row in Tree(b) && row !in Tree(a) ==> row in Tree(b) - Tree(a);
      }
      assert Tree(a) == Tree(b);
      TreeInjective(a, b);
    }
  }
}
