/** The intrusive circular list: pointer updates in place, read as a sequence from its head. */
module RingList {

  class Node {
    var prev: Node?
    var next: Node?

    constructor ()
      ensures prev == null && next == null
    {
      prev, next := null, null;
    }
  }

  ghost function After(s: seq<Node>, i: nat): Node
    requires i < |s|
  {
    if i + 1 < |s| then s[i + 1] else s[0]
  }

  ghost function Before(s: seq<Node>, i: nat): Node
    requires i < |s|
  {
    if i > 0 then s[i - 1] else s[|s| - 1]
  }

  ghost predicate Linked(s: seq<Node>, i: nat)
    requires i < |s|
    reads s[i]
  {
    s[i].next == After(s, i) && s[i].prev == Before(s, i)
  }

  ghost predicate Distinct(s: seq<Node>) {
    forall i, j :: 0 <= i < j < |s| ==> s[i] != s[j]
  }

  /** s lists the ring once round from s[0]: next goes forward through s, prev back, and
      both join its ends. */
  ghost predicate Ring(s: seq<Node>)
    reads s
  {
    |s| >= 1 && Distinct(s) && forall i :: 0 <= i < |s| ==> Linked(s, i)
  }

  /** prev and next undo each other. */
  lemma LinksAreInverse(s: seq<Node>, i: nat)
    requires Ring(s) && i < |s|
    ensures s[i].next == After(s, i) && s[i].prev == Before(s, i)
    ensures After(s, i) in s && Before(s, i) in s
    ensures s[i].next.prev == s[i] && s[i].prev.next == s[i]
  {
    assert Linked(s, i);
    assert Linked(s, if i + 1 < |s| then i + 1 else 0);
    assert Linked(s, if i > 0 then i - 1 else |s| - 1);
  }

  /** The ring may be read from any member. */
  lemma RingRotates(s: seq<Node>, i: nat)
    requires Ring(s) && i < |s|
    ensures Ring(s[i..] + s[..i])
  {
    var r := s[i..] + s[..i];
    forall k | 0 <= k < |r|
      ensures Linked(r, k)
    {
      assert Linked(s, if k + i < |s| then k + i else k + i - |s|);
    }
  }

  /** Two sequences that start at the same node list the same ring the same way. */
  lemma {:induction false} RingIsUnique(s: seq<Node>, r: seq<Node>, k: nat)
    requires Ring(s) && Ring(r) && s[0] == r[0] && k < |s| && k < |r|
    ensures s[..k + 1] == r[..k + 1]
  {
    if k != 0 {
      RingIsUnique(s, r, k - 1);
      assert Linked(s, k - 1) && Linked(r, k - 1);
      assert s[k - 1] == s[..k][k - 1] == r[..k][k - 1] == r[k - 1];
      assert s[k] == s[k - 1].next == r[k - 1].next == r[k];
      assert s[..k + 1] == s[..k] + [s[k]] && r[..k + 1] == r[..k] + [r[k]];
    }
  }

  lemma SameRing(s: seq<Node>, r: seq<Node>)
    requires Ring(s) && Ring(r) && s[0] == r[0]
    ensures s == r
  {
    var n := if |s| < |r| then |s| else |r|;
    RingIsUnique(s, r, n - 1);
    assert s[..n][n - 1] == r[..n][n - 1];
    assert Linked(s, n - 1) && Linked(r, n - 1);
    assert |s| == |r|;
    assert s[..n] == s && r[..n] == r;
  }

  /** list_init */
  method Init(list: Node)
    modifies list
    ensures Ring([list])
  {
    list.prev := list;
    list.next := list;
  }

  /** list_add_to_behind: the new node follows its entry. */
  method AddBehind(entry: Node, node: Node, ghost s: seq<Node>, ghost i: nat)
    requires Ring(s) && i < |s| && s[i] == entry && node !in s
    modifies s, node
    ensures Ring(s[..i + 1] + [node] + s[i + 1..])
  {
    LinksAreInverse(s, i);
    node.next := entry.next;
    node.prev := entry;
    node.next.prev := node;
    entry.next := node;
    ghost var r := s[..i + 1] + [node] + s[i + 1..];
    forall k | 0 <= k < |r|
      ensures Linked(r, k)
    {
      if k <= i {
        assert old(Linked(s, k));
      } else if k > i + 1 {
        assert old(Linked(s, k - 1));
      }
    }
  }

  /** list_add_to_before: the new node precedes its entry; before the head, that is at the
      end. */
  method AddBefore(entry: Node, node: Node, ghost s: seq<Node>, ghost i: nat)
    requires Ring(s) && i < |s| && s[i] == entry && node !in s
    modifies s, node
    ensures Ring(if i == 0 then s + [node] else s[..i] + [node] + s[i..])
  {
    LinksAreInverse(s, i);
    node.next := entry;
    entry.prev.next := node;
    node.prev := entry.prev;
    entry.prev := node;
    ghost var at := if i == 0 then |s| else i;
    ghost var r := if i == 0 then s + [node] else s[..i] + [node] + s[i..];
    forall k | 0 <= k < |r|
      ensures Linked(r, k)
    {
      if k < at {
        assert old(Linked(s, k));
      } else if k > at {
        assert old(Linked(s, k - 1));
      }
    }
  }

  /** list_del: the ring closes over the gap; a lone node stays a ring of one. The removed
      node goes on pointing into the ring. */
  method Del(entry: Node, ghost s: seq<Node>, ghost i: nat)
    requires Ring(s) && i < |s| && s[i] == entry
    modifies s
    ensures |s| > 1 ==> Ring(s[..i] + s[i + 1..])
    ensures |s| == 1 ==> Ring(s)
    ensures entry.next == old(entry.next) && entry.prev == old(entry.prev)
  {
    LinksAreInverse(s, i);
    assert |s| > 1 ==> entry.next != entry && entry.prev != entry;
    entry.next.prev := entry.prev;
    entry.prev.next := entry.next;
    if |s| > 1 {
      ghost var r := s[..i] + s[i + 1..];
      forall k | 0 <= k < |r|
        ensures Linked(r, k)
      {
        assert old(Linked(s, if k < i then k else k + 1));
      }
    } else {
      assert Linked(s, 0);
    }
  }

  /** list_is_empty: true exactly for a node alone in its ring. */
  method IsEmpty(entry: Node, ghost s: seq<Node>) returns (empty: bool)
    requires Ring(s) && entry in s
    ensures empty <==> s == [entry]
  {
    ghost var i :| 0 <= i < |s| && s[i] == entry;
    LinksAreInverse(s, i);
    empty := entry == entry.next && entry.prev == entry;
    assert |s| == 1 ==> s == [s[0]];
  }

  // ----- sequences of operations

  datatype Edit =
    | InsertBehind(entry: Node, node: Node)
    | InsertBefore(entry: Node, node: Node)
    | Remove(entry: Node)

  /** What the callers see to: entries are members and new nodes are not. */
  ghost predicate Allowed(s: seq<Node>, edit: Edit) {
    && edit.entry in s
    && match edit
       case InsertBehind(_, node) => node !in s
       case InsertBefore(_, node) => node !in s
       case Remove(_) => true
  }

  ghost function IndexOf(s: seq<Node>, node: Node): (i: nat)
    requires node in s
    ensures i < |s| && s[i] == node
  {
    var i :| 0 <= i < |s| && s[i] == node;
    i
  }

  /** The edit of a plain sequence; before its first element means at its end, and a lone
      element stays. */
  ghost function Edited(s: seq<Node>, edit: Edit): seq<Node>
    requires Allowed(s, edit)
  {
    var i := IndexOf(s, edit.entry);
    match edit
    case InsertBehind(_, node) => s[..i + 1] + [node] + s[i + 1..]
    case InsertBefore(_, node) => if i == 0 then s + [node] else s[..i] + [node] + s[i..]
    case Remove(_) => if |s| == 1 then s else s[..i] + s[i + 1..]
  }

  ghost predicate AllAllowed(s: seq<Node>, edits: seq<Edit>)
    decreases |edits|
  {
    edits == [] || (Allowed(s, edits[0]) && AllAllowed(Edited(s, edits[0]), edits[1..]))
  }

  ghost function EditedAll(s: seq<Node>, edits: seq<Edit>): seq<Node>
    requires AllAllowed(s, edits)
    decreases |edits|
  {
    if edits == [] then s else EditedAll(Edited(s, edits[0]), edits[1..])
  }

  method Perform(edit: Edit, ghost s: seq<Node>, ghost all: set<Node>)
    requires Ring(s) && Allowed(s, edit)
    requires (forall n :: n in s ==> n in all) && (!edit.Remove? ==> edit.node in all)
    modifies all
    ensures Ring(Edited(s, edit))
    ensures forall n :: n in Edited(s, edit) ==> n in all
  {
    ghost var i := IndexOf(s, edit.entry);
    match edit {
      case InsertBehind(entry, node) => AddBehind(entry, node, s, i);
      case InsertBefore(entry, node) => AddBefore(entry, node, s, i);
      case Remove(entry) => Del(entry, s, i);
    }
  }

  /** Any run of insertions and removals does to the ring what it does to a plain sequence. */
  method PerformAll(edits: seq<Edit>, ghost s: seq<Node>, ghost all: set<Node>)
    requires Ring(s) && AllAllowed(s, edits)
    requires forall n :: n in s ==> n in all
    requires forall e :: e in edits && !e.Remove? ==> e.node in all
    modifies all
    ensures Ring(EditedAll(s, edits))
  {
    ghost var r := s;
    var k := 0;
    while k < |edits|
      invariant k <= |edits| && Ring(r) && AllAllowed(r, edits[k..])
      invariant EditedAll(r, edits[k..]) == EditedAll(s, edits)
      invariant forall n :: n in r ==> n in all
    {
      assert edits[k..][0] == edits[k] && edits[k..][1..] == edits[k + 1..];
      Perform(edits[k], r, all);
      r := Edited(r, edits[k]);
      k := k + 1;
    }
  }

  /** list_add_to_before(&init_task.list, &tsk->list) for each new task in turn. */
  ghost function ForkEdits(head: Node, nodes: seq<Node>): (edits: seq<Edit>)
    ensures |edits| == |nodes| && forall i :: 0 <= i < |edits| ==> edits[i] == InsertBefore(head, nodes[i])
  {
    seq(|nodes|, i requires 0 <= i < |nodes| => InsertBefore(head, nodes[i]))
  }

  /** The ring of tasks is the init task and then every forked task once, in fork order. */
  lemma {:induction false} ForksKeepOrder(head: Node, done: seq<Node>, nodes: seq<Node>)
    requires Distinct([head] + done + nodes)
    ensures AllAllowed([head] + done, ForkEdits(head, nodes))
    ensures EditedAll([head] + done, ForkEdits(head, nodes)) == [head] + done + nodes
    decreases |nodes|
  {
    var s := [head] + done;
    if nodes == [] {
      assert s + nodes == s;
    } else {
      NotAmong(s, nodes, 0);
      FirstIndex(s, nodes);
      assert Edited(s, InsertBefore(head, nodes[0])) == [head] + (done + [nodes[0]]);
      assert [head] + (done + [nodes[0]]) + nodes[1..] == s + nodes;
      assert ForkEdits(head, nodes)[1..] == ForkEdits(head, nodes[1..]);
      ForksKeepOrder(head, done + [nodes[0]], nodes[1..]);
    }
  }

  lemma NotAmong(s: seq<Node>, t: seq<Node>, i: nat)
    requires Distinct(s + t) && i < |t|
    ensures t[i] !in s
  {
    assert (s + t)[|s| + i] == t[i];
    assert forall j :: 0 <= j < |s| ==> (s + t)[j] == s[j];
  }

  lemma FirstIndex(s: seq<Node>, t: seq<Node>)
    requires s != [] && Distinct(s + t)
    ensures s[0] in s && IndexOf(s, s[0]) == 0
  {
    assert forall j :: 0 <= j < |s| ==> (s + t)[j] == s[j];
  }
}
