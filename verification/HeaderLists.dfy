/** `struct headers`: a singly linked list of header fields, kept in strict key order and changed in place. */
module HeaderLists {
  import opened CStrings
  import F = Fields

  class HeaderNode {
    const key: Text
    var value: Text
    var next: HeaderNode?

    constructor (key: Text, value: Text)
      ensures this.key == key && this.value == value && next == null
    {
      this.key, this.value, next := key, value, null;
    }
  }

  ghost predicate Distinct<T>(s: seq<T>) {
    forall i, j | 0 <= i < j < |s| :: s[i] != s[j]
  }

  lemma StaysDistinct<T>(s: seq<T>, p: nat, x: T)
    requires Distinct(s) && x !in s && p <= |s|
    ensures Distinct(F.Splice(s, p, x))
    ensures p > 0 ==> forall i | 0 <= i < |s| && i != p - 1 :: s[i] != s[p - 1]
  {
    hide F.Splice;
  }

  class HeaderList {
    var head: HeaderNode?
    ghost var nodes: seq<HeaderNode>       // the nodes reachable from head, in order
    ghost var Repr: set<HeaderNode>        // these nodes, as a frame
    ghost var contents: seq<F.Field>       // what they hold

    ghost function NodeAt(i: nat): HeaderNode?
      reads this
    {
      if i < |nodes| then nodes[i] else null
    }

    /** The links run from `head` through distinct nodes to null, so the list is acyclic. */
    ghost predicate Linked()
      reads this, Repr
    {
      && (forall i | 0 <= i < |nodes| :: nodes[i] in Repr)
      && head == NodeAt(0)
      && (forall i: nat | i < |nodes| :: nodes[i].next == NodeAt(i + 1))
      && Distinct(nodes)
    }

    ghost predicate Holds()
      reads this, Repr
    {
      && |nodes| == |contents|
      && (forall i | 0 <= i < |nodes| :: nodes[i] in Repr)
      && (forall i | 0 <= i < |nodes| :: contents[i] == F.Field(nodes[i].key, nodes[i].value))
    }

    ghost predicate Valid()
      reads this, Repr
    {
      Linked() && Holds() && F.Sorted(contents)
    }

    /** What a walk along the list needs at each step. */
    lemma AtNode(p: nat)
      requires Valid() && p <= |nodes|
      ensures |nodes| == |contents| && head == NodeAt(0)
      ensures p < |nodes| ==> contents[p] == F.Field(nodes[p].key, nodes[p].value) && nodes[p].next == NodeAt(p + 1)
    {
    }

    constructor ()
      ensures Valid() && contents == [] && Repr == {}
    {
      head, nodes, contents, Repr := null, [], [], {};
    }

    /** `destroy_headers`, without the release of the nodes. */
    method Clear()
      modifies this
      ensures Valid() && contents == [] && Repr == {}
    {
      head, nodes, contents, Repr := null, [], [], {};
    }

    /**
     `lookup_header`. The source's pointer to a pointer is `slot`: the node whose `next` it is, or null for the head
     of the list.
     */
    method Find(name: Text) returns (target: HeaderNode?, slot: HeaderNode?)
      requires Valid()
      ensures target == if F.Present(contents, name) then nodes[F.Position(contents, name)] else null
      ensures slot == if F.Position(contents, name) == 0 then null else nodes[F.Position(contents, name) - 1]
    {
      slot := null;
      var at := head;
      ghost var p := 0;
      while at != null && Strcmp(at.key, name) < 0
        invariant p <= |nodes|
        invariant at == NodeAt(p)
        invariant slot == if p == 0 then null else nodes[p - 1]
        invariant forall i | 0 <= i < p :: Strcmp(contents[i].key, name) < 0
        decreases |nodes| - p
      {
        assert at == nodes[p];
        slot := at;
        at := at.next;
        p := p + 1;
      }
      F.PositionIs(contents, name, p);
      target := if at != null && Strcmp(at.key, name) == 0 then at else null;
    }

    /** `header->next = *prev; *prev = header;` */
    method LinkAt(slot: HeaderNode?, node: HeaderNode, ghost p: nat)
      requires Linked() && node !in Repr && p <= |nodes|
      requires slot == if p == 0 then null else nodes[p - 1]
      modifies this`head, this`nodes, this`Repr, node`next, Repr`next
      ensures Linked() && Repr == old(Repr) + {node}
      ensures nodes == F.Splice(old(nodes), p, node)
    {
      hide F.Splice, Distinct;
      ghost var after := F.Splice(nodes, p, node);
      assert node !in nodes;
      StaysDistinct(nodes, p, node);
      assert p < |nodes| ==> NodeAt(p) == nodes[p];
      if slot == null {
        node.next := head;
        head := node;
      } else {
        assert nodes[p - 1].next == NodeAt(p);
        node.next := slot.next;
        slot.next := node;
      }
      nodes := after;
      Repr := Repr + {node};
    }

    method AddAt(slot: HeaderNode?, node: HeaderNode, ghost p: nat)
      requires Linked() && Holds() && node !in Repr && p <= |nodes|
      requires slot == if p == 0 then null else nodes[p - 1]
      modifies this, Repr, node
      ensures Linked() && Holds() && Repr == old(Repr) + {node}
      ensures contents == F.Splice(old(contents), p, F.Field(node.key, old(node.value)))
    {
      LinkAt(slot, node, p);
      contents := F.Splice(contents, p, F.Field(node.key, node.value));
    }

    /** `insert_header`: refuses a key that is already there and changes nothing then. */
    method Insert(node: HeaderNode) returns (inserted: bool)
      requires Valid() && node !in Repr
      modifies this, Repr, node
      ensures Valid()
      ensures inserted <==> F.Insert(old(contents), F.Field(node.key, old(node.value))).Some?
      ensures contents == F.Insert(old(contents), F.Field(node.key, old(node.value))).GetOr(old(contents))
      ensures Repr <= old(Repr) + {node}
    {
      var target, slot := Find(node.key);
      if target != null {
        return false;
      }
      F.SplicedSorted(contents, F.Field(node.key, node.value));
      AddAt(slot, node, F.Position(contents, node.key));
      return true;
    }

    method ReplaceValue(target: HeaderNode, value: Text, ghost p: nat)
      requires Linked() && Holds() && p < |nodes| && target == nodes[p]
      modifies target`value, this`contents
      ensures Linked() && Holds()
      ensures contents == old(contents)[p := F.Field(target.key, value)]
    {
      target.value := value;
      contents := contents[p := F.Field(target.key, value)];
    }

    /** The body of `http_response_set_header`: replaces the value of a key, or adds the key. */
    method Set(key: Text, value: Text)
      requires Valid()
      modifies this, Repr
      ensures Valid() && fresh(Repr - old(Repr))
      ensures contents == F.Set(old(contents), key, value)
    {
      hide F.Sorted, F.Splice, F.Position;
      ghost var p := F.Position(contents, key);
      ghost var after := F.Set(contents, key, value);
      assert F.Sorted(after) by {
        F.SetKeepsSorted(contents, key, value);
      }
      var target, slot := Find(key);
      if target != null {
        assert after == contents[p := F.Field(target.key, value)];
        ReplaceValue(target, value, p);
      } else {
        assert after == F.Splice(contents, p, F.Field(key, value));
        var node := new HeaderNode(key, value);
        AddAt(slot, node, p);
      }
      assert contents == after;
    }
  }
}
