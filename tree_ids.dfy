/**
 * Pre-order numbering of a tree of labelled nodes.
 *
 * A node carries a label, a list of metadata records (`info`) and an ordered
 * list of child nodes. Numbering writes an id into every node reachable
 * through `children`, in pre-order (a node before its children, children left
 * to right), threading one counter through the walk and returning the first
 * unused number.
 */
module TreeIds {

  datatype Option<T> = None | Some(value: T)

  /** A metadata leaf attached to a node. It is displayed, never numbered. */
  datatype InfoEntry = InfoEntry(name: string, destination: string)

  /** The counter value used when the caller gives no starting id. */
  const DefaultStartId: int := 0

  /** No node occurs twice in `s`. */
  ghost predicate Distinct(s: seq<Node>) {
    forall i, j :: 0 <= i < j < |s| ==> s[i] != s[j]
  }

  /** Two duplicate-free listings drawn from disjoint sets concatenate to a duplicate-free listing. */
  lemma DistinctConcat(p: seq<Node>, q: seq<Node>, a: set<Node>, b: set<Node>)
    requires Distinct(p) && Distinct(q) && a !! b
    requires forall n :: n in p ==> n in a
    requires forall n :: n in q ==> n in b
    ensures Distinct(p + q)
  {
    forall i, j | 0 <= i < j < |p + q| ensures (p + q)[i] != (p + q)[j] {
      if j < |p| {
        assert (p + q)[i] == p[i] && (p + q)[j] == p[j];
      } else if i < |p| {
        assert (p + q)[i] == p[i] && p[i] in a;
        assert (p + q)[j] == q[j - |p|] && q[j - |p|] in b;
      } else {
        assert (p + q)[i] == q[i - |p|] && (p + q)[j] == q[j - |p|];
      }
    }
  }

  /**
   * The nodes of the subtrees rooted at `cs`. The same set as `Node.ChildRepr`,
   * but over a plain sequence, so that the constructor can compute `repr`
   * before the node exists (`ChildReprIsUnion` connects the two).
   */
  ghost function Union(cs: seq<Node>): set<Node> {
    if |cs| == 0 then {} else Union(cs[..|cs| - 1]) + cs[|cs| - 1].repr
  }

  /** A listing without repetitions of exactly the nodes of `a` is as long as `a` has nodes. */
  lemma {:induction false} DistinctListingSize(s: seq<Node>, a: set<Node>)
    requires Distinct(s)
    requires forall n :: n in s <==> n in a
    ensures |s| == |a|
  {
    if |s| == 0 {
      assert a == {};
    } else {
      var last, rest := s[|s| - 1], s[..|s| - 1];
      assert s == rest + [last];
      assert last !in rest by {
        forall i | 0 <= i < |rest| ensures rest[i] != last {
          assert rest[i] == s[i];
        }
      }
      forall n ensures n in rest <==> n in a - {last} {
        if n in rest {
          var i :| 0 <= i < |rest| && rest[i] == n;
          assert s[i] == n;
        }
      }
      DistinctListingSize(rest, a - {last});
    }
  }

  /** Every node in `a` has an id smaller than the id of every node in `b`. */
  ghost predicate IdsBelow(a: set<Node>, b: set<Node>)
    reads a, b
  {
    forall x, y :: x in a && y in b ==> x.id.Some? && y.id.Some? && x.id.value < y.id.value
  }

  /** Nodes numbered consecutively from `start` followed by nodes numbered from where they stop. */
  lemma NumberedConcat(p: seq<Node>, q: seq<Node>, start: int)
    requires forall i :: 0 <= i < |p| ==> p[i].id == Some(start + i)
    requires forall i :: 0 <= i < |q| ==> q[i].id == Some(start + |p| + i)
    ensures forall i :: 0 <= i < |p + q| ==> (p + q)[i].id == Some(start + i)
  {
  }

  class Node {
    const name: string
    const info: seq<InfoEntry>
    const children: seq<Node>
    /** The nodes of the subtree rooted here: this node and all its descendants. */
    ghost const repr: set<Node>
    /** Absent (None) until the numbering has visited the node. */
    var id: Option<int>

    /** The nodes of the subtrees of the first `k` children. */
    ghost function ChildRepr(k: nat): set<Node>
      requires k <= |children|
    {
      if k == 0 then {} else ChildRepr(k - 1) + children[k - 1].repr
    }

    /**
     * The subtree is a strict tree: `repr` is this node plus the subtrees of
     * its children, no child subtree contains this node, and the subtrees of
     * distinct children share no node.
     */
    ghost predicate Valid()
      decreases repr
    {
      this in repr &&
      repr == {this} + ChildRepr(|children|) &&
      (forall j, k :: 0 <= j < k < |children| ==> children[j].repr !! children[k].repr) &&
      forall k :: 0 <= k < |children| ==>
        children[k].repr <= repr && this !in children[k].repr && children[k].Valid()
    }

    /** The nodes of the subtree, listed in pre-order. */
    ghost function PreOrder(): (s: seq<Node>)
      requires Valid()
      decreases repr, 1
    {
      [this] + Prefix(|children|)
    }

    /** The pre-order listing of the subtrees of the first `k` children, left to right. */
    ghost function Prefix(k: nat): (s: seq<Node>)
      requires Valid() && k <= |children|
      decreases repr, 0, k
    {
      if k == 0 then [] else Prefix(k - 1) + children[k - 1].PreOrder()
    }

    /** Every node of the subtree holds `start` plus its position in the pre-order listing. */
    ghost predicate NumberedFrom(start: int)
      requires Valid()
      reads repr
    {
      PreOrderInRepr();
      forall i :: 0 <= i < |PreOrder()| ==> PreOrder()[i].id == Some(start + i)
    }

    /** The pre-order listing draws its nodes from the subtree. */
    lemma {:induction false} PreOrderInRepr()
      requires Valid()
      decreases repr, 1
      ensures forall n :: n in PreOrder() ==> n in repr
    {
      PrefixInRepr(|children|);
    }

    lemma {:induction false} PrefixInRepr(k: nat)
      requires Valid() && k <= |children|
      decreases repr, 0, k
      ensures forall n :: n in Prefix(k) ==> n in ChildRepr(k) && n in repr
    {
      if k > 0 {
        PrefixInRepr(k - 1);
        children[k - 1].PreOrderInRepr();
      }
    }

    constructor (name: string, info: seq<InfoEntry>, children: seq<Node>)
      requires forall k :: 0 <= k < |children| ==> children[k].Valid()
      requires forall j, k :: 0 <= j < k < |children| ==> children[j].repr !! children[k].repr
      ensures Valid()
      ensures this.name == name && this.info == info && this.children == children
      ensures repr == {this} + ChildRepr(|children|)
      ensures id == None
    {
      this.name := name;
      this.info := info;
      this.children := children;
      this.id := None;
      this.repr := {this} + Union(children);
      new;
      ChildReprIsUnion(|children|);
      assert children[..|children|] == children;
      ChildReprMembers(|children|);
      forall n | n in ChildRepr(|children|) ensures n in repr {
        var k :| 0 <= k < |children| && n in children[k].repr;
      }
    }

    lemma {:induction false} ChildReprIsUnion(k: nat)
      requires k <= |children|
      ensures ChildRepr(k) == Union(children[..k])
    {
      if k > 0 {
        ChildReprIsUnion(k - 1);
        assert children[..k][..k - 1] == children[..k - 1];
      }
    }

    /** A node lies in `ChildRepr(i)` exactly when it lies in the subtree of one of the first `i` children. */
    lemma {:induction false} ChildReprMembers(i: nat)
      requires i <= |children|
      ensures forall n :: n in ChildRepr(i) <==> exists k :: 0 <= k < i && n in children[k].repr
    {
      if i > 0 {
        ChildReprMembers(i - 1);
      }
    }

    /**
     * Numbers the subtree from `start`: this node gets `start`, then each
     * child subtree in turn is numbered from the next unused value. Returns
     * the first value not used, `start` plus the number of nodes.
     */
    method AssignIds(start: int := DefaultStartId) returns (next: int)
      requires Valid()
      modifies repr
      decreases repr
      ensures id == Some(start)
      ensures NumberedFrom(start)
      ensures next == start + |PreOrder()| == start + |repr|
    {
      id := Some(start);
      next := start + 1;
      for k := 0 to |children|
        invariant id == Some(start)
        invariant next == start + 1 + |Prefix(k)|
        invariant PrefixNumbered(k, start + 1)
      {
        ChildReprDisjoint(k);
        next := children[k].AssignIds(next);
        PrefixNumberedStep(k, start + 1);
      }
      PreOrderSize();
      PreOrderNumbered(start);
    }

    /**
     * Numbers again, from `to`, a subtree already numbered from `from`: every
     * id moves by `to - from`. With `to == from` the ids stay as they were.
     */
    method Renumber(from: int, to: int) returns (next: int)
      requires Valid() && NumberedFrom(from)
      modifies repr
      ensures next == to + |repr|
      ensures forall n :: n in repr ==> old(n.id) == Some(from + Position(n)) && n.id == Some(to + Position(n))
    {
      IdsArePositions(from);
      next := AssignIds(to);
      IdsArePositions(to);
    }

    /** The index of `n` in the pre-order listing of the subtree. */
    ghost function Position(n: Node): (i: nat)
      requires Valid() && n in repr
      ensures i < |PreOrder()| && PreOrder()[i] == n
    {
      PreOrderCovers();
      var i :| 0 <= i < |PreOrder()| && PreOrder()[i] == n; i
    }

    /** In a numbering from `start`, each node of the subtree holds `start` plus its pre-order index, and nothing else about the heap matters. */
    lemma IdsArePositions(start: int)
      requires Valid() && NumberedFrom(start)
      ensures forall n :: n in repr ==> n.id == Some(start + Position(n))
    {
    }

    /** The subtrees of the first `k` children hold `from` plus their position in `Prefix(k)`. */
    ghost predicate PrefixNumbered(k: nat, from: int)
      requires Valid() && k <= |children|
      reads ChildRepr(k)
    {
      PrefixInRepr(k);
      forall i :: 0 <= i < |Prefix(k)| ==> Prefix(k)[i].id == Some(from + i)
    }

    lemma PrefixNumberedStep(k: nat, from: int)
      requires Valid() && k < |children|
      requires PrefixNumbered(k, from)
      requires children[k].NumberedFrom(from + |Prefix(k)|)
      ensures PrefixNumbered(k + 1, from)
    {
      PrefixInRepr(k);
      PrefixInRepr(k + 1);
      children[k].PreOrderInRepr();
      assert Prefix(k + 1) == Prefix(k) + children[k].PreOrder();
      NumberedConcat(Prefix(k), children[k].PreOrder(), from);
    }

    lemma PreOrderNumbered(start: int)
      requires Valid() && id == Some(start)
      requires PrefixNumbered(|children|, start + 1)
      ensures NumberedFrom(start)
    {
    }

    /** The pre-order listing is as long as the subtree has nodes. */
    lemma PreOrderSize()
      requires Valid()
      ensures |PreOrder()| == |repr|
    {
      PreOrderDistinct();
      PreOrderInRepr();
      PreOrderCovers();
      DistinctListingSize(PreOrder(), repr);
    }

    /** Every node of the subtree occurs in the pre-order listing. */
    lemma {:induction false} PreOrderCovers()
      requires Valid()
      decreases repr, 1
      ensures forall n :: n in repr ==> n in PreOrder()
    {
      PrefixCovers(|children|);
    }

    lemma {:induction false} PrefixCovers(k: nat)
      requires Valid() && k <= |children|
      decreases repr, 0, k
      ensures forall n :: n in ChildRepr(k) ==> n in Prefix(k)
    {
      if k > 0 {
        PrefixCovers(k - 1);
        children[k - 1].PreOrderCovers();
      }
    }

    /** No node occurs twice in the pre-order listing. */
    lemma {:induction false} PreOrderDistinct()
      requires Valid()
      decreases repr, 1
      ensures Distinct(PreOrder())
    {
      PrefixDistinct(|children|);
      NotInChildRepr(|children|);
      PrefixInRepr(|children|);
      DistinctConcat([this], Prefix(|children|), {this}, ChildRepr(|children|));
    }

    lemma {:induction false} PrefixDistinct(k: nat)
      requires Valid() && k <= |children|
      decreases repr, 0, k
      ensures Distinct(Prefix(k))
    {
      if k > 0 {
        PrefixDistinct(k - 1);
        children[k - 1].PreOrderDistinct();
        ChildReprDisjoint(k - 1);
        PrefixInRepr(k - 1);
        children[k - 1].PreOrderInRepr();
        DistinctConcat(Prefix(k - 1), children[k - 1].PreOrder(), ChildRepr(k - 1), children[k - 1].repr);
      }
    }

    /** The subtree of child `k` shares no node with the subtrees of the children before it. */
    lemma {:induction false} ChildReprDisjoint(k: nat)
      requires Valid() && k < |children|
      ensures ChildRepr(k) !! children[k].repr && ChildRepr(k) <= repr
    {
      ChildReprMembers(k);
      ChildReprInRepr(k);
    }

    lemma {:induction false} ChildReprInRepr(k: nat)
      requires Valid() && k <= |children|
      ensures ChildRepr(k) <= repr
    {
      if k > 0 {
        ChildReprInRepr(k - 1);
      }
    }

    lemma {:induction false} NotInChildRepr(k: nat)
      requires Valid() && k <= |children|
      ensures this !in ChildRepr(k)
    {
      if k > 0 {
        NotInChildRepr(k - 1);
      }
    }

    /** A numbering from `start` gives every node of the subtree an id in `start` .. `start + |repr| - 1`. */
    lemma NumberedIdsInRange(start: int)
      requires Valid() && NumberedFrom(start)
      ensures forall n :: n in repr ==> n.id.Some? && start <= n.id.value < start + |repr|
    {
      PreOrderCovers();
      PreOrderSize();
      var order := PreOrder();
      forall n | n in repr ensures n.id.Some? && start <= n.id.value < start + |repr| {
        var i :| 0 <= i < |order| && order[i] == n;
      }
    }

    /** A numbering from `start` gives distinct nodes distinct ids. */
    lemma NumberedIdsDistinct(start: int)
      requires Valid() && NumberedFrom(start)
      ensures forall n, m :: n in repr && m in repr && n.id == m.id ==> n == m
    {
      PreOrderCovers();
      PreOrderDistinct();
      var order := PreOrder();
      forall n, m | n in repr && m in repr && n.id == m.id ensures n == m {
        var i :| 0 <= i < |order| && order[i] == n;
        var j :| 0 <= j < |order| && order[j] == m;
      }
    }

    /** A numbering from `start` leaves no gap: every value in `start` .. `start + |repr| - 1` is some node's id. */
    lemma NumberedIdsCover(start: int)
      requires Valid() && NumberedFrom(start)
      ensures forall v :: start <= v < start + |repr| ==> exists n :: n in repr && n.id == Some(v)
    {
      PreOrderInRepr();
      PreOrderSize();
      var order := PreOrder();
      forall v | start <= v < start + |repr| ensures exists n :: n in repr && n.id == Some(v) {
        assert order[v - start] in repr;
      }
    }

    /** Restricting a numbering of the first `m` child subtrees to its first `m - 1` and to child `m - 1`. */
    lemma PrefixNumberedSplit(m: nat, from: int, last: int)
      requires Valid() && 0 < m <= |children|
      requires PrefixNumbered(m, from) && last == from + |Prefix(m - 1)|
      ensures PrefixNumbered(m - 1, from)
      ensures children[m - 1].NumberedFrom(last)
    {
      PrefixInRepr(m - 1);
      children[m - 1].PreOrderInRepr();
      var p, q := Prefix(m - 1), children[m - 1].PreOrder();
      assert Prefix(m) == p + q;
      forall i | 0 <= i < |p| ensures p[i].id == Some(from + i) {
        assert (p + q)[i] == p[i];
      }
      forall i | 0 <= i < |q| ensures q[i].id == Some(last + i) {
        assert (p + q)[|p| + i] == q[i];
      }
    }

    lemma {:induction false} PrefixNumberedChild(m: nat, k: nat, from: int, first: int)
      requires Valid() && k < m <= |children|
      requires PrefixNumbered(m, from) && first == from + |Prefix(k)|
      decreases m
      ensures children[k].NumberedFrom(first)
    {
      PrefixNumberedSplit(m, from, from + |Prefix(m - 1)|);
      if k < m - 1 {
        PrefixNumberedChild(m - 1, k, from, first);
      }
    }

    /**
     * In a numbering from `start`, child `k` is numbered from `first`: the value
     * after its parent's and after those of its elder siblings' subtrees.
     */
    lemma ChildNumbered(start: int, k: nat, first: int)
      requires Valid() && NumberedFrom(start) && k < |children|
      requires first == start + 1 + |Prefix(k)|
      ensures children[k].NumberedFrom(first)
    {
      NumberedRoot(start);
      PrefixNumberedChild(|children|, k, start + 1, first);
    }

    /** A numbering from `start` gives this node `start` and numbers its children's subtrees from `start + 1`. */
    lemma NumberedRoot(start: int)
      requires Valid() && NumberedFrom(start)
      ensures id == Some(start)
      ensures PrefixNumbered(|children|, start + 1)
    {
      PrefixInRepr(|children|);
      var q := Prefix(|children|);
      assert PreOrder() == [this] + q;
      assert PreOrder()[0] == this;
      forall i | 0 <= i < |q| ensures q[i].id == Some(start + 1 + i) {
        assert PreOrder()[i + 1] == q[i];
      }
    }

    /** In a numbered tree every node is the root of a subtree numbered from its own id. */
    lemma {:induction false} SubtreesNumbered(start: int)
      requires Valid() && NumberedFrom(start)
      decreases repr
      ensures forall n :: n in repr ==> n.Valid() && n.id.Some? && n.NumberedFrom(n.id.value)
    {
      assert PreOrder()[0] == this;
      ChildReprMembers(|children|);
      forall n | n in repr ensures n.Valid() && n.id.Some? && n.NumberedFrom(n.id.value) {
        if n != this {
          var k :| 0 <= k < |children| && n in children[k].repr;
          var first := start + 1 + |Prefix(k)|;
          ChildNumbered(start, k, first);
          children[k].SubtreesNumbered(first);
        }
      }
    }

    /** The root of a numbered subtree carries the smallest id in it. */
    lemma RootFirst(start: int)
      requires Valid() && NumberedFrom(start)
      ensures forall d :: d in repr && d != this ==> d.id.Some? && start < d.id.value
    {
      NumberedIdsInRange(start);
      NumberedIdsDistinct(start);
      NumberedRoot(start);
    }

    /** A node's id is smaller than the id of each of its descendants. */
    lemma AncestorsFirst(start: int)
      requires Valid() && NumberedFrom(start)
      ensures forall n, d :: n in repr && d in n.repr && d != n ==>
        n.id.Some? && d.id.Some? && n.id.value < d.id.value
    {
      SubtreesNumbered(start);
      forall n | n in repr ensures forall d :: d in n.repr && d != n ==>
        n.id.Some? && d.id.Some? && n.id.value < d.id.value
      {
        n.RootFirst(n.id.value);
      }
    }

    lemma {:induction false} PrefixGrows(j: nat, k: nat)
      requires Valid() && j <= k <= |children|
      decreases k
      ensures |Prefix(j)| <= |Prefix(k)|
    {
      if j < k {
        PrefixGrows(j, k - 1);
      }
    }

    /** Below one parent, every id in an earlier child's subtree is smaller than every id in a later child's subtree. */
    lemma ChildrenInOrder(start: int)
      requires Valid() && NumberedFrom(start)
      ensures forall j, k :: 0 <= j < k < |children| ==> IdsBelow(children[j].repr, children[k].repr)
    {
      forall j, k | 0 <= j < k < |children| ensures IdsBelow(children[j].repr, children[k].repr) {
        TwoChildrenInOrder(start, j, k);
      }
    }

    /** Child `j`'s ids all fall below the first id of a later child `k`. */
    lemma TwoChildrenInOrder(start: int, j: nat, k: nat)
      requires Valid() && NumberedFrom(start) && j < k < |children|
      ensures IdsBelow(children[j].repr, children[k].repr)
    {
      var firstJ, firstK := start + 1 + |Prefix(j)|, start + 1 + |Prefix(k)|;
      ChildNumbered(start, j, firstJ);
      ChildNumbered(start, k, firstK);
      children[j].NumberedIdsInRange(firstJ);
      children[k].NumberedIdsInRange(firstK);
      children[j].PreOrderSize();
      var after := j + 1;
      assert Prefix(after) == Prefix(j) + children[j].PreOrder();
      PrefixGrows(after, k);
      assert firstJ + |children[j].repr| <= firstK;
    }

    /** At every node of a numbered tree, siblings are numbered left to right. */
    lemma SiblingsInOrder(start: int)
      requires Valid() && NumberedFrom(start)
      ensures forall n, j, k :: n in repr && 0 <= j < k < |n.children| ==>
        IdsBelow(n.children[j].repr, n.children[k].repr)
    {
      SubtreesNumbered(start);
      forall n | n in repr
        ensures forall j, k :: 0 <= j < k < |n.children| ==> IdsBelow(n.children[j].repr, n.children[k].repr)
      {
        n.ChildrenInOrder(n.id.value);
      }
    }
  }
}
