/** The rehype plugin as it runs: `visit` walks a tree of mutable nodes and assigns
    each node's `children` in place (apps/web/src/components/Markdown.tsx). */
module MentionPlugin {
  import opened Options
  import opened Utf16
  import opened MentionTree
  import Mentions

  /** Everything about a node that `visit` never assigns. */
  datatype Data = Text(value: Text) | WithChildren(shape: Shape) | Bare(shape: Shape)

  class HastNode {
    const data: Data
    var children: seq<HastNode>
    ghost var Repr: set<HastNode>
    /** The tree value this node stands for. */
    ghost var tree: Tree

    constructor (data: Data)
      ensures this.data == data && children == [] && Repr == {this} && Valid()
      ensures tree == Value(data, [])
    {
      this.data := data;
      children := [];
      Repr := {this};
      tree := Value(data, []);
    }

    ghost predicate Valid()
      reads this, Repr
      decreases Repr, 0
    {
      && this in Repr
      && Forest(children, Repr - {this})
      && (!data.WithChildren? ==> children == [])
      && tree == Value(data, Trees(children))
    }

    method Visit()
      requires Valid()
      modifies Repr
      ensures Valid() && fresh(Repr - old(Repr))
      ensures tree == Rewrite(old(tree))
      decreases Repr, 0
    {
      hide RewriteKids, Trees;
      if data.WithChildren? && Protected(data.shape) {
        return;
      }
      if !data.WithChildren? {
        return;
      }
      ghost var below := Repr - {this};
      ghost var done;
      ghost var before := Trees(children);
      var next;
      next, done := VisitChildren(children, below);
      children := next;
      Repr := done + {this};
      tree := Value(data, Trees(next));
      assert this !in done && Repr - {this} == done;
      assert old(tree) == Parent(data.shape, before);
    }

    /** The loop of `visit`: the new child list, built left to right. */
    static method VisitChildren(kids: seq<HastNode>, ghost below: set<HastNode>)
      returns (next: seq<HastNode>, ghost done: set<HastNode>)
      requires Forest(kids, below)
      modifies below
      ensures Forest(next, done) && fresh(done - below)
      ensures Trees(next) == RewriteKids(old(Trees(kids)))
      decreases below, 2
    {
      next, done := [], {};
      ghost var todo := below;
      ghost var before := Trees(kids);
      NothingDone(kids);
      hide RewriteKids, RewriteKid, Trees;
      for k := 0 to |kids|
        invariant Forest(kids[k..], todo) && todo <= below
        invariant Forest(next, done) && fresh(done - below) && done !! todo
        invariant RewriteKids(before) == Trees(next) + RewriteKids(Trees(kids[k..]))
      {
        var child := kids[k];
        ghost var mine, rest := child.Repr, Trees(kids[k + 1..]);
        TakeFirst(kids, k, todo);
        NextKid(child.tree, rest);
        Assoc(Trees(next), RewriteKid(child.tree), RewriteKids(rest));
        var nodes;
        ghost var space;
        nodes, space := VisitChild(child);
        JoinForests(next, done, nodes, space);
        next := next + nodes;
        done := done + space;
        todo := todo - mine;
      }
      AllDone(kids, Trees(next));
    }

    /** One turn of the loop: the nodes that take the child's place. */
    static method VisitChild(child: HastNode) returns (nodes: seq<HastNode>, ghost space: set<HastNode>)
      requires child.Valid()
      modifies child.Repr
      ensures Forest(nodes, space) && fresh(space - old(child.Repr))
      ensures Trees(nodes) == RewriteKid(old(child.tree))
      decreases child.Repr, 1
    {
      if child.data.Text? && MayMention(child.data.value) {
        var parts := Mentions.SplitMentions(child.data.value);
        nodes, space := Build(parts);
      } else {
        child.Visit();
        OneTree(child);
        nodes, space := [child], child.Repr;
      }
    }
  }

  ghost function Value(data: Data, kids: seq<Tree>): Tree {
    match data
    case Text(value) => Words(value)
    case WithChildren(shape) => Parent(shape, kids)
    case Bare(shape) => Childless(shape)
  }

  /** The nodes are valid and own pairwise disjoint parts of `space`. */
  ghost predicate Forest(nodes: seq<HastNode>, space: set<HastNode>)
    reads space
    decreases space, 1
  {
    && (forall i :: 0 <= i < |nodes| ==> nodes[i] in space)
    && (forall i :: 0 <= i < |nodes| ==> nodes[i].Repr <= space && nodes[i].Valid())
    && (forall i, j :: 0 <= i < j < |nodes| ==> nodes[i].Repr !! nodes[j].Repr)
  }

  ghost function Trees(nodes: seq<HastNode>): seq<Tree>
    reads nodes
  {
    if nodes == [] then [] else [nodes[0].tree] + Trees(nodes[1..])
  }

  /** The tree value of a node is its own text or shape with the trees of its
      children, in order. */
  lemma TreeIsRead(node: HastNode)
    requires node.Valid()
    ensures match node.data
            case Text(value) => node.tree == Words(value)
            case Bare(shape) => node.tree == Childless(shape)
            case WithChildren(shape) =>
              && node.tree.Parent? && node.tree.shape == shape && |node.tree.kids| == |node.children|
              && forall i :: 0 <= i < |node.children| ==> node.tree.kids[i] == node.children[i].tree
  {
    TreesInOrder(node.children);
  }

  lemma {:induction false} TreesInOrder(nodes: seq<HastNode>)
    ensures |Trees(nodes)| == |nodes| && forall i :: 0 <= i < |nodes| ==> Trees(nodes)[i] == nodes[i].tree
  {
    if nodes != [] {
      TreesInOrder(nodes[1..]);
    }
  }

  lemma NothingDone(kids: seq<HastNode>)
    ensures kids[0..] == kids && Trees([]) == [] && [] + RewriteKids(Trees(kids)) == RewriteKids(Trees(kids))
  {
  }

  lemma AllDone(kids: seq<HastNode>, next: seq<Tree>)
    ensures next + RewriteKids(Trees(kids[|kids|..])) == next
  {
  }

  lemma NextKid(kid: Tree, rest: seq<Tree>)
    ensures RewriteKids([kid] + rest) == RewriteKid(kid) + RewriteKids(rest)
  {
    assert ([kid] + rest)[1..] == rest;
  }

  lemma TakeFirst(kids: seq<HastNode>, k: nat, todo: set<HastNode>)
    requires k < |kids| && Forest(kids[k..], todo)
    ensures kids[k] in todo && kids[k].Valid() && kids[k].Repr <= todo
    ensures Forest(kids[k + 1..], todo - kids[k].Repr)
    ensures Trees(kids[k..]) == [kids[k].tree] + Trees(kids[k + 1..])
  {
    var here := kids[k..];
    assert here[0] == kids[k] && here[1..] == kids[k + 1..];
    var rest := kids[k + 1..];
    forall i | 0 <= i < |rest| ensures rest[i] in todo - kids[k].Repr && rest[i].Repr <= todo - kids[k].Repr {
      assert rest[i] == here[i + 1];
      assert here[0].Repr !! here[i + 1].Repr;
    }
  }

  lemma {:induction false} TreesAppend(a: seq<HastNode>, b: seq<HastNode>)
    ensures Trees(a + b) == Trees(a) + Trees(b)
  {
    if a == [] {
      assert a + b == b;
    } else {
      TreesAppend(a[1..], b);
      assert (a + b)[1..] == a[1..] + b && (a + b)[0] == a[0];
    }
  }

  lemma OneTree(node: HastNode)
    requires node.Valid()
    ensures Forest([node], node.Repr) && Trees([node]) == [node.tree]
  {
    assert [node][1..] == [];
  }

  lemma JoinForests(a: seq<HastNode>, left: set<HastNode>, b: seq<HastNode>, right: set<HastNode>)
    requires Forest(a, left) && Forest(b, right) && left !! right
    ensures Forest(a + b, left + right)
    ensures Trees(a + b) == Trees(a) + Trees(b)
  {
    TreesAppend(a, b);
  }

  /** The nodes that `splitMentions` returns. */
  method Build(parts: seq<Mentions.Part>) returns (nodes: seq<HastNode>, ghost space: set<HastNode>)
    ensures Forest(nodes, space) && fresh(space)
    ensures Trees(nodes) == GrowAll(parts)
  {
    nodes := [];
    space := {};
    for k := 0 to |parts|
      invariant Forest(nodes, space) && fresh(space)
      invariant GrowAll(parts) == Trees(nodes) + GrowAll(parts[k..])
    {
      var part := parts[k];
      assert parts[k..][0] == part && parts[k..][1..] == parts[k + 1..];
      var node := new HastNode(
        match part
        case Prose(value) => Text(value)
        case Mention(name) => WithChildren(Element(SpeakerMention, Some(name), NO_PROPERTIES)));
      OneTree(node);
      JoinForests(nodes, space, [node], node.Repr);
      Assoc(Trees(nodes), [node.tree], GrowAll(parts[k + 1..]));
      nodes := nodes + [node];
      space := space + node.Repr;
    }
  }
}
