/** The iterative depth-first search that orders the pipeline graph
    (crates/core/src/dag.rs:311-341). */
module DepthFirst {
  import opened Wrappers
  import opened Graph

  datatype Mark = Unvisited | InProgress | Done

  predicate Distinct(s: seq<nat>) {
    forall i, j :: 0 <= i < j < |s| ==> s[i] != s[j]
  }

  /** Finished nodes come after everything they lead to. */
  predicate PostOrdered(succ: Adjacency, post: seq<nat>) {
    && Distinct(post)
    && (forall k :: 0 <= k < |post| ==> post[k] < |succ|)
    && forall k, e :: 0 <= k < |post| && 0 <= e < |succ[post[k]]| ==> succ[post[k]][e].target in post[..k]
  }

  ghost predicate Marked(succ: Adjacency, marks: seq<Mark>, post: seq<nat>) {
    && InRange(succ)
    && |marks| == |succ|
    && PostOrdered(succ, post)
    && forall v :: 0 <= v < |marks| ==> (marks[v] == Done <==> v in post)
  }

  /** A node on the search stack and how many of its edges were taken. */
  datatype Frame = Frame(node: nat, next: nat)

  predicate OnStack(stack: seq<Frame>, v: nat) {
    exists k :: 0 <= k < |stack| && stack[k].node == v
  }

  /** The edges taken out of frame `k` lead to finished nodes, but for the last one when it
      leads to the frame above. */
  predicate FrameOk(succ: Adjacency, post: seq<nat>, stack: seq<Frame>, k: nat)
    requires k < |stack|
  {
    var f := stack[k];
    && f.node < |succ|
    && f.next <= |succ[f.node]|
    && (k < |stack| - 1 ==> f.next > 0 && succ[f.node][f.next - 1].target == stack[k + 1].node)
    && forall e :: 0 <= e < f.next - (if k < |stack| - 1 then 1 else 0) ==> succ[f.node][e].target in post
  }

  /** The stack is a path of exactly the nodes in progress. */
  ghost predicate StackOk(succ: Adjacency, marks: seq<Mark>, post: seq<nat>, stack: seq<Frame>) {
    && (forall k :: 0 <= k < |stack| ==> FrameOk(succ, post, stack, k))
    && (forall j, k :: 0 <= j < k < |stack| ==> stack[j].node != stack[k].node)
    && (forall v :: 0 <= v < |marks| ==> (marks[v] == InProgress <==> OnStack(stack, v)))
  }

  /** The stack with the top frame's next edge taken. */
  function Advanced(stack: seq<Frame>): seq<Frame>
    requires stack != []
  {
    var last := |stack| - 1;
    stack[last := Frame(stack[last].node, stack[last].next + 1)]
  }

  /** A taken edge back to a node in progress closes a cycle along the stack. */
  lemma BackEdge(succ: Adjacency, marks: seq<Mark>, post: seq<nat>, stack: seq<Frame>, child: nat)
    requires Marked(succ, marks, post) && StackOk(succ, marks, post, stack) && stack != []
    requires child < |marks| && marks[child] == InProgress && HasEdge(succ, stack[|stack| - 1].node, child)
    ensures OnCycle(succ, child)
  {
    assert OnStack(stack, child);
    var at :| 0 <= at < |stack| && stack[at].node == child;
    var p := seq(|stack| - at, i requires 0 <= i < |stack| - at => stack[at + i].node) + [child];
    forall k | 0 <= k < |p| - 1
      ensures HasEdge(succ, p[k], p[k + 1])
    {
      if k < |p| - 2 {
        assert FrameOk(succ, post, stack, at + k);
        var f := stack[at + k];
        assert succ[f.node][f.next - 1].target == stack[at + k + 1].node;
      }
    }
    assert IsPath(succ, p) && p[0] == child;
  }

  /** The next edge leads to a finished node. */
  lemma SkipDone(succ: Adjacency, marks: seq<Mark>, post: seq<nat>, stack: seq<Frame>)
    requires Marked(succ, marks, post) && StackOk(succ, marks, post, stack) && stack != []
    requires var top := stack[|stack| - 1];
      top.node < |succ| && top.next < |succ[top.node]| && succ[top.node][top.next].target in post
    ensures StackOk(succ, marks, post, Advanced(stack))
  {
    var t := Advanced(stack);
    forall k | 0 <= k < |t|
      ensures FrameOk(succ, post, t, k)
    {
      assert FrameOk(succ, post, stack, k);
    }
    assert forall v :: OnStack(t, v) <==> OnStack(stack, v) by {
      assert forall k :: 0 <= k < |t| ==> t[k].node == stack[k].node;
    }
  }

  /** The next edge leads to an unvisited node, which goes on the stack. */
  lemma Descend(succ: Adjacency, marks: seq<Mark>, post: seq<nat>, stack: seq<Frame>, child: nat)
    requires Marked(succ, marks, post) && StackOk(succ, marks, post, stack) && stack != []
    requires child < |marks| && marks[child] == Unvisited
    requires var top := stack[|stack| - 1];
      top.node < |succ| && top.next < |succ[top.node]| && succ[top.node][top.next].target == child
    ensures Marked(succ, marks[child := InProgress], post)
    ensures StackOk(succ, marks[child := InProgress], post, Advanced(stack) + [Frame(child, 0)])
  {
    var t := Advanced(stack) + [Frame(child, 0)];
    assert forall k :: 0 <= k < |stack| ==> t[k].node == stack[k].node;
    assert !OnStack(stack, child);
    forall k | 0 <= k < |t|
      ensures FrameOk(succ, post, t, k)
    {
      if k < |stack| {
        assert FrameOk(succ, post, stack, k);
      }
    }
    forall v | 0 <= v < |marks|
      ensures OnStack(t, v) <==> v == child || OnStack(stack, v)
    {
      assert t[|stack|].node == child;
    }
  }

  /** The top frame has no edge left: its node is finished. */
  lemma Finish(succ: Adjacency, marks: seq<Mark>, post: seq<nat>, stack: seq<Frame>)
    requires Marked(succ, marks, post) && StackOk(succ, marks, post, stack) && stack != []
    requires var top := stack[|stack| - 1]; top.node < |succ| && top.next == |succ[top.node]|
    ensures var v := stack[|stack| - 1].node;
            && Marked(succ, marks[v := Done], post + [v])
            && StackOk(succ, marks[v := Done], post + [v], stack[..|stack| - 1])
  {
    var v := stack[|stack| - 1].node;
    var t, done := stack[..|stack| - 1], post + [v];
    assert FrameOk(succ, post, stack, |stack| - 1);
    assert OnStack(stack, v) && v !in post;
    forall k, e | 0 <= k < |done| && 0 <= e < |succ[done[k]]|
      ensures succ[done[k]][e].target in done[..k]
    {
      if k < |post| {
        assert done[..k] == post[..k];
      } else {
        assert done[..k] == post;
      }
    }
    forall k | 0 <= k < |t|
      ensures FrameOk(succ, done, t, k)
    {
      assert FrameOk(succ, post, stack, k);
      assert t[k] == stack[k];
      var f := t[k];
      forall e | 0 <= e < f.next - (if k < |t| - 1 then 1 else 0)
        ensures succ[f.node][e].target in done
      {
        if e < f.next - 1 {
          assert succ[f.node][e].target in post;
        }
      }
    }
    forall u | 0 <= u < |marks|
      ensures OnStack(stack, u) <==> u == v || OnStack(t, u)
    {
      if OnStack(stack, u) {
        var k :| 0 <= k < |stack| && stack[k].node == u;
        assert k < |t| ==> t[k].node == u;
      }
    }
    assert !OnStack(t, v);
  }

  function UnvisitedNodes(marks: seq<Mark>): set<nat> {
    set v | 0 <= v < |marks| && marks[v] == Unvisited
  }

  /** What `visit` updates: the marks and the post-order. */
  class Search {
    const succ: Adjacency
    var marks: seq<Mark>
    var postOrder: seq<nat>

    constructor (succ: Adjacency)
      requires InRange(succ)
      ensures this.succ == succ && Valid() && postOrder == []
    {
      this.succ := succ;
      marks := seq(|succ|, i => Unvisited);
      postOrder := [];
    }

    /** No visit is under way, and every finished node follows all it leads to. */
    ghost predicate Valid()
      reads this
    {
      Marked(succ, marks, postOrder) && forall v :: 0 <= v < |marks| ==> marks[v] != InProgress
    }

    /** Iterative search from `start`. It always ends: with `Some(v)`, `v` on a cycle, or with
        `start` and all it leads to finished. */
    method Visit(start: nat) returns (cycle: Option<nat>)
      requires Valid() && start < |succ|
      modifies this
      ensures cycle.Some? ==> OnCycle(succ, cycle.value) && cycle.value < |succ|
      ensures cycle.None? ==> Valid() && start in postOrder && old(postOrder) <= postOrder
    {
      if marks[start] == Done {
        return None;
      }
      marks := marks[start := InProgress];
      var stack := [Frame(start, 0)];
      assert stack[0].node == start;
      while stack != []
        invariant Marked(succ, marks, postOrder) && StackOk(succ, marks, postOrder, stack)
        invariant old(postOrder) <= postOrder
        invariant if stack == [] then start in postOrder else stack[0].node == start
        decreases UnvisitedNodes(marks), |stack|,
                  if stack == [] || stack[|stack| - 1].node >= |succ| then 0
                  else |succ[stack[|stack| - 1].node]| - stack[|stack| - 1].next
      {
        var top := stack[|stack| - 1];
        assert FrameOk(succ, postOrder, stack, |stack| - 1);
        if top.next < |succ[top.node]| {
          var child := succ[top.node][top.next].target;
          assert HasEdge(succ, top.node, child);
          match marks[child]
          case InProgress =>
            BackEdge(succ, marks, postOrder, stack, child);
            return Some(child);
          case Done =>
            SkipDone(succ, marks, postOrder, stack);
            stack := Advanced(stack);
          case Unvisited =>
            Descend(succ, marks, postOrder, stack, child);
            assert child in UnvisitedNodes(marks);
            marks := marks[child := InProgress];
            stack := Advanced(stack) + [Frame(child, 0)];
        } else {
          Finish(succ, marks, postOrder, stack);
          assert OnStack(stack, top.node);
          marks := marks[top.node := Done];
          postOrder := postOrder + [top.node];
          stack := stack[..|stack| - 1];
        }
      }
      return None;
    }
  }
}
