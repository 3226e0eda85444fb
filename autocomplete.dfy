/**
 * `getAutocompleteSuggestions` (routes/search.js:52-70): a depth-first walk
 * below the trie node that `find` returns for the prefix, driven by an
 * explicit stack of `{node, prefix}` frames and stopped after five items.
 * The trie and its `find` belong to a library; `find` is a parameter here
 * and a node is a value with an optional ordered map of children. What the
 * walk outputs are the nodes themselves; the prefix it carries is never
 * returned.
 */
module Autocomplete {
  import opened Wrappers

  /**
   * A trie node: either it has no `children` property, or its children map
   * lists its entries in `entries()` order.
   */
  datatype TrieNode = NoChildren | WithChildren(entries: seq<Entry>)

  /** One `[key, child]` entry of a node's children map. */
  datatype Entry = Entry(key: char, child: TrieNode)

  /** One stack element `{node, prefix}`. */
  datatype Frame = Frame(node: TrieNode, prefix: string)

  const MaxSuggestions: nat := 5

  function ChildrenOf(n: TrieNode): seq<Entry>
  {
    if n.WithChildren? then n.entries else []
  }

  /** The number of nodes in the subtree rooted at `n`. */
  function Size(n: TrieNode): (r: nat)
    ensures r >= 1
    decreases n, |ChildrenOf(n)| + 1
  {
    1 + SizeAll(n, ChildrenOf(n))
  }

  /** The number of nodes in the subtrees of entries `es`, children of `parent`. */
  function SizeAll(parent: TrieNode, es: seq<Entry>): nat
    requires es <= ChildrenOf(parent)
    decreases parent, |es|
  {
    if es == [] then 0
    else
      assert parent.WithChildren? && es[|es| - 1] in parent.entries;
      SizeAll(parent, es[..|es| - 1]) + Size(es[|es| - 1].child)
  }

  /** The node reached from `n` by following child positions `path`, with the keys read on the way. */
  function Follow(n: TrieNode, path: seq<nat>): Option<(TrieNode, string)>
    decreases |path|
  {
    if path == [] then Some((n, ""))
    else if path[0] < |ChildrenOf(n)| then
      var e := ChildrenOf(n)[path[0]];
      match Follow(e.child, path[1..])
      case None => None
      case Some(r) => Some((r.0, [e.key] + r.1))
    else None
  }

  /** `m` is `root` or lies below it. */
  ghost predicate IsDescendant(root: TrieNode, m: TrieNode)
  {
    exists path :: Follow(root, path).Some? && Follow(root, path).value.0 == m
  }

  lemma {:induction false} FollowSnoc(n: TrieNode, path: seq<nat>, e: nat)
    requires Follow(n, path).Some?
    requires e < |ChildrenOf(Follow(n, path).value.0)|
    ensures var (m, keys) := Follow(n, path).value;
      Follow(n, path + [e]) == Some((ChildrenOf(m)[e].child, keys + [ChildrenOf(m)[e].key]))
    decreases |path|
  {
    if path == [] {
      assert path + [e] == [e];
      assert [e][1..] == [];
      var c := ChildrenOf(n)[e];
      assert Follow(c.child, []) == Some((c.child, ""));
      assert [c.key] + "" == "" + [c.key];
    } else {
      var c := ChildrenOf(n)[path[0]];
      var r := Follow(c.child, path[1..]).value;
      FollowSnoc(c.child, path[1..], e);
      assert (path + [e])[0] == path[0];
      assert (path + [e])[1..] == path[1..] + [e];
      assert Follow(n, path) == Some((r.0, [c.key] + r.1));
      assert [c.key] + (r.1 + [ChildrenOf(r.0)[e].key]) == ([c.key] + r.1) + [ChildrenOf(r.0)[e].key];
    }
  }

  /**
   * Frame `f` holds the node reached from `root` along child positions
   * `path`, and its prefix is the starting prefix extended by the keys read
   * along that path.
   */
  ghost predicate Reached(root: TrieNode, prefix: string, path: seq<nat>, f: Frame)
  {
    && |prefix| <= |f.prefix|
    && f.prefix[..|prefix|] == prefix
    && Follow(root, path) == Some((f.node, f.prefix[|prefix|..]))
  }

  lemma ReachedChild(root: TrieNode, prefix: string, path: seq<nat>, f: Frame, e: nat)
    requires Reached(root, prefix, path, f) && e < |ChildrenOf(f.node)|
    ensures Reached(root, prefix, path + [e], Frame(ChildrenOf(f.node)[e].child, f.prefix + [ChildrenOf(f.node)[e].key]))
    ensures IsDescendant(root, f.node)
  {
    FollowSnoc(root, path, e);
    var p' := f.prefix + [ChildrenOf(f.node)[e].key];
    assert p'[..|prefix|] == f.prefix[..|prefix|];
    assert p'[|prefix|..] == f.prefix[|prefix|..] + [ChildrenOf(f.node)[e].key];
  }

  lemma ReachedIsDescendant(root: TrieNode, prefix: string, path: seq<nat>, f: Frame)
    requires Reached(root, prefix, path, f)
    ensures IsDescendant(root, f.node)
  {
  }

  /** Each frame of the stack is reached along the path kept beside it. */
  ghost predicate AllReached(root: TrieNode, prefix: string, paths: seq<seq<nat>>, stack: seq<Frame>)
  {
    |paths| == |stack| && forall i :: 0 <= i < |stack| ==> Reached(root, prefix, paths[i], stack[i])
  }

  lemma AllReachedPop(root: TrieNode, prefix: string, paths: seq<seq<nat>>, stack: seq<Frame>)
    requires AllReached(root, prefix, paths, stack) && stack != []
    ensures AllReached(root, prefix, paths[..|paths| - 1], stack[..|stack| - 1])
    ensures Reached(root, prefix, paths[|paths| - 1], stack[|stack| - 1])
  {
  }

  lemma AllReachedConcat(root: TrieNode, prefix: string, ps: seq<seq<nat>>, fs: seq<Frame>,
                         ps': seq<seq<nat>>, fs': seq<Frame>)
    requires AllReached(root, prefix, ps, fs)
    requires |ps'| == |fs'| && forall i :: 0 <= i < |fs'| ==> Reached(root, prefix, ps'[i], fs'[i])
    ensures AllReached(root, prefix, ps + ps', fs + fs')
  {
    forall i | 0 <= i < |fs + fs'| ensures Reached(root, prefix, (ps + ps')[i], (fs + fs')[i]) {
      if i >= |fs| {
        assert (fs + fs')[i] == fs'[i - |fs|] && (ps + ps')[i] == ps'[i - |fs|];
      }
    }
  }

  /**
   * The order in which the stack walk visits the subtree of `n` when nothing
   * stops it: `n` itself, then the subtrees of its children from the last
   * entry to the first, since the last child pushed is the first popped.
   */
  function Walk(n: TrieNode): (r: seq<TrieNode>)
    ensures |r| == Size(n)
    decreases n, |ChildrenOf(n)| + 1
  {
    [n] + WalkAll(n, ChildrenOf(n))
  }

  /** The walks of the subtrees of entries `es`, children of `parent`, from the last entry to the first. */
  function WalkAll(parent: TrieNode, es: seq<Entry>): (r: seq<TrieNode>)
    requires es <= ChildrenOf(parent)
    ensures |r| == SizeAll(parent, es)
    decreases parent, |es|
  {
    if es == [] then []
    else
      assert parent.WithChildren? && es[|es| - 1] in parent.entries;
      Walk(es[|es| - 1].child) + WalkAll(parent, es[..|es| - 1])
  }

  /** The nodes still to be visited from a stack: the top frame's subtree first, the bottom frame's last. */
  function StackWalk(stack: seq<Frame>): seq<TrieNode>
  {
    if stack == [] then [] else Walk(stack[|stack| - 1].node) + StackWalk(stack[..|stack| - 1])
  }

  /** The frames the inner loop pushes for the children of `f`, in `entries()` order. */
  function ChildFrames(f: Frame): (r: seq<Frame>)
    ensures |r| == |ChildrenOf(f.node)|
  {
    var es := ChildrenOf(f.node);
    seq(|es|, e requires 0 <= e < |es| => Frame(es[e].child, f.prefix + [es[e].key]))
  }

  /** The paths of those frames. */
  function ChildPaths(path: seq<nat>, n: nat): (r: seq<seq<nat>>)
    ensures |r| == n && forall e :: 0 <= e < n ==> r[e] == path + [e]
  {
    seq(n, e requires 0 <= e < n => path + [e])
  }

  lemma ReachedChildren(root: TrieNode, prefix: string, path: seq<nat>, f: Frame)
    requires Reached(root, prefix, path, f)
    ensures forall e :: 0 <= e < |ChildFrames(f)| ==>
      Reached(root, prefix, ChildPaths(path, |ChildFrames(f)|)[e], ChildFrames(f)[e])
  {
    forall e | 0 <= e < |ChildFrames(f)|
      ensures Reached(root, prefix, ChildPaths(path, |ChildFrames(f)|)[e], ChildFrames(f)[e])
    {
      ReachedChild(root, prefix, path, f, e);
    }
  }

  lemma ChildFrameNode(f: Frame, e: nat)
    requires e < |ChildFrames(f)|
    ensures ChildFrames(f)[e].node == ChildrenOf(f.node)[e].child
  {
  }

  lemma AppendAssoc<T>(a: seq<T>, b: seq<T>, c: seq<T>)
    ensures a + (b + c) == (a + b) + c
  {
  }

  lemma AppendSlice<T>(rest: seq<T>, s: seq<T>, k: nat)
    requires k < |s|
    ensures rest + s[..k + 1] == (rest + s[..k]) + [s[k]]
  {
    assert s[..k + 1] == s[..k] + [s[k]];
  }

  lemma StackWalkPush(stack: seq<Frame>, f: Frame)
    ensures StackWalk(stack + [f]) == Walk(f.node) + StackWalk(stack)
  {
    assert (stack + [f])[..|stack|] == stack;
  }

  lemma WalkAllSnoc(parent: TrieNode, es: seq<Entry>, k: nat)
    requires k < |es| && es <= ChildrenOf(parent)
    ensures WalkAll(parent, es[..k + 1]) == Walk(es[k].child) + WalkAll(parent, es[..k])
  {
    assert es[..k + 1][..k] == es[..k];
  }

  lemma {:induction false} StackWalkChildren(rest: seq<Frame>, f: Frame, k: nat)
    requires k <= |ChildFrames(f)|
    ensures StackWalk(rest + ChildFrames(f)[..k]) == WalkAll(f.node, ChildrenOf(f.node)[..k]) + StackWalk(rest)
  {
    if k > 0 {
      var frames, es := ChildFrames(f), ChildrenOf(f.node);
      calc {
        StackWalk(rest + frames[..k]);
        { AppendSlice(rest, frames, k - 1); }
        StackWalk((rest + frames[..k - 1]) + [frames[k - 1]]);
        { StackWalkPush(rest + frames[..k - 1], frames[k - 1]); }
        Walk(frames[k - 1].node) + StackWalk(rest + frames[..k - 1]);
        { ChildFrameNode(f, k - 1); StackWalkChildren(rest, f, k - 1); }
        Walk(es[k - 1].child) + (WalkAll(f.node, es[..k - 1]) + StackWalk(rest));
        { AppendAssoc(Walk(es[k - 1].child), WalkAll(f.node, es[..k - 1]), StackWalk(rest)); }
        (Walk(es[k - 1].child) + WalkAll(f.node, es[..k - 1])) + StackWalk(rest);
        { WalkAllSnoc(f.node, es, k - 1); }
        WalkAll(f.node, es[..k]) + StackWalk(rest);
      }
    } else {
      assert rest + ChildFrames(f)[..0] == rest;
      assert ChildrenOf(f.node)[..0] == [];
    }
  }

  /** Popping the top frame visits its node, and its children's frames take its place. */
  lemma StackWalkPop(rest: seq<Frame>, top: Frame)
    ensures StackWalk(rest + [top]) == [top.node] + StackWalk(rest + ChildFrames(top))
  {
    StackWalkChildren(rest, top, |ChildFrames(top)|);
    assert ChildFrames(top)[..|ChildFrames(top)|] == ChildFrames(top);
    assert ChildrenOf(top.node)[..|ChildrenOf(top.node)|] == ChildrenOf(top.node);
    assert (rest + [top])[..|rest|] == rest;
  }

  /** The inner `for` loop of routes/search.js:62-64: one frame per child, pushed in `entries()` order. */
  method PushChildren(stack: seq<Frame>, top: Frame) returns (stack': seq<Frame>)
    ensures stack' == stack + ChildFrames(top)
  {
    stack' := stack;
    if top.node.WithChildren? {
      var entries := top.node.entries;
      for e := 0 to |entries|
        invariant stack' == stack + ChildFrames(top)[..e]
      {
        stack' := stack' + [Frame(entries[e].child, top.prefix + [entries[e].key])];
        assert ChildFrames(top)[..e + 1] == ChildFrames(top)[..e] + [ChildFrames(top)[e]];
      }
      assert ChildFrames(top)[..|entries|] == ChildFrames(top);
    } else {
      assert ChildFrames(top) == [];
    }
  }

  /** One pass of the loop keeps the visited nodes followed by the stack's walk equal to the whole walk. */
  lemma WalkStep(root: TrieNode, suggestions: seq<TrieNode>, rest: seq<Frame>, top: Frame)
    requires suggestions + StackWalk(rest + [top]) == Walk(root)
    ensures (suggestions + [top.node]) + StackWalk(rest + ChildFrames(top)) == Walk(root)
  {
    StackWalkPop(rest, top);
  }

  /** One pass of the loop keeps every frame reached from `root`, and the popped node lies below `root`. */
  lemma ReachedStep(root: TrieNode, prefix: string, paths: seq<seq<nat>>, stack: seq<Frame>)
    requires AllReached(root, prefix, paths, stack) && stack != []
    ensures IsDescendant(root, stack[|stack| - 1].node)
    ensures AllReached(root, prefix,
                       paths[..|paths| - 1] + ChildPaths(paths[|paths| - 1], |ChildFrames(stack[|stack| - 1])|),
                       stack[..|stack| - 1] + ChildFrames(stack[|stack| - 1]))
  {
    var top := stack[|stack| - 1];
    var topPath := paths[|paths| - 1];
    AllReachedPop(root, prefix, paths, stack);
    ReachedIsDescendant(root, prefix, topPath, top);
    ReachedChildren(root, prefix, topPath, top);
    AllReachedConcat(root, prefix, paths[..|paths| - 1], stack[..|stack| - 1],
                     ChildPaths(topPath, |ChildFrames(top)|), ChildFrames(top));
  }

  /** Every visited node lies below `root`. */
  ghost predicate AllBelow(root: TrieNode, visited: seq<TrieNode>)
  {
    forall k :: 0 <= k < |visited| ==> IsDescendant(root, visited[k])
  }

  lemma AllBelowSnoc(root: TrieNode, visited: seq<TrieNode>, m: TrieNode)
    requires AllBelow(root, visited) && IsDescendant(root, m)
    ensures AllBelow(root, visited + [m])
  {
  }

  /** The loop starts with the found node alone on the stack. */
  lemma WalkStart(root: TrieNode, prefix: string)
    ensures AllReached(root, prefix, [[]], [Frame(root, prefix)])
    ensures StackWalk([Frame(root, prefix)]) == Walk(root)
  {
    assert prefix[|prefix|..] == [] && prefix[..|prefix|] == prefix;
    assert Reached(root, prefix, [], Frame(root, prefix));
    assert [Frame(root, prefix)][..0] == [];
  }

  /** When the loop stops, the visited nodes are the first min(5, size) nodes of the walk. */
  lemma WalkStopped(root: TrieNode, suggestions: seq<TrieNode>, stack: seq<Frame>)
    requires suggestions + StackWalk(stack) == Walk(root)
    requires |suggestions| <= MaxSuggestions
    requires stack == [] || |suggestions| == MaxSuggestions
    ensures suggestions == Walk(root)[..Min(MaxSuggestions, Size(root))]
  {
    assert suggestions == Walk(root)[..|suggestions|];
  }

  /**
   * The `while` loop of routes/search.js:57-66 started on the found node
   * `root`: the first nodes of the walk below it, never more than five.
   */
  method WalkFrom(root: TrieNode, prefix: string) returns (suggestions: seq<TrieNode>)
    ensures suggestions == Walk(root)[..Min(MaxSuggestions, Size(root))]
    ensures forall k :: 0 <= k < |suggestions| ==> IsDescendant(root, suggestions[k])
  {
    suggestions := [];
    var stack := [Frame(root, prefix)];
    ghost var paths: seq<seq<nat>> := [[]];
    WalkStart(root, prefix);
    while |stack| > 0 && |suggestions| < MaxSuggestions
      invariant |suggestions| <= MaxSuggestions
      invariant suggestions + StackWalk(stack) == Walk(root)
      invariant AllReached(root, prefix, paths, stack)
      invariant AllBelow(root, suggestions)
      decreases MaxSuggestions - |suggestions|
    {
      var top := stack[|stack| - 1];
      var rest := stack[..|stack| - 1];
      assert stack == rest + [top];
      ReachedStep(root, prefix, paths, stack);
      WalkStep(root, suggestions, rest, top);
      AllBelowSnoc(root, suggestions, top.node);
      suggestions := suggestions + [top.node];
      paths := paths[..|paths| - 1] + ChildPaths(paths[|paths| - 1], |ChildFrames(top)|);
      stack := PushChildren(rest, top);
    }
    WalkStopped(root, suggestions, stack);
  }

  /**
   * Returns no item when the prefix is not found; otherwise the found node
   * first, then the next nodes of the walk below it, as many as the subtree
   * has but never more than five.
   */
  method GetAutocompleteSuggestions(find: string -> Option<TrieNode>, prefix: string)
    returns (suggestions: seq<TrieNode>)
    ensures find(prefix).None? ==> suggestions == []
    ensures find(prefix).Some? ==>
      |suggestions| == Min(MaxSuggestions, Size(find(prefix).value)) && suggestions[0] == find(prefix).value
    ensures find(prefix).Some? ==>
      forall k :: 0 <= k < |suggestions| ==> IsDescendant(find(prefix).value, suggestions[k])
    ensures find(prefix).Some? ==>
      suggestions == Walk(find(prefix).value)[..Min(MaxSuggestions, Size(find(prefix).value))]
  {
    suggestions := [];
    var node := find(prefix);
    if node.Some? {
      suggestions := WalkFrom(node.value, prefix);
    }
  }
}
