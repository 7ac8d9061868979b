/** The character trie of the benchmark: `TrieNode` and `Trie` with `insert`,
    `search` and the recursive `autocomplete` walk.

    Every node carries a ghost `path` (the lower-cased characters spelled from the
    root down to it) and the trie keeps a ghost index `nodeAt` from path to node.
    All nodes live in one footprint `Repr` owned by the trie, so an insertion only
    ever touches the node it extends and the node it creates. */
module Tries {
  import opened Strings

  datatype Option<T> = None | Some(value: T)

  /** No element occurs twice. */
  predicate NoDup<T(==)>(s: seq<T>) {
    forall i, j :: 0 <= i < j < |s| ==> s[i] != s[j]
  }

  lemma NoDupConcat<T>(a: seq<T>, b: seq<T>)
    requires NoDup(a) && NoDup(b)
    requires forall x :: x in a ==> x !in b
    ensures NoDup(a + b)
  {
    forall i, j | 0 <= i < j < |a + b| ensures (a + b)[i] != (a + b)[j] {
      if j < |a| {
      } else if i >= |a| {
        assert (a + b)[i] == b[i - |a|] && (a + b)[j] == b[j - |a|];
      } else {
        assert (a + b)[i] == a[i] && (a + b)[j] == b[j - |a|];
        assert a[i] in a;
      }
    }
  }

  lemma NoMembersEmpty<T>(s: seq<T>)
    requires forall x :: x !in s
    ensures s == []
  {
    if s != [] {
      HeadIsMember(s);
      assert false;
    }
  }

  lemma HeadIsMember<T>(s: seq<T>)
    ensures s != [] ==> s[0] in s
  {
  }

  lemma SnocInjective<T>(a: seq<T>, x: T, b: seq<T>, y: T)
    requires a + [x] == b + [y]
    ensures a == b && x == y
  {
    assert a == (a + [x])[..|a|];
    assert b == (b + [y])[..|b|];
    assert x == (a + [x])[|a|];
  }

  /** A one-character extension of `p` is a prefix of `w` exactly when `p` is a
      proper prefix of `w` followed by that character. */
  lemma ExtendPrefix(p: string, c: char, w: string)
    ensures p + [c] <= w <==> p < w && w[|p|] == c
  {
    if p < w && w[|p|] == c {
      assert w[..|p| + 1] == w[..|p|] + [w[|p|]];
    }
    if p + [c] <= w {
      assert w[..|p|] == (p + [c])[..|p|];
    }
  }

  lemma PrefixSnoc<T>(s: seq<T>, i: nat)
    requires i < |s|
    ensures s[..i + 1] == s[..i] + [s[i]]
  {
  }

  lemma NoDupTail<T>(s: seq<T>)
    requires NoDup(s) && s != []
    ensures NoDup(s[1..]) && s[0] !in s[1..]
  {
    forall i, j | 0 <= i < j < |s[1..]| ensures s[1..][i] != s[1..][j] {
      assert s[1..][i] == s[i + 1] && s[1..][j] == s[j + 1];
    }
    forall i | 0 <= i < |s[1..]| ensures s[1..][i] != s[0] {
      assert s[1..][i] == s[i + 1];
    }
  }

  /** The payload bookkeeping of `insert`: the payload list of `w` gets `x`
      appended, and is created when `w` is not a key yet. */
  function AddPayload<P>(m: map<string, seq<P>>, w: string, x: P): (r: map<string, seq<P>>)
    ensures r.Keys == m.Keys + {w}
    ensures r[w] == (if w in m then m[w] else []) + [x]
    ensures forall k :: k in m && k != w ==> r[k] == m[k]
  {
    if w in m then m[w := m[w] + [x]] else m[w := [x]]
  }

  /** `res.map(re => this.resultMap[re])`: the payload list of every found word, in order. */
  function Payloads<P>(m: map<string, seq<P>>, ws: seq<string>): (r: seq<seq<P>>)
    requires forall w :: w in ws ==> w in m
    ensures |r| == |ws| && forall i :: 0 <= i < |ws| ==> r[i] == m[ws[i]]
  {
    seq(|ws|, i requires 0 <= i < |ws| => m[ws[i]])
  }

  /** The prefixes of `w` of length at most `i`: the paths an insertion of `w` has
      created or passed through after `i` characters. */
  function Prefixes(w: string, i: nat): (r: set<string>)
    requires i <= |w|
    ensures forall s :: s in r <==> s <= w && |s| <= i
  {
    if i == 0 then {[]}
    else
      assert forall s :: s <= w && |s| == i ==> s == w[..i];
      Prefixes(w, i - 1) + {w[..i]}
  }

  /** `N1` is `N0` extended by the prefixes of `w` of length at most `i`, with the
      paths of `N0` still leading to the same nodes. */
  ghost predicate Grows<T>(N0: map<string, T>, N1: map<string, T>, w: string, i: nat)
    requires i <= |w|
  {
    N1.Keys == N0.Keys + Prefixes(w, i) && forall s :: s in N0 ==> N1[s] == N0[s]
  }

  lemma GrowsStep<T>(N0: map<string, T>, N1: map<string, T>, w: string, i: nat, x: T)
    requires i < |w| && Grows(N0, N1, w, i)
    requires w[..i + 1] in N1 ==> x == N1[w[..i + 1]]
    ensures Grows(N0, N1[w[..i + 1] := x], w, i + 1)
  {
  }

  class TrieNode {
    /** The character on the edge into this node; `None` for the root (JS `null`). */
    const data: Option<char>
    var isEnd: bool
    var children: map<char, TrieNode>
    /** The keys of `children` in insertion order, the order a JS `Map` iterates them in. */
    var keys: seq<char>
    /** The characters spelled from the root down to this node. */
    ghost const path: string

    constructor (data: Option<char>, ghost path: string)
      ensures this.data == data && this.path == path
      ensures !isEnd && children == map[] && keys == []
    {
      this.data := data;
      this.path := path;
      isEnd := false;
      children := map[];
      keys := [];
    }
  }

  class Trie<P> {
    var root: TrieNode
    /** Lower-cased word to the payloads inserted under it, in insertion order. */
    var resultMap: map<string, seq<P>>
    /** The node reached from the root by each path that exists in the tree. */
    ghost var nodeAt: map<string, TrieNode>
    ghost var Repr: set<TrieNode>
    /** An upper bound on the depth of the tree; it bounds the recursion of `Collect`. */
    ghost var height: nat

    /** `nodeAt` and `Repr` describe the same nodes: the node indexed by a path
        carries that path, and a node that is not the root is labelled with the
        last character of its path. */
    ghost predicate Indexed()
      reads this, Repr
    {
      && root in Repr && root.path == [] && root.data == None
      && (forall s {:trigger s in nodeAt} :: s in nodeAt ==> nodeAt[s] in Repr && nodeAt[s].path == s)
      && (forall n {:trigger n in Repr} :: n in Repr ==>
            && n.path in nodeAt && nodeAt[n.path] == n && |n.path| <= height
            && (n.path != [] ==> n.data == Some(n.path[|n.path| - 1])))
    }

    /** The paths form a prefix-closed set, and each one-character extension of a
        path that exists is a child edge. */
    ghost predicate PathsLinked()
      reads this, Repr
    {
      && (forall s, c {:trigger s + [c] in nodeAt} :: s + [c] in nodeAt ==> s in nodeAt)
      && (forall n, c {:trigger n.path + [c] in nodeAt} :: n in Repr && n.path + [c] in nodeAt ==>
            c in n.children)
    }

    /** Each child edge leads to a node of the footprint whose path extends its parent's. */
    ghost predicate ChildrenLinked()
      reads this, Repr
    {
      forall n, c {:trigger c in n.children} :: n in Repr && c in n.children ==>
        n.children[c] in Repr && n.children[c].path == n.path + [c]
    }

    /** Each node's ordered `keys` list its children, once each. */
    ghost predicate KeysListChildren()
      reads this, Repr
    {
      forall n {:trigger n in Repr} :: n in Repr ==>
        NoDup(n.keys) && forall c :: c in n.keys <==> c in n.children
    }

    /** The tree invariant. */
    ghost predicate Shape()
      reads this, Repr
    {
      Indexed() && PathsLinked() && ChildrenLinked() && KeysListChildren()
    }

    lemma ChildOf(n: TrieNode, c: char)
      requires Shape() && n in Repr && c in n.children
      ensures n.children[c] in Repr && n.children[c].path == n.path + [c]
      ensures |n.children[c].path| <= height
    {
    }

    /** The words whose path ends at a node marked `isEnd`. */
    ghost function Words(): set<string>
      reads this, Repr
      requires Shape()
    {
      set s | s in nodeAt && nodeAt[s].isEnd
    }

    /** The trie invariant: a terminal path exists exactly for the keys of `resultMap`. */
    ghost predicate Valid()
      reads this, Repr
    {
      Shape() && resultMap.Keys == Words()
    }

    constructor ()
      ensures Valid() && fresh(Repr)
      ensures resultMap == map[] && Words() == {}
    {
      var r := new TrieNode(None, []);
      root := r;
      resultMap := map[];
      nodeAt := map[[] := r];
      Repr := {r};
      height := 0;
    }

    /** Following child edges from `n` along `s`, one character at a time. */
    ghost function Walk(n: TrieNode, s: string): (r: Option<TrieNode>)
      reads this, Repr
      requires Shape() && n in Repr
      ensures r.Some? ==> r.value in Repr && r.value.path == n.path + s
      decreases |s|
    {
      if s == [] then
        assert n.path + s == n.path;
        Some(n)
      else if s[0] in n.children then
        ChildOf(n, s[0]);
        assert n.path + s == n.children[s[0]].path + s[1..];
        Walk(n.children[s[0]], s[1..])
      else None
    }

    /** Every prefix of an existing path exists. */
    lemma {:induction false} PrefixClosed(s: string, p: string)
      requires Shape() && s in nodeAt && p <= s
      ensures p in nodeAt
      decreases |s|
    {
      if p != s {
        var parent := s[..|s| - 1];
        assert s == parent + [s[|s| - 1]];
        assert p <= parent;
        PrefixClosed(parent, p);
      }
    }

    /** The walk along `s` from `n` succeeds exactly when the path `n.path + s`
        exists, and then ends at the node indexed by that path. */
    lemma {:induction false} WalkFollowsPaths(n: TrieNode, s: string)
      requires Shape() && n in Repr
      ensures Walk(n, s) == if n.path + s in nodeAt then Some(nodeAt[n.path + s]) else None
      decreases |s|
    {
      if s == [] {
        assert n.path + s == n.path;
      } else if s[0] in n.children {
        var child := n.children[s[0]];
        assert n.path + s == child.path + s[1..];
        WalkFollowsPaths(child, s[1..]);
      } else {
        assert (n.path + s)[..|n.path| + 1] == n.path + [s[0]];
        if n.path + s in nodeAt {
          PrefixClosed(n.path + s, n.path + [s[0]]);
          assert false;
        }
      }
    }

    /** The invariant read through the walk: walking `s` from the root ends at a
        node marked `isEnd` exactly when `s` is a key of `resultMap`. */
    lemma TerminalPathIffKey(s: string)
      requires Valid()
      ensures (Walk(root, s).Some? && Walk(root, s).value.isEnd) <==> s in resultMap
    {
      WalkFollowsPaths(root, s);
      assert root.path + s == s;
    }

    /** `autocomplete(node, res, prefix)`: a pre-order walk that emits
        `prefix + node.data` when the node ends a word and hands
        `prefix + node.data` on to each child, in the children's insertion order. */
    function Collect(n: TrieNode, prefix: string): seq<string>
      reads this, Repr
      requires Shape() && n in Repr && n.path != []
      decreases height - |n.path|, 1
    {
      var here := prefix + [n.data.value];
      (if n.isEnd then [here] else []) + CollectChildren(n, n.keys, here)
    }

    /** The loop of `autocomplete` over the children listed in `ks`. */
    function CollectChildren(n: TrieNode, ks: seq<char>, prefix: string): seq<string>
      reads this, Repr
      requires Shape() && n in Repr
      requires forall k :: k in ks ==> k in n.children
      decreases height - |n.path|, 0, |ks|
    {
      if ks == [] then []
      else
        assert ks[0] in ks;
        assert ks[0] in n.children;
        var child := n.children[ks[0]];
        assert child in Repr;
        assert child.path == n.path + [ks[0]];
        assert |child.path| <= height;
        Collect(child, prefix) + CollectChildren(n, ks[1..], prefix)
    }

    /** Called with the prefix `search` hands it (the node's path minus its last
        character), `Collect` emits every word of the subtree exactly once. */
    lemma {:induction false} CollectMembers(n: TrieNode)
      requires Shape() && n in Repr && n.path != []
      ensures var out := Collect(n, n.path[..|n.path| - 1]);
        && NoDup(out)
        && forall w :: w in out <==> w in nodeAt && nodeAt[w].isEnd && n.path <= w
      decreases height - |n.path|, 1
    {
      var pre := n.path[..|n.path| - 1];
      assert pre + [n.data.value] == n.path;
      ChildrenMembers(n, n.keys);
      var head: seq<string> := if n.isEnd then [n.path] else [];
      var rest := CollectChildren(n, n.keys, n.path);
      assert Collect(n, pre) == head + rest;
      NoDupConcat(head, rest);
      forall w | w in nodeAt && nodeAt[w].isEnd && n.path <= w
        ensures w in head + rest
      {
        if w == n.path {
          assert nodeAt[w] == n;
        } else {
          var c := w[|n.path|];
          assert w[..|n.path| + 1] == n.path + [c];
          PrefixClosed(w, n.path + [c]);
          assert c in n.keys;
        }
      }
    }

    /** The children loop emits, without repetition, the words strictly below `n`
        whose next character after `n.path` is one of `ks`. */
    lemma {:induction false} ChildrenMembers(n: TrieNode, ks: seq<char>)
      requires Shape() && n in Repr && NoDup(ks)
      requires forall k :: k in ks ==> k in n.children
      ensures var out := CollectChildren(n, ks, n.path);
        && NoDup(out)
        && forall w :: w in out <==>
             w in nodeAt && nodeAt[w].isEnd && n.path < w && w[|n.path|] in ks
      decreases height - |n.path|, 0, |ks|
    {
      if ks != [] {
        assert ks[0] in ks;
        var child := n.children[ks[0]];
        ChildOf(n, ks[0]);
        assert child.path[..|child.path| - 1] == n.path;
        CollectMembers(child);
        NoDupTail(ks);
        ChildrenMembers(n, ks[1..]);
        var a := Collect(child, n.path);
        var b := CollectChildren(n, ks[1..], n.path);
        assert CollectChildren(n, ks, n.path) == a + b;
        assert ks == [ks[0]] + ks[1..];
        forall w
          ensures w in a <==> w in nodeAt && nodeAt[w].isEnd && n.path < w && w[|n.path|] == ks[0]
        {
          ExtendPrefix(n.path, ks[0], w);
        }
        NoDupConcat(a, b);
      }
    }

    /** The words `search(query)` finds, in the order it finds them. */
    ghost function Found(query: string): seq<string>
      reads this, Repr
      requires Shape() && query != []
    {
      var w := LowerString(query);
      if w in nodeAt then Collect(nodeAt[w], w[..|w| - 1]) else []
    }

    /** `search` is prefix-bounded and complete: it finds each key of `resultMap`
        that starts with the lower-cased query, exactly once, and nothing else. */
    lemma FoundSpec(query: string)
      requires Valid() && query != []
      ensures NoDup(Found(query))
      ensures forall w :: w in Found(query) <==> w in resultMap && LowerString(query) <= w
    {
      var q := LowerString(query);
      if q in nodeAt {
        CollectMembers(nodeAt[q]);
      } else {
        forall w | w in resultMap && q <= w ensures false {
          PrefixClosed(w, q);
        }
      }
    }

    /** `search` lower-cases its query, so it cannot tell a query from its lower-cased form. */
    lemma SearchIgnoresCase(query: string)
      requires Shape() && query != []
      ensures Found(query) == Found(LowerString(query))
    {
      LowerStringIdempotent(query);
    }

    /** On a trie nothing was inserted into, every search comes back empty. */
    lemma EmptyTrieFindsNothing(query: string)
      requires Valid() && resultMap == map[] && query != []
      ensures Found(query) == []
    {
      FoundSpec(query);
      NoMembersEmpty(Found(query));
    }

    /** A word inserted before stays findable: searching for it finds it. */
    lemma SearchFindsKey(w: string)
      requires Valid() && w in resultMap && w != []
      ensures LowerString(w) == w ==> w in Found(w)
    {
      FoundSpec(w);
    }

    /** `search(word)`: walk the lower-cased query from the root, give up with `[]` at
        the first missing child, otherwise collect the words below the last node and
        look up their payload lists. */
    method Search(query: string) returns (r: seq<seq<P>>)
      requires Valid() && query != []
      ensures LowerString(query) !in nodeAt ==> r == []
      ensures NoDup(Found(query))
      ensures forall w :: w in Found(query) <==> w in resultMap && LowerString(query) <= w
      ensures |r| == |Found(query)|
      ensures forall i :: 0 <= i < |r| ==> r[i] == resultMap[Found(query)[i]]
    {
      FoundSpec(query);
      var w := LowerString(query);
      var node := root;
      var i := 0;
      while i < |w|
        invariant 0 <= i <= |w|
        invariant w[..i] in nodeAt && node == nodeAt[w[..i]]
      {
        if w[i] in node.children {
          assert w[..i + 1] == node.path + [w[i]];
          node := node.children[w[i]];
        } else {
          assert w[..i + 1] == node.path + [w[i]];
          if w in nodeAt {
            PrefixClosed(w, w[..i + 1]);
          }
          return [];
        }
        i := i + 1;
      }
      assert w[..i] == w;
      var found := Collect(node, w[..|w| - 1]);
      r := Payloads(resultMap, found);
    }

    /** Creates the child of `node` for `c`, appending `c` to its ordered keys. */
    method AddChild(node: TrieNode, c: char) returns (child: TrieNode)
      requires Shape() && node in Repr && c !in node.children && |node.path| < height
      modifies this, node
      ensures Shape() && fresh(child) && Repr == old(Repr) + {child}
      ensures child.path == node.path + [c] && !child.isEnd
      ensures nodeAt == old(nodeAt)[node.path + [c] := child]
      ensures node.children == old(node.children)[c := child]
      ensures node.keys == old(node.keys) + [c] && node.isEnd == old(node.isEnd)
      ensures root == old(root) && resultMap == old(resultMap) && height == old(height)
      ensures Words() == old(Words())
    {
      AroundFromShape(node);
      ghost var R, N, C, K, W := Repr, nodeAt, node.children, node.keys, Words();
      ghost var p := node.path + [c];
      assert p !in nodeAt;
      child := new TrieNode(Some(c), p);
      node.children := node.children[c := child];
      node.keys := node.keys + [c];
      nodeAt := nodeAt[p := child];
      Repr := Repr + {child};
      AttachKeepsShape(node, c, child, R, N, C, K, W);
    }

    /** The tree invariant as seen from outside `node`: it holds of the footprint `R`
        and the index `N`, with `C`, `K` and `E` standing for the children, the keys
        and the end mark of `node`, and `W` the words. It reads no field of `node`,
        so it survives an update of that node: a method records it before changing
        `node` and rebuilds `Shape()` from it afterwards, instead of re-proving the
        whole tree invariant over the changed heap. */
    ghost predicate ShapeAround(R: set<TrieNode>, N: map<string, TrieNode>, rt: TrieNode, h: nat,
                                node: TrieNode, C: map<char, TrieNode>, K: seq<char>, E: bool,
                                W: set<string>)
      reads R - {node}
    {
      && rt in R && rt.path == [] && rt.data == None && node in R
      && (forall s {:trigger s in N} :: s in N ==> N[s] in R && N[s].path == s)
      && (forall n {:trigger n in R} :: n in R ==>
            && n.path in N && N[n.path] == n && |n.path| <= h
            && (n.path != [] ==> n.data == Some(n.path[|n.path| - 1])))
      && (forall s, d {:trigger s + [d] in N} :: s + [d] in N ==> s in N)
      && (forall d :: node.path + [d] in N ==> d in C)
      && (forall n, d {:trigger n.path + [d] in N} :: n in R && n != node && n.path + [d] in N ==>
            d in n.children)
      && (forall d :: d in C ==> C[d] in R && C[d].path == node.path + [d])
      && (forall n, d {:trigger d in n.children} :: n in R && n != node && d in n.children ==>
            n.children[d] in R && n.children[d].path == n.path + [d])
      && NoDup(K) && (forall d :: d in K <==> d in C)
      && (forall n {:trigger n in R} :: n in R && n != node ==>
            NoDup(n.keys) && forall d :: d in n.keys <==> d in n.children)
      && (forall s {:trigger s in W} :: s in W <==> s in N && if N[s] == node then E else N[s].isEnd)
    }

    lemma AroundFromShape(node: TrieNode)
      requires Shape() && node in Repr
      ensures ShapeAround(Repr, nodeAt, root, height, node, node.children, node.keys, node.isEnd, Words())
    {
      forall d | node.path + [d] in nodeAt
        ensures d in node.children
      {
      }
    }

    lemma AroundToShape(node: TrieNode, h: nat, W: set<string>)
      requires ShapeAround(Repr, nodeAt, root, h, node, node.children, node.keys, node.isEnd, W) == true
      requires h <= height
      ensures Shape() && Words() == W
    {
      forall s
        ensures s in Words() <==> s in W
      {
      }
    }

    /** Marking `node` as the end of a word adds its path to the words. */
    lemma MarkAround(R: set<TrieNode>, N: map<string, TrieNode>, rt: TrieNode, h: nat,
                     node: TrieNode, C: map<char, TrieNode>, K: seq<char>, E: bool, W: set<string>)
      requires ShapeAround(R, N, rt, h, node, C, K, E, W)
      ensures ShapeAround(R, N, rt, h, node, C, K, true, W + {node.path})
    {
      forall s
        ensures s in W + {node.path} <==> s in N && if N[s] == node then true else N[s].isEnd
      {
        if s in N && N[s] == node {
          assert s == node.path;
        }
      }
    }

    /** One step of the insertion walk: the child of `node` for `c`, created when missing. */
    method Step(node: TrieNode, c: char) returns (next: TrieNode)
      requires Shape() && node in Repr && |node.path| < height
      modifies this, node
      ensures Shape() && next in Repr && next.path == node.path + [c]
      ensures Repr == old(Repr) + {next} && fresh(Repr - old(Repr))
      ensures nodeAt == old(nodeAt)[node.path + [c] := next]
      ensures node.path + [c] in old(nodeAt) ==> next == old(nodeAt[node.path + [c]])
      ensures root == old(root) && resultMap == old(resultMap) && height == old(height)
      ensures Words() == old(Words())
    {
      if c in node.children {
        next := node.children[c];
        ChildOf(node, c);
      } else {
        next := AddChild(node, c);
      }
    }

    /** Attaching a fresh, childless, non-terminal node under `node` keeps the tree
        invariant and the set of words. */
    lemma AttachKeepsShape(node: TrieNode, c: char, child: TrieNode,
                           R: set<TrieNode>, N: map<string, TrieNode>,
                           C: map<char, TrieNode>, K: seq<char>, W: set<string>)
      // written as an equation so that a caller discharges it through the frame
      // of `ShapeAround` instead of re-proving it conjunct by conjunct
      requires ShapeAround(R, N, root, height, node, C, K, node.isEnd, W) == true
      requires c !in C && |node.path| < height && child !in R
      requires child.path == node.path + [c] && child.data == Some(c)
      requires child.children == map[] && child.keys == [] && !child.isEnd
      requires Repr == R + {child} && nodeAt == N[node.path + [c] := child]
      requires node.children == C[c := child] && node.keys == K + [c]
      ensures Shape() && Words() == W
    {
      ghost var p := node.path + [c];
      assert p !in N;
      assert NoDup(node.keys) by {
        assert c !in K;
        NoDupConcat(K, [c]);
      }
      forall s | s in nodeAt
        ensures nodeAt[s] in Repr && nodeAt[s].path == s
      {
        if s != p {
          assert s in N;
        }
      }
      forall n | n in Repr
        ensures n.path in nodeAt && nodeAt[n.path] == n && |n.path| <= height
        ensures n.path != [] ==> n.data == Some(n.path[|n.path| - 1])
        ensures NoDup(n.keys) && forall d :: d in n.keys <==> d in n.children
      {
        if n != child {
          assert n in R && n.path in N;
        }
      }
      forall s, d | s + [d] in nodeAt
        ensures s in nodeAt
      {
        if s + [d] == p {
          SnocInjective(s, d, node.path, c);
        } else {
          assert s + [d] in N;
        }
      }
      forall n, d | n in Repr && n.path + [d] in nodeAt
        ensures d in n.children
      {
        if n.path + [d] == p {
          SnocInjective(n.path, d, node.path, c);
        } else if n != child {
          assert n in R && n.path + [d] in N;
        }
      }
      forall n, d | n in Repr && d in n.children
        ensures n.children[d] in Repr && n.children[d].path == n.path + [d]
      {
        if n != child && !(n == node && d == c) {
          assert n in R;
        }
      }
      forall s
        ensures s in Words() <==> s in W
      {
        if s in N {
          assert s != p;
        }
      }
    }

    /** `insert(word, result)`: record the payload under the lower-cased word, then
        walk the word from the root, creating missing children, and mark the last
        node as the end of a word. */
    method Insert(word: string, result: P)
      requires Valid()
      modifies this, Repr
      ensures Valid() && fresh(Repr - old(Repr)) && root == old(root)
      ensures resultMap == AddPayload(old(resultMap), LowerString(word), result)
      ensures Words() == old(Words()) + {LowerString(word)}
      ensures nodeAt.Keys == old(nodeAt.Keys) + Prefixes(LowerString(word), |word|)
      ensures forall s :: s in old(nodeAt) ==> nodeAt[s] == old(nodeAt[s])
      ensures Walk(root, LowerString(word)).Some? && Walk(root, LowerString(word)).value.isEnd
    {
      var w := LowerString(word);
      Record(w, result);
      var node := Descend(w);
      MarkEnd(node);
      WalkFollowsPaths(root, w);
      assert root.path + w == w;
    }

    /** The bookkeeping of `insert`: appends the payload under `w`, and raises the
        depth bound to the length of `w`. */
    method Record(w: string, result: P)
      requires Shape()
      modifies this
      ensures Shape() && |w| <= height && Words() == old(Words())
      ensures resultMap == AddPayload(old(resultMap), w, result)
      ensures root == old(root) && nodeAt == old(nodeAt) && Repr == old(Repr)
    {
      AroundFromShape(root);
      ghost var W, h := Words(), height;
      resultMap := AddPayload(resultMap, w, result);
      if height < |w| {
        height := |w|;
      }
      AroundToShape(root, h, W);
    }

    /** `node.isEnd = true`. */
    method MarkEnd(node: TrieNode)
      requires Shape() && node in Repr
      modifies node
      ensures Shape() && node.isEnd && Words() == old(Words()) + {node.path}
      ensures node.keys == old(node.keys) && node.children == old(node.children)
    {
      AroundFromShape(node);
      MarkAround(Repr, nodeAt, root, height, node, node.children, node.keys, node.isEnd, Words());
      ghost var W := Words();
      node.isEnd := true;
      AroundToShape(node, height, W + {node.path});
    }

    /** The loop of `insert`: walks `w` from the root, creating the missing nodes. */
    method Descend(w: string) returns (node: TrieNode)
      requires Shape() && |w| <= height
      modifies this, Repr
      ensures Shape() && node in Repr && node.path == w && fresh(Repr - old(Repr))
      ensures root == old(root) && resultMap == old(resultMap) && height == old(height)
      ensures Words() == old(Words())
      ensures Grows(old(nodeAt), nodeAt, w, |w|)
    {
      node := root;
      var i := 0;
      while i < |w|
        invariant 0 <= i <= |w|
        invariant Shape() && fresh(Repr - old(Repr))
        invariant root == old(root) && resultMap == old(resultMap) && height == old(height)
        invariant node in Repr && node.path == w[..i]
        invariant Words() == old(Words())
        invariant Grows(old(nodeAt), nodeAt, w, i)
      {
        PrefixSnoc(w, i);
        ghost var N := nodeAt;
        node := Step(node, w[i]);
        GrowsStep(old(nodeAt), N, w, i, node);
        i := i + 1;
      }
      assert w[..i] == w;
    }
  }
}
