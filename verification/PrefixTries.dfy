/** The prefix tree over the live cache keys: linked nodes that are walked, extended and
    unmarked in place. */
module PrefixTries {

  class TrieNode {
    var children: map<char, TrieNode>
    var key: string
    var isEnd: bool
    /** The characters on the way from the root to this node. */
    ghost const path: string

    constructor (ghost path: string)
      ensures children == map[] && key == "" && !isEnd && this.path == path
    {
      children, key, isEnd := map[], "", false;
      this.path := path;
    }
  }

  class PrefixTrie {
    const root: TrieNode
    /** The nodes by the path that leads to them. */
    ghost var nodes: map<string, TrieNode>
    /** The keys inserted and not removed since. */
    ghost var keys: set<string>

    ghost function Repr(): set<object>
      reads this
    {
      {this} + nodes.Values
    }

    /** Every node is reached from the root along its own path. */
    ghost predicate Shape()
      reads `nodes, nodes.Values`children
    {
      Rooted() && Edges() && Reached()
    }

    ghost predicate Rooted()
      reads `nodes
    {
      && "" in nodes && nodes[""] == root
      && (forall p {:trigger nodes[p]} | p in nodes :: nodes[p].path == p)
    }

    ghost predicate Edges()
      reads `nodes, nodes.Values`children
    {
      forall p, c {:trigger c in nodes[p].children} | p in nodes && c in nodes[p].children ::
        p + [c] in nodes && nodes[p + [c]] == nodes[p].children[c]
    }

    ghost predicate Reached()
      reads `nodes, nodes.Values`children
    {
      forall p, i {:trigger p[..i]} | p in nodes && 0 <= i < |p| ::
        p[..i] in nodes && p[i] in nodes[p[..i]].children
    }

    /** The end-marked nodes are exactly those of the keys, each carrying its own path as key. */
    ghost predicate Marks()
      reads `nodes, `keys, nodes.Values`isEnd, nodes.Values`key
    {
      && (forall p {:trigger nodes[p]} | p in nodes :: nodes[p].isEnd == (p in keys) && nodes[p].key == if p in keys then p else "")
      && (forall k | k in keys :: k in nodes && k != "")
    }

    ghost predicate Valid()
      reads this, nodes.Values
    {
      Shape() && Marks()
    }

    constructor ()
      ensures Valid() && fresh(Repr()) && keys == {}
    {
      root := new TrieNode("");
      new;
      nodes := map["" := root];
      keys := {};
    }

    /** One edge of a walk along `key`. */
    lemma Edge(key: string, i: nat)
      requires Shape() && i < |key| && key[..i] in nodes
      ensures key[i] in nodes[key[..i]].children ==>
                key[..i + 1] in nodes && nodes[key[..i + 1]] == nodes[key[..i]].children[key[i]]
      ensures key in nodes ==> key[i] in nodes[key[..i]].children
    {
      assert key[..i + 1] == key[..i] + [key[i]];
    }

    /** Hangs a new node below the node of `path`. */
    method Grow(ghost path: string, node: TrieNode, c: char) returns (next: TrieNode)
      requires Shape() && path in nodes && nodes[path] == node && c !in node.children
      modifies `nodes, node`children
      ensures Shape() && fresh(next) && !next.isEnd && next.key == ""
      ensures nodes == old(nodes)[path + [c] := next] && path + [c] !in old(nodes)
    {
      ghost var q := path + [c];
      assert q[..|path|] == path && q[|path|] == c;
      next := new TrieNode(q);
      node.children := node.children[c := next];
      nodes := nodes[q := next];
      assert Rooted() && Edges() by {
        hide Reached;
      }
      assert Reached() by {
        hide Edges;
        forall i | 0 <= i < |q|
          ensures q[..i] in nodes && q[i] in nodes[q[..i]].children
        {
          if i < |path| {
            assert q[..i] == path[..i] && q[i] == path[i];
          }
        }
      }
    }

    /** Grows the tree without changing its keys. */
    method GrowUnmarked(ghost path: string, node: TrieNode, c: char) returns (next: TrieNode)
      requires Valid() && path in nodes && nodes[path] == node && c !in node.children
      modifies `nodes, node`children
      ensures Valid() && fresh(next) && keys == old(keys)
      ensures nodes == old(nodes)[path + [c] := next]
    {
      hide Shape;
      next := Grow(path, node, c);
    }

    /** The node of `prefix`, if the tree has one. */
    method Descend(prefix: string) returns (found: bool, node: TrieNode)
      requires Valid()
      ensures found <==> prefix in nodes
      ensures found ==> nodes[prefix] == node
    {
      node := root;
      var i := 0;
      while i < |prefix|
        invariant 0 <= i <= |prefix|
        invariant prefix[..i] in nodes && nodes[prefix[..i]] == node
      {
        Edge(prefix, i);
        if prefix[i] !in node.children {
          return false, node;
        }
        node := node.children[prefix[i]];
        i := i + 1;
      }
      assert prefix[..i] == prefix;
      found := true;
    }

    lemma OnlyPath(path: string, node: TrieNode)
      requires Shape() && path in nodes && nodes[path] == node
      ensures forall p | p in nodes && nodes[p] == node :: p == path
    {
    }

    /** Sets or clears the end mark of the node of `key`. */
    method Mark(key: string, node: TrieNode, live: bool)
      requires Valid() && key != "" && key in nodes && nodes[key] == node
      modifies node`isEnd, node`key, `keys
      ensures Valid() && nodes == old(nodes)
      ensures keys == if live then old(keys) + {key} else old(keys) - {key}
    {
      OnlyPath(key, node);
      hide Shape;
      node.isEnd := live;
      node.key := if live then key else "";
      keys := if live then keys + {key} else keys - {key};
    }

    method Insert(key: string)
      requires Valid() && key != ""
      modifies Repr()
      ensures Valid() && fresh(Repr() - old(Repr()))
      ensures keys == old(keys) + {key}
    {
      hide Shape, Marks;
      var node, i := root, 0;
      assert key[..0] in nodes && nodes[key[..0]] == root by { RootPath(); }
      while i < |key|
        invariant 0 <= i <= |key| && Valid() && keys == old(keys)
        invariant key[..i] in nodes && nodes[key[..i]] == node
        invariant fresh(nodes.Values - old(nodes.Values))
        modifies `nodes, nodes.Values
      {
        Edge(key, i);
        assert key[..i + 1] == key[..i] + [key[i]];
        if key[i] in node.children {
          node := node.children[key[i]];
        } else {
          node := GrowUnmarked(key[..i], node, key[i]);
        }
        i := i + 1;
      }
      assert key[..i] == key;
      Mark(key, node, true);
    }

    method Remove(key: string)
      requires Valid() && key in keys
      modifies nodes.Values, `keys
      ensures Valid() && nodes == old(nodes)
      ensures keys == old(keys) - {key}
    {
      var found, node := Descend(key);
      Mark(key, node, false);
    }

    lemma RootPath()
      requires Shape()
      ensures forall key: string :: key[..0] in nodes && nodes[key[..0]] == root
    {
      assert forall key: string :: key[..0] == "";
    }

    /** The paths of the nodes at and below `path`. */
    ghost function Below(path: string): set<string>
      reads this
    {
      set q | q in nodes && path <= q
    }

    lemma ChildIsBelow(path: string, c: char)
      requires path in nodes
      ensures Below(path + [c]) < Below(path)
    {
      forall q | q in Below(path + [c])
        ensures q in Below(path)
      {
        assert path == (path + [c])[..|path|] == q[..|path|];
      }
      assert path in Below(path) && path !in Below(path + [c]);
    }

    /** A live key strictly below `path` continues along one of the children. */
    lemma LiveKeyContinues(path: string, k: string)
      requires Valid() && path in nodes && k in keys && path <= k && k != path
      ensures k[|path|] in nodes[path].children && path + [k[|path|]] <= k
    {
      assert k[..|path|] == path;
    }

    /** Depth-first search for a complete key; the order of the children is arbitrary. */
    method FindKey(node: TrieNode, ghost path: string) returns (key: string)
      requires Valid() && path in nodes && nodes[path] == node
      ensures key != "" ==> key in keys && path <= key
      ensures key == "" ==> forall k | k in keys :: !(path <= k)
      decreases Below(path)
    {
      if node.isEnd {
        return node.key;
      }
      var rest := node.children.Keys;
      while rest != {}
        invariant rest <= node.children.Keys
        invariant forall c, k | c in node.children.Keys - rest && k in keys :: !(path + [c] <= k)
      {
        var c :| c in rest;
        ChildIsBelow(path, c);
        key := FindKey(node.children[c], path + [c]);
        if key != "" {
          assert path == (path + [c])[..|path|] == key[..|path|];
          return;
        }
        rest := rest - {c};
      }
      key := "";
      forall k | k in keys
        ensures !(path <= k)
      {
        if path <= k {
          LiveKeyContinues(path, k);
        }
      }
    }

    lemma PrefixOfLiveKey(prefix: string, k: string)
      requires Valid() && k in keys && prefix <= k
      ensures prefix in nodes
    {
      assert k[..|prefix|] == prefix && (|prefix| == |k| ==> prefix == k);
    }

    /** Some live key that starts with `prefix`, or "" exactly when there is none. */
    method FindWithPrefix(prefix: string) returns (key: string)
      requires Valid()
      ensures key != "" ==> key in keys && prefix <= key
      ensures key == "" <==> forall k | k in keys :: !(prefix <= k)
    {
      hide Shape, Marks;
      forall k | k in keys && prefix <= k
        ensures prefix in nodes
      {
        PrefixOfLiveKey(prefix, k);
      }
      var found, node := Descend(prefix);
      if found {
        key := FindKey(node, prefix);
      } else {
        key := "";
      }
    }
  }
}
