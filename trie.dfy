/** The command trie of console.c: `trie_init`, `trie_insert`, `trie_find`
    and `trie_collect`.

    Nodes live in an arena `seq<TrieNode>`. Index 0 is `trie_root`, a child
    slot holding 0 is a null child (the root is never anybody's child), and
    a node that `trie_insert` allocates is appended at the end of the arena,
    so a child always has a larger index than its parent. */
module Trie {
  import opened Bytes

  datatype TrieNode = TrieNode(children: seq<nat>, isEnd: bool, command: seq<byte>)

  /** A node as `memset(node, 0, sizeof(TrieNode))` leaves it. */
  function EmptyNode(): TrieNode {
    TrieNode(seq(TRIE_CHILDREN, _ => 0), false, [])
  }

  /** The arena has a root, every node has 128 child slots, and every
      non-null child is a later node of the arena. */
  predicate WellFormed(nodes: seq<TrieNode>) {
    && |nodes| > 0
    && (forall i :: 0 <= i < |nodes| ==> |nodes[i].children| == TRIE_CHILDREN)
    && (forall i, b :: 0 <= i < |nodes| && 0 <= b < |nodes[i].children| ==>
          nodes[i].children[b] == 0 || i < nodes[i].children[b] < |nodes|)
  }

  /** `trie_find` started at node `i`: follow one child per byte of `p`,
      giving up at the first null child. */
  function FindFrom(nodes: seq<TrieNode>, i: nat, p: seq<byte>): (r: Option<nat>)
    requires WellFormed(nodes) && i < |nodes| && IsName(p)
    ensures r.Some? ==> i <= r.value < |nodes| && (r.value == i <==> p == [])
    decreases |p|
  {
    if p == [] then Some(i)
    else
      var c := nodes[i].children[p[0] as int];
      if c == 0 then None else FindFrom(nodes, c, p[1..])
  }

  /** The terminal nodes of the subtree at `i`, in the order in which
      `trie_collect` visits them: the node itself, then its children's
      subtrees in slot order. */
  function Ends(nodes: seq<TrieNode>, i: nat): (s: seq<nat>)
    requires WellFormed(nodes) && i < |nodes|
    ensures forall k :: 0 <= k < |s| ==> i <= s[k] < |nodes| && nodes[s[k]].isEnd
    ensures forall j :: j in s ==> i <= j < |nodes| && nodes[j].isEnd
    decreases |nodes| - i, 1, 0
  {
    (if nodes[i].isEnd then [i] else []) + EndsFrom(nodes, i, 0)
  }

  /** The terminal nodes below child slots `k..127` of node `i`. */
  function EndsFrom(nodes: seq<TrieNode>, i: nat, k: nat): (s: seq<nat>)
    requires WellFormed(nodes) && i < |nodes| && k <= TRIE_CHILDREN
    ensures forall k :: 0 <= k < |s| ==> i < s[k] < |nodes| && nodes[s[k]].isEnd
    ensures forall j :: j in s ==> i < j < |nodes| && nodes[j].isEnd
    decreases |nodes| - i, 0, TRIE_CHILDREN - k
  {
    if k == TRIE_CHILDREN then []
    else
      var c := nodes[i].children[k];
      (if c == 0 then [] else Ends(nodes, c)) + EndsFrom(nodes, i, k + 1)
  }

  /** The `found` counter and the `result` buffer of `trie_collect`. */
  datatype Found = Found(count: nat, result: seq<byte>)

  /** `trie_collect(node, result, &found)`: a depth-first walk that stops
      descending once two terminals have been counted, and copies the
      command of every terminal it counts into `result`. The counter only
      grows and never passes 2 from below, and `result` changes only when a
      terminal is counted. */
  function Collect(nodes: seq<TrieNode>, i: nat, st: Found): (r: Found)
    requires WellFormed(nodes) && i < |nodes|
    ensures st.count <= r.count && (st.count <= 2 ==> r.count <= 2)
    ensures r.count == st.count || st.count > 1 ==> r == st
    decreases |nodes| - i, 1, 0
  {
    if st.count > 1 then st
    else
      var st' := if nodes[i].isEnd then Found(st.count + 1, SafeCopy(nodes[i].command)) else st;
      CollectChildren(nodes, i, 0, st')
  }

  /** The `for` loop of `trie_collect` over child slots `k..127`. */
  function CollectChildren(nodes: seq<TrieNode>, i: nat, k: nat, st: Found): (r: Found)
    requires WellFormed(nodes) && i < |nodes| && k <= TRIE_CHILDREN
    ensures st.count <= r.count && (st.count <= 2 ==> r.count <= 2)
    ensures r.count == st.count || st.count > 1 ==> r == st
    decreases |nodes| - i, 0, TRIE_CHILDREN - k
  {
    if k == TRIE_CHILDREN then st
    else
      var c := nodes[i].children[k];
      CollectChildren(nodes, i, k + 1, if c == 0 then st else Collect(nodes, c, st))
  }

  /** The effect on the counter of meeting the terminals `ends` in order. */
  function Absorb(nodes: seq<TrieNode>, st: Found, ends: seq<nat>): Found
    requires forall k :: 0 <= k < |ends| ==> ends[k] < |nodes|
    decreases |ends|
  {
    if ends == [] || st.count > 1 then st
    else Absorb(nodes, Found(st.count + 1, SafeCopy(nodes[ends[0]].command)), ends[1..])
  }

  lemma {:induction false} AbsorbAppend(nodes: seq<TrieNode>, st: Found, a: seq<nat>, b: seq<nat>)
    requires forall k :: 0 <= k < |a| ==> a[k] < |nodes|
    requires forall k :: 0 <= k < |b| ==> b[k] < |nodes|
    ensures Absorb(nodes, st, a + b) == Absorb(nodes, Absorb(nodes, st, a), b)
    decreases |a|
  {
    if a == [] {
      assert a + b == b;
    } else if st.count > 1 {
    } else {
      assert (a + b)[0] == a[0];
      assert (a + b)[1..] == a[1..] + b;
      AbsorbAppend(nodes, Found(st.count + 1, SafeCopy(nodes[a[0]].command)), a[1..], b);
    }
  }

  /** `trie_collect` treats the terminals of a subtree one after the other,
      in the order `Ends` lists them. */
  lemma {:induction false} CollectAbsorb(nodes: seq<TrieNode>, i: nat, st: Found)
    requires WellFormed(nodes) && i < |nodes|
    ensures Collect(nodes, i, st) == Absorb(nodes, st, Ends(nodes, i))
    decreases |nodes| - i, 1, 0
  {
    if st.count <= 1 {
      var head: seq<nat> := if nodes[i].isEnd then [i] else [];
      var st' := if nodes[i].isEnd then Found(st.count + 1, SafeCopy(nodes[i].command)) else st;
      assert Absorb(nodes, st, head) == st' by {
        if nodes[i].isEnd {
          assert head[1..] == [];
        }
      }
      CollectChildrenAbsorb(nodes, i, 0, st');
      AbsorbAppend(nodes, st, head, EndsFrom(nodes, i, 0));
    }
  }

  lemma {:induction false} CollectChildrenAbsorb(nodes: seq<TrieNode>, i: nat, k: nat, st: Found)
    requires WellFormed(nodes) && i < |nodes| && k <= TRIE_CHILDREN
    ensures CollectChildren(nodes, i, k, st) == Absorb(nodes, st, EndsFrom(nodes, i, k))
    decreases |nodes| - i, 0, TRIE_CHILDREN - k
  {
    if k < TRIE_CHILDREN {
      var c := nodes[i].children[k];
      var below: seq<nat> := if c == 0 then [] else Ends(nodes, c);
      var st1 := if c == 0 then st else Collect(nodes, c, st);
      if c != 0 {
        CollectAbsorb(nodes, c, st);
      }
      CollectChildrenAbsorb(nodes, i, k + 1, st1);
      assert CollectChildren(nodes, i, k, st) == CollectChildren(nodes, i, k + 1, st1);
      assert EndsFrom(nodes, i, k) == below + EndsFrom(nodes, i, k + 1);
      AbsorbAppend(nodes, st, below, EndsFrom(nodes, i, k + 1));
    }
  }

  /** Started from zero, the counter saturates at two, and a count of one
      leaves the command of the single terminal in `result`. */
  lemma AbsorbFromZero(nodes: seq<TrieNode>, r: seq<byte>, ends: seq<nat>)
    requires forall k :: 0 <= k < |ends| ==> ends[k] < |nodes|
    ensures var st := Absorb(nodes, Found(0, r), ends);
      && st.count == (if |ends| < 2 then |ends| else 2)
      && (|ends| == 1 ==> st.result == SafeCopy(nodes[ends[0]].command))
  {
    if ends != [] {
      var st1 := Found(1, SafeCopy(nodes[ends[0]].command));
      assert Absorb(nodes, Found(0, r), ends) == Absorb(nodes, st1, ends[1..]);
      if ends[1..] != [] {
        var st2 := Found(2, SafeCopy(nodes[ends[1..][0]].command));
        assert Absorb(nodes, st1, ends[1..]) == Absorb(nodes, st2, ends[2..]);
      }
    }
  }

  /** `trie_collect` started with `found = 0`: the count is 0, 1 or 2 as the
      subtree holds no terminal, exactly one, or at least two, and with
      exactly one, `result` holds that terminal's command. */
  lemma CollectSaturates(nodes: seq<TrieNode>, i: nat, r: seq<byte>)
    requires WellFormed(nodes) && i < |nodes|
    ensures var st := Collect(nodes, i, Found(0, r)); var ends := Ends(nodes, i);
      && st.count <= 2
      && (st.count == 0 <==> |ends| == 0)
      && (st.count == 1 <==> |ends| == 1)
      && (st.count == 2 <==> |ends| >= 2)
      && (|ends| == 1 ==> st.result == SafeCopy(nodes[ends[0]].command))
  {
    CollectAbsorb(nodes, i, Found(0, r));
    AbsorbFromZero(nodes, r, Ends(nodes, i));
  }

  /** Looking up `p + q` is looking up `p`, then `q` from where `p` led. */
  lemma {:induction false} FindSplit(nodes: seq<TrieNode>, i: nat, p: seq<byte>, q: seq<byte>)
    requires WellFormed(nodes) && i < |nodes| && IsName(p) && IsName(q)
    ensures IsName(p + q)
    ensures FindFrom(nodes, i, p + q) ==
      match FindFrom(nodes, i, p)
      case None => None
      case Some(j) => FindFrom(nodes, j, q)
    decreases |p|
  {
    assert IsName(p + q) by {
      forall k | 0 <= k < |p + q| ensures 0 < (p + q)[k] as int < TRIE_CHILDREN {
        if k < |p| { assert (p + q)[k] == p[k]; } else { assert (p + q)[k] == q[k - |p|]; }
      }
    }
    if p == [] {
      assert p + q == q;
    } else {
      assert (p + q)[0] == p[0];
      assert (p + q)[1..] == p[1..] + q;
      var c := nodes[i].children[p[0] as int];
      if c != 0 {
        FindSplit(nodes, c, p[1..], q);
      }
    }
  }

  /** Every child slot at or after `k` contributes its whole subtree. */
  lemma {:induction false} EndsFromHas(nodes: seq<TrieNode>, i: nat, k: nat, b: nat, j: nat)
    requires WellFormed(nodes) && i < |nodes| && k <= b < TRIE_CHILDREN
    requires nodes[i].children[b] != 0 && j in Ends(nodes, nodes[i].children[b])
    ensures j in EndsFrom(nodes, i, k)
    decreases TRIE_CHILDREN - k
  {
    var c := nodes[i].children[k];
    var below: seq<nat> := if c == 0 then [] else Ends(nodes, c);
    assert EndsFrom(nodes, i, k) == below + EndsFrom(nodes, i, k + 1);
    if k < b {
      EndsFromHas(nodes, i, k + 1, b, j);
    } else {
      assert j in below;
    }
  }

  /** A terminal that a lookup from `i` reaches is one `trie_collect` from
      `i` counts. */
  lemma {:induction false} FindReachesEnds(nodes: seq<TrieNode>, i: nat, q: seq<byte>)
    requires WellFormed(nodes) && i < |nodes| && IsName(q)
    requires FindFrom(nodes, i, q).Some? && nodes[FindFrom(nodes, i, q).value].isEnd
    ensures FindFrom(nodes, i, q).value in Ends(nodes, i)
    decreases |q|
  {
    var j := FindFrom(nodes, i, q).value;
    if q != [] {
      var b := q[0] as int;
      var c := nodes[i].children[b];
      FindReachesEnds(nodes, c, q[1..]);
      EndsFromHas(nodes, i, 0, b, j);
    }
  }

  /** The byte string that leads from the root to every node: `paths[0]` is
      empty and a child's path is its parent's path plus the slot's byte. */
  predicate Shaped(nodes: seq<TrieNode>, paths: seq<seq<byte>>)
    requires WellFormed(nodes)
  {
    && |paths| == |nodes|
    && paths[0] == []
    && forall i, b :: 0 <= i < |nodes| && 0 <= b < TRIE_CHILDREN && nodes[i].children[b] != 0 ==>
         paths[nodes[i].children[b]] == paths[i] + [b as char]
  }

  /** A lookup from `i` spells out the path of the node it reaches. */
  lemma {:induction false} FindPath(nodes: seq<TrieNode>, paths: seq<seq<byte>>, i: nat, q: seq<byte>)
    requires WellFormed(nodes) && Shaped(nodes, paths) && i < |nodes| && IsName(q)
    requires FindFrom(nodes, i, q).Some?
    ensures paths[FindFrom(nodes, i, q).value] == paths[i] + q
    decreases |q|
  {
    if q == [] {
      assert paths[i] + q == paths[i];
    } else {
      var b := q[0] as int;
      var c := nodes[i].children[b];
      assert (b as char) == q[0];
      FindPath(nodes, paths, c, q[1..]);
      assert paths[i] + q == paths[i] + [q[0]] + q[1..];
    }
  }

  lemma {:induction false} PrefixTrans(a: seq<byte>, b: seq<byte>, c: seq<byte>)
    requires IsPrefix(a, b) && IsPrefix(b, c)
    ensures IsPrefix(a, c)
  {
    assert c[..|a|] == c[..|b|][..|a|];
  }

  /** Every terminal below `i` lies on a path that extends `i`'s path. */
  lemma {:induction false} EndsExtendPath(nodes: seq<TrieNode>, paths: seq<seq<byte>>, i: nat, j: nat)
    requires WellFormed(nodes) && Shaped(nodes, paths) && i < |nodes| && j in Ends(nodes, i)
    ensures IsPrefix(paths[i], paths[j])
    decreases |nodes| - i, 1, 0
  {
    if j != i {
      EndsFromExtendPath(nodes, paths, i, 0, j);
    }
  }

  lemma {:induction false} EndsFromExtendPath(nodes: seq<TrieNode>, paths: seq<seq<byte>>, i: nat, k: nat, j: nat)
    requires WellFormed(nodes) && Shaped(nodes, paths) && i < |nodes| && k <= TRIE_CHILDREN
    requires j in EndsFrom(nodes, i, k)
    ensures IsPrefix(paths[i], paths[j])
    decreases |nodes| - i, 0, TRIE_CHILDREN - k
  {
    var c := nodes[i].children[k];
    if c != 0 && j in Ends(nodes, c) {
      EndsExtendPath(nodes, paths, c, j);
      assert IsPrefix(paths[i], paths[c]) by {
        assert paths[c] == paths[i] + [k as char];
      }
      PrefixTrans(paths[i], paths[c], paths[j]);
    } else {
      EndsFromExtendPath(nodes, paths, i, k + 1, j);
    }
  }

  /** Looking `n` up from the root ends at a terminal node. */
  predicate Marked(nodes: seq<TrieNode>, n: seq<byte>)
    requires WellFormed(nodes) && IsName(n)
  {
    var f := FindFrom(nodes, 0, n);
    f.Some? && nodes[f.value].isEnd
  }

  /** What the trie holds after inserting the names `names`. `owner[i]` is
      the inserted name whose insertion allocated node `i`. */
  predicate Consistent(nodes: seq<TrieNode>, paths: seq<seq<byte>>, owner: seq<seq<byte>>,
                       names: set<seq<byte>>)
  {
    && WellFormed(nodes)
    && Shaped(nodes, paths)
    && |owner| == |nodes|
    && (forall i :: 0 < i < |nodes| ==> owner[i] in names && IsPrefix(paths[i], owner[i]))
    && (forall i :: 0 <= i < |nodes| && nodes[i].isEnd ==>
          paths[i] in names && nodes[i].command == SafeCopy(paths[i]))
    && (forall n :: n in names ==> IsName(n) && Marked(nodes, n))
  }

  /** Round trip: an inserted name leads to a terminal node holding the name
      as `safestrcpy` copied it. */
  lemma NameFound(nodes: seq<TrieNode>, paths: seq<seq<byte>>, owner: seq<seq<byte>>,
                  names: set<seq<byte>>, n: seq<byte>)
    requires Consistent(nodes, paths, owner, names) && n in names
    ensures IsName(n)
    ensures var f := FindFrom(nodes, 0, n);
      f.Some? && nodes[f.value].isEnd && nodes[f.value].command == SafeCopy(n)
  {
    FindPath(nodes, paths, 0, n);
    assert paths[0] + n == n;
  }

  /** The bytes of a name after its prefix `p` are a name as well. */
  lemma SplitName(p: seq<byte>, n: seq<byte>)
    requires IsName(n) && IsPrefix(p, n)
    ensures IsName(n[|p|..]) && n == p + n[|p|..]
  {
    var q := n[|p|..];
    forall k | 0 <= k < |q| ensures 0 < q[k] as int < TRIE_CHILDREN {
      assert q[k] == n[|p| + k];
    }
  }

  /** Every prefix of a marked name has a node, and that node has the
      name's terminal below it. */
  lemma PrefixOfMarked(nodes: seq<TrieNode>, p: seq<byte>, n: seq<byte>)
    requires WellFormed(nodes) && IsName(p) && IsName(n) && IsPrefix(p, n) && Marked(nodes, n)
    ensures FindFrom(nodes, 0, p).Some?
    ensures |Ends(nodes, FindFrom(nodes, 0, p).value)| > 0
  {
    SplitName(p, n);
    var q := n[|p|..];
    FindSplit(nodes, 0, p, q);
    FindReachesEnds(nodes, FindFrom(nodes, 0, p).value, q);
  }

  /** A non-empty prefix has a node exactly when some inserted name starts
      with it. */
  lemma FoundIffPrefix(nodes: seq<TrieNode>, paths: seq<seq<byte>>, owner: seq<seq<byte>>,
                       names: set<seq<byte>>, p: seq<byte>)
    requires Consistent(nodes, paths, owner, names) && IsName(p) && p != []
    ensures FindFrom(nodes, 0, p).Some? <==> exists n :: n in names && IsPrefix(p, n)
  {
    if FindFrom(nodes, 0, p).Some? {
      var i := FindFrom(nodes, 0, p).value;
      FindPath(nodes, paths, 0, p);
      assert paths[0] + p == p;
      assert owner[i] in names && IsPrefix(p, owner[i]);
    }
    if n :| n in names && IsPrefix(p, n) {
      PrefixOfMarked(nodes, p, n);
    }
  }

  /** The node of a non-empty prefix always has a terminal below it, so the
      "no matches" branch of `autocomplete` cannot be reached. */
  lemma SubtreeHasEnd(nodes: seq<TrieNode>, paths: seq<seq<byte>>, owner: seq<seq<byte>>,
                      names: set<seq<byte>>, p: seq<byte>)
    requires Consistent(nodes, paths, owner, names) && IsName(p) && p != []
    requires FindFrom(nodes, 0, p).Some?
    ensures |Ends(nodes, FindFrom(nodes, 0, p).value)| > 0
  {
    var i := FindFrom(nodes, 0, p).value;
    FindPath(nodes, paths, 0, p);
    assert paths[0] + p == p;
    PrefixOfMarked(nodes, p, owner[i]);
  }

  /** Every terminal below the node of `p` holds a registered name that
      starts with `p`. */
  lemma EndsAreCompletions(nodes: seq<TrieNode>, paths: seq<seq<byte>>, owner: seq<seq<byte>>,
                           names: set<seq<byte>>, p: seq<byte>, j: nat)
    requires Consistent(nodes, paths, owner, names) && IsName(p)
    requires FindFrom(nodes, 0, p).Some? && j in Ends(nodes, FindFrom(nodes, 0, p).value)
    ensures paths[j] in names && IsPrefix(p, paths[j]) && nodes[j].command == SafeCopy(paths[j])
  {
    FindPath(nodes, paths, 0, p);
    assert paths[0] + p == p;
    EndsExtendPath(nodes, paths, FindFrom(nodes, 0, p).value, j);
  }

  /** `b` only adds to `a`: new nodes at the end, null slots filled, and
      terminals kept with their commands. */
  predicate Extends(a: seq<TrieNode>, b: seq<TrieNode>) {
    && |a| <= |b|
    && forall i :: 0 <= i < |a| ==>
         && |b[i].children| == |a[i].children|
         && (a[i].isEnd ==> b[i].isEnd && b[i].command == a[i].command)
         && (forall k :: 0 <= k < |a[i].children| && a[i].children[k] != 0 ==>
               b[i].children[k] == a[i].children[k])
  }

  lemma ExtendsTrans(a: seq<TrieNode>, b: seq<TrieNode>, c: seq<TrieNode>)
    requires Extends(a, b) && Extends(b, c)
    ensures Extends(a, c)
  {
  }

  /** Growing the trie never loses a lookup. */
  lemma {:induction false} ExtendsFind(a: seq<TrieNode>, b: seq<TrieNode>, i: nat, p: seq<byte>)
    requires WellFormed(a) && WellFormed(b) && Extends(a, b) && i < |a| && IsName(p)
    requires FindFrom(a, i, p).Some?
    ensures FindFrom(b, i, p) == FindFrom(a, i, p)
    decreases |p|
  {
    if p != [] {
      ExtendsFind(a, b, a[i].children[p[0] as int], p[1..]);
    }
  }

  /** Inserting never removes a name: every name marked in `a` stays marked. */
  lemma ExtendsMarked(a: seq<TrieNode>, b: seq<TrieNode>, names: set<seq<byte>>)
    requires WellFormed(a) && WellFormed(b) && Extends(a, b)
    requires forall n :: n in names ==> IsName(n) && Marked(a, n)
    ensures forall n :: n in names ==> IsName(n) && Marked(b, n)
  {
    forall n | n in names ensures Marked(b, n) {
      ExtendsFind(a, b, 0, n);
    }
  }

  /** Node `at` gets a fresh, empty child in slot `b`. */
  function Grow(nodes: seq<TrieNode>, at: nat, b: nat): (g: seq<TrieNode>)
    requires at < |nodes| && b < |nodes[at].children|
    ensures |g| == |nodes| + 1 && g[|nodes|] == EmptyNode()
    ensures b < |g[at].children| && g[at].children[b] == |nodes|
  {
    nodes[at := nodes[at].(children := nodes[at].children[b := |nodes|])] + [EmptyNode()]
  }

  lemma GrowExtends(nodes: seq<TrieNode>, at: nat, b: nat)
    requires WellFormed(nodes) && at < |nodes| && b < TRIE_CHILDREN
    requires nodes[at].children[b] == 0
    ensures WellFormed(Grow(nodes, at, b)) && Extends(nodes, Grow(nodes, at, b))
    ensures Grow(nodes, at, b)[at].children[b] == |nodes|
  {
    var g := Grow(nodes, at, b);
    assert forall i :: 0 <= i < |nodes| && i != at ==> g[i] == nodes[i];
  }

  /** What the descent loop of `trie_insert` keeps about the whole arena
      while it inserts `cmd`: the trie is consistent, except that nodes
      allocated for `cmd` are owned by a name not yet in `names`. */
  predicate Building(nodes: seq<TrieNode>, paths: seq<seq<byte>>, owner: seq<seq<byte>>,
                     names: set<seq<byte>>, cmd: seq<byte>)
  {
    && WellFormed(nodes)
    && Shaped(nodes, paths)
    && |owner| == |nodes|
    && IsName(cmd)
    && (forall j :: 0 < j < |nodes| ==> owner[j] in names + {cmd} && IsPrefix(paths[j], owner[j]))
    && (forall j :: 0 <= j < |nodes| && nodes[j].isEnd ==>
          paths[j] in names && nodes[j].command == SafeCopy(paths[j]))
    && (forall n :: n in names ==> IsName(n) && Marked(nodes, n))
  }

  /** Where the descent loop is: after `i` bytes of `cmd`, at node `node`. */
  predicate Reached(nodes: seq<TrieNode>, paths: seq<seq<byte>>, cmd: seq<byte>, i: nat, node: nat)
    requires WellFormed(nodes) && IsName(cmd) && |paths| == |nodes|
  {
    && i <= |cmd|
    && node < |nodes| && paths[node] == cmd[..i]
    && FindFrom(nodes, 0, cmd[..i]) == Some(node)
  }

  lemma DescendStart(nodes: seq<TrieNode>, paths: seq<seq<byte>>, owner: seq<seq<byte>>,
                     names: set<seq<byte>>, cmd: seq<byte>)
    requires Consistent(nodes, paths, owner, names) && IsName(cmd)
    ensures Building(nodes, paths, owner, names, cmd) && Reached(nodes, paths, cmd, 0, 0)
  {
    assert cmd[..0] == [];
  }

  lemma GrowShaped(nodes: seq<TrieNode>, paths: seq<seq<byte>>, at: nat, b: nat)
    requires WellFormed(nodes) && Shaped(nodes, paths) && at < |nodes| && b < TRIE_CHILDREN
    requires nodes[at].children[b] == 0
    ensures WellFormed(Grow(nodes, at, b))
    ensures Shaped(Grow(nodes, at, b), paths + [paths[at] + [b as char]])
  {
    var g := Grow(nodes, at, b);
    var paths' := paths + [paths[at] + [b as char]];
    GrowExtends(nodes, at, b);
    forall j, k | 0 <= j < |g| && 0 <= k < TRIE_CHILDREN && g[j].children[k] != 0
      ensures paths'[g[j].children[k]] == paths'[j] + [k as char]
    {
      if j != at || k != b {
        assert j < |nodes| && g[j].children[k] == nodes[j].children[k];
      }
    }
  }

  /** The new node is owned by `cmd`, and no terminal changes. */
  lemma GrowOwners(nodes: seq<TrieNode>, paths: seq<seq<byte>>, owner: seq<seq<byte>>,
                   names: set<seq<byte>>, cmd: seq<byte>, i: nat, at: nat, b: nat)
    requires at < |nodes| && b < |nodes[at].children| && |paths| == |nodes| == |owner| && i < |cmd|
    requires forall j :: 0 < j < |nodes| ==> owner[j] in names + {cmd} && IsPrefix(paths[j], owner[j])
    requires forall j :: 0 <= j < |nodes| && nodes[j].isEnd ==>
          paths[j] in names && nodes[j].command == SafeCopy(paths[j])
    ensures var g := Grow(nodes, at, b); var paths' := paths + [cmd[..i + 1]]; var owner' := owner + [cmd];
      && (forall j :: 0 < j < |g| ==> owner'[j] in names + {cmd} && IsPrefix(paths'[j], owner'[j]))
      && (forall j :: 0 <= j < |g| && g[j].isEnd ==> paths'[j] in names && g[j].command == SafeCopy(paths'[j]))
  {
    var g := Grow(nodes, at, b);
    assert forall j :: 0 <= j < |nodes| ==> g[j].isEnd == nodes[j].isEnd && g[j].command == nodes[j].command;
    assert IsPrefix(cmd[..i + 1], cmd);
  }

  /** Allocating the missing child for byte `cmd[i]` keeps the invariant. */
  lemma GrowBuilding(nodes: seq<TrieNode>, paths: seq<seq<byte>>, owner: seq<seq<byte>>,
                     names: set<seq<byte>>, cmd: seq<byte>, i: nat, node: nat)
    requires Building(nodes, paths, owner, names, cmd)
    requires node < |nodes| && i < |cmd| && paths[node] == cmd[..i]
    requires nodes[node].children[cmd[i] as int] == 0
    ensures Building(Grow(nodes, node, cmd[i] as int), paths + [cmd[..i + 1]], owner + [cmd], names, cmd)
  {
    var b := cmd[i] as int;
    var g := Grow(nodes, node, b);
    assert cmd[..i + 1] == paths[node] + [b as char];
    GrowExtends(nodes, node, b);
    GrowShaped(nodes, paths, node, b);
    ExtendsMarked(nodes, g, names);
    GrowOwners(nodes, paths, owner, names, cmd, i, node, b);
  }

  /** The allocation leaves the loop where it was. */
  lemma GrowReached(nodes: seq<TrieNode>, paths: seq<seq<byte>>, cmd: seq<byte>, i: nat, node: nat)
    requires WellFormed(nodes) && IsName(cmd) && |paths| == |nodes|
    requires Reached(nodes, paths, cmd, i, node) && i < |cmd|
    requires nodes[node].children[cmd[i] as int] == 0
    ensures var g := Grow(nodes, node, cmd[i] as int);
      && WellFormed(g) && Extends(nodes, g)
      && g[node].children[cmd[i] as int] != 0
      && Reached(g, paths + [cmd[..i + 1]], cmd, i, node)
  {
    var g := Grow(nodes, node, cmd[i] as int);
    GrowExtends(nodes, node, cmd[i] as int);
    ExtendsFind(nodes, g, 0, cmd[..i]);
  }

  /** Following the non-null child for byte `cmd[i]` moves one byte on. */
  lemma DescendFollow(nodes: seq<TrieNode>, paths: seq<seq<byte>>, cmd: seq<byte>, i: nat, node: nat)
    requires WellFormed(nodes) && Shaped(nodes, paths) && IsName(cmd)
    requires Reached(nodes, paths, cmd, i, node)
    requires i < |cmd| && nodes[node].children[cmd[i] as int] != 0
    ensures Reached(nodes, paths, cmd, i + 1, nodes[node].children[cmd[i] as int])
  {
    var b := cmd[i] as int;
    var c := nodes[node].children[b];
    assert cmd[..i + 1] == cmd[..i] + [cmd[i]];
    assert (b as char) == cmd[i];
    FindSplit(nodes, 0, cmd[..i], [cmd[i]]);
    assert FindFrom(nodes, node, [cmd[i]]) == FindFrom(nodes, c, []);
  }

  /** The last step of `trie_insert`: mark the node and copy the command. */
  function MarkEnd(nodes: seq<TrieNode>, node: nat, cmd: seq<byte>): (m: seq<TrieNode>)
    requires node < |nodes|
    ensures |m| == |nodes| && m[node].isEnd && m[node].command == SafeCopy(cmd)
    ensures m[node].children == nodes[node].children
  {
    nodes[node := nodes[node].(isEnd := true, command := SafeCopy(cmd))]
  }

  lemma DescendEnd(nodes: seq<TrieNode>, paths: seq<seq<byte>>, owner: seq<seq<byte>>,
                   names: set<seq<byte>>, cmd: seq<byte>, node: nat)
    requires Building(nodes, paths, owner, names, cmd) && Reached(nodes, paths, cmd, |cmd|, node)
    ensures Extends(nodes, MarkEnd(nodes, node, cmd))
    ensures Consistent(MarkEnd(nodes, node, cmd), paths, owner, names + {cmd})
  {
    var m := MarkEnd(nodes, node, cmd);
    assert cmd[..|cmd|] == cmd;
    assert Extends(nodes, m);
    assert forall j, k :: 0 <= j < |m| && 0 <= k < TRIE_CHILDREN ==> m[j].children[k] == nodes[j].children[k];
    ExtendsMarked(nodes, m, names);
    ExtendsFind(nodes, m, 0, cmd);
  }

  /** The trie of console.c: `trie_root` and the nodes hanging from it. */
  class Trie {
    var nodes: seq<TrieNode>
    ghost var paths: seq<seq<byte>>
    ghost var owner: seq<seq<byte>>
    /** The names inserted since the last `trie_init`. */
    ghost var names: set<seq<byte>>

    ghost predicate Valid()
      reads this
    {
      Consistent(nodes, paths, owner, names)
    }

    constructor ()
      ensures Valid() && names == {} && nodes == [EmptyNode()]
    {
      nodes := [EmptyNode()];
      paths := [[]];
      owner := [[]];
      names := {};
    }

    /** `trie_init`: zero the root, dropping every node and name. */
    method Init()
      modifies this
      ensures Valid() && names == {} && nodes == [EmptyNode()]
    {
      nodes := [EmptyNode()];
      paths := [[]];
      owner := [[]];
      names := {};
    }

    /** `trie_insert`: walk `cmd` from the root, allocating each missing
        child, then mark the last node and copy the command into it. */
    method Insert(cmd: seq<byte>)
      requires Valid() && IsName(cmd)
      modifies this
      ensures Valid()
      ensures names == old(names) + {cmd}
      ensures Extends(old(nodes), nodes)
      ensures var f := FindFrom(nodes, 0, cmd);
        f.Some? && nodes[f.value].isEnd && nodes[f.value].command == SafeCopy(cmd)
    {
      DescendStart(nodes, paths, owner, names, cmd);
      var node: nat := 0;
      var i: nat := 0;
      while i < |cmd|
        invariant Building(nodes, paths, owner, names, cmd)
        invariant Reached(nodes, paths, cmd, i, node)
        invariant Extends(old(nodes), nodes)
        invariant names == old(names)
        decreases |cmd| - i
      {
        var b := cmd[i] as int;
        if nodes[node].children[b] == 0 {
          GrowBuilding(nodes, paths, owner, names, cmd, i, node);
          GrowReached(nodes, paths, cmd, i, node);
          ExtendsTrans(old(nodes), nodes, Grow(nodes, node, b));
          nodes := Grow(nodes, node, b);
          paths := paths + [cmd[..i + 1]];
          owner := owner + [cmd];
        }
        DescendFollow(nodes, paths, cmd, i, node);
        node := nodes[node].children[b];
        i := i + 1;
      }
      DescendEnd(nodes, paths, owner, names, cmd, node);
      ExtendsTrans(old(nodes), nodes, MarkEnd(nodes, node, cmd));
      nodes := MarkEnd(nodes, node, cmd);
      names := names + {cmd};
      NameFound(nodes, paths, owner, names, cmd);
    }

    /** `trie_find`: the node `prefix` leads to from the root, or null. */
    method Find(prefix: seq<byte>) returns (r: Option<nat>)
      requires Valid() && IsName(prefix)
      ensures r == FindFrom(nodes, 0, prefix)
    {
      var node: nat := 0;
      var i: nat := 0;
      while i < |prefix|
        invariant i <= |prefix| && node < |nodes|
        invariant FindFrom(nodes, 0, prefix) == FindFrom(nodes, node, prefix[i..])
        decreases |prefix| - i
      {
        assert prefix[i..][0] == prefix[i] && prefix[i..][1..] == prefix[i + 1..];
        var c := nodes[node].children[prefix[i] as int];
        if c == 0 {
          return None;
        }
        node := c;
        i := i + 1;
      }
      assert prefix[i..] == [];
      return Some(node);
    }
  }
}
