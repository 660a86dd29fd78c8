/** The command table that `init_usr_commands` fills from the entries of the
    root directory: the flat `commands` array with `command_count`, and the
    trie beside it. */
module Registry {
  import opened Bytes
  import opened Trie

  /** A directory entry as `readi` hands it over: the inode number and the
      name up to its terminator. */
  datatype DirEntry = DirEntry(inum: nat, name: seq<byte>)

  /** `de.name[k]`: the name field is zero-padded past the name. */
  function CharAt(s: seq<byte>, k: nat): byte {
    if k < |s| then s[k] else NUL
  }

  /** The test an entry must pass to be registered: a used entry, a name not
      starting with '.', a second byte that is not the terminator, and room
      for the name in a table slot. */
  predicate Accepts(e: DirEntry) {
    && e.inum != 0
    && CharAt(e.name, 0) != '.'
    && CharAt(e.name, 1) != NUL
    && |e.name| < MAX_COMMAND_LENGTH
  }

  /** Names are C strings; the ones that get registered are also 7-bit, as
      the trie indexes its child slots by byte. */
  predicate GoodEntries(entries: seq<DirEntry>) {
    forall k :: 0 <= k < |entries| ==>
      NUL !in entries[k].name && (Accepts(entries[k]) ==> IsName(entries[k].name))
  }

  /** The filter in plain terms: a used entry whose name has between 2 and 31
      bytes and does not start with '.'. Single-byte names never pass. */
  lemma AcceptsIff(e: DirEntry)
    requires NUL !in e.name
    ensures Accepts(e) <==> e.inum != 0 && 2 <= |e.name| < MAX_COMMAND_LENGTH && e.name[0] != '.'
  {
    if |e.name| == 1 {
      assert CharAt(e.name, 1) == NUL;
    }
    if |e.name| >= 2 {
      assert e.name[1] in e.name;
    }
  }

  /** The names the filter lets through, in directory order, as
      `safestrcpy` copies them into the table. At most one name per entry,
      and every name fits a 32-byte slot with its terminator. */
  function Accepted(entries: seq<DirEntry>): (a: seq<seq<byte>>)
    ensures |a| <= |entries|
    ensures forall k :: 0 <= k < |a| ==> |a[k]| < MAX_COMMAND_LENGTH
  {
    if entries == [] then []
    else
      var e := entries[|entries| - 1];
      Accepted(entries[..|entries| - 1]) + (if Accepts(e) then [SafeCopy(e.name)] else [])
  }

  /** The filter treats each entry on its own. */
  lemma {:induction false} AcceptedAppend(a: seq<DirEntry>, b: seq<DirEntry>)
    ensures Accepted(a + b) == Accepted(a) + Accepted(b)
    decreases |b|
  {
    if b == [] {
      assert a + b == a;
    } else {
      var b' := b[..|b| - 1];
      assert (a + b)[..|a + b| - 1] == a + b';
      assert (a + b)[|a + b| - 1] == b[|b| - 1];
      AcceptedAppend(a, b');
    }
  }

  /** The table after `init_usr_commands`: the first `MAX_COMMANDS` accepted
      names, in directory order. */
  function Registered(entries: seq<DirEntry>): (t: seq<seq<byte>>)
    ensures |t| <= |Accepted(entries)| && t == Accepted(entries)[..|t|]
    ensures |t| == if |Accepted(entries)| <= MAX_COMMANDS then |Accepted(entries)| else MAX_COMMANDS
  {
    var a := Accepted(entries);
    if |a| <= MAX_COMMANDS then a else a[..MAX_COMMANDS]
  }

  /** `s` is the name of an entry the filter accepts. */
  predicate AcceptedName(entries: seq<DirEntry>, s: seq<byte>) {
    exists j :: 0 <= j < |entries| && Accepts(entries[j]) && s == entries[j].name
  }

  /** Every registered name is an accepted entry's name, unchanged by the
      copy. */
  lemma {:induction false} AcceptedNames(entries: seq<DirEntry>)
    ensures forall k :: 0 <= k < |Accepted(entries)| ==> AcceptedName(entries, Accepted(entries)[k])
    decreases |entries|
  {
    if entries != [] {
      var init := entries[..|entries| - 1];
      var last := entries[|entries| - 1];
      AcceptedNames(init);
      assert Accepted(entries) == Accepted(init) + (if Accepts(last) then [SafeCopy(last.name)] else []);
      forall k | 0 <= k < |Accepted(entries)|
        ensures AcceptedName(entries, Accepted(entries)[k])
      {
        if k < |Accepted(init)| {
          var j :| 0 <= j < |init| && Accepts(init[j]) && Accepted(init)[k] == init[j].name;
          assert Accepted(entries)[k] == Accepted(init)[k];
          assert entries[j] == init[j];
        } else {
          assert Accepts(last) && Accepted(entries)[k] == SafeCopy(last.name) == last.name;
        }
      }
    }
  }

  /** A table slot: a 7-bit name of 2 to 31 bytes that does not start with
      '.'. */
  predicate GoodName(s: seq<byte>) {
    IsName(s) && 2 <= |s| < MAX_COMMAND_LENGTH && s[0] != '.'
  }

  /** The names in a table. */
  function Names(table: seq<seq<byte>>): set<seq<byte>> {
    set k | 0 <= k < |table| :: table[k]
  }

  lemma NamesAppend(table: seq<seq<byte>>, name: seq<byte>)
    ensures Names(table + [name]) == Names(table) + {name}
  {
    var t := table + [name];
    assert forall k :: 0 <= k < |table| ==> t[k] == table[k];
    assert t[|table|] == name;
  }

  /** The single terminal a lookup for `p` can complete to holds a
      registered name that starts with `p`, and the copy `trie_collect`
      makes of it is that name. */
  lemma CompletionRegistered(nodes: seq<TrieNode>, paths: seq<seq<byte>>, owner: seq<seq<byte>>,
                             table: seq<seq<byte>>, p: seq<byte>, j: nat)
    requires Consistent(nodes, paths, owner, Names(table))
    requires forall k :: 0 <= k < |table| ==> GoodName(table[k])
    requires IsName(p) && FindFrom(nodes, 0, p).Some? && j in Ends(nodes, FindFrom(nodes, 0, p).value)
    ensures var m := SafeCopy(nodes[j].command);
      m in table && IsPrefix(p, m) && GoodName(m)
  {
    EndsAreCompletions(nodes, paths, owner, Names(table), p, j);
    var k :| 0 <= k < |table| && table[k] == paths[j];
  }

  /** What Tab finds for the typed word `p`: nothing when `trie_find`
      falls off the trie, otherwise what `trie_collect` gathers below the
      node it reaches. */
  function Lookup(nodes: seq<TrieNode>, p: seq<byte>): (l: Option<Found>)
    requires WellFormed(nodes) && IsName(p)
    ensures l.Some? ==> l.value.count <= 2
    ensures l.Some? && l.value.count == 0 ==> l.value.result == []
  {
    match FindFrom(nodes, 0, p)
    case None => None
    case Some(i) => Some(Collect(nodes, i, Found(0, [])))
  }

  /** The lookup in terms of the table: a non-empty word reaches a node
      exactly when some registered name starts with it; below that node
      there is always at least one command, the count saturates at two,
      and a count of one is a registered name extending the word. */
  lemma LookupMeaning(nodes: seq<TrieNode>, paths: seq<seq<byte>>, owner: seq<seq<byte>>,
                      table: seq<seq<byte>>, p: seq<byte>)
    requires Consistent(nodes, paths, owner, Names(table))
    requires forall k :: 0 <= k < |table| ==> GoodName(table[k])
    requires IsName(p) && p != []
    ensures Lookup(nodes, p).Some? <==> exists k :: 0 <= k < |table| && IsPrefix(p, table[k])
    ensures Lookup(nodes, p).Some? ==>
      var st := Lookup(nodes, p).value;
      var ends := Ends(nodes, FindFrom(nodes, 0, p).value);
      && 1 <= st.count <= 2
      && (st.count == 1 <==> |ends| == 1)
      && (st.count == 1 ==> st.result in table && IsPrefix(p, st.result) && GoodName(st.result))
  {
    FoundIffPrefix(nodes, paths, owner, Names(table), p);
    if FindFrom(nodes, 0, p).Some? {
      var i := FindFrom(nodes, 0, p).value;
      CollectSaturates(nodes, i, []);
      SubtreeHasEnd(nodes, paths, owner, Names(table), p);
      if |Ends(nodes, i)| == 1 {
        CompletionRegistered(nodes, paths, owner, table, p, Ends(nodes, i)[0]);
      }
    }
  }

  /** `commands`, `command_count` and the trie they are inserted into. */
  class Registry {
    /** `commands[0..command_count)`. */
    var table: seq<seq<byte>>
    const trie: Trie

    ghost predicate Valid()
      reads this, trie
    {
      && trie.Valid()
      && |table| <= MAX_COMMANDS
      && (forall k :: 0 <= k < |table| ==> GoodName(table[k]))
      && trie.names == Names(table)
    }

    constructor ()
      ensures Valid() && table == [] && fresh(trie)
    {
      table := [];
      trie := new Trie();
    }

    /** The registration of one name: `safestrcpy` into the next table
        slot, `trie_insert`, and `command_count++`. */
    method Register(name: seq<byte>)
      requires Valid() && GoodName(name) && |table| < MAX_COMMANDS
      modifies this, trie
      ensures Valid() && table == old(table) + [SafeCopy(name)]
    {
      NamesAppend(table, name);
      trie.Insert(name);
      table := table + [SafeCopy(name)];
    }

    /** `trie_find` of a typed prefix and, when it reaches a node,
        `trie_collect` below it. A unique completion is a registered name
        that extends the prefix. */
    method Matches(prefix: seq<byte>) returns (res: Option<Found>)
      requires Valid() && IsName(prefix)
      ensures res == Lookup(trie.nodes, prefix)
      ensures res.Some? && res.value.count == 1 ==>
        res.value.result in table && IsPrefix(prefix, res.value.result) && GoodName(res.value.result)
    {
      var node := trie.Find(prefix);
      res := None;
      if node.Some? {
        var found := Collect(trie.nodes, node.value, Found(0, []));
        CollectSaturates(trie.nodes, node.value, []);
        if found.count == 1 {
          CompletionRegistered(trie.nodes, trie.paths, trie.owner, table, prefix, Ends(trie.nodes, node.value)[0]);
        }
        res := Some(found);
      }
    }

    /** `init_usr_commands` over the entries of the root directory: reset
        the table and the trie, then register accepted names until the
        directory or the table runs out. */
    method Load(entries: seq<DirEntry>)
      requires GoodEntries(entries)
      modifies this, trie
      ensures Valid()
      ensures table == Registered(entries)
    {
      table := [];
      trie.Init();
      var off := 0;
      while off < |entries| && |table| < MAX_COMMANDS
        invariant off <= |entries|
        invariant Valid() && table == Accepted(entries[..off])
        decreases |entries| - off
      {
        var e := entries[off];
        assert entries[..off + 1] == entries[..off] + [e];
        assert entries[..off + 1][..off] == entries[..off];
        if e.inum != 0 && CharAt(e.name, 0) != '.' && CharAt(e.name, 1) != NUL {
          var len := |e.name|;
          if len < MAX_COMMAND_LENGTH {
            AcceptsIff(e);
            Register(e.name);
          }
        }
        off := off + 1;
      }
      if off == |entries| {
        assert entries[..off] == entries;
      } else {
        assert entries == entries[..off] + entries[off..];
        AcceptedAppend(entries[..off], entries[off..]);
        assert Accepted(entries)[..MAX_COMMANDS] == table;
      }
    }
  }
}
