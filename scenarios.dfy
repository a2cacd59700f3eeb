/** Short client sessions against FsTree that exercise the contracts of its
    operations together: a file's text reads back as written, vacated slots
    are handed out again last-in first-out, and a recursive delete vacates
    exactly the removed subtree. */
module Scenarios {
  import opened Nodes
  import opened Tree

  /** A new file, once written, reads back exactly the text written to it. */
  method WriteThenRead(text: string) returns (read: string)
    ensures read == text
  {
    var fs := new FsTree();
    var created := fs.CreateFile("notes", fs.Root());
    assert created.Ok?;
    var written := fs.WriteFile(created.value, text);
    assert written.Ok?;
    var back := fs.ReadFile(created.value);
    read := back.value;
  }

  /** Two directories are created and deleted in order; the next two
      creations get their slots back in reverse order of deletion. */
  method ReuseIsLastInFirstOut() returns (first: nat, second: nat, third: nat, fourth: nat)
    ensures first != second
    ensures third == second && fourth == first
  {
    var fs;
    fs, first, second := CreateTwoDeleteTwo();
    var c := fs.CreateDirectory("c", 0);
    assert c.Ok?;
    third := c.value;
    assert fs.vacancies == [first];
    assert "d" !in fs.nodeTable[0].entries;
    var d := fs.CreateFile("d", 0);
    assert d.Ok?;
    fourth := d.value;
  }

  /** A fresh tree in which "a" and then "b" were created under the root and
      then deleted in the same order: the root is back to its reserved
      entries, and the vacancy stack holds the two slots in deletion order. */
  method CreateTwoDeleteTwo() returns (fs: FsTree, first: nat, second: nat)
    ensures fresh(fs) && fs.Valid()
    ensures fs.nodeTable[0].Directory? && fs.nodeTable[0].entries.Keys == {".", ".."}
    ensures fs.vacancies == [first, second] && first != second
  {
    fs, first, second := CreateTwo();
    assert IsLink(fs.nodeTable, 0, "a");
    var gone := fs.Delete("a", 0);
    assert gone.Ok?;
    assert fs.vacancies == [first];
    assert fs.nodeTable[0].entries.Keys == {".", "..", "b"};
    assert IsLink(fs.nodeTable, 0, "b");
    gone := fs.Delete("b", 0);
    assert gone.Ok?;
  }

  /** A fresh tree in which directories "a" and then "b" were created under
      the root: they take the next two slots, and no slot is vacant. */
  method CreateTwo() returns (fs: FsTree, first: nat, second: nat)
    ensures fresh(fs) && fs.Valid() && fs.vacancies == []
    ensures fs.nodeTable[0].Directory? && fs.nodeTable[0].entries.Keys == {".", "..", "a", "b"}
    ensures fs.nodeTable[0].entries["a"] == first && fs.nodeTable[0].entries["b"] == second
    ensures first == 1 && second == 2
  {
    fs := new FsTree();
    assert fs.nodeTable[0].entries.Keys == {".", ".."};
    var a := fs.CreateDirectory("a", 0);
    assert a.Ok?;
    first := a.value;
    assert fs.nodeTable[0].entries.Keys == {".", "..", "a"};
    var b := fs.CreateDirectory("b", 0);
    assert b.Ok?;
    second := b.value;
  }

  /** Deleting "home" recursively from root/home/user/notes vacates exactly
      the three removed slots, each after the slots below it: notes, then
      user, then home. It leaves the root with only its reserved entries. The vacated "user" keeps only "." and "..",
      and the vacated "notes" is still an empty file. */
  method DeleteHomeRecursively() returns (home: nat, user: nat, notes: nat, freed: seq<nat>, left: set<string>,
                                          userLeft: set<string>, notesLeft: Node)
    ensures home != user && user != notes && home != notes
    ensures freed == [notes, user, home]
    ensures left == {".", ".."}
    ensures userLeft == {".", ".."}
    ensures notesLeft == File("")
  {
    var fs;
    fs, home, user, notes := BuildHome();
    assert IsLink(fs.nodeTable, 0, "home");
    ghost var before := fs.nodeTable;
    var gone := fs.DeleteRecursive("home", 0);
    assert gone.Ok?;
    freed := fs.vacancies;
    assert freed[0..] == freed;
    assert Elems(freed) == {home, user, notes};
    ChainInPostOrder(before, fs.stamp, fs.clock, freed, home, user, notes);
    left := fs.nodeTable[0].entries.Keys;
    StrippedHome(before, fs.nodeTable, fs.stamp, fs.clock, home, user, notes);
    userLeft := fs.nodeTable[user].entries.Keys;
    notesLeft := fs.nodeTable[notes];
  }

  /** The tree of CreateHome, together with what a recursive delete of
      "home" must vacate: the subtree of "home" is its three slots. */
  method BuildHome() returns (fs: FsTree, home: nat, user: nat, notes: nat)
    ensures fresh(fs) && fs.Valid() && fs.vacancies == []
    ensures fs.nodeTable[0].Directory? && fs.nodeTable[0].entries.Keys == {".", "..", "home"}
    ensures fs.nodeTable[0].entries["home"] == home
    ensures home == 1 && user == 2 && notes == 3 && |fs.nodeTable| == 4
    ensures Subtree(fs.nodeTable, fs.stamp, fs.clock, home) == {home, user, notes}
    ensures fs.nodeTable[user].Directory? && fs.nodeTable[user].entries.Keys == {".", "..", "notes"}
    ensures fs.nodeTable[notes] == File("")
    ensures Descendants(fs.nodeTable, fs.stamp, fs.clock, user) == {notes}
  {
    fs, home, user, notes := CreateHome();
    SubtreeOfFile(fs.nodeTable, fs.stamp, fs.clock, notes);
    SubtreeOfOnlyChild(fs.nodeTable, fs.stamp, fs.clock, user, "notes");
    SubtreeOfOnlyChild(fs.nodeTable, fs.stamp, fs.clock, home, "user");
    DescendantsOfSubtree(fs.nodeTable, fs.stamp, fs.clock, user);
  }

  /** A fresh tree holding the directory root/home/user and the file
      root/home/user/notes, in slots 1, 2 and 3. */
  method CreateHome() returns (fs: FsTree, home: nat, user: nat, notes: nat)
    ensures fresh(fs) && fs.Valid() && fs.vacancies == []
    ensures home == 1 && user == 2 && notes == 3 && |fs.nodeTable| == 4
    ensures fs.nodeTable[0].Directory? && fs.nodeTable[0].entries.Keys == {".", "..", "home"}
    ensures fs.nodeTable[0].entries["home"] == home
    ensures fs.nodeTable[home].Directory? && fs.nodeTable[home].entries.Keys == {".", "..", "user"}
    ensures fs.nodeTable[home].entries["user"] == user
    ensures fs.nodeTable[user].Directory? && fs.nodeTable[user].entries.Keys == {".", "..", "notes"}
    ensures fs.nodeTable[user].entries["notes"] == notes
    ensures fs.nodeTable[notes] == File("")
  {
    fs := new FsTree();
    assert fs.nodeTable[0].entries.Keys == {".", ".."};
    var r := fs.CreateDirectory("home", 0);
    assert r.Ok?;
    home := r.value;
    r := fs.CreateDirectory("user", home);
    assert r.Ok?;
    user := r.value;
    r := fs.CreateFile("notes", user);
    assert r.Ok?;
    notes := r.value;
  }

  /** Three distinct slots pushed without repeats and in post-order, where
      `notes` is all that lies below `user` and `home` came last, were pushed
      as notes, user, home. */
  lemma ChainInPostOrder(table: seq<Node>, stamp: seq<nat>, clock: nat, freed: seq<nat>,
                         home: nat, user: nat, notes: nat)
    requires Ranked(table, stamp, clock) && PostOrder(table, stamp, clock, freed)
    requires forall i, j :: 0 <= i < j < |freed| ==> freed[i] != freed[j]
    requires home != user && user != notes && home != notes
    requires Elems(freed) == {home, user, notes}
    requires freed != [] && freed[|freed| - 1] == home
    requires user < |table| && Descendants(table, stamp, clock, user) == {notes}
    ensures freed == [notes, user, home]
  {
    DistinctLength(freed);
    var i :| 0 <= i < |freed| && freed[i] == user;
    assert notes in Elems(freed[..i]);
  }

  /** What stripping leaves of root/home/user/notes: user keeps only "."
      and "..", and the empty file notes is unchanged. */
  lemma StrippedHome(before: seq<Node>, after: seq<Node>, stamp: seq<nat>, clock: nat,
                     home: nat, user: nat, notes: nat)
    requires Ranked(before, stamp, clock) && home < |before|
    requires Subtree(before, stamp, clock, home) == {home, user, notes}
    requires StrippedOn(before, after, Subtree(before, stamp, clock, home))
    requires before[user].Directory? && before[user].entries.Keys == {".", "..", "notes"}
    requires before[notes] == File("")
    ensures after[user].Directory? && after[user].entries.Keys == {".", ".."}
    ensures after[notes] == File("")
  {
    assert user in Subtree(before, stamp, clock, home) && notes in Subtree(before, stamp, clock, home);
    assert ChildNames(before[user]) == {"notes"};
  }

  /** A sequence without repeats has as many elements as it has slots. */
  lemma {:induction false} DistinctLength(s: seq<nat>)
    requires forall i, j :: 0 <= i < j < |s| ==> s[i] != s[j]
    ensures |Elems(s)| == |s|
  {
    if s != [] {
      var t := s[..|s| - 1];
      DistinctLength(t);
      assert Elems(s) == Elems(t) + {s[|s| - 1]};
      assert s[|s| - 1] !in Elems(t);
    }
  }

  /** A file's subtree is the file alone. */
  lemma SubtreeOfFile(table: seq<Node>, stamp: seq<nat>, clock: nat, x: nat)
    requires Ranked(table, stamp, clock) && x < |table| && table[x].File?
    ensures Subtree(table, stamp, clock, x) == {x}
  {
  }

  /** The subtree of a directory with a single child is the directory plus
      that child's subtree. */
  lemma SubtreeOfOnlyChild(table: seq<Node>, stamp: seq<nat>, clock: nat, x: nat, name: string)
    requires Ranked(table, stamp, clock) && x < |table| && table[x].Directory?
    requires IsLink(table, x, name) && table[x].entries.Keys == {".", "..", name}
    ensures Subtree(table, stamp, clock, x) == {x} + Subtree(table, stamp, clock, table[x].entries[name])
  {
    assert ChildNames(table[x]) == {} + {name};
    BelowInsert(table, stamp, clock, x, {}, name);
  }
}
