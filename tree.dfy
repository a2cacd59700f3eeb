/** The arena-backed filesystem tree (FsTree).

    The tree is a growable table of nodes addressed by index, plus a stack of
    vacated slot numbers. Index 0 is the root directory. Creating a node reuses
    the most recently vacated slot, or else appends; deleting a node unlinks it
    from its parent and pushes its slot onto the stack. Nothing clears a
    vacated slot: delete leaves its node as it was, delete_recursive leaves
    it stripped of its links, and afterwards it changes only through an
    operation given its stale index or a create that reuses it.

    Two ghost fields give the proofs what the source leaves implicit:
    `stamp[i]` is the time slot `i` was last filled (below `clock`), and it
    grows along every link, so the tree has no cycles and recursive deletion
    terminates; `owner[i]` is the one (directory, name) entry that links to
    slot `i`, so no node is linked twice. */
module Tree {
  import opened Nodes

  /** Why an operation is refused. The source panics in every one of these cases. */
  datatype FsError =
    | OutOfRange      // an index past the end of the table
    | NotADirectory   // the parent is a file
    | NotAFile        // a file operation on a directory
    | AlreadyExists   // create with a name the parent already holds
    | NotFound        // delete of a name the parent does not hold
    | ReservedName    // delete of "." or ".."

  datatype Result<T> = Ok(value: T) | Err(error: FsError)

  /** The names of a node's links: its entries other than "." and "..". */
  function ChildNames(node: Node): (names: set<string>)
    requires node.Directory?
    ensures forall name :: name in names <==> name in node.entries && !IsReserved(name)
  {
    set name | name in node.entries && !IsReserved(name)
  }

  function Elems(s: seq<nat>): set<nat> {
    set k | k in s
  }

  // ---------------------------------------------------------------------
  // Invariants of the arena

  /** Entry `name` of slot `d` is a link: `d` is a directory and `name` is
      one of its entries other than "." and "..". The invariants below speak
      of links only through this predicate, so that they are applied to the
      links a proof names and to no others. */
  ghost predicate IsLink(table: seq<Node>, d: nat, name: string) {
    d < |table| && table[d].Directory? && name in table[d].entries && !IsReserved(name)
  }

  /** Slot `d` holds a directory. */
  ghost predicate IsDirectory(table: seq<Node>, d: nat) {
    d < |table| && table[d].Directory?
  }

  /** Slot stamps lie below `clock` and grow along every link. */
  ghost predicate Ranked(table: seq<Node>, stamp: seq<nat>, clock: nat) {
    && |stamp| == |table|
    && (forall i :: 0 <= i < |stamp| ==> stamp[i] < clock)
    && (forall d: nat, name {:trigger IsLink(table, d, name)} :: IsLink(table, d, name) ==>
          table[d].entries[name] < |table| && stamp[d] < stamp[table[d].entries[name]])
  }

  /** The vacancy stack holds distinct slots of the table, never the root's. */
  ghost predicate FreeListOk(table: seq<Node>, vacancies: seq<nat>) {
    && (forall i, j :: 0 <= i < j < |vacancies| ==> vacancies[i] != vacancies[j])
    && (forall k :: 0 <= k < |vacancies| ==> 0 < vacancies[k] < |table|)
  }

  /** Every directory slot maps "." to itself and ".." into the table. */
  ghost predicate ReservedEntriesOk(table: seq<Node>) {
    forall d: nat {:trigger IsDirectory(table, d)} :: IsDirectory(table, d) ==>
      && "." in table[d].entries && table[d].entries["."] == d
      && ".." in table[d].entries && table[d].entries[".."] < |table|
  }

  /** Every link leads to a live slot other than the root, and that slot's
      owner is exactly this link: no node is linked from two places. */
  ghost predicate LinksOk(table: seq<Node>, vacancies: seq<nat>, owner: seq<(nat, string)>) {
    && |owner| == |table|
    && (forall d: nat, name {:trigger IsLink(table, d, name)} :: IsLink(table, d, name) ==>
          && table[d].entries[name] != 0
          && table[d].entries[name] !in vacancies
          && table[d].entries[name] < |owner|
          && owner[table[d].entries[name]] == (d, name))
  }

  ghost predicate Wellformed(table: seq<Node>, vacancies: seq<nat>, stamp: seq<nat>, clock: nat, owner: seq<(nat, string)>) {
    && |table| >= 1
    && table[0].Directory?
    && ".." in table[0].entries && table[0].entries[".."] == 0
    && FreeListOk(table, vacancies)
    && ReservedEntriesOk(table)
    && Ranked(table, stamp, clock)
    && LinksOk(table, vacancies, owner)
  }

  // ---------------------------------------------------------------------
  // The subtree below a node, through links only

  /** Slot `x` and every slot reachable from it through links. */
  ghost function Subtree(table: seq<Node>, stamp: seq<nat>, clock: nat, x: nat): set<nat>
    requires Ranked(table, stamp, clock) && x < |table|
    decreases clock - stamp[x], 1
  {
    {x} + if table[x].File? then {} else Below(table, stamp, clock, x, ChildNames(table[x]))
  }

  /** The subtrees of the children of directory `x` linked under `names`. */
  ghost function Below(table: seq<Node>, stamp: seq<nat>, clock: nat, x: nat, names: set<string>): set<nat>
    requires Ranked(table, stamp, clock) && x < |table| && table[x].Directory?
    decreases clock - stamp[x], 0
  {
    set name, y | name in names && IsLink(table, x, name)
                  && y in Subtree(table, stamp, clock, table[x].entries[name]) :: y
  }

  /** Every node of a subtree is in the table and was stamped no earlier than its top. */
  lemma {:induction false} SubtreeRank(table: seq<Node>, stamp: seq<nat>, clock: nat, x: nat)
    requires Ranked(table, stamp, clock) && x < |table|
    ensures forall y :: y in Subtree(table, stamp, clock, x) ==> y < |table| && stamp[x] <= stamp[y]
    ensures table[x].Directory? ==>
      forall y :: y in Below(table, stamp, clock, x, ChildNames(table[x])) ==> stamp[x] < stamp[y]
    decreases clock - stamp[x]
  {
    if table[x].Directory? {
      forall y | y in Below(table, stamp, clock, x, ChildNames(table[x]))
        ensures y < |table| && stamp[x] < stamp[y]
      {
        var name :| IsLink(table, x, name) && y in Subtree(table, stamp, clock, table[x].entries[name]);
        SubtreeRank(table, stamp, clock, table[x].entries[name]);
      }
    }
  }

  /** Every node below `x` through any of the links `names` is in the table
      and was stamped later than `x`. */
  lemma BelowRank(table: seq<Node>, stamp: seq<nat>, clock: nat, x: nat, names: set<string>)
    requires Ranked(table, stamp, clock) && x < |table| && table[x].Directory?
    ensures forall y :: y in Below(table, stamp, clock, x, names) ==> y < |table| && stamp[x] < stamp[y]
  {
    forall y | y in Below(table, stamp, clock, x, names)
      ensures y < |table| && stamp[x] < stamp[y]
    {
      var name :| name in names && IsLink(table, x, name) && y in Subtree(table, stamp, clock, table[x].entries[name]);
      SubtreeRank(table, stamp, clock, table[x].entries[name]);
    }
  }

  /** Below a live node every node is live and is not the root. */
  lemma {:induction false} SubtreeLive(table: seq<Node>, vacancies: seq<nat>, stamp: seq<nat>, clock: nat,
                                        owner: seq<(nat, string)>, x: nat)
    requires Wellformed(table, vacancies, stamp, clock, owner) && x < |table| && x !in vacancies
    ensures forall y :: y in Subtree(table, stamp, clock, x) ==> y !in vacancies && (y == x || y != 0)
    decreases clock - stamp[x]
  {
    if table[x].Directory? {
      forall y | y in Below(table, stamp, clock, x, ChildNames(table[x]))
        ensures y !in vacancies && y != 0
      {
        var name :| IsLink(table, x, name) && y in Subtree(table, stamp, clock, table[x].entries[name]);
        SubtreeLive(table, vacancies, stamp, clock, owner, table[x].entries[name]);
      }
    }
  }

  /** A subtree depends only on the nodes in it. */
  lemma {:induction false} SubtreeFrame(t1: seq<Node>, t2: seq<Node>, stamp: seq<nat>, clock: nat, x: nat)
    requires Ranked(t1, stamp, clock) && Ranked(t2, stamp, clock) && x < |t2|
    requires forall y :: y in Subtree(t2, stamp, clock, x) ==> y < |t1| && t1[y] == t2[y]
    ensures Subtree(t1, stamp, clock, x) == Subtree(t2, stamp, clock, x)
    decreases clock - stamp[x]
  {
    assert t1[x] == t2[x];
    if t2[x].Directory? {
      var names := ChildNames(t2[x]);
      forall name | name in names && IsLink(t2, x, name)
        ensures Subtree(t1, stamp, clock, t2[x].entries[name]) == Subtree(t2, stamp, clock, t2[x].entries[name])
      {
        var child := t2[x].entries[name];
        assert forall y :: y in Subtree(t2, stamp, clock, child) ==> y in Below(t2, stamp, clock, x, names);
        SubtreeFrame(t1, t2, stamp, clock, child);
      }
      assert Below(t1, stamp, clock, x, names) == Below(t2, stamp, clock, x, names);
    }
  }

  /** Adding one child's name adds exactly that child's subtree. */
  lemma BelowInsert(table: seq<Node>, stamp: seq<nat>, clock: nat, x: nat, names: set<string>, name: string)
    requires Ranked(table, stamp, clock) && x < |table| && table[x].Directory?
    requires IsLink(table, x, name)
    ensures Below(table, stamp, clock, x, names + {name})
         == Below(table, stamp, clock, x, names) + Subtree(table, stamp, clock, table[x].entries[name])
  {
  }

  /** A subtree holds the whole subtree of each of its nodes. */
  lemma {:induction false} SubtreeClosed(table: seq<Node>, stamp: seq<nat>, clock: nat, x: nat, y: nat)
    requires Ranked(table, stamp, clock) && x < |table| && y in Subtree(table, stamp, clock, x)
    ensures y < |table| && Subtree(table, stamp, clock, y) <= Subtree(table, stamp, clock, x)
    decreases clock - stamp[x]
  {
    SubtreeRank(table, stamp, clock, x);
    if y != x {
      var name :| name in ChildNames(table[x]) && IsLink(table, x, name)
                  && y in Subtree(table, stamp, clock, table[x].entries[name]);
      var child := table[x].entries[name];
      SubtreeClosed(table, stamp, clock, child, y);
      assert forall z :: z in Subtree(table, stamp, clock, child) ==> z in Below(table, stamp, clock, x, ChildNames(table[x]));
    }
  }

  // ---------------------------------------------------------------------
  // What create does to the arena

  /** The slot create hands out: the top of the vacancy stack, else the next
      index past the end of the table. */
  function NextSlot(tableLen: nat, vacancies: seq<nat>): nat {
    if vacancies != [] then vacancies[|vacancies| - 1] else tableLen
  }

  /** `s` with element `i` set to `v`, growing by one when `i == |s|`. */
  function Put<T>(s: seq<T>, i: nat, v: T): (r: seq<T>)
    requires i <= |s|
    ensures |r| == if i < |s| then |s| else |s| + 1
    ensures r[i] == v && forall j :: 0 <= j < |s| && j != i ==> r[j] == s[j]
  {
    if i < |s| then s[i := v] else s + [v]
  }

  /** The vacancy stack after create: its top popped, if it has one. */
  function Popped(vacancies: seq<nat>): seq<nat> {
    if vacancies != [] then vacancies[..|vacancies| - 1] else vacancies
  }

  /** A node create may place: a new file, or a new directory that knows its slot and parent. */
  predicate Placeable(node: Node, parent: nat, index: nat) {
    node == NewFile() || node == NewDirectory(parent, index)
  }

  /** A node without links of its own. */
  predicate Linkless(node: Node) {
    node.Directory? ==> forall n :: n in node.entries ==> IsReserved(n)
  }

  /** No link of the table ends at slot `index`. */
  ghost predicate Unlinked(table: seq<Node>, index: nat) {
    forall d: nat, n {:trigger IsLink(table, d, n)} :: IsLink(table, d, n) ==> table[d].entries[n] != index
  }

  /** The table after create: `name` linked under `parent` to slot `index`,
      and `node` stored in that slot (appended when `index` is the table's
      length). When `index` is `parent` itself, which only a vacated parent
      allows, the new node overwrites the parent and the link is lost. */
  function Attached(table: seq<Node>, name: string, parent: nat, index: nat, node: Node): (t: seq<Node>)
    requires parent < |table| && table[parent].Directory? && index <= |table|
    ensures |t| == if index < |table| then |table| else |table| + 1
    ensures t[index] == node
    ensures index != parent ==> t[parent] == Directory(table[parent].entries[name := index])
    ensures forall j :: 0 <= j < |table| && j != parent && j != index ==> t[j] == table[j]
  {
    Put(table[parent := Directory(table[parent].entries[name := index])], index, node)
  }

  lemma AttachRanked(table: seq<Node>, stamp: seq<nat>, clock: nat, name: string, parent: nat, index: nat, node: Node)
    requires Ranked(table, stamp, clock)
    requires parent < |table| && table[parent].Directory? && index <= |table| && !IsReserved(name)
    requires Unlinked(table, index) && Linkless(node)
    ensures Ranked(Attached(table, name, parent, index, node), Put(stamp, index, clock), clock + 1)
  {
    var table', stamp' := Attached(table, name, parent, index, node), Put(stamp, index, clock);
    forall d: nat, n | IsLink(table', d, n)
      ensures table'[d].entries[n] < |table'| && stamp'[d] < stamp'[table'[d].entries[n]]
    {
      if d != index && !(d == parent && n == name) {
        assert IsLink(table, d, n) && table'[d].entries[n] == table[d].entries[n];
      }
    }
  }

  lemma AttachLinksOk(table: seq<Node>, vacancies: seq<nat>, owner: seq<(nat, string)>,
                      name: string, parent: nat, node: Node)
    requires LinksOk(table, vacancies, owner) && FreeListOk(table, vacancies)
    requires parent < |table| && table[parent].Directory? && !IsReserved(name)
    requires Linkless(node)
    ensures NextSlot(|table|, vacancies) != 0
    ensures Unlinked(table, NextSlot(|table|, vacancies))
    ensures var index := NextSlot(|table|, vacancies);
            LinksOk(Attached(table, name, parent, index, node), Popped(vacancies), Put(owner, index, (parent, name)))
  {
    var index := NextSlot(|table|, vacancies);
    var table', vacancies', owner' := Attached(table, name, parent, index, node), Popped(vacancies), Put(owner, index, (parent, name));
    assert index !in vacancies' by {
      if vacancies != [] {
        assert forall k :: 0 <= k < |vacancies'| ==> vacancies'[k] == vacancies[k];
      }
    }
    assert forall k :: k in vacancies' ==> k in vacancies;
    forall d: nat, n | IsLink(table, d, n) ensures table[d].entries[n] != index {
      assert table[d].entries[n] !in vacancies && table[d].entries[n] < |table|;
    }
    forall d: nat, n | IsLink(table', d, n)
      ensures table'[d].entries[n] != 0 && table'[d].entries[n] !in vacancies'
           && table'[d].entries[n] < |owner'| && owner'[table'[d].entries[n]] == (d, n)
    {
      if d != index && !(d == parent && n == name) {
        assert IsLink(table, d, n) && table'[d].entries[n] == table[d].entries[n];
      }
    }
  }

  lemma AttachReservedOk(table: seq<Node>, name: string, parent: nat, index: nat, node: Node)
    requires ReservedEntriesOk(table)
    requires parent < |table| && table[parent].Directory? && index <= |table| && !IsReserved(name)
    requires Placeable(node, parent, index)
    ensures ReservedEntriesOk(Attached(table, name, parent, index, node))
  {
    var table' := Attached(table, name, parent, index, node);
    forall d: nat | IsDirectory(table', d)
      ensures "." in table'[d].entries && table'[d].entries["."] == d
      ensures ".." in table'[d].entries && table'[d].entries[".."] < |table'|
    {
      if d != index {
        assert IsDirectory(table, d);
        if d == parent {
          assert table'[d].entries == table[d].entries[name := index];
        }
      }
    }
  }

  /** Create keeps the arena well formed. */
  lemma AttachKeepsWellformed(table: seq<Node>, vacancies: seq<nat>, stamp: seq<nat>, clock: nat,
                              owner: seq<(nat, string)>, name: string, parent: nat, node: Node)
    requires Wellformed(table, vacancies, stamp, clock, owner)
    requires CanCreate(table, name, parent)
    requires Placeable(node, parent, NextSlot(|table|, vacancies))
    ensures NextSlot(|table|, vacancies) != 0
    ensures parent !in vacancies ==> NextSlot(|table|, vacancies) != parent
    ensures var index := NextSlot(|table|, vacancies);
            Wellformed(Attached(table, name, parent, index, node),
                       Popped(vacancies), Put(stamp, index, clock), clock + 1, Put(owner, index, (parent, name)))
  {
    var index := NextSlot(|table|, vacancies);
    assert IsDirectory(table, parent);
    assert Linkless(node);
    AttachLinksOk(table, vacancies, owner, name, parent, node);
    AttachRanked(table, stamp, clock, name, parent, index, node);
    AttachReservedOk(table, name, parent, index, node);
    var vacancies' := Popped(vacancies);
    assert forall k :: 0 <= k < |vacancies'| ==> vacancies'[k] == vacancies[k];
  }

  // ---------------------------------------------------------------------
  // Outcomes of the operations

  /** create_directory and create_file succeed exactly when `parent` is a
      directory slot without an entry `name`. */
  predicate CanCreate(table: seq<Node>, name: string, parent: nat) {
    parent < |table| && table[parent].Directory? && name !in table[parent].entries
  }

  function CreateError(table: seq<Node>, name: string, parent: nat): FsError
    requires !CanCreate(table, name, parent)
  {
    if parent >= |table| then OutOfRange
    else if table[parent].File? then NotADirectory
    else AlreadyExists
  }

  /** delete and delete_recursive succeed exactly when `parent` is a directory
      slot holding the non-reserved entry `name`: the same predicate as
      `IsLink`, under the name the delete contracts use. */
  ghost predicate CanDelete(table: seq<Node>, name: string, parent: nat) {
    IsLink(table, parent, name)
  }

  function DeleteError(table: seq<Node>, name: string, parent: nat): FsError
    requires !CanDelete(table, name, parent)
  {
    if parent >= |table| then OutOfRange
    else if table[parent].File? then NotADirectory
    else if IsReserved(name) then ReservedName
    else NotFound
  }

  /** The slot rule of create: the most recently vacated slot is popped and
      the table keeps its length; with no vacancy the table grows by one. */
  predicate TakesSlot(oldLen: nat, oldVacancies: seq<nat>, newLen: nat, newVacancies: seq<nat>, index: nat) {
    if oldVacancies != [] then
      && index == oldVacancies[|oldVacancies| - 1]
      && newVacancies == oldVacancies[..|oldVacancies| - 1]
      && newLen == oldLen
    else
      && index == oldLen
      && newVacancies == []
      && newLen == oldLen + 1
  }

  /** A node as delete_recursive leaves it: a directory keeps only "." and
      "..", a file keeps its text. */
  function Stripped(node: Node): Node {
    if node.File? then node else Directory(node.entries - ChildNames(node))
  }

  /** Each slot of `nodes` is in both tables, and `table` holds the stripped
      form of what `table0` held there. */
  ghost predicate StrippedOn(table0: seq<Node>, table: seq<Node>, nodes: set<nat>) {
    forall j :: j in nodes ==> j < |table0| && j < |table| && table[j] == Stripped(table0[j])
  }

  /** `after` is `before` with the slots of `nodes` pushed on top. Each is
      pushed once where the stack is kept duplicate-free, as `FreeListOk`
      requires of every valid tree; the predicate itself fixes only the set. */
  predicate Pushed(before: seq<nat>, after: seq<nat>, nodes: set<nat>) {
    && |before| <= |after|
    && after[..|before|] == before
    && Elems(after[|before|..]) == nodes
  }

  /** The order in which delete_recursive vacates slots: every slot of
      `pushed` comes after every slot strictly below it in `table`. */
  ghost predicate PostOrder(table: seq<Node>, stamp: seq<nat>, clock: nat, pushed: seq<nat>)
    requires Ranked(table, stamp, clock)
  {
    forall i :: 0 <= i < |pushed| ==>
      pushed[i] < |table| && Descendants(table, stamp, clock, pushed[i]) <= Elems(pushed[..i])
  }

  /** Two pushes in a row push the union of what each pushed. */
  lemma PushedTwice(a: seq<nat>, b: seq<nat>, c: seq<nat>, s: set<nat>, t: set<nat>)
    requires Pushed(a, b, s) && Pushed(b, c, t)
    ensures Pushed(a, c, s + t)
  {
    assert c[..|b|] == b;
    assert c[..|a|] == b[..|a|];
    assert c[|a|..] == b[|a|..] + c[|b|..];
    assert Elems(c[|a|..]) == Elems(b[|a|..]) + Elems(c[|b|..]);
  }

  /** Where delete_recursive's loop over the links of `target` stands once
      the links named in `done` are deleted: the arena went from `table0` and
      `vacancies0` to `table` and `vacancies`, the target lost exactly those
      entries, the slots below them were pushed, each after those below it,
      and stripped, and no other slot changed. */
  ghost predicate LinksDeleted(table0: seq<Node>, vacancies0: seq<nat>, table: seq<Node>, vacancies: seq<nat>,
                               stamp: seq<nat>, clock: nat, target: nat, done: set<string>) {
    && Ranked(table0, stamp, clock) && |table| == |table0|
    && target < |table0| && table0[target].Directory?
    && table[target] == Directory(table0[target].entries - done)
    && Pushed(vacancies0, vacancies, Below(table0, stamp, clock, target, done))
    && StrippedOn(table0, table, Below(table0, stamp, clock, target, done))
    && PostOrder(table0, stamp, clock, vacancies[|vacancies0|..])
    && forall j :: 0 <= j < |table| && j != target && j !in vacancies[|vacancies0|..] ==> table[j] == table0[j]
  }

  /** One turn of delete_recursive's loop: once the child `child` of `target`
      has been deleted recursively, `done + {child}` has been removed from the
      target, the vacancy stack holds the subtrees of exactly those children,
      and every other slot outside them is as it was before the loop. */
  lemma DeletedChildStep(table0: seq<Node>, tableBefore: seq<Node>, tableAfter: seq<Node>,
                         vacancies0: seq<nat>, vacanciesBefore: seq<nat>, vacanciesAfter: seq<nat>,
                         stamp: seq<nat>, clock: nat, owner: seq<(nat, string)>,
                         target: nat, done: set<string>, child: string)
    requires Wellformed(tableBefore, vacanciesBefore, stamp, clock, owner)
    requires LinksDeleted(table0, vacancies0, tableBefore, vacanciesBefore, stamp, clock, target, done)
    requires IsLink(table0, target, child) && child !in done && IsLink(tableBefore, target, child)
    requires Pushed(vacanciesBefore, vacanciesAfter,
                    Subtree(tableBefore, stamp, clock, tableBefore[target].entries[child]))
    requires StrippedOn(tableBefore, tableAfter, Subtree(tableBefore, stamp, clock, tableBefore[target].entries[child]))
    requires PostOrder(tableBefore, stamp, clock, vacanciesAfter[|vacanciesBefore|..])
    requires |tableAfter| == |tableBefore|
    requires tableAfter[target] == Directory(tableBefore[target].entries - {child})
    requires forall j :: 0 <= j < |tableAfter| && j != target && j !in vacanciesAfter[|vacanciesBefore|..] ==>
      tableAfter[j] == tableBefore[j]
    ensures LinksDeleted(table0, vacancies0, tableAfter, vacanciesAfter, stamp, clock, target, done + {child})
  {
    var childIndex := table0[target].entries[child];
    assert tableBefore[target].entries[child] == childIndex;
    assert Subtree(table0, stamp, clock, childIndex) == Subtree(tableBefore, stamp, clock, childIndex) by {
      ChildUntouched(table0, tableBefore, vacancies0, vacanciesBefore, stamp, clock, owner, target, child);
    }
    assert Pushed(vacancies0, vacanciesAfter, Below(table0, stamp, clock, target, done + {child})) by {
      BelowInsert(table0, stamp, clock, target, done, child);
      PushedTwice(vacancies0, vacanciesBefore, vacanciesAfter,
                  Below(table0, stamp, clock, target, done), Subtree(table0, stamp, clock, childIndex));
    }
    StrippedStep(table0, tableBefore, tableAfter, vacancies0, vacanciesBefore, vacanciesAfter,
                 stamp, clock, owner, target, done, child);
    PostOrderStep(table0, tableBefore, vacancies0, vacanciesBefore, vacanciesAfter,
                  stamp, clock, owner, target, child);
    assert table0[target].entries - (done + {child}) == table0[target].entries - done - {child};
    assert vacanciesAfter[|vacancies0|..] == vacanciesBefore[|vacancies0|..] + vacanciesAfter[|vacanciesBefore|..] by {
      assert vacanciesAfter[..|vacanciesBefore|] == vacanciesBefore;
    }
  }

  /** The ordering half of that step: the child's subtree, pushed after
      the slots deleted before, is pushed in the order its own recursive
      delete produced, and the nodes below each of its slots are the same as
      before the loop. */
  lemma PostOrderStep(table0: seq<Node>, tableBefore: seq<Node>,
                      vacancies0: seq<nat>, vacanciesBefore: seq<nat>, vacanciesAfter: seq<nat>,
                      stamp: seq<nat>, clock: nat, owner: seq<(nat, string)>, target: nat, child: string)
    requires Wellformed(tableBefore, vacanciesBefore, stamp, clock, owner)
    requires Ranked(table0, stamp, clock) && |table0| == |tableBefore|
    requires IsLink(tableBefore, target, child)
    requires |vacancies0| <= |vacanciesBefore|
    requires forall j :: 0 <= j < |tableBefore| && j != target && j !in vacanciesBefore[|vacancies0|..] ==>
      tableBefore[j] == table0[j]
    requires PostOrder(table0, stamp, clock, vacanciesBefore[|vacancies0|..])
    requires Pushed(vacanciesBefore, vacanciesAfter,
                    Subtree(tableBefore, stamp, clock, tableBefore[target].entries[child]))
    requires PostOrder(tableBefore, stamp, clock, vacanciesAfter[|vacanciesBefore|..])
    ensures PostOrder(table0, stamp, clock, vacanciesAfter[|vacancies0|..])
  {
    var childIndex := tableBefore[target].entries[child];
    ChildUntouched(table0, tableBefore, vacancies0, vacanciesBefore, stamp, clock, owner, target, child);
    var earlier := vacanciesBefore[|vacancies0|..];
    var later := vacanciesAfter[|vacanciesBefore|..];
    var all := vacanciesAfter[|vacancies0|..];
    assert all == earlier + later by {
      assert vacanciesAfter[..|vacanciesBefore|] == vacanciesBefore;
    }
    forall i | 0 <= i < |all|
      ensures all[i] < |table0| && Descendants(table0, stamp, clock, all[i]) <= Elems(all[..i])
    {
      if i < |earlier| {
        assert all[..i] == earlier[..i];
      } else {
        var m := i - |earlier|;
        var y := later[m];
        assert all[i] == y && y in Elems(later);
        SubtreeClosed(tableBefore, stamp, clock, childIndex, y);
        SubtreeFrame(table0, tableBefore, stamp, clock, y);
        DescendantsOfSubtree(table0, stamp, clock, y);
        DescendantsOfSubtree(tableBefore, stamp, clock, y);
        assert all[..i] == earlier + later[..m];
        assert Elems(later[..m]) <= Elems(all[..i]);
      }
    }
  }

  /** The nodes strictly below a slot are its subtree without the slot. */
  lemma DescendantsOfSubtree(table: seq<Node>, stamp: seq<nat>, clock: nat, x: nat)
    requires Ranked(table, stamp, clock) && x < |table|
    ensures Descendants(table, stamp, clock, x) == Subtree(table, stamp, clock, x) - {x}
  {
    SubtreeRank(table, stamp, clock, x);
  }

  /** Pushing a slot after everything below it keeps the post-order. */
  lemma PostOrderPush(table: seq<Node>, vacancies0: seq<nat>, vacancies1: seq<nat>,
                      stamp: seq<nat>, clock: nat, target: nat)
    requires Ranked(table, stamp, clock) && target < |table|
    requires Pushed(vacancies0, vacancies1, Descendants(table, stamp, clock, target))
    requires PostOrder(table, stamp, clock, vacancies1[|vacancies0|..])
    ensures PostOrder(table, stamp, clock, (vacancies1 + [target])[|vacancies0|..])
  {
    var pushed := vacancies1[|vacancies0|..];
    assert (vacancies1 + [target])[|vacancies0|..] == pushed + [target];
    assert (pushed + [target])[..|pushed|] == pushed;
    forall i | 0 <= i < |pushed| ensures (pushed + [target])[..i] == pushed[..i] {
    }
  }

  /** The stripping half of that step: the nodes of the children deleted
      before stay as they were left, and the child just deleted joins them. */
  lemma StrippedStep(table0: seq<Node>, tableBefore: seq<Node>, tableAfter: seq<Node>,
                     vacancies0: seq<nat>, vacanciesBefore: seq<nat>, vacanciesAfter: seq<nat>,
                     stamp: seq<nat>, clock: nat, owner: seq<(nat, string)>,
                     target: nat, done: set<string>, child: string)
    requires Wellformed(tableBefore, vacanciesBefore, stamp, clock, owner)
    requires LinksDeleted(table0, vacancies0, tableBefore, vacanciesBefore, stamp, clock, target, done)
    requires IsLink(table0, target, child) && IsLink(tableBefore, target, child)
    requires Pushed(vacanciesBefore, vacanciesAfter,
                    Subtree(tableBefore, stamp, clock, tableBefore[target].entries[child]))
    requires StrippedOn(tableBefore, tableAfter, Subtree(tableBefore, stamp, clock, tableBefore[target].entries[child]))
    requires |tableAfter| == |tableBefore|
    requires forall j :: 0 <= j < |tableAfter| && j != target && j !in vacanciesAfter[|vacanciesBefore|..] ==>
      tableAfter[j] == tableBefore[j]
    ensures StrippedOn(table0, tableAfter, Below(table0, stamp, clock, target, done + {child}))
  {
    var childIndex := table0[target].entries[child];
    var earlier := Below(table0, stamp, clock, target, done);
    var subtree := Subtree(tableBefore, stamp, clock, childIndex);
    ChildUntouched(table0, tableBefore, vacancies0, vacanciesBefore, stamp, clock, owner, target, child);
    BelowRank(table0, stamp, clock, target, done);
    BelowInsert(table0, stamp, clock, target, done, child);
    forall j | j in earlier
      ensures j < |tableAfter| && tableAfter[j] == Stripped(table0[j])
    {
      assert j in vacanciesBefore[|vacancies0|..];
      assert j in vacanciesBefore;
      assert j !in subtree;
      assert j !in vacanciesAfter[|vacanciesBefore|..];
      assert j != target;
    }
  }

  /** While delete_recursive works through the links of `target`, the
      subtree of a child not yet deleted is the one it had before the loop:
      its nodes are live, so none of them has been vacated, and none is the
      target itself. */
  lemma ChildUntouched(table0: seq<Node>, tableBefore: seq<Node>, vacancies0: seq<nat>, vacanciesBefore: seq<nat>,
                       stamp: seq<nat>, clock: nat, owner: seq<(nat, string)>, target: nat, child: string)
    requires Wellformed(tableBefore, vacanciesBefore, stamp, clock, owner)
    requires Ranked(table0, stamp, clock) && |table0| == |tableBefore|
    requires IsLink(tableBefore, target, child)
    requires |vacancies0| <= |vacanciesBefore|
    requires forall j :: 0 <= j < |tableBefore| && j != target && j !in vacanciesBefore[|vacancies0|..] ==>
      tableBefore[j] == table0[j]
    ensures Subtree(table0, stamp, clock, tableBefore[target].entries[child])
         == Subtree(tableBefore, stamp, clock, tableBefore[target].entries[child])
    ensures forall y :: y in Subtree(tableBefore, stamp, clock, tableBefore[target].entries[child]) ==>
      y !in vacanciesBefore && y < |table0| && table0[y] == tableBefore[y]
  {
    var childIndex := tableBefore[target].entries[child];
    SubtreeLive(tableBefore, vacanciesBefore, stamp, clock, owner, childIndex);
    SubtreeRank(tableBefore, stamp, clock, childIndex);
    forall y | y in Subtree(tableBefore, stamp, clock, childIndex)
      ensures y < |table0| && table0[y] == tableBefore[y]
    {
      assert y !in vacanciesBefore;
      assert y !in vacanciesBefore[|vacancies0|..];
      assert stamp[target] < stamp[y];
    }
    SubtreeFrame(table0, tableBefore, stamp, clock, childIndex);
  }

  /** The subtree strictly below slot `x`. */
  ghost function Descendants(table: seq<Node>, stamp: seq<nat>, clock: nat, x: nat): set<nat>
    requires Ranked(table, stamp, clock) && x < |table|
  {
    if table[x].File? then {} else Below(table, stamp, clock, x, ChildNames(table[x]))
  }

  /** Once the nodes strictly below `target` are stripped, stripping the
      target itself strips its whole subtree. */
  lemma StrippedTop(table0: seq<Node>, table: seq<Node>, stamp: seq<nat>, clock: nat, target: nat)
    requires Ranked(table0, stamp, clock) && target < |table0| && |table| == |table0|
    requires StrippedOn(table0, table, Descendants(table0, stamp, clock, target))
    requires table[target] == Stripped(table0[target])
    ensures StrippedOn(table0, table, Subtree(table0, stamp, clock, target))
  {
  }

  /** Unlinking the target from its parent leaves the stripped subtree as it
      is: the parent was stamped before the target, so it is not in it. */
  lemma UnlinkKeepsStripped(table0: seq<Node>, table1: seq<Node>, stamp: seq<nat>, clock: nat,
                            name: string, parent: nat)
    requires Ranked(table0, stamp, clock) && CanDelete(table0, name, parent) && |table1| == |table0|
    requires table1[parent].Directory?
    requires StrippedOn(table0, table1, Subtree(table0, stamp, clock, table0[parent].entries[name]))
    ensures StrippedOn(table0, table1[parent := Directory(table1[parent].entries - {name})],
                       Subtree(table0, stamp, clock, table0[parent].entries[name]))
  {
    SubtreeRank(table0, stamp, clock, table0[parent].entries[name]);
  }

  /** The last step of delete_recursive: once everything below the target has
      been deleted, the parent still links the target, and unlinking and
      vacating the target keeps the arena well formed and completes the
      vacating of its whole subtree, the target last. */
  lemma FinishDeleteRecursive(table0: seq<Node>, table1: seq<Node>, vacancies0: seq<nat>, vacancies1: seq<nat>,
                              stamp: seq<nat>, clock: nat, owner: seq<(nat, string)>, name: string, parent: nat)
    requires Wellformed(table0, vacancies0, stamp, clock, owner) && CanDelete(table0, name, parent)
    requires Wellformed(table1, vacancies1, stamp, clock, owner) && |table1| == |table0|
    requires Pushed(vacancies0, vacancies1, Descendants(table0, stamp, clock, table0[parent].entries[name]))
    requires forall j :: 0 <= j < |table1| && j != table0[parent].entries[name] && j !in vacancies1[|vacancies0|..] ==>
      table1[j] == table0[j]
    ensures table1[parent] == table0[parent]
    ensures var target := table0[parent].entries[name];
            var table2 := table1[parent := Directory(table1[parent].entries - {name})];
            var vacancies2 := vacancies1 + [target];
            && Wellformed(table2, vacancies2, stamp, clock, owner)
            && |table2| == |table0| && |vacancies0| <= |vacancies2|
            && table2[parent] == Directory(table0[parent].entries - {name})
            && Pushed(vacancies0, vacancies2, Subtree(table0, stamp, clock, target))
            && vacancies2[|vacancies2| - 1] == target
            && forall j :: 0 <= j < |table2| && j != parent && j !in vacancies2[|vacancies0|..] ==>
                 table2[j] == table0[j]
  {
    var target := table0[parent].entries[name];
    SubtreeRank(table0, stamp, clock, target);
    assert parent !in vacancies1[|vacancies0|..] by {
      assert stamp[parent] < stamp[target];
    }
    assert table1[parent] == table0[parent];
    UnlinkKeepsWellformed(table1, vacancies1, stamp, clock, owner, name, parent);
    var vacancies2 := vacancies1 + [target];
    assert vacancies2[..|vacancies0|] == vacancies0 by {
      assert vacancies2[..|vacancies1|] == vacancies1;
    }
    assert vacancies2[|vacancies0|..] == vacancies1[|vacancies0|..] + [target];
  }

  /** Delete undoes create: right after create has linked `name` under a
      live `parent`, unlinking `name` gives the parent back its old entries,
      and pushing the slot back restores the vacancy stack create popped. */
  lemma DeleteUndoesCreate(table: seq<Node>, vacancies: seq<nat>, stamp: seq<nat>, clock: nat,
                           owner: seq<(nat, string)>, name: string, parent: nat, node: Node)
    requires Wellformed(table, vacancies, stamp, clock, owner)
    requires CanCreate(table, name, parent) && parent !in vacancies
    ensures var index := NextSlot(|table|, vacancies);
            var t := Attached(table, name, parent, index, node);
            && CanDelete(t, name, parent) && t[parent].entries[name] == index
            && t[parent].entries - {name} == table[parent].entries
            && (vacancies != [] ==> Popped(vacancies) + [index] == vacancies)
  {
    var index := NextSlot(|table|, vacancies);
    assert IsDirectory(table, parent);
    assert index != parent;
    var t := Attached(table, name, parent, index, node);
    assert t[parent].entries - {name} == table[parent].entries by {
      assert t[parent].entries == table[parent].entries[name := index];
    }
  }

  // ---------------------------------------------------------------------
  // The tree

  class FsTree {
    var nodeTable: seq<Node>
    var vacancies: seq<nat>
    ghost var stamp: seq<nat>
    ghost var clock: nat
    ghost var owner: seq<(nat, string)>

    ghost predicate Valid()
      reads this
    {
      Wellformed(nodeTable, vacancies, stamp, clock, owner)
    }

    /** FsTree::new: one slot, the root directory, and no vacancies. */
    constructor ()
      ensures Valid()
      ensures nodeTable == [RootDirectory()] && vacancies == []
    {
      nodeTable := [RootDirectory()];
      vacancies := [];
      stamp := [0];
      clock := 1;
      owner := [(0, ".")];
    }

    /** FsTree::root: slot 0, the live directory that is its own parent. */
    function Root(): (r: nat)
      reads this
      requires Valid()
      ensures r == 0
      ensures r < |nodeTable| && r !in vacancies && nodeTable[r].Directory?
      ensures "." in nodeTable[r].entries && nodeTable[r].entries["."] == r
      ensures ".." in nodeTable[r].entries && nodeTable[r].entries[".."] == r
    {
      assert IsDirectory(nodeTable, 0);
      0
    }

    /** FsTree::vacate: push a slot onto the vacancy stack. */
    method Vacate(index: nat)
      modifies this`vacancies
      ensures vacancies == old(vacancies) + [index]
    {
      vacancies := vacancies + [index];
    }

    /** FsTree::create_directory: a new directory under `parent`, in the
        slot on top of the vacancy stack or else in a new slot at the end. */
    method CreateDirectory(name: string, parent: nat) returns (r: Result<nat>)
      requires Valid()
      modifies this
      ensures Valid()
      ensures r.Ok? <==> CanCreate(old(nodeTable), name, parent)
      ensures r.Err? ==> r.error == CreateError(old(nodeTable), name, parent)
      ensures r.Err? ==> nodeTable == old(nodeTable) && vacancies == old(vacancies)
      ensures r.Ok? ==> TakesSlot(old(|nodeTable|), old(vacancies), |nodeTable|, vacancies, r.value)
      ensures r.Ok? ==> nodeTable == Attached(old(nodeTable), name, parent, r.value, NewDirectory(parent, r.value))
      ensures r.Ok? && parent !in old(vacancies) ==> r.value != parent
    {
      if parent >= |nodeTable| {
        return Err(OutOfRange);
      }
      if !nodeTable[parent].Directory? {
        return Err(NotADirectory);
      }
      if name in nodeTable[parent].entries {
        return Err(AlreadyExists);
      }
      var index := if vacancies != [] then vacancies[|vacancies| - 1] else |nodeTable|;
      Place(name, parent, index, NewDirectory(parent, index));
      r := Ok(index);
    }

    /** FsTree::create_file: a new, empty file under `parent`, in a slot
        chosen as for create_directory. */
    method CreateFile(name: string, parent: nat) returns (r: Result<nat>)
      requires Valid()
      modifies this
      ensures Valid()
      ensures r.Ok? <==> CanCreate(old(nodeTable), name, parent)
      ensures r.Err? ==> r.error == CreateError(old(nodeTable), name, parent)
      ensures r.Err? ==> nodeTable == old(nodeTable) && vacancies == old(vacancies)
      ensures r.Ok? ==> TakesSlot(old(|nodeTable|), old(vacancies), |nodeTable|, vacancies, r.value)
      ensures r.Ok? ==> nodeTable == Attached(old(nodeTable), name, parent, r.value, NewFile())
      ensures r.Ok? && parent !in old(vacancies) ==> r.value != parent
    {
      if parent >= |nodeTable| {
        return Err(OutOfRange);
      }
      if !nodeTable[parent].Directory? {
        return Err(NotADirectory);
      }
      if name in nodeTable[parent].entries {
        return Err(AlreadyExists);
      }
      var index := if vacancies != [] then vacancies[|vacancies| - 1] else |nodeTable|;
      Place(name, parent, index, NewFile());
      r := Ok(index);
    }

    /** The steps create_directory and create_file share once their checks
        have passed: link `name` to `index` in `parent`, then either reuse
        the vacant slot `index` (popping it off the stack) or append the
        node as a new slot. */
    method Place(name: string, parent: nat, index: nat, node: Node)
      requires Valid() && CanCreate(nodeTable, name, parent)
      requires index == NextSlot(|nodeTable|, vacancies) && Placeable(node, parent, index)
      modifies this
      ensures Valid()
      ensures TakesSlot(old(|nodeTable|), old(vacancies), |nodeTable|, vacancies, index)
      ensures nodeTable == Attached(old(nodeTable), name, parent, index, node)
      ensures parent !in old(vacancies) ==> index != parent
    {
      AttachKeepsWellformed(nodeTable, vacancies, stamp, clock, owner, name, parent, node);
      var parentEntries := nodeTable[parent].entries;
      nodeTable := nodeTable[parent := Directory(parentEntries[name := index])];
      if vacancies != [] {
        nodeTable := nodeTable[index := node];
        vacancies := vacancies[..|vacancies| - 1];
      } else {
        nodeTable := nodeTable + [node];
      }
      assert nodeTable == Attached(old(nodeTable), name, parent, index, node);
      stamp := Put(stamp, index, clock);
      owner := Put(owner, index, (parent, name));
      clock := clock + 1;
    }

    /** FsTree::delete: unlink `name` from `parent` and vacate its slot,
        without looking below it. */
    method Delete(name: string, parent: nat) returns (r: Result<()>)
      requires Valid()
      modifies this`nodeTable, this`vacancies
      ensures Valid()
      ensures r.Ok? <==> CanDelete(old(nodeTable), name, parent)
      ensures r.Err? ==> r.error == DeleteError(old(nodeTable), name, parent)
      ensures r.Err? ==> nodeTable == old(nodeTable) && vacancies == old(vacancies)
      ensures r.Ok? ==> vacancies == old(vacancies) + [old(nodeTable[parent].entries[name])]
      ensures r.Ok? ==>
        nodeTable == old(nodeTable)[parent := Directory(old(nodeTable[parent].entries) - {name})]
    {
      if parent >= |nodeTable| {
        return Err(OutOfRange);
      }
      if !nodeTable[parent].Directory? {
        return Err(NotADirectory);
      }
      if IsReserved(name) {
        return Err(ReservedName);
      }
      var parentEntries := nodeTable[parent].entries;
      if name !in parentEntries {
        return Err(NotFound);
      }
      var removalIndex := parentEntries[name];
      UnlinkKeepsWellformed(nodeTable, vacancies, stamp, clock, owner, name, parent);
      nodeTable := nodeTable[parent := Directory(parentEntries - {name})];
      Vacate(removalIndex);
      r := Ok(());
    }

    /** FsTree::delete_recursive: delete every link of the target depth
        first, then unlink the target and vacate its slot. "." and ".."
        are refused, and their entries are not followed. Each slot is
        vacated after every slot below it, so the target comes last. The vacated slots
        keep their nodes stripped: each directory has only "." and "..",
        each file its text. */
    method DeleteRecursive(name: string, parent: nat) returns (r: Result<()>)
      requires Valid()
      modifies this`nodeTable, this`vacancies
      decreases if parent < |stamp| && stamp[parent] < clock then clock - stamp[parent] else 0, 1
      ensures Valid()
      ensures r.Ok? <==> CanDelete(old(nodeTable), name, parent)
      ensures r.Err? ==> r.error == DeleteError(old(nodeTable), name, parent)
      ensures r.Err? ==> nodeTable == old(nodeTable) && vacancies == old(vacancies)
      ensures |nodeTable| == old(|nodeTable|) && |old(vacancies)| <= |vacancies|
      ensures r.Ok? ==> nodeTable[parent] == Directory(old(nodeTable[parent].entries) - {name})
      ensures r.Ok? ==> Pushed(old(vacancies), vacancies,
                               Subtree(old(nodeTable), stamp, clock, old(nodeTable[parent].entries[name])))
      ensures r.Ok? ==> vacancies[|vacancies| - 1] == old(nodeTable[parent].entries[name])
      ensures r.Ok? ==> StrippedOn(old(nodeTable), nodeTable,
                                   Subtree(old(nodeTable), stamp, clock, old(nodeTable[parent].entries[name])))
      ensures r.Ok? ==> PostOrder(old(nodeTable), stamp, clock, vacancies[|old(vacancies)|..])
      ensures forall j :: 0 <= j < |nodeTable| && j != parent && j !in vacancies[|old(vacancies)|..] ==>
        nodeTable[j] == old(nodeTable[j])
    {
      if parent >= |nodeTable| {
        return Err(OutOfRange);
      }
      if !nodeTable[parent].Directory? {
        return Err(NotADirectory);
      }
      if IsReserved(name) {
        return Err(ReservedName);
      }
      if name !in nodeTable[parent].entries {
        return Err(NotFound);
      }
      assert IsLink(nodeTable, parent, name);
      RemoveLinked(name, parent);
      r := Ok(());
    }

    /** What delete_recursive does once the lookup has found the link `name`
        of `parent`: delete everything below the target, then unlink the
        target and vacate its slot. */
    method RemoveLinked(name: string, parent: nat)
      requires Valid() && CanDelete(nodeTable, name, parent)
      modifies this`nodeTable, this`vacancies
      decreases clock - stamp[parent], 0
      ensures Valid()
      ensures |nodeTable| == old(|nodeTable|) && |old(vacancies)| <= |vacancies|
      ensures nodeTable[parent] == Directory(old(nodeTable[parent].entries) - {name})
      ensures Pushed(old(vacancies), vacancies,
                     Subtree(old(nodeTable), stamp, clock, old(nodeTable[parent].entries[name])))
      ensures vacancies[|vacancies| - 1] == old(nodeTable[parent].entries[name])
      ensures StrippedOn(old(nodeTable), nodeTable,
                         Subtree(old(nodeTable), stamp, clock, old(nodeTable[parent].entries[name])))
      ensures PostOrder(old(nodeTable), stamp, clock, vacancies[|old(vacancies)|..])
      ensures forall j :: 0 <= j < |nodeTable| && j != parent && j !in vacancies[|old(vacancies)|..] ==>
        nodeTable[j] == old(nodeTable[j])
    {
      var removalIndex := nodeTable[parent].entries[name];
      ghost var table0, vacancies0 := nodeTable, vacancies;
      DeleteLinks(removalIndex);
      FinishDeleteRecursive(table0, nodeTable, vacancies0, vacancies, stamp, clock, owner, name, parent);
      UnlinkKeepsStripped(table0, nodeTable, stamp, clock, name, parent);
      PostOrderPush(table0, vacancies0, vacancies, stamp, clock, removalIndex);
      nodeTable := nodeTable[parent := Directory(nodeTable[parent].entries - {name})];
      Vacate(removalIndex);
    }

    /** The part of delete_recursive between the lookup and the unlinking:
        when `target` is a directory, each of its links is deleted
        recursively, in no particular order, leaving the target with only
        "." and ".."; a file is left alone. Either way, exactly the slots
        strictly below the target are pushed onto the vacancy stack, each
        after the slots below it, and every node of the subtree is left
        stripped of its links. */
    method DeleteLinks(target: nat)
      requires Valid() && target < |nodeTable|
      modifies this`nodeTable, this`vacancies
      decreases clock - stamp[target], 3
      ensures Valid()
      ensures |nodeTable| == old(|nodeTable|)
      ensures StrippedOn(old(nodeTable), nodeTable, Subtree(old(nodeTable), stamp, clock, target))
      ensures old(nodeTable[target]).File? ==> nodeTable == old(nodeTable) && vacancies == old(vacancies)
      ensures Pushed(old(vacancies), vacancies, Descendants(old(nodeTable), stamp, clock, target))
      ensures PostOrder(old(nodeTable), stamp, clock, vacancies[|old(vacancies)|..])
      ensures forall j :: 0 <= j < |nodeTable| && j != target && j !in vacancies[|old(vacancies)|..] ==>
        nodeTable[j] == old(nodeTable[j])
    {
      if nodeTable[target].File? {
        assert vacancies[|vacancies|..] == [];
        StrippedTop(nodeTable, nodeTable, stamp, clock, target);
        return;
      }
      ghost var table0, vacancies0 := nodeTable, vacancies;
      var names := ChildNames(nodeTable[target]);
      ghost var done: set<string> := {};
      assert nodeTable[target].entries - done == nodeTable[target].entries;
      assert vacancies[|vacancies0|..] == [];
      while names != {}
        invariant Valid()
        invariant names !! done && names + done == ChildNames(table0[target])
        invariant LinksDeleted(table0, vacancies0, nodeTable, vacancies, stamp, clock, target, done)
        decreases |names|
      {
        var child :| child in names;
        DeleteLink(target, child, table0, vacancies0, done);
        names := names - {child};
        done := done + {child};
      }
      assert done == ChildNames(table0[target]);
      StrippedTop(table0, nodeTable, stamp, clock, target);
    }

    /** One turn of that loop: delete_recursive on the link `child` of
        `target`, which cannot fail since the link is there. Of the target's
        links, those in `done` were deleted before. */
    method DeleteLink(target: nat, child: string, ghost table0: seq<Node>, ghost vacancies0: seq<nat>,
                      ghost done: set<string>)
      requires Valid() && LinksDeleted(table0, vacancies0, nodeTable, vacancies, stamp, clock, target, done)
      requires IsLink(table0, target, child) && child !in done
      modifies this`nodeTable, this`vacancies
      decreases clock - stamp[target], 2
      ensures Valid()
      ensures LinksDeleted(table0, vacancies0, nodeTable, vacancies, stamp, clock, target, done + {child})
    {
      assert IsLink(nodeTable, target, child);
      ghost var tableBefore, vacanciesBefore := nodeTable, vacancies;
      var res := DeleteRecursive(child, target);
      assert res.Ok?;
      DeletedChildStep(table0, tableBefore, nodeTable, vacancies0, vacanciesBefore, vacancies,
                       stamp, clock, owner, target, done, child);
    }

    /** Reading a file's text: get_node followed by File::contents. */
    function ReadFile(index: nat): (r: Result<string>)
      reads this
      ensures r.Ok? <==> index < |nodeTable| && nodeTable[index].File?
      ensures r.Ok? ==> r.value == Contents(nodeTable[index])
      ensures index >= |nodeTable| ==> r == Err(OutOfRange)
      ensures index < |nodeTable| && nodeTable[index].Directory? ==> r == Err(NotAFile)
    {
      if index >= |nodeTable| then Err(OutOfRange)
      else if nodeTable[index].Directory? then Err(NotAFile)
      else Ok(Contents(nodeTable[index]))
    }

    /** Replacing a file's text: get_node_mut followed by a store through
        File::contents_mut. Only that slot changes. */
    method WriteFile(index: nat, text: string) returns (r: Result<()>)
      requires Valid()
      modifies this`nodeTable
      ensures Valid()
      ensures r.Ok? <==> old(index < |nodeTable| && nodeTable[index].File?)
      ensures r.Err? ==> nodeTable == old(nodeTable)
      ensures r.Ok? ==> nodeTable == old(nodeTable)[index := File(text)]
    {
      if index >= |nodeTable| {
        return Err(OutOfRange);
      }
      if !nodeTable[index].File? {
        return Err(NotAFile);
      }
      ReplaceFileKeepsWellformed(nodeTable, vacancies, stamp, clock, owner, index, text);
      nodeTable := nodeTable[index := WithContents(nodeTable[index], text)];
      r := Ok(());
    }
  }

  /** Unlinking a link and vacating its slot keeps the arena well formed:
      nothing else links to that slot, so no link ends at a vacancy. The
      vacated node's own links, if any, still lead to live slots. */
  lemma UnlinkKeepsWellformed(table: seq<Node>, vacancies: seq<nat>, stamp: seq<nat>, clock: nat,
                              owner: seq<(nat, string)>, name: string, parent: nat)
    requires Wellformed(table, vacancies, stamp, clock, owner)
    requires CanDelete(table, name, parent)
    ensures Wellformed(table[parent := Directory(table[parent].entries - {name})],
                       vacancies + [table[parent].entries[name]], stamp, clock, owner)
  {
    var removed := table[parent].entries[name];
    var table' := table[parent := Directory(table[parent].entries - {name})];
    var vacancies' := vacancies + [removed];
    assert removed !in vacancies && 0 < removed < |table|;
    assert FreeListOk(table', vacancies');
    forall d: nat | IsDirectory(table', d)
      ensures "." in table'[d].entries && table'[d].entries["."] == d
      ensures ".." in table'[d].entries && table'[d].entries[".."] < |table'|
    {
      assert IsDirectory(table, d);
    }
    forall d: nat, n | IsLink(table', d, n)
      ensures table'[d].entries[n] < |table'| && stamp[d] < stamp[table'[d].entries[n]]
      ensures table'[d].entries[n] != 0 && table'[d].entries[n] !in vacancies'
      ensures table'[d].entries[n] < |owner| && owner[table'[d].entries[n]] == (d, n)
    {
      assert IsLink(table, d, n) && table'[d].entries[n] == table[d].entries[n];
      assert owner[removed] == (parent, name);
    }
  }

  /** Storing new text in a file slot keeps the arena well formed: a file has no links. */
  lemma ReplaceFileKeepsWellformed(table: seq<Node>, vacancies: seq<nat>, stamp: seq<nat>, clock: nat,
                                   owner: seq<(nat, string)>, index: nat, text: string)
    requires Wellformed(table, vacancies, stamp, clock, owner)
    requires index < |table| && table[index].File?
    ensures Wellformed(table[index := File(text)], vacancies, stamp, clock, owner)
  {
    var table' := table[index := File(text)];
    forall d: nat | IsDirectory(table', d)
      ensures "." in table'[d].entries && table'[d].entries["."] == d
      ensures ".." in table'[d].entries && table'[d].entries[".."] < |table'|
    {
      assert IsDirectory(table, d);
    }
    forall d: nat, n | IsLink(table', d, n)
      ensures table'[d].entries[n] < |table'| && stamp[d] < stamp[table'[d].entries[n]]
      ensures table'[d].entries[n] != 0 && table'[d].entries[n] !in vacancies
      ensures table'[d].entries[n] < |owner| && owner[table'[d].entries[n]] == (d, n)
    {
      assert IsLink(table, d, n);
    }
  }
}
