/** Two behaviours of FsTree::delete and FsTree::delete_recursive as the
    source writes them. Neither operation treats the reserved entries "."
    and ".." specially; the model in module Tree does, and the lemmas here
    show what goes wrong without it. */
module AsWritten {
  import opened Nodes
  import opened Tree

  /** FsTree::delete as written, on the table and the vacancy stack: any
      entry of the parent, reserved or not, is removed and its slot pushed
      onto the stack. The panics for a parent past the table, a file parent
      and a missing entry are the errors. */
  function DeleteAsWritten(table: seq<Node>, vacancies: seq<nat>, name: string, parent: nat)
    : (r: Result<(seq<Node>, seq<nat>)>)
    ensures r.Ok? <==> parent < |table| && table[parent].Directory? && name in table[parent].entries
    ensures r.Ok? ==> |r.value.0| == |table| && r.value.0[parent].Directory?
    ensures r.Ok? ==> name !in r.value.0[parent].entries
    ensures r.Ok? ==> r.value.0[parent].entries == table[parent].entries - {name}
    ensures r.Ok? ==> forall j :: 0 <= j < |table| && j != parent ==> r.value.0[j] == table[j]
    ensures r.Ok? ==> r.value.1 == vacancies + [table[parent].entries[name]]
  {
    if parent >= |table| then Err(OutOfRange)
    else if table[parent].File? then Err(NotADirectory)
    else if name !in table[parent].entries then Err(NotFound)
    else
      var entries := table[parent].entries;
      Ok((table[parent := Directory(entries - {name})], vacancies + [entries[name]]))
  }

  /** Deleting "." from any directory vacates that directory's own slot,
      although the directory stays linked from its parent. */
  lemma DeleteDotVacatesSelf(table: seq<Node>, vacancies: seq<nat>, d: nat)
    requires d < |table| && table[d].Directory?
    requires "." in table[d].entries && table[d].entries["."] == d
    ensures var r := DeleteAsWritten(table, vacancies, ".", d);
            && r.Ok? && r.value.1[|r.value.1| - 1] == d
            && !ReservedEntriesOk(r.value.0)
  {
    var r := DeleteAsWritten(table, vacancies, ".", d);
    assert IsDirectory(r.value.0, d);
  }

  /** On a fresh tree, deleting "." from the root pushes slot 0 onto the
      vacancy stack: the next create_directory or create_file would place
      its node in the root's slot and overwrite the root. */
  lemma DeleteDotOfRootFreesRoot()
    ensures var r := DeleteAsWritten([RootDirectory()], [], ".", 0);
            && r.Ok? && r.value.1 == [0]
            && NextSlot(|r.value.0|, r.value.1) == 0
            && !FreeListOk(r.value.0, r.value.1)
  {
  }

  /** The calls FsTree::delete_recursive(name, parent) makes to itself, as
      written: one per key of the removed directory, reserved or not, each
      with the removed directory as parent, and none for a file. The source
      panics when the parent or the removed slot is past the table, the
      parent is a file or the name is missing, so those are required. */
  function RecursiveCallsAsWritten(table: seq<Node>, name: string, parent: nat): (calls: set<(string, nat)>)
    requires parent < |table| && table[parent].Directory? && name in table[parent].entries
    requires table[parent].entries[name] < |table|
    ensures var target := table[parent].entries[name];
            forall key, d :: (key, d) in calls <==> d == target && table[target].Directory? && key in table[target].entries
  {
    var target := table[parent].entries[name];
    if table[target].Directory? then
      set key | key in table[target].entries :: (key, target)
    else
      {}
  }

  /** delete_recursive(".", d) on a directory `d` whose "." names `d` calls
      delete_recursive(".", d) again. That inner call finds the same "."
      entry, because "." is only removed by the call on "." itself after its
      loop: so no call on `d` can return before a call on "." of `d` has
      returned, and the recursion never ends. */
  lemma DotCallRepeatsItself(table: seq<Node>, d: nat)
    requires d < |table| && table[d].Directory?
    requires "." in table[d].entries && table[d].entries["."] == d
    ensures (".", d) in RecursiveCallsAsWritten(table, ".", d)
  {
  }

  /** Every delete_recursive of a linked directory makes the call
      delete_recursive(".", target), which repeats itself as above: as
      written, no recursive delete of a directory comes back, empty or not. */
  lemma EveryDirectoryDeleteRepeats(table: seq<Node>, vacancies: seq<nat>, stamp: seq<nat>, clock: nat,
                                    owner: seq<(nat, string)>, name: string, parent: nat)
    requires Wellformed(table, vacancies, stamp, clock, owner)
    requires CanDelete(table, name, parent)
    requires table[table[parent].entries[name]].Directory?
    ensures var target := table[parent].entries[name];
            && "." in table[target].entries && table[target].entries["."] == target
            && (".", target) in RecursiveCallsAsWritten(table, name, parent)
            && (".", target) in RecursiveCallsAsWritten(table, ".", target)
  {
    var target := table[parent].entries[name];
    assert IsDirectory(table, target);
  }
}
