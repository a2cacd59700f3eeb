# Arena-backed filesystem tree

This project models `FsTree`, the in-memory filesystem behind a
browser-based terminal emulator (`src/fs.rs`), and proves properties of it
in Dafny.

An `FsTree` is a growable table of nodes addressed by index, together with a
stack of vacated slot numbers. Slot 0 holds the root directory. A node is
either a directory or a file:

- A directory maps names to slot indices. It always holds `"."`, naming its
  own slot, and `".."`, naming its parent's slot.
- A file holds text.

The operations modelled are:

- `new` and `root`.
- `create_directory` and `create_file`. These take the most recently
  vacated slot, or else append a slot, and link the new node under its
  parent.
- `delete`. It unlinks one entry and pushes its slot onto the vacancy stack.
- `delete_recursive`. It first deletes everything below a directory, depth
  first, then unlinks and vacates the directory itself.
- Reading and writing a file's text, through `get_node` / `get_node_mut`
  and `File::contents` / `File::contents_mut`.

The project has four modules:

- `Nodes` (`nodes.dfy`): the node values, as a datatype with pure
  constructors.
- `Tree` (`tree.dfy`): the class `FsTree`. Its fields are `nodeTable`
  (a `seq<Node>`) and `vacancies` (a `seq<nat>` used as a stack). Its
  methods update those fields in place, as the source's methods do.
- `Scenarios` (`scenarios.dfy`): short client sessions. They show what the
  contracts imply together: text read-back, last-in first-out slot reuse,
  and a recursive delete.
- `AsWritten` (`as_written.dfy`): the two behaviours listed under Findings,
  modelled as the source writes them.

**Errors.** The source's `FsError` has no variants, and every failing
branch panics (`unimplemented!()`, or a `Vec` index past the end). The model
turns each panic into an error result. The error datatype `FsError` has six
variants: `OutOfRange`, `NotADirectory`, `NotAFile`, `AlreadyExists`,
`NotFound` and `ReservedName`. Each operation:

- succeeds exactly when the source would not panic;
- names the error otherwise;
- leaves the tree unchanged on error.

The model departs from the source in two places, both corrections of
Findings below:

- `Delete` and `DeleteRecursive` refuse a name of "." or ".." with
  `ReservedName`, where the source goes ahead (Finding 1).
- The loop of `DeleteRecursive` descends only into entries other than "."
  and "..", and so returns; the source's loop also descends into "." and
  never returns on a directory (Finding 2).

**Stale indices.** The source never checks whether an index names a vacant
slot, and it never empties a vacated slot. A slot vacated by `delete` keeps
its node as it was. A slot vacated by `delete_recursive` keeps its node
stripped of links: a directory keeps only "." and "..", a file keeps its
text. Nothing clears a vacated slot: it changes only through an operation
that names its index (a create, delete or write given the stale index) or
through a create that reuses it. The model does the same, with no liveness
preconditions.

**The invariant.** The invariant (`Tree.Wellformed`) therefore holds over
every slot, live or vacant:

- slot 0 is a directory whose `".."` is 0;
- every directory maps `"."` to itself and `".."` into the table;
- the vacancy stack is duplicate-free and never holds 0;
- every link (an entry other than `"."` and `".."`) leads to a live slot
  other than the root, and to no slot that is linked from anywhere else.

**Ghost fields.** Two ghost fields carry what the source leaves implicit.
`stamp` records when each slot was filled, and it grows along every link.
That makes the tree acyclic and gives recursive deletion its termination
measure. `owner` records the single entry that links each slot.

**Behaviours kept as the code has them:**

- Plain `delete` of a non-empty directory succeeds. Its subtree stays in the
  table, unreachable from the root; no error is raised for it.
- Vacated slots are not emptied.
- A vacant parent index is not rejected.

## Model

| member | source | states |
|---|---|---|
| Nodes.NewDirectory | src/fs.rs:29-33 | a new directory holds exactly the two entries "." and ".."; "." names its own slot and ".." its parent |
| Nodes.RootDirectory | src/fs.rs:47-53 | the default directory is the new directory of slot 0 whose parent is slot 0 |
| Nodes.NewFile | src/fs.rs:62-65 | a new file is a file and its contents are empty |
| Nodes.WithContents | src/fs.rs:67-69 | after its text is replaced through contents_mut, the node is still a file and reads back exactly the text stored |
| Tree.Attached | src/fs.rs:153-172 | the table after a create: the new node sits in the chosen slot; the parent's entries are its old entries plus name mapped to that slot; every other slot is unchanged; the table grows only when the slot is new |
| Tree.SubtreeRank | src/fs.rs:220-243 | every node reached below x is in the table and was filled no earlier than x, and those strictly below x later, so the recursion of delete_recursive goes strictly downwards |
| Tree.SubtreeLive | src/fs.rs:220-243 | below a live node every node is live, and none but the top is the root, so a recursive delete never vacates the root or a slot twice |
| Tree.SubtreeFrame | src/fs.rs:229-233 | the subtree below a node depends only on the slots in it |
| Tree.BelowInsert | src/fs.rs:229-233 | taking one more child into account adds exactly that child's subtree to what lies below |
| Tree.SubtreeClosed | src/fs.rs:229-233 | the subtree of any node in a subtree lies inside that subtree |
| Tree.DescendantsOfSubtree | src/fs.rs:229-234 | the nodes strictly below a slot are exactly its subtree without the slot itself |
| Tree.PostOrderStep | src/fs.rs:231-233 | one turn of the loop keeps the vacancy stack in post-order: the child's subtree, pushed after the earlier children's, comes in the order its own recursive delete produced, and what lies below each of its slots has not changed |
| Tree.PostOrderPush | src/fs.rs:236-240 | vacating the target after everything below it keeps the pushed slots in post-order |
| Tree.AttachRanked | src/fs.rs:153-172 | linking a new node under a parent keeps creation times growing along every link |
| Tree.AttachLinksOk | src/fs.rs:153-172 | the slot create takes is never the root and no link leads to it, and after the create every link still leads to a live slot with a single owner |
| Tree.AttachReservedOk | src/fs.rs:153-172 | after a create every directory still maps "." to itself and ".." into the table |
| Tree.AttachKeepsWellformed | src/fs.rs:141-204 | create keeps the arena well formed, and a live parent never receives its own slot |
| Tree.PushedTwice | src/fs.rs:229-233 | two runs of pushes onto the vacancy stack push the union of what each pushed |
| Tree.BelowRank | src/fs.rs:229-233 | every node below a directory through any of its links was filled later than the directory |
| Tree.ChildUntouched | src/fs.rs:229-233 | while the loop runs, the subtree of a child not yet visited is the one it had before the loop, its slots are live and none of them has changed |
| Tree.StrippedStep | src/fs.rs:231-233 | one turn of the loop keeps every node below the children deleted before stripped, and adds the stripped subtree of the child just deleted |
| Tree.StrippedTop | src/fs.rs:229-234 | once everything strictly below the target is stripped, stripping the target strips its whole subtree |
| Tree.UnlinkKeepsStripped | src/fs.rs:236-239 | unlinking the target from its parent does not touch the stripped subtree, since the parent is not in it |
| Tree.DeletedChildStep | src/fs.rs:231-233 | one turn of the loop extends the set of deleted children by one, pushing exactly that child's subtree, each slot after those below it, leaving it stripped, and changing no slot outside it but the target |
| Tree.FinishDeleteRecursive | src/fs.rs:236-240 | after the loop, unlinking and vacating the target keeps the arena well formed and completes the pushing of the whole subtree, with the target last |
| Tree.DeleteUndoesCreate | src/fs.rs:206-218 | deleting the name just created restores the parent's entries, and pushing the slot back restores the vacancy stack create popped |
| Tree.UnlinkKeepsWellformed | src/fs.rs:206-218 | unlinking a link and vacating its slot keeps the arena well formed |
| Tree.ReplaceFileKeepsWellformed | src/fs.rs:67-69 | replacing a file's text keeps the arena well formed |
| Tree.FsTree.constructor | src/fs.rs:104-109 | a new tree is well formed, holds one slot with the root directory, and has no vacancies |
| Tree.FsTree.Root | src/fs.rs:119-121 | the root is slot 0, a live directory in the table whose "." and ".." both name itself |
| Tree.FsTree.Vacate | src/fs.rs:123-125 | vacating pushes the slot onto the top of the vacancy stack |
| Tree.FsTree.CreateDirectory | src/fs.rs:141-173 | succeeds exactly when parent is an existing directory without the name, and otherwise fails with the matching error and no change. On success: the index is the top of the vacancy stack, which is popped with the table length unchanged, or else the old table length, with the table grown by one; the new directory holds exactly "." for itself and ".." for parent; parent gains exactly the new name, unless the slot taken is parent itself, which is then overwritten and the link lost; no other slot changes; the tree stays well formed |
| Tree.FsTree.CreateFile | src/fs.rs:175-204 | as CreateDirectory, with an empty file in the new slot |
| Tree.FsTree.Place | src/fs.rs:153-172 | the shared second half of both creates: the node lands in the slot the LIFO rule picks and is linked under parent, and the tree stays well formed |
| Tree.FsTree.Delete | src/fs.rs:206-218 | succeeds exactly when parent is a directory holding name as a link, and otherwise fails with the matching error and no change. On success: exactly that key leaves parent's entries; the removed index is pushed on the vacancy stack; no other slot and not the table length changes; the tree stays well formed |
| Tree.FsTree.DeleteRecursive | src/fs.rs:220-243 | succeeds exactly when Delete would. On success: name leaves parent's entries; exactly the nodes of the target's subtree are pushed on the vacancy stack, each after every node below it, so the target comes last; each of those slots keeps its node stripped, a directory with only "." and "..", a file with its text; no slot outside the subtree but parent changes; the table length is unchanged; the tree stays well formed |
| Tree.FsTree.RemoveLinked | src/fs.rs:229-240 | what delete_recursive does after the lookup: the name leaves parent's entries; exactly the target's subtree is pushed, each node after every node below it and the target last; each of those slots is left stripped; no other slot but parent changes; the tree stays well formed |
| Tree.FsTree.DeleteLinks | src/fs.rs:229-234 | for a directory, every link is deleted recursively; exactly the nodes strictly below the target are pushed, each after every node below it; every node of the target's subtree, the target included, is left stripped: directories with only "." and "..", files with their text; for a file nothing changes |
| Tree.FsTree.DeleteLink | src/fs.rs:231-233 | one recursive call of the loop succeeds and extends the deleted children by that child |
| Tree.FsTree.ReadFile | src/fs.rs:71-73 | reading succeeds exactly on an existing file slot and returns its contents, as `Nodes.Contents` (File::contents) gives them; it is OutOfRange past the table and NotAFile on a directory |
| Tree.FsTree.WriteFile | src/fs.rs:67-69 | writing succeeds exactly on an existing file slot, replaces that slot's text and nothing else, and keeps the tree well formed |
| Scenarios.WriteThenRead | src/fs.rs:67-73 | a new file, written with any text, reads back exactly that text |
| Scenarios.ReuseIsLastInFirstOut | src/fs.rs:153-160 | after two slots are vacated in turn, the next two creates receive them in the reverse order |
| Scenarios.CreateTwoDeleteTwo | src/fs.rs:206-218 | deleting the two children of the root in turn leaves the root with only "." and ".." and the vacancy stack holding their slots in deletion order |
| Scenarios.CreateTwo | src/fs.rs:161-171 | two creates on a fresh tree append slots 1 and 2 and link both names under the root |
| Scenarios.DeleteHomeRecursively | src/fs.rs:220-243 | recursively deleting home from root/home/user/notes vacates exactly those three slots, in the order notes, user, home, and leaves the root with only "." and ".."; the vacated user keeps only "." and "..", and the vacated notes is still the empty file |
| Scenarios.BuildHome | src/fs.rs:220-243 | in the tree root/home/user/notes, the subtree of home is exactly its three slots and notes is all that lies below user; user holds only notes besides "." and "..", and notes is the empty file |
| Scenarios.CreateHome | src/fs.rs:141-204 | creating home, user and the file notes on a fresh tree fills slots 1, 2 and 3 and links each under the previous one |
| Scenarios.ChainInPostOrder | src/fs.rs:231-240 | three slots vacated without repeats and in post-order, with notes all that lies below user and home last, were vacated as notes, user, home |
| Scenarios.StrippedHome | src/fs.rs:229-240 | after the recursive delete of home, the vacated user keeps only "." and ".." and the vacated notes is still the empty file |
| Scenarios.SubtreeOfFile | src/fs.rs:229 | a file's subtree is the file alone |
| Scenarios.SubtreeOfOnlyChild | src/fs.rs:229-233 | the subtree of a directory with one link is the directory plus that child's subtree |
| AsWritten.DeleteAsWritten | src/fs.rs:206-218 | delete as written: it succeeds exactly on an entry of a directory in the table, reserved or not; it removes exactly that entry from the parent, changes no other slot, and pushes the removed slot |
| AsWritten.DeleteDotVacatesSelf | src/fs.rs:211-215 | as written, deleting "." from a directory pushes the directory's own slot and breaks the "." invariant |
| AsWritten.DeleteDotOfRootFreesRoot | src/fs.rs:211-215 | as written, deleting "." from the root of a fresh tree pushes slot 0, which the next create would take |
| AsWritten.RecursiveCallsAsWritten | src/fs.rs:229-233 | the recursive calls the loop makes as written: a call (key, d) is made exactly when d is the removed slot, it holds a directory, and key is one of its entries, reserved or not; a file makes none. A removed slot past the table panics in the source and is required away |
| AsWritten.DotCallRepeatsItself | src/fs.rs:229-233 | as written, delete_recursive(".", d) calls delete_recursive(".", d) again; that call finds the same "." entry, since "." is only removed by the "." call itself after its loop |
| AsWritten.EveryDirectoryDeleteRepeats | src/fs.rs:229-233 | as written, every recursive delete of a linked directory calls delete_recursive(".", target), whose "." names the target, so it reaches that self-repeating call |

## Left out

- `Directory::execute` and `File::execute` (src/fs.rs:42-44, 75-82) are not modelled. They are unimplemented, and their intended behaviour is a JavaScript `eval` foreign call.
- `move_entry` and `is_child` (src/fs.rs:127-139) are not modelled. Their bodies are unimplemented, so there is no behaviour to model.
- `Directory::children` and `DirEntry` (src/fs.rs:14-17, 35-40) are not modelled. They form an iterator that no operation of the tree uses.
- `lookup_path` and `iter_dir` are called from src/programs.rs but are defined nowhere. They are not part of this model.
- Serialization derives, `Rc<str>` name sharing and `JsProgramResult` are left out. Names are plain strings, and a directory's `HashMap` is a map.
- The UI (src/main.rs, src/components.rs), the shell built-ins (src/programs.rs) and the type declarations of src/lib.rs are not part of this model.
- Panics are modelled as error results. This includes an index past the end of the table, which becomes `OutOfRange`.
- `FsNodeIndex` is modelled as a `nat`. Since the table is unbounded, `usize` overflow is not modelled.
- `HashMap` iteration order in `delete_recursive` is not modelled. The loop picks the next name by nondeterministic choice, so the proof covers every order.
- Tree.FsTree.DeleteRecursive: its contract covers the corrected loop, which skips "." and ".." (Finding 2). The source's loop does not terminate on any directory.
- Tree.FsTree.DeleteRecursive: it refuses a top-level "." or ".." with `ReservedName`, where the source goes ahead. The case this drops is a ".." that names a file: create "a" (slot 1) under the root and "b" (slot 2) under "a", `delete("a", 0)`, then `create_file("f", 0)`, which reuses slot 1. Now "b"'s ".." names the file "f". The source's `delete_recursive("..", 2)` takes the file path, removes ".." from "b" and vacates slot 1 while the root still links "f". The model returns `ReservedName`.
- Tree.FsTree.Delete: it refuses "." and ".." with `ReservedName` (Finding 1). The source accepts them.

## Findings

| source | as written | input that shows it | evidently intended | confidence | as-written member | corrected member |
|---|---|---|---|---|---|---|
| src/fs.rs:206-218 | `delete` removes any entry of the parent, including "." and "..", and vacates the slot it names | `delete(".", root())` on a new tree: slot 0 is pushed on the vacancy stack, so the next create overwrites the root; in general `delete(".", d)` vacates `d` while its parent still links it | "." and ".." are never deleted by name; `delete` refuses them, so the root is never vacated and every vacated slot is unlinked | not executed | AsWritten.DeleteDotOfRootFreesRoot | Tree.FsTree.Delete |
| src/fs.rs:229-233 | the loop of `delete_recursive` calls itself for every key of the directory, including "." and ".." | `delete_recursive("home", root())` where home is a directory: the loop calls `delete_recursive(".", home)`, whose loop calls `delete_recursive(".", home)` again. Each such call finds "." still naming home, because "." is only removed by a "." call itself after its loop. So no call on home returns before a "." call on home has returned, and the recursion never ends | the loop descends only into entries other than "." and "..", and terminates | not executed | AsWritten.DotCallRepeatsItself | Tree.FsTree.DeleteLinks |
