/** The two node variants stored in the filesystem arena.

    A directory maps names to arena indices and always carries the two
    reserved entries "." (itself) and ".." (its parent); a file owns its
    text. Indices are plain naturals: the arena is the sole owner of every
    node, so directory entries are non-owning handles. */
module Nodes {

  /** The two names every directory carries for itself and its parent. */
  predicate IsReserved(name: string) {
    name == "." || name == ".."
  }

  datatype Node = Directory(entries: map<string, nat>) | File(contents: string)

  /** A directory stored at index `self` whose parent is `parent`
      (Directory::new). It holds the two reserved entries and nothing else. */
  function NewDirectory(parent: nat, self: nat): (d: Node)
    ensures d.Directory?
    ensures d.entries.Keys == {".", ".."}
    ensures "." in d.entries && d.entries["."] == self
    ensures ".." in d.entries && d.entries[".."] == parent
  {
    Directory(map[".." := parent, "." := self])
  }

  /** The root directory (Directory::default): its own parent. */
  function RootDirectory(): (d: Node)
    ensures d == NewDirectory(0, 0)
  {
    Directory(map[".." := 0, "." := 0])
  }

  /** A freshly created file (File::new) holds no text. */
  function NewFile(): (f: Node)
    ensures f.File? && Contents(f) == ""
  {
    File("")
  }

  /** Read access to a file's text (File::contents). */
  function Contents(f: Node): string
    requires f.File?
  {
    f.contents
  }

  /** The file after its text has been replaced through File::contents_mut:
      it is still a file and reads back exactly what was stored. */
  function WithContents(f: Node, text: string): (g: Node)
    requires f.File?
    ensures g.File? && Contents(g) == text
  {
    f.(contents := text)
  }
}
