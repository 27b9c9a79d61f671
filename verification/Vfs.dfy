/**
 Opening by path: the walk finds or makes the entry, and the node behind it is registered
 under a descriptor.
 */
module Vfs {
  import opened PathWalk
  import opened FdTable

  /** What opening a file comes to: a descriptor, nothing because the node would not open, or an exception. */
  datatype Answer = Descriptor(fd: int) | Unopened | Denied | Thrown(why: Opened)

  class FileSystemTable {
    const paths: FileSystem
    const table: FileTable
    /** The nodes behind the files and directories that have been opened. */
    var nodes: map<nat, Node>

    constructor (paths: FileSystem, table: FileTable)
      requires paths.Valid() && table.Valid()
      ensures Valid() && this.paths == paths && this.table == table && nodes == map[]
    {
      this.paths, this.table, nodes := paths, table, map[];
    }

    ghost predicate Valid()
      reads this, paths, table, table.files.Values
    {
      && paths.Valid() && table.Valid()
      && forall i, j :: i in nodes && j in nodes && i != j ==> nodes[i] != nodes[j]
    }

    /** The node of an entry; one not seen before carries the descriptor that the file system gave it. */
    method NodeOf(id: nat, given: int) returns (node: Node)
      requires Valid()
      modifies this`nodes
      ensures Valid() && nodes == old(nodes)[id := node]
      ensures id in old(nodes) ==> node == old(nodes)[id]
      ensures id !in old(nodes) ==> fresh(node) && node.fd == given && !node.device
    {
      if id in nodes {
        node := nodes[id];
      } else {
        node := new Node(given, false);
        nodes := nodes[id := node];
      }
    }

    /** The node of an entry is open, where it already was or else under the first free descriptor. */
    method Register(id: nat, given: int) returns (fd: int)
      requires Valid()
      modifies this`nodes, table, nodes.Values
      ensures Valid() && id in nodes && nodes == old(nodes)[id := nodes[id]]
      ensures id in old(nodes) ==> nodes[id] == old(nodes)[id]
      ensures id !in old(nodes) ==> fresh(nodes[id])
      ensures Open(table.files, nodes[id]) && fd == nodes[id].fd
      ensures table.files == old(table.files)[fd := nodes[id]]
      ensures FirstFor(old(table.files), nodes[id],
                       Start(old(table.nextFd), if id in old(nodes) then old(nodes[id].fd) else given), fd)
      ensures id in old(nodes) && old(Open(table.files, nodes[id])) ==>
        fd == old(nodes[id].fd) && table.files == old(table.files)
    {
      var node := NodeOf(id, given);
      table.RegisterFd(node);
      fd := node.fd;
    }

    /**
     `open_file`: `opens` and `allowed` are what the node's own open and the permission check say. A file
     that is opened is registered; a file that was made and then refused stays, without a descriptor.
     */
    method OpenFile(path: string, create: bool, given: int, opens: bool, allowed: bool)
      returns (r: Answer, ghost id: nat)
      requires Valid()
      modifies this`nodes, paths, table, nodes.Values
      ensures Valid() && Extends(old(paths.tree), paths.tree)
      ensures !create ==> paths.tree == old(paths.tree)
      ensures create ==> (r.Thrown? <==> FileAt(old(paths.tree), paths.root, path).Blocked?)
      ensures match FileAt(paths.tree, paths.root, path)
        case Ok(_) => if !opens then r == Unopened else if !allowed then r == Denied else r.Descriptor?
        case why => r == Thrown(why)
      ensures r.Descriptor? ==>
        && FileAt(paths.tree, paths.root, path) == Ok(id) && id in nodes && nodes == old(nodes)[id := nodes[id]]
        && (id in old(nodes) ==> nodes[id] == old(nodes)[id]) && (id !in old(nodes) ==> fresh(nodes[id]))
        && Open(table.files, nodes[id]) && r.fd == nodes[id].fd && table.files == old(table.files)[r.fd := nodes[id]]
        && (id in old(nodes) && old(Open(table.files, nodes[id])) ==> r.fd == old(nodes[id].fd))
        && FirstFor(old(table.files), nodes[id],
                    Start(old(table.nextFd), if id in old(nodes) then old(nodes[id].fd) else given), r.fd)
      ensures !r.Descriptor? ==> table.files == old(table.files) && nodes == old(nodes)
    {
      id := 0;
      var target := paths.OpenFile(path, create);
      if !target.Ok? {
        return Thrown(target), 0;
      }
      if !opens {
        return Unopened, 0;
      }
      if !allowed {
        return Denied, 0;
      }
      id := target.id;
      var fd := Register(target.id, given);
      r := Descriptor(fd);
    }

    /** `open_directory`: a directory that is found or made is registered, except for the root under its own names. */
    method OpenDirectory(path: string, create: bool, given: int) returns (r: Opened)
      requires Valid()
      modifies this`nodes, paths, table, nodes.Values
      ensures Valid() && Extends(old(paths.tree), paths.tree) && r == DirectoryAt(paths.tree, paths.root, path)
      ensures !create || !r.Ok? ==> paths.tree == old(paths.tree)
      ensures r.Ok? && path != "" && path != "/" ==>
        && r.id in nodes && nodes == old(nodes)[r.id := nodes[r.id]]
        && (r.id in old(nodes) ==> nodes[r.id] == old(nodes)[r.id])
        && Open(table.files, nodes[r.id]) && table.files == old(table.files)[nodes[r.id].fd := nodes[r.id]]
        && (r.id in old(nodes) && old(Open(table.files, nodes[r.id])) ==> table.files == old(table.files))
        && FirstFor(old(table.files), nodes[r.id],
                    Start(old(table.nextFd), if r.id in old(nodes) then old(nodes[r.id].fd) else given), nodes[r.id].fd)
      ensures !r.Ok? || path == "" || path == "/" ==> table.files == old(table.files) && nodes == old(nodes)
    {
      r := paths.OpenDirectory(path, create);
      if r.Ok? && path != "" && path != "/" {
        var fd := Register(r.id, given);
      }
    }

    /** A file that was opened, and made if need be, is found again under the same descriptor. */
    method OpenTwice(path: string, given: int, given': int) returns (first: Answer, second: Answer)
      requires Valid()
      modifies this`nodes, paths, table, nodes.Values
      ensures Valid() && first == second
      ensures first.Descriptor? <==> !FileAt(old(paths.tree), paths.root, path).Blocked?
    {
      ghost var id, id';
      first, id := OpenFile(path, true, given, true, true);
      second, id' := OpenFile(path, false, given', true, true);
    }
  }
}
