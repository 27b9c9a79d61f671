/**
 The file system's table of open nodes. A node carries its own descriptor, which is also
 its key in the table; descriptors 0 to 2 belong to the standard streams of each task.
 */
module FdTable {

  class Node {
    var fd: int
    const device: bool

    constructor (fd: int, device: bool)
      ensures this.fd == fd && this.device == device
    {
      this.fd, this.device := fd, device;
    }
  }

  /** The keys at or above `fd`, which bound the search for a free one. */
  ghost function From(files: map<int, Node>, fd: int): set<int> {
    set k | k in files && k >= fd
  }

  lemma FromNext(files: map<int, Node>, fd: int)
    requires fd in files
    ensures |From(files, fd + 1)| < |From(files, fd)|
  {
    assert fd in From(files, fd);
    assert From(files, fd + 1) == From(files, fd) - {fd};
  }

  /** Every descriptor from `lo` up to `hi` is in use. */
  ghost predicate Taken(files: map<int, Node>, lo: int, hi: int) {
    forall k :: lo <= k < hi ==> k in files
  }

  lemma TakenBefore(files: map<int, Node>, fd: int, node: Node, hi: int)
    requires Taken(files[fd := node], fd + 1, hi)
    ensures Taken(files, fd + 1, hi)
  {
    assert forall k :: k in files[fd := node] && k > fd ==> k in files;
  }

  /** The node sits in the table under its own descriptor. */
  ghost predicate Open(files: map<int, Node>, node: Node)
    reads node
  {
    node.fd in files && files[node.fd] == node
  }

  /** `fd` is the first descriptor from `start` on that is free or the node's own. */
  ghost predicate FirstFor(files: map<int, Node>, node: Node, start: int, fd: int) {
    && fd >= start && (fd in files ==> files[fd] == node)
    && forall k :: start <= k < fd ==> k in files && files[k] != node
  }

  /** Where the search for a descriptor starts: at the node's own, if it carries one. */
  function Start(nextFd: int, fd: int): int {
    if fd < 0 then nextFd else fd
  }

  class FileTable {
    var files: map<int, Node>
    var nextFd: int

    constructor ()
      ensures Valid() && Reserving() && files == map[]
    {
      files, nextFd := map[], 3;
    }

    /** Every entry holds a node that carries the entry's own key, which is a proper descriptor. */
    ghost predicate Valid()
      reads this, files.Values
    {
      nextFd >= 0 && forall k :: k in files ==> k >= 0 && files[k].fd == k
    }

    /** Nothing reaches into the descriptors of the standard streams. */
    ghost predicate Reserving()
      reads this
    {
      nextFd >= 3 && forall k :: k in files ==> k >= 3
    }

    /** Moves the node up to the first descriptor that is free or already its own, and enters it there. */
    method AddFd(node: Node) returns (fd: int)
      requires Valid() && node.fd >= 0
      modifies this`files, node`fd
      ensures Valid() && fd == node.fd >= old(node.fd)
      ensures files == old(files)[fd := node]
      ensures fd in old(files) ==> old(files)[fd] == node && fd == old(node.fd)
      ensures forall k :: old(node.fd) <= k < fd ==> k in old(files) && old(files)[k] != node
    {
      hide From;
      ghost var start := node.fd;
      while node.fd in files && files[node.fd] != node
        invariant node.fd >= start && files == old(files)
        invariant forall k :: k in files ==> k >= 0 && (files[k].fd == k || files[k] == node)
        invariant forall k :: start <= k < node.fd ==> k in files && files[k] != node
        invariant node.fd == start || forall k :: k in files ==> files[k] != node
        decreases |From(files, node.fd)|
      {
        FromNext(files, node.fd);
        node.fd := node.fd + 1;
      }
      if node.fd !in files {
        files := files[node.fd := node];
      }
      fd := node.fd;
    }

    /** The node ends up open under the first free descriptor; what was open stays where it was. */
    method RegisterFd(node: Node)
      requires Valid()
      modifies this, node`fd
      ensures Valid() && Open(files, node) && files == old(files)[node.fd := node]
      ensures nextFd == node.fd + 1
      ensures FirstFor(old(files), node, Start(old(nextFd), old(node.fd)), node.fd)
      ensures node.fd in old(files) <==> old(Open(files, node))
      ensures old(Open(files, node)) ==> node.fd == old(node.fd) && files == old(files)
      ensures old(Reserving()) ==> (Reserving() <==> old(node.fd) < 0 || old(node.fd) >= 3)
    {
      if node.fd < 0 {
        node.fd := nextFd;
      }
      var fd := AddFd(node);
      nextFd := fd + 1;
    }

    /**
     Closing a file. The table stays right exactly when the file is a device that is not in
     the table or any other file with a proper descriptor; no other node loses its entry
     exactly when the file is a device, is open, or has a descriptor that is not in use.
     */
    method CloseFile(node: Node)
      requires Valid()
      modifies this, node`fd
      ensures node.fd == -1
      ensures files == if node.device then old(files) else old(files) - {old(node.fd)}
      ensures nextFd == if node.device then old(nextFd) else old(node.fd)
      ensures Valid() <==> if node.device then !old(Open(files, node)) else old(node.fd) >= 0
      ensures (forall k :: k in old(files) && k !in files ==> old(files)[k] == node) <==>
              node.device || old(node.fd) !in old(files) || old(Open(files, node))
      ensures old(Reserving()) ==> (Reserving() <==> node.device || old(node.fd) >= 3)
    {
      if !node.device {
        var vid := node.fd;
        files := files - {vid};
        nextFd := vid;
      }
      node.fd := -1;
    }

    /** The first descriptor from `nextFd` on that is not in use. */
    method FreeFd() returns (fd: int)
      ensures fd >= nextFd && fd !in files && Taken(files, nextFd, fd)
    {
      fd := nextFd;
      while fd in files
        invariant fd >= nextFd && Taken(files, nextFd, fd)
        decreases |From(files, fd)|
      {
        FromNext(files, fd);
        fd := fd + 1;
      }
    }

    /** Two new nodes under the first two free descriptors. */
    method MkPipe() returns (first: Node, second: Node)
      requires Valid()
      modifies this
      ensures Valid() && fresh(first) && fresh(second) && first != second
      ensures first.fd !in old(files) && second.fd !in old(files) && old(nextFd) <= first.fd < second.fd
      ensures files == old(files)[first.fd := first][second.fd := second]
      ensures nextFd == second.fd + 1 && !first.device && !second.device
      ensures Taken(old(files), old(nextFd), first.fd) && Taken(old(files), first.fd + 1, second.fd)
      ensures old(Reserving()) ==> Reserving()
    {
      hide Taken;
      var firstFd := FreeFd();
      first := new Node(firstFd, false);
      RegisterFd(first);
      assert first.fd == firstFd;
      var secondFd := FreeFd();
      TakenBefore(old(files), firstFd, first, secondFd);
      second := new Node(secondFd, false);
      RegisterFd(second);
      assert second.fd == secondFd;
    }

    /** The table, and the descriptors that the nodes of `known` carry. */
    ghost function Snapshot(known: set<Node>): Snap
      reads this, known
    {
      Snap(files, nextFd, map n | n in known :: n.fd)
    }

    method ServePipe(ghost known: set<Node>) returns (ghost known': set<Node>)
      requires Valid() && Reserving() && files.Values <= known
      modifies this
      ensures Valid() && Reserving() && files.Values <= known'
      ensures known <= known' && fresh(known' - known)
      ensures Step(old(Snapshot(known)), Pipe, Snapshot(known'))
    {
      hide Taken;
      var first, second := MkPipe();
      known' := known + {first, second};
      assert PipeAdded(old(Snapshot(known)), Snapshot(known'), first.fd, second.fd);
    }

    /** Closing by descriptor, as a system call does, or by node; devices are not closed. */
    method ServeClose(node: Node, ghost known: set<Node>)
      requires Valid() && Reserving() && files.Values <= known && node in known
      requires !node.device && Open(files, node)
      modifies this, node
      ensures Valid() && Reserving() && files.Values <= known
      ensures Snapshot(known) == Removed(old(Snapshot(known)), old(node.fd))
    {
      CloseFile(node);
    }

    /**
     One request. Registrations ask for no descriptor or one from 3 on; only open files that
     are not devices are closed.
     */
    method Serve(q: Request, ghost known: set<Node>) returns (ghost known': set<Node>)
      requires Valid() && Reserving() && Named(q) <= known && files.Values <= known
      modifies this, known
      ensures Valid() && Reserving() && files.Values <= known'
      ensures known <= known' && fresh(known' - known)
      ensures Step(old(Snapshot(known)), q, Snapshot(known'))
    {
      known' := known;
      match q
      case Register(node) =>
        if node.fd < 0 || node.fd >= 3 {
          RegisterFd(node);
        }
      case Close(node) =>
        if !node.device && node.fd in files && files[node.fd] == node {
          ServeClose(node, known);
        }
      case CloseFd(fd) =>
        if fd in files && !files[fd].device {
          ServeClose(files[fd], known);
        }
      case Pipe =>
        known' := ServePipe(known);
    }

    /**
     Any run of registrations, closes of open files and pipes, also of what was made on the way:
     each does what it should, and in every state each key is 3 or above and its node carries it.
     */
    method Run(qs: seq<Request>) returns (ghost history: seq<Snap>, ghost known: set<Node>)
      requires Valid() && Reserving()
      modifies this, AllNamed(qs), files.Values
      ensures Valid() && Reserving() && Kept(qs, history) && AllNamed(qs) <= known
      ensures history[0] == old(Snapshot(AllNamed(qs) + files.Values)) && history[|qs|] == Snapshot(known)
    {
      known := AllNamed(qs) + files.Values;
      history := [Snapshot(known)];
      for i := 0 to |qs|
        invariant Valid() && Reserving() && Kept(qs[..i], history)
        invariant AllNamed(qs) <= known && files.Values <= known && fresh(known - old(AllNamed(qs) + files.Values))
        invariant history[0] == old(Snapshot(AllNamed(qs) + files.Values)) && history[i] == Snapshot(known)
      {
        assert qs[i] in qs;
        assert Named(qs[i]) <= AllNamed(qs);
        known := Serve(qs[i], known);
        KeptMore(qs, history, i, Snapshot(known));
        history := history + [Snapshot(known)];
      }
      assert qs[..|qs|] == qs;
    }
  }

  datatype Request = Register(node: Node) | Close(node: Node) | CloseFd(fd: int) | Pipe

  function Named(q: Request): set<Node> {
    match q
    case Register(node) => {node}
    case Close(node) => {node}
    case CloseFd(_) => {}
    case Pipe => {}
  }

  function AllNamed(qs: seq<Request>): set<Node> {
    set q, n | q in qs && n in Named(q) :: n
  }

  /** A state of a run: the table, and what all the nodes in play carry. */
  datatype Snap = Snap(files: map<int, Node>, nextFd: int, fds: map<Node, int>)

  /** Each key is past the standard streams' and its node carries it. */
  ghost predicate Good(s: Snap) {
    && s.nextFd >= 3
    && forall k :: k in s.files ==> k >= 3 && s.files[k] in s.fds && s.fds[s.files[k]] == k
  }

  /** The node under `fd` is closed. */
  ghost function Removed(s: Snap, fd: int): Snap
    requires fd in s.files
  {
    Snap(s.files - {fd}, fd, s.fds[s.files[fd] := -1])
  }

  /** What each request does. */
  ghost predicate Step(s: Snap, q: Request, s': Snap) {
    match q
    case Register(node) =>
      && node in s.fds && node in s'.fds
      && if 0 <= s.fds[node] < 3 then s' == s
         else
           && FirstFor(s.files, node, Start(s.nextFd, s.fds[node]), s'.fds[node])
           && s' == Snap(s.files[s'.fds[node] := node], s'.fds[node] + 1, s.fds[node := s'.fds[node]])
    case Close(node) =>
      && node in s.fds
      && s' == if !node.device && s.fds[node] in s.files && s.files[s.fds[node]] == node
               then Removed(s, s.fds[node]) else s
    case CloseFd(fd) =>
      s' == if fd in s.files && !s.files[fd].device then Removed(s, fd) else s
    case Pipe =>
      exists a, b :: PipeAdded(s, s', a, b)
  }

  /** Two new nodes are entered under the first two free descriptors, `a` and `b`, and carry them. */
  ghost predicate PipeAdded(s: Snap, s': Snap, a: int, b: int) {
    && s.nextFd <= a < b && a !in s.files && b !in s.files
    && Taken(s.files, s.nextFd, a) && Taken(s.files, a + 1, b)
    && a in s'.files && b in s'.files
    && var (m, n) := (s'.files[a], s'.files[b]);
    && m != n && m !in s.fds && n !in s.fds && !m.device && !n.device
    && s' == Snap(s.files[a := m][b := n], b + 1, s.fds[m := a][n := b])
  }

  /** `history` is a run of `qs`, every state good and every step as it should be. */
  ghost predicate Kept(qs: seq<Request>, history: seq<Snap>) {
    && |history| == |qs| + 1
    && (forall i :: 0 <= i < |history| ==> Good(history[i]))
    && (forall i :: 0 <= i < |qs| ==> Step(history[i], qs[i], history[i + 1]))
  }

  lemma KeptMore(qs: seq<Request>, history: seq<Snap>, n: nat, s: Snap)
    requires n < |qs| && Kept(qs[..n], history) && Good(s) && Step(history[n], qs[n], s)
    ensures Kept(qs[..n + 1], history + [s])
  {
    hide Good, Step;
  }

  /** Over any run an open node, also one opened on the way, keeps its descriptor until it is closed. */
  lemma {:induction false} StaysPut(qs: seq<Request>, history: seq<Snap>, k: int, i: nat, j: nat)
    requires Kept(qs, history) && i <= j <= |qs| && k in history[i].files
    requires forall m :: i <= m < j ==> qs[m] != Close(history[i].files[k]) && qs[m] != CloseFd(k)
    ensures k in history[j].files && history[j].files[k] == history[i].files[k]
    decreases j - i
  {
    if i < j {
      StaysPut(qs, history, k, i, j - 1);
      assert Step(history[j - 1], qs[j - 1], history[j]);
      assert Good(history[j - 1]);
      assert qs[j - 1] != Close(history[i].files[k]) && qs[j - 1] != CloseFd(k);
    }
  }
}
