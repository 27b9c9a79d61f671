/**
 Path resolution on a file system without mounts: a directory maps names to entries, and a
 walk goes from directory to directory, creating the missing ones when asked to.
 */
module PathWalk {

  datatype Entry = Dir(id: nat) | File(id: nat)

  /** The directories by identity, and the first identity not yet in use. */
  datatype Tree = Tree(dirs: map<nat, map<string, Entry>>, next: nat)

  /** Where a walk ends, or the name at which it fails. */
  datatype Outcome = At(dir: nat) | Missing(name: string) | NotDirectory(name: string)

  datatype Parent = Parent(dir: nat, last: string) | Failed(why: Outcome)

  ghost predicate Closed(t: Tree) {
    forall d :: d in t.dirs ==>
      d < t.next && forall n :: n in t.dirs[d] && t.dirs[d][n].Dir? ==> t.dirs[d][n].id in t.dirs
  }

  /** Everything that is in `t` is in `t'` under the same name. */
  ghost predicate Extends(t: Tree, t': Tree) {
    forall d :: d in t.dirs ==>
      d in t'.dirs && forall n :: n in t.dirs[d] ==> n in t'.dirs[d] && t'.dirs[d][n] == t.dirs[d][n]
  }

  // ---------- Splitting a path ----------

  /** The position of the first separator at or after `i`, or the length of the path. */
  function NextSeparator(path: string, i: nat): (j: nat)
    requires i <= |path|
    ensures i <= j <= |path| && (j < |path| ==> path[j] == '/')
    ensures forall k :: i <= k < j ==> path[k] != '/'
    decreases |path| - i
  {
    if i == |path| || path[i] == '/' then i else NextSeparator(path, i + 1)
  }

  /** The parts with a separator between each two. */
  function Joined(parts: seq<string>): string {
    if |parts| == 0 then ""
    else if |parts| == 1 then parts[0]
    else parts[0] + "/" + Joined(parts[1..])
  }

  ghost predicate Plain(parts: seq<string>) {
    forall p :: p in parts ==> '/' !in p
  }

  /** The path without the one separator it may end in. */
  function Trimmed(path: string): string {
    if |path| > 0 && path[|path| - 1] == '/' then path[..|path| - 1] else path
  }

  /** The parts of a path from position `i` on. */
  function PartsFrom(path: string, i: nat): (parts: seq<string>)
    requires i <= |path|
    ensures |parts| >= 1
    decreases |path| - i
  {
    var j := NextSeparator(path, i);
    if j + 1 < |path| then [path[i..j]] + PartsFrom(path, j + 1) else [path[i..j]]
  }

  function Parts(path: string): (parts: seq<string>)
    ensures |parts| >= 1
  {
    PartsFrom(path, 0)
  }

  function Rest(path: string, j: nat): seq<string> {
    if j < |path| then PartsFrom(path, j) else []
  }

  lemma PartsUnfold(path: string, i: nat)
    requires i <= |path|
    ensures var j := NextSeparator(path, i); PartsFrom(path, i) == [path[i..j]] + Rest(path, j + 1)
  {
    hide NextSeparator;
  }

  lemma PartsStep(path: string, i: nat, parts: seq<string>)
    requires i <= |path| && Parts(path) == parts + PartsFrom(path, i)
    ensures var j := NextSeparator(path, i); Parts(path) == parts + [path[i..j]] + Rest(path, j + 1)
  {
    hide *;
    PartsUnfold(path, i);
  }

  /** Cuts a path at its separators. */
  method Split(path: string) returns (parts: seq<string>)
    ensures parts == Parts(path)
  {
    hide PartsFrom, Parts, NextSeparator, Rest;
    var j := NextSeparator(path, 0);
    assert [] + PartsFrom(path, 0) == PartsFrom(path, 0) == Parts(path) by {
      PartsStart(path);
    }
    PartsStep(path, 0, []);
    parts := [path[0..j]];
    j := j + 1;
    while j < |path|
      invariant Parts(path) == parts + Rest(path, j)
      decreases |path| - j
    {
      var i := j;
      j := NextSeparator(path, i);
      RestInside(path, i);
      PartsStep(path, i, parts);
      parts := parts + [path[i..j]];
      j := j + 1;
    }
    RestOutside(path, j);
  }

  lemma RestInside(path: string, j: nat)
    requires j < |path|
    ensures Rest(path, j) == PartsFrom(path, j)
  {
  }

  lemma RestOutside(path: string, j: nat)
    requires j >= |path|
    ensures Rest(path, j) == []
  {
  }

  lemma PartsStart(path: string)
    ensures Parts(path) == PartsFrom(path, 0)
  {
  }

  lemma JoinedMore(x: string, rest: seq<string>)
    requires |rest| >= 1 && '/' !in x && Plain(rest)
    ensures Plain([x] + rest) && Joined([x] + rest) == x + "/" + Joined(rest)
  {
    assert ([x] + rest)[1..] == rest;
  }

  lemma PartCut(path: string, i: nat, j: nat)
    requires i <= j <= |path| && forall k :: i <= k < j ==> path[k] != '/'
    ensures '/' !in path[i..j]
    ensures j + 1 < |path| && path[j] == '/' ==> Trimmed(path)[i..] == path[i..j] + "/" + Trimmed(path)[j + 1..]
    ensures j == |path| == 0 || (j == |path| && i < j) || (j + 1 == |path| && path[j] == '/') ==>
      j <= |Trimmed(path)| && Trimmed(path)[i..] == path[i..j]
  {
  }

  lemma {:induction false} PartsFromJoined(path: string, i: nat)
    requires i < |path| || i == |path| == 0
    ensures Plain(PartsFrom(path, i)) && Joined(PartsFrom(path, i)) == Trimmed(path)[i..]
    decreases |path| - i
  {
    hide NextSeparator, Plain, Joined, Trimmed;
    var j := NextSeparator(path, i);
    PartCut(path, i, j);
    if j + 1 < |path| {
      PartsFromJoined(path, j + 1);
      JoinedMore(path[i..j], PartsFrom(path, j + 1));
    } else {
      JoinedOne(path[i..j]);
    }
  }

  lemma JoinedOne(x: string)
    requires '/' !in x
    ensures Plain([x]) && Joined([x]) == x
  {
  }

  /** The parts rebuild the path, up to one separator at its end. */
  lemma PartsJoined(path: string)
    ensures Plain(Parts(path)) && Joined(Parts(path)) == Trimmed(path)
  {
    PartsFromJoined(path, 0);
  }

  /** And they are determined by the path they rebuild. */
  lemma {:induction false} JoinedUnique(a: seq<string>, b: seq<string>)
    requires |a| >= 1 && |b| >= 1 && Plain(a) && Plain(b) && Joined(a) == Joined(b)
    ensures a == b
    decreases |a|
  {
    var x, y := a[0], b[0];
    assert x in a && y in b;
    var s := Joined(a);
    FirstPart(a);
    FirstPart(b);
    if |x| < |y| || |y| < |x| {
      assert false;
    }
    assert x == s[..|x|] == y;
    assert a == [x] + a[1..] && b == [y] + b[1..];
    if |a| > 1 {
      assert Joined(a[1..]) == s[|x| + 1..] == Joined(b[1..]);
      JoinedUnique(a[1..], b[1..]);
    }
  }

  lemma FirstPart(a: seq<string>)
    requires |a| >= 1
    ensures var s, x := Joined(a), a[0];
      x <= s && (|a| > 1 ==> |x| < |s| && s[|x|] == '/') && (|a| == 1 ==> |x| == |s|)
  {
  }

  // ---------- Walking ----------

  /** Follows the names from `d`; an empty name stands for the directory itself. */
  function Walk(t: Tree, d: nat, names: seq<string>): (o: Outcome)
    requires Closed(t) && d in t.dirs
    ensures o.At? ==> o.dir in t.dirs
    decreases |names|
  {
    if names == [] then At(d)
    else if names[0] == "" then Walk(t, d, names[1..])
    else if names[0] !in t.dirs[d] then Missing(names[0])
    else if t.dirs[d][names[0]].Dir? then Walk(t, t.dirs[d][names[0]].id, names[1..])
    else NotDirectory(names[0])
  }

  /** A new empty directory called `name` in `d`. */
  function Child(t: Tree, d: nat, name: string): (t': Tree)
    requires Closed(t) && d in t.dirs
    ensures Closed(t') && t.next in t'.dirs
    ensures d in t'.dirs && name in t'.dirs[d] && t'.dirs[d][name] == Dir(t.next)
    ensures name !in t.dirs[d] ==> Extends(t, t')
  {
    Tree(t.dirs[d := t.dirs[d][name := Dir(t.next)]][t.next := map[]], t.next + 1)
  }

  /** The tree after the walk that makes what is missing. */
  function Grown(t: Tree, d: nat, names: seq<string>): (t': Tree)
    requires Closed(t) && d in t.dirs
    ensures Closed(t')
    decreases |names|
  {
    if names == [] then t
    else if names[0] == "" then Grown(t, d, names[1..])
    else if names[0] !in t.dirs[d] then Grown(Child(t, d, names[0]), t.next, names[1..])
    else if t.dirs[d][names[0]].Dir? then Grown(t, t.dirs[d][names[0]].id, names[1..])
    else t
  }

  /** A resolution that succeeds gives the same directory in every larger tree. */
  lemma {:induction false} WalkLasts(t: Tree, t': Tree, d: nat, names: seq<string>)
    requires Closed(t) && Closed(t') && Extends(t, t') && d in t.dirs && Walk(t, d, names).At?
    ensures Walk(t', d, names) == Walk(t, d, names)
    decreases |names|
  {
    if names != [] {
      if names[0] == "" {
        WalkLasts(t, t', d, names[1..]);
      } else {
        WalkLasts(t, t', t.dirs[d][names[0]].id, names[1..]);
      }
    }
  }

  lemma {:induction false} GrownExtends(t: Tree, d: nat, names: seq<string>)
    requires Closed(t) && d in t.dirs
    ensures Extends(t, Grown(t, d, names))
    decreases |names|
  {
    if names != [] {
      if names[0] == "" {
        GrownExtends(t, d, names[1..]);
      } else if names[0] !in t.dirs[d] {
        var c := Child(t, d, names[0]);
        GrownExtends(c, t.next, names[1..]);
        ExtendsOn(t, c, Grown(c, t.next, names[1..]));
      } else if t.dirs[d][names[0]].Dir? {
        GrownExtends(t, t.dirs[d][names[0]].id, names[1..]);
      }
    }
  }

  lemma ExtendsOn(t: Tree, u: Tree, v: Tree)
    requires Extends(t, u) && Extends(u, v)
    ensures Extends(t, v)
  {
  }

  /** Below an empty directory nothing can be in the way. */
  lemma {:induction false} GrownBelowEmpty(t: Tree, d: nat, names: seq<string>)
    requires Closed(t) && d in t.dirs && t.dirs[d] == map[]
    ensures d in Grown(t, d, names).dirs && Walk(Grown(t, d, names), d, names).At?
    ensures var t' := Grown(t, d, names); t'.dirs[Walk(t', d, names).dir] == map[]
    decreases |names|
  {
    GrownExtends(t, d, names);
    if names != [] {
      if names[0] == "" {
        GrownBelowEmpty(t, d, names[1..]);
      } else {
        var c := Child(t, d, names[0]);
        GrownBelowEmpty(c, t.next, names[1..]);
        GrownExtends(c, t.next, names[1..]);
        assert c.dirs[d][names[0]] == Dir(t.next);
      }
    }
  }

  /**
   Creating either fails, and then for the same reason as without creating and with nothing
   changed, or it makes a tree in which the same walk succeeds.
   */
  lemma {:induction false} GrownWalks(t: Tree, d: nat, names: seq<string>)
    requires Closed(t) && d in t.dirs
    ensures d in Grown(t, d, names).dirs
    ensures Walk(t, d, names).NotDirectory? ==> Grown(t, d, names) == t
    ensures Walk(t, d, names).At? ==> Grown(t, d, names) == t
    ensures Walk(t, d, names).Missing? ==> Walk(Grown(t, d, names), d, names).At?
    ensures Walk(t, d, names).Missing? ==> var t' := Grown(t, d, names); t'.dirs[Walk(t', d, names).dir] == map[]
    decreases |names|
  {
    GrownExtends(t, d, names);
    if names != [] {
      if names[0] == "" {
        GrownWalks(t, d, names[1..]);
      } else if names[0] !in t.dirs[d] {
        var c := Child(t, d, names[0]);
        GrownBelowEmpty(c, t.next, names[1..]);
        GrownExtends(c, t.next, names[1..]);
        assert c.dirs[d][names[0]] == Dir(t.next);
      } else if t.dirs[d][names[0]].Dir? {
        GrownWalks(t, t.dirs[d][names[0]].id, names[1..]);
      }
    }
  }

  // ---------- What creating adds ----------

  function NonEmpty(names: seq<string>): (r: seq<string>) {
    if names == [] then [] else (if names[0] == "" then [] else [names[0]]) + NonEmpty(names[1..])
  }

  /** The deepest directory that exists on the way, and the names that are missing from there. */
  function Stem(t: Tree, d: nat, names: seq<string>): (r: (nat, seq<string>))
    requires Closed(t) && d in t.dirs && Walk(t, d, names).Missing?
    ensures r.0 in t.dirs && r.1 != [] && r.1[0] !in t.dirs[r.0]
    decreases |names|
  {
    if names[0] == "" then Stem(t, d, names[1..])
    else if names[0] !in t.dirs[d] then (d, NonEmpty(names))
    else Stem(t, t.dirs[d][names[0]].id, names[1..])
  }

  /** From `id` on, one directory per name; each holds only the next, and the last is empty. */
  ghost predicate Chain(dirs: map<nat, map<string, Entry>>, id: nat, names: seq<string>)
    decreases |names|
  {
    names != [] ==>
      && id in dirs
      && dirs[id] == (if |names| == 1 then map[] else map[names[1] := Dir(id + 1)])
      && Chain(dirs, id + 1, names[1..])
  }

  lemma ChainMore(dirs: map<nat, map<string, Entry>>, id: nat, name: string, names: seq<string>)
    requires names != [] && Chain(dirs, id + 1, names) && id in dirs && dirs[id] == map[names[0] := Dir(id + 1)]
    ensures Chain(dirs, id, [name] + names)
  {
    assert ([name] + names)[1..] == names;
  }

  /** `t'` is `t` with one chain of new directories, named `names`, hung under `e`. */
  ghost predicate Grafted(t: Tree, t': Tree, e: nat, names: seq<string>) {
    && e in t.dirs && names != []
    && t'.next == t.next + |names|
    && (forall x :: x in t'.dirs <==> x in t.dirs || t.next <= x < t'.next)
    && (forall x :: x in t.dirs && x != e ==> t'.dirs[x] == t.dirs[x])
    && t'.dirs[e] == t.dirs[e][names[0] := Dir(t.next)]
    && Chain(t'.dirs, t.next, names)
  }

  lemma GraftOne(t: Tree, d: nat, name: string)
    requires Closed(t) && d in t.dirs
    ensures Grafted(t, Child(t, d, name), d, [name])
  {
  }

  lemma GraftMore(t: Tree, d: nat, name: string, t': Tree, names: seq<string>)
    requires Closed(t) && d in t.dirs && Grafted(Child(t, d, name), t', t.next, names)
    ensures Grafted(t, t', d, [name] + names)
  {
    hide Chain;
    ChainMore(t'.dirs, t.next, name, names);
  }

  lemma {:induction false} GrownBelowEmptyAdds(t: Tree, d: nat, names: seq<string>)
    requires Closed(t) && d in t.dirs && t.dirs[d] == map[]
    ensures if NonEmpty(names) == [] then Grown(t, d, names) == t
            else Grafted(t, Grown(t, d, names), d, NonEmpty(names))
    decreases |names|
  {
    hide Grafted, Chain, Closed, Child;
    if names != [] {
      if names[0] == "" {
        assert NonEmpty(names) == NonEmpty(names[1..]);
        GrownBelowEmptyAdds(t, d, names[1..]);
      } else {
        ChildAdds(t, d, names);
      }
    }
  }

  lemma {:induction false} ChildAdds(t: Tree, d: nat, names: seq<string>)
    requires Closed(t) && d in t.dirs && names != [] && names[0] != "" && names[0] !in t.dirs[d]
    ensures Grafted(t, Grown(t, d, names), d, NonEmpty(names))
    decreases |names|, 0
  {
    hide Grafted, Chain, Closed, Extends;
    var c := Child(t, d, names[0]);
    GrownBelowEmptyAdds(c, t.next, names[1..]);
    if NonEmpty(names[1..]) == [] {
      GraftOne(t, d, names[0]);
      assert NonEmpty(names) == [names[0]];
    } else {
      GraftMore(t, d, names[0], Grown(c, t.next, names[1..]), NonEmpty(names[1..]));
    }
  }

  /** Exactly the missing directories are made, each inside the one before. */
  lemma {:induction false} GrownAdds(t: Tree, d: nat, names: seq<string>)
    requires Closed(t) && d in t.dirs && Walk(t, d, names).Missing?
    ensures var (e, rest) := Stem(t, d, names); Grafted(t, Grown(t, d, names), e, rest)
    decreases |names|
  {
    if names[0] == "" {
      GrownAdds(t, d, names[1..]);
    } else if names[0] !in t.dirs[d] {
      ChildAdds(t, d, names);
    } else {
      GrownAdds(t, t.dirs[d][names[0]].id, names[1..]);
    }
  }

  // ---------- The file system ----------

  lemma {:induction false} WalkAppend(t: Tree, d: nat, names: seq<string>, more: seq<string>)
    requires Closed(t) && d in t.dirs && Walk(t, d, names).At?
    ensures Walk(t, d, names + more) == Walk(t, Walk(t, d, names).dir, more)
    decreases |names|
  {
    if names == [] {
      assert names + more == more;
    } else {
      assert (names + more)[1..] == names[1..] + more;
      WalkAppend(t, if names[0] == "" then d else t.dirs[d][names[0]].id, names[1..], more);
    }
  }

  lemma WalkNowhere(t: Tree, d: nat, names: seq<string>)
    requires Closed(t) && d in t.dirs
    ensures names[..0] == [] == names[|names|..] && names[0..] == names
    ensures Walk(t, d, names[..0]) == At(d) && Grown(t, d, names[|names|..]) == t
  {
  }

  /** One step of a walk that has come to `cur` after `i` names. */
  lemma Stride(t: Tree, start: nat, names: seq<string>, i: nat, cur: nat)
    requires Closed(t) && start in t.dirs && cur in t.dirs && i < |names| && Walk(t, start, names[..i]) == At(cur)
    ensures var name := names[i];
      if name == "" then
        Walk(t, start, names[..i + 1]) == At(cur) && Grown(t, cur, names[i..]) == Grown(t, cur, names[i + 1..])
      else if name !in t.dirs[cur] then
        && Walk(t, start, names) == Missing(name)
        && start in Child(t, cur, name).dirs
        && Walk(Child(t, cur, name), start, names[..i + 1]) == At(t.next)
        && Grown(t, cur, names[i..]) == Grown(Child(t, cur, name), t.next, names[i + 1..])
      else if t.dirs[cur][name].Dir? then
        && t.dirs[cur][name].id in t.dirs
        && Walk(t, start, names[..i + 1]) == At(t.dirs[cur][name].id)
        && Grown(t, cur, names[i..]) == Grown(t, t.dirs[cur][name].id, names[i + 1..])
      else
        Walk(t, start, names) == NotDirectory(name) && Grown(t, cur, names[i..]) == t
  {
    var name := names[i];
    assert names[i..][1..] == names[i + 1..];
    assert names[..i] + [name] == names[..i + 1];
    assert names[..i] + names[i..] == names;
    WalkAppend(t, start, names[..i], [name]);
    WalkAppend(t, start, names[..i], names[i..]);
    if name != "" && name !in t.dirs[cur] {
      StrideMade(t, start, names[..i], name, cur);
    }
  }

  lemma StrideMade(t: Tree, start: nat, names: seq<string>, name: string, cur: nat)
    requires Closed(t) && start in t.dirs && cur in t.dirs && Walk(t, start, names) == At(cur)
    requires name != "" && name !in t.dirs[cur]
    ensures start in Child(t, cur, name).dirs && Walk(Child(t, cur, name), start, names + [name]) == At(t.next)
  {
    var c := Child(t, cur, name);
    WalkLasts(t, c, start, names);
    WalkAppend(c, start, names, [name]);
    assert c.dirs[cur][name] == Dir(t.next);
  }

  function Names(path: string): seq<string> {
    var parts := Parts(path);
    parts[..|parts| - 1]
  }

  function Last(path: string): string {
    var parts := Parts(path);
    parts[|parts| - 1]
  }

  /** What `get_parent` answers without creating. */
  function Resolved(t: Tree, d: nat, path: string): (r: Parent)
    requires Closed(t) && d in t.dirs
    ensures r.Parent? ==> r.dir in t.dirs
  {
    var o := Walk(t, d, Names(path));
    if o.At? then Parent(o.dir, Last(path)) else Failed(o)
  }

  datatype Opened = Ok(id: nat) | Absent | Blocked

  /** The directory a path leads to; the empty path and a lone separator lead to the root. */
  function DirectoryAt(t: Tree, root: nat, path: string): (r: Opened)
    requires Closed(t) && root in t.dirs
  {
    if path == "" || path == "/" then Ok(root)
    else match Resolved(t, root, path)
      case Failed(why) => if why.Missing? then Absent else Blocked
      case Parent(d, last) =>
        if last !in t.dirs[d] then Absent else if t.dirs[d][last].Dir? then Ok(t.dirs[d][last].id) else Blocked
  }

  /** The file a path leads to. */
  function FileAt(t: Tree, root: nat, path: string): (r: Opened)
    requires Closed(t) && root in t.dirs
  {
    match Resolved(t, root, path)
    case Failed(why) => if why.Missing? then Absent else Blocked
    case Parent(d, last) =>
      if last !in t.dirs[d] then Absent else if t.dirs[d][last].Dir? then Blocked else Ok(t.dirs[d][last].id)
  }

  /** A new empty file called `name` in `d`. */
  function WithFile(t: Tree, d: nat, name: string): (t': Tree)
    requires Closed(t) && d in t.dirs
    ensures Closed(t')
    ensures name !in t.dirs[d] ==> Extends(t, t')
  {
    Tree(t.dirs[d := t.dirs[d][name := File(t.next)]], t.next + 1)
  }

  lemma ExtendsSelf(t: Tree)
    ensures Extends(t, t)
  {
  }

  /** A resolution that succeeds is not disturbed by what is added later. */
  lemma MadeHere(t: Tree, t': Tree, root: nat, path: string, p: Parent)
    requires Closed(t) && Closed(t') && root in t.dirs && Extends(t, t')
    requires p == Resolved(t, root, path) && p.Parent?
    ensures root in t'.dirs && Resolved(t', root, path) == p
  {
    WalkLasts(t, t', root, Names(path));
  }

  /** The last name is what stands after the last separator, and the names before it are walked in their order. */
  lemma NamesLast(path: string)
    ensures Plain(Names(path) + [Last(path)]) && Joined(Names(path) + [Last(path)]) == Trimmed(path)
  {
    PartsJoined(path);
    assert Names(path) + [Last(path)] == Parts(path);
  }

  /** A lookup finds a file exactly when the names lead to a directory that holds it under the last name. */
  lemma FileAtIs(t: Tree, root: nat, path: string, id: nat)
    requires Closed(t) && root in t.dirs
    ensures FileAt(t, root, path) == Ok(id) <==>
      var o := Walk(t, root, Names(path));
      o.At? && Last(path) in t.dirs[o.dir] && t.dirs[o.dir][Last(path)] == File(id)
    ensures FileAt(t, root, path) == Absent <==>
      var o := Walk(t, root, Names(path));
      o.Missing? || (o.At? && Last(path) !in t.dirs[o.dir])
  {
    hide Walk, Names, Last;
  }

  lemma DirectoryAtIs(t: Tree, root: nat, path: string, id: nat)
    requires Closed(t) && root in t.dirs && path != "" && path != "/"
    ensures DirectoryAt(t, root, path) == Ok(id) <==>
      var o := Walk(t, root, Names(path));
      o.At? && Last(path) in t.dirs[o.dir] && t.dirs[o.dir][Last(path)] == Dir(id)
    ensures DirectoryAt(t, root, path) == Absent <==>
      var o := Walk(t, root, Names(path));
      o.Missing? || (o.At? && Last(path) !in t.dirs[o.dir])
  {
    hide Walk, Names, Last;
  }

  /** Separators in a row, or at the front, do not change where a walk leads. */
  lemma {:induction false} EmptyNamesSkip(t: Tree, d: nat, names: seq<string>)
    requires Closed(t) && d in t.dirs
    ensures Walk(t, d, names) == Walk(t, d, NonEmpty(names))
    decreases |names|
  {
    if names != [] {
      if names[0] == "" {
        EmptyNamesSkip(t, d, names[1..]);
        assert NonEmpty(names) == NonEmpty(names[1..]);
      } else {
        assert NonEmpty(names)[1..] == NonEmpty(names[1..]);
        if names[0] in t.dirs[d] && t.dirs[d][names[0]].Dir? {
          EmptyNamesSkip(t, t.dirs[d][names[0]].id, names[1..]);
        }
      }
    }
  }

  /** One name leads to the directory entered under it. */
  lemma WalkOneName(t: Tree, d: nat, name: string, e: nat)
    requires Closed(t) && d in t.dirs && name != ""
    ensures Walk(t, d, [name]) == At(e) <==> name in t.dirs[d] && t.dirs[d][name] == Dir(e)
    ensures Walk(t, d, [name]) == Missing(name) <==> name !in t.dirs[d]
    ensures Walk(t, d, [name]) == NotDirectory(name) <==> name in t.dirs[d] && t.dirs[d][name].File?
  {
    if name in t.dirs[d] && t.dirs[d][name].Dir? {
      assert [name][1..] == [];
      assert Walk(t, t.dirs[d][name].id, []) == At(t.dirs[d][name].id);
    }
  }

  class FileSystem {
    var tree: Tree
    const root: nat

    constructor ()
      ensures Valid()
    {
      root := 0;
      tree := Tree(map[0 := map[]], 1);
    }

    ghost predicate Valid()
      reads this
    {
      Closed(tree) && root in tree.dirs
    }

    /** A new directory, entered under its name. */
    method MkDirNode(parent: nat, name: string) returns (id: nat)
      requires Valid() && parent in tree.dirs && name !in tree.dirs[parent]
      modifies this
      ensures Valid() && tree == Child(old(tree), parent, name) && id == old(tree).next
    {
      id := tree.next;
      tree := Child(tree, parent, name);
    }

    /** A new file, entered under its name. */
    method MkFileNode(parent: nat, name: string) returns (id: nat)
      requires Valid() && parent in tree.dirs && name !in tree.dirs[parent]
      modifies this
      ensures Valid() && tree == WithFile(old(tree), parent, name) && id == old(tree).next
    {
      id := tree.next;
      tree := WithFile(tree, parent, name);
    }

    method WalkNames(start: nat, names: seq<string>, create: bool) returns (o: Outcome)
      requires Valid() && start in tree.dirs
      modifies this
      ensures Valid() && start in tree.dirs && o == Walk(tree, start, names)
      ensures tree == if create then Grown(old(tree), start, names) else old(tree)
    {
      hide Closed, Walk, Grown, Extends;
      var cur := start;
      WalkNowhere(tree, start, names);
      for i := 0 to |names|
        invariant Valid() && start in tree.dirs && cur in tree.dirs
        invariant Walk(tree, start, names[..i]) == At(cur)
        invariant !create ==> tree == old(tree)
        invariant create ==> Grown(old(tree), start, names) == Grown(tree, cur, names[i..])
      {
        var name := names[i];
        Stride(tree, start, names, i, cur);
        if name != "" {
          if name !in tree.dirs[cur] {
            if !create {
              return Missing(name);
            }
            cur := MkDirNode(cur, name);
          } else if tree.dirs[cur][name].Dir? {
            cur := tree.dirs[cur][name].id;
          } else {
            return NotDirectory(name);
          }
        }
      }
      WalkNowhere(tree, cur, names);
      assert names[..|names|] == names;
      o := At(cur);
    }

    /**
     The directory that holds the last part of a path. Without `create` nothing changes. With
     it, the missing directories are made, a failure changes nothing, and in either case the
     answer is what a walk without `create` gives afterwards.
     */
    method GetParent(start: nat, path: string, create: bool) returns (r: Parent)
      requires Valid() && start in tree.dirs
      modifies this
      ensures Valid() && start in tree.dirs && r == Resolved(tree, start, path)
      ensures tree == if create then Grown(old(tree), start, Names(path)) else old(tree)
      ensures Extends(old(tree), tree)
      ensures r.Failed? ==> tree == old(tree)
      ensures create ==> (r.Failed? <==> Walk(old(tree), start, Names(path)).NotDirectory?)
      ensures r.Parent? ==>
        && Plain(Names(path) + [r.last]) && Joined(Names(path) + [r.last]) == Trimmed(path)
        && Walk(tree, start, Names(path)) == At(r.dir)
    {
      hide Closed, Walk, Grown, Extends, Parts, Plain, Joined, Trimmed;
      NamesLast(path);
      GrownWalks(tree, start, Names(path));
      GrownExtends(tree, start, Names(path));
      ExtendsSelf(tree);
      var pathspec := Split(path);
      var n := |pathspec| - 1;
      var o := WalkNames(start, pathspec[..n], create);
      r := if o.At? then Parent(o.dir, pathspec[n]) else Failed(o);
    }

    /** Opens a directory; whatever it answers, an open without `create` answers the same afterwards. */
    method OpenDirectory(path: string, create: bool) returns (r: Opened)
      requires Valid()
      modifies this
      ensures Valid() && r == DirectoryAt(tree, root, path) && Extends(old(tree), tree)
      ensures !create || !r.Ok? ==> tree == old(tree)
      ensures create ==> (r.Ok? <==> !DirectoryAt(old(tree), root, path).Blocked?)
      ensures path == "" || path == "/" ==> r == Ok(root) && tree == old(tree)
    {
      hide Closed, Walk, Grown, Extends, Names, Last;
      ExtendsSelf(tree);
      if path == "" || path == "/" {
        return Ok(root);
      }
      GrownWalks(tree, root, Names(path));
      var parent := GetParent(root, path, create);
      if parent.Failed? {
        return if parent.why.Missing? then Absent else Blocked;
      }
      if parent.last in tree.dirs[parent.dir] {
        var e := tree.dirs[parent.dir][parent.last];
        return if e.Dir? then Ok(e.id) else Blocked;
      }
      if !create {
        return Absent;
      }
      ghost var t := tree;
      var id := MkDirNode(parent.dir, parent.last);
      MadeHere(t, tree, root, path, parent);
      ExtendsOn(old(tree), t, tree);
      r := Ok(id);
    }

    /** Opens a file; whatever it answers, an open without `create` answers the same afterwards. */
    method OpenFile(path: string, create: bool) returns (r: Opened)
      requires Valid()
      modifies this
      ensures Valid() && r == FileAt(tree, root, path) && Extends(old(tree), tree)
      ensures !create || !r.Ok? ==> tree == old(tree)
      ensures create ==> (r.Ok? <==> !FileAt(old(tree), root, path).Blocked?)
    {
      hide Closed, Walk, Grown, Extends, Names, Last;
      ExtendsSelf(tree);
      GrownWalks(tree, root, Names(path));
      var parent := GetParent(root, path, create);
      if parent.Failed? {
        return if parent.why.Missing? then Absent else Blocked;
      }
      if parent.last in tree.dirs[parent.dir] {
        var e := tree.dirs[parent.dir][parent.last];
        return if e.Dir? then Blocked else Ok(e.id);
      }
      if !create {
        return Absent;
      }
      ghost var t := tree;
      var id := MkFileNode(parent.dir, parent.last);
      MadeHere(t, tree, root, path, parent);
      ExtendsOn(old(tree), t, tree);
      r := Ok(id);
    }
  }
}
