/** The directory tree as a value: what InodeTree holds and what its operations compute. Paths are sequences of
    components. */
module Inodes {
  import opened Options
  import opened Text

  type Path = seq<string>

  /** The components of a path as text, as SplitPath gives them. */
  function PathOf(s: string): Path {
    Fields(s, IsSlash)
  }

  datatype Node = Dir(name: string, kids: seq<Node>) | File(name: string, blocks: seq<int>)

  const ROOT := Dir("", [])

  function Kids(n: Node): seq<Node> {
    if n.Dir? then n.kids else []
  }

  /** Index of the first child called `name`, or the number of children. */
  function KidIndex(kids: seq<Node>, name: string): (i: nat)
    ensures i <= |kids|
    ensures i < |kids| ==> kids[i].name == name
  {
    if kids == [] || kids[0].name == name then 0 else 1 + KidIndex(kids[1..], name)
  }

  function Lookup(kids: seq<Node>, name: string): Option<Node> {
    var i := KidIndex(kids, name);
    if i < |kids| then Some(kids[i]) else None
  }

  function NodeAt(n: Node, p: Path): Option<Node>
    decreases |p|
  {
    if p == [] then Some(n)
    else
      match Lookup(Kids(n), p[0])
      case None => None
      case Some(kid) => NodeAt(kid, p[1..])
  }

  /** The tree with the node at p replaced. */
  function UpdateAt(n: Node, p: Path, repl: Node): Node
    requires NodeAt(n, p).Some?
    decreases |p|
  {
    if p == [] then repl
    else
      var i := KidIndex(n.kids, p[0]);
      n.(kids := n.kids[i := UpdateAt(n.kids[i], p[1..], repl)])
  }

  function AddKid(n: Node, kid: Node): Node
    requires n.Dir?
  {
    n.(kids := n.kids + [kid])
  }

  function RemoveKid(n: Node, i: nat): Node
    requires n.Dir? && i < |n.kids|
  {
    n.(kids := n.kids[..i] + n.kids[i + 1..])
  }

  // ---- The operations -------------------------------------------------------------------------------------

  /** Mkdirs from component i on; the part before i already is a directory. */
  function MkdirsFrom(n: Node, p: Path, i: nat): (Node, bool)
    requires i <= |p| && IsDir(n, p[..i])
    decreases |p| - i
  {
    if i == |p| then (n, true)
    else
      assert p[..i + 1][..i] == p[..i] && p[..i + 1] == p[..i] + [p[i]];
      match NodeAt(n, p[..i + 1])
      case None =>
        var cur := NodeAt(n, p[..i]).value;
        var n' := UpdateAt(n, p[..i], AddKid(cur, Dir(p[i], [])));
        NewDirFound(n, p[..i], p[i]);
        MkdirsFrom(n', p, i + 1)
      case Some(Dir(_, _)) => MkdirsFrom(n, p, i + 1)
      case Some(File(_, _)) => (n, false)
  }

  function MadeDirs(n: Node, p: Path): (Node, bool)
    requires n.Dir?
  {
    MkdirsFrom(n, p, 0)
  }

  function WithFile(n: Node, p: Path): Option<Node> {
    if p == [] then None
    else
      var dir, name := p[..|p| - 1], p[|p| - 1];
      match NodeAt(n, dir)
      case None => None
      case Some(parent) =>
        if parent.File? || KidIndex(parent.kids, name) < |parent.kids| then None
        else Some(UpdateAt(n, dir, AddKid(parent, File(name, []))))
  }

  function Without(n: Node, p: Path): Option<Node> {
    if p == [] then None
    else
      var dir, name := p[..|p| - 1], p[|p| - 1];
      match NodeAt(n, dir)
      case None => None
      case Some(parent) =>
        var i := KidIndex(Kids(parent), name);
        if i < |Kids(parent)| then Some(UpdateAt(n, dir, RemoveKid(parent, i))) else None
  }

  /** `file->blocks.push_back(id)` on the file at p. */
  function WithBlock(n: Node, p: Path, id: int): Node
    requires IsFile(n, p)
  {
    var f := NodeAt(n, p).value;
    UpdateAt(n, p, f.(blocks := f.blocks + [id]))
  }

  // ---- The finite map a tree stands for -------------------------------------------------------------------

  datatype Entry = DirEntry | FileEntry(blocks: seq<int>)

  function EntryAt(n: Node, p: Path): Option<Entry> {
    match NodeAt(n, p)
    case None => None
    case Some(Dir(_, _)) => Some(DirEntry)
    case Some(File(_, blocks)) => Some(FileEntry(blocks))
  }

  predicate IsDir(n: Node, p: Path) {
    EntryAt(n, p) == Some(DirEntry)
  }

  predicate IsFile(n: Node, p: Path) {
    NodeAt(n, p).Some? && NodeAt(n, p).value.File?
  }

  /** Children have usable, pairwise different names. */
  ghost predicate WellFormed(n: Node) {
    n.Dir? ==>
      (forall i :: 0 <= i < |n.kids| ==> IsField(n.kids[i].name, IsSlash) && WellFormed(n.kids[i])) &&
      (forall i, j :: 0 <= i < j < |n.kids| ==> n.kids[i].name != n.kids[j].name)
  }

  // ---- Children -------------------------------------------------------------------------------------------

  lemma {:induction false} FindFirst(kids: seq<Node>, name: string, i: nat)
    requires i < |kids| && kids[i].name == name
    requires forall j :: 0 <= j < i ==> kids[j].name != name
    ensures KidIndex(kids, name) == i
  {
    if i > 0 {
      FindFirst(kids[1..], name, i - 1);
    }
  }

  lemma {:induction false} FindAbsent(kids: seq<Node>, name: string)
    ensures KidIndex(kids, name) == |kids| <==> forall j :: 0 <= j < |kids| ==> kids[j].name != name
    ensures forall j :: 0 <= j < KidIndex(kids, name) ==> kids[j].name != name
  {
    if kids != [] && kids[0].name != name {
      FindAbsent(kids[1..], name);
    }
  }

  lemma LookupUpdate(kids: seq<Node>, i: nat, kid: Node, name: string)
    requires i < |kids| && i == KidIndex(kids, kid.name)
    ensures KidIndex(kids[i := kid], name) == KidIndex(kids, name)
    ensures Lookup(kids[i := kid], name) == if name == kid.name then Some(kid) else Lookup(kids, name)
  {
    FindAbsent(kids, name);
    FindAbsent(kids[i := kid], name);
    var j := KidIndex(kids, name);
    if j < |kids| {
      FindFirst(kids[i := kid], name, j);
    } else {
      assert forall l :: 0 <= l < |kids| ==> kids[i := kid][l].name == kids[l].name;
    }
  }

  lemma LookupAppend(kids: seq<Node>, kid: Node, name: string)
    requires KidIndex(kids, kid.name) == |kids|
    ensures Lookup(kids + [kid], name) == if name == kid.name then Some(kid) else Lookup(kids, name)
  {
    FindAbsent(kids, name);
    FindAbsent(kids + [kid], name);
    FindAbsent(kids, kid.name);
    var j := KidIndex(kids, name);
    if j < |kids| {
      FindFirst(kids + [kid], name, j);
    } else if name == kid.name {
      FindFirst(kids + [kid], name, |kids|);
    } else {
      assert forall l :: 0 <= l < |kids| + 1 ==> (kids + [kid])[l].name != name;
    }
  }

  lemma RemovedAt(kids: seq<Node>, i: nat, l: nat)
    requires i < |kids| && l < |kids| - 1
    ensures (kids[..i] + kids[i + 1..])[l] == kids[if l < i then l else l + 1]
  {
  }

  lemma LookupRemove(kids: seq<Node>, i: nat, name: string)
    requires i < |kids| && forall j, k :: 0 <= j < k < |kids| ==> kids[j].name != kids[k].name
    ensures Lookup(kids[..i] + kids[i + 1..], name) == if name == kids[i].name then None else Lookup(kids, name)
  {
    hide KidIndex;
    var rest := kids[..i] + kids[i + 1..];
    forall l: nat | l < |rest| ensures rest[l] == kids[if l < i then l else l + 1] {
      RemovedAt(kids, i, l);
    }
    FindAbsent(kids, name);
    FindAbsent(rest, name);
    var j := KidIndex(kids, name);
    if name != kids[i].name && j < |kids| {
      FindFirst(rest, name, if j < i then j else j - 1);
    }
  }

  // ---- Walking and updating -------------------------------------------------------------------------------

  lemma NodeAtCons(n: Node, p: Path)
    requires p != []
    ensures NodeAt(n, p) == match Lookup(Kids(n), p[0])
                             case None => None
                             case Some(kid) => NodeAt(kid, p[1..])
  {
  }

  lemma NodeAtRoot(n: Node)
    ensures NodeAt(n, []) == Some(n)
  {
  }

  lemma {:induction false} NodeAtConcat(n: Node, p: Path, q: Path)
    ensures NodeAt(n, p + q) == if NodeAt(n, p).Some? then NodeAt(NodeAt(n, p).value, q) else None
    decreases |p|
  {
    hide *;
    if p == [] {
      NodeAtRoot(n);
      assert p + q == q;
    } else {
      NodeAtCons(n, p);
      NodeAtCons(n, p + q);
      assert (p + q)[1..] == p[1..] + q;
      match Lookup(Kids(n), p[0])
      case None =>
      case Some(kid) => NodeAtConcat(kid, p[1..], q);
    }
  }

  lemma NodeAtStep(n: Node, p: Path, name: string)
    ensures NodeAt(n, p + [name])
         == if NodeAt(n, p).Some? then Lookup(Kids(NodeAt(n, p).value), name) else None
  {
    hide *;
    NodeAtConcat(n, p, [name]);
    if NodeAt(n, p).Some? {
      NodeAtCons(NodeAt(n, p).value, [name]);
      assert [name][1..] == [];
      match Lookup(Kids(NodeAt(n, p).value), name)
      case None =>
      case Some(kid) => NodeAtRoot(kid);
    }
  }

  predicate SameShape(a: Node, b: Node) {
    a.name == b.name && a.Dir? == b.Dir? &&
    (a.File? ==> a == b) &&
    (a.Dir? ==> |a.kids| == |b.kids| && forall i :: 0 <= i < |a.kids| ==> a.kids[i].name == b.kids[i].name)
  }

  /** What a lookup sees after an update: below p the new node, off the path no change, above p only the
      updated child. */
  ghost predicate SeenAfter(n: Node, p: Path, repl: Node, q: Path)
    requires NodeAt(n, p).Some?
  {
    var now := NodeAt(UpdateAt(n, p, repl), q);
    var before := NodeAt(n, q);
    if p <= q then now == NodeAt(repl, q[|p|..])
    else if q <= p then now.Some? && before.Some? && before.value.Dir? && SameShape(before.value, now.value)
    else now == before
  }

  lemma {:induction false} UpdateAtName(n: Node, p: Path, repl: Node)
    requires NodeAt(n, p).Some? && repl.name == NodeAt(n, p).value.name
    ensures UpdateAt(n, p, repl).name == n.name
  {
  }

  /** One level of an update: only the child on the path is replaced. */
  lemma UpdateAtLevel(n: Node, p: Path, repl: Node, x: string)
    requires NodeAt(n, p).Some? && repl.name == NodeAt(n, p).value.name && p != []
    ensures n.Dir? && Lookup(n.kids, p[0]).Some? && NodeAt(Lookup(n.kids, p[0]).value, p[1..]) == NodeAt(n, p)
    ensures var up := UpdateAt(n, p, repl);
            up.Dir? && SameShape(n, up) &&
            Lookup(up.kids, x) == if x == p[0] then Some(UpdateAt(Lookup(n.kids, p[0]).value, p[1..], repl))
                                  else Lookup(n.kids, x)
  {
    var i := KidIndex(n.kids, p[0]);
    UpdateAtName(n.kids[i], p[1..], repl);
    hide NodeAt;
    LookupUpdate(n.kids, i, UpdateAt(n.kids[i], p[1..], repl), x);
  }

  lemma SeenAtRoot(n: Node, repl: Node, q: Path)
    ensures NodeAt(n, []) == Some(n) && SeenAfter(n, [], repl, q)
  {
    assert q[0..] == q;
  }

  lemma SeenByAncestor(n: Node, p: Path, repl: Node)
    requires NodeAt(n, p).Some? && repl.name == NodeAt(n, p).value.name && p != []
    ensures SeenAfter(n, p, repl, [])
  {
    UpdateAtLevel(n, p, repl, "");
  }

  lemma SeenBelow(n: Node, p: Path, repl: Node, q: Path)
    requires NodeAt(n, p).Some? && repl.name == NodeAt(n, p).value.name && p != [] && q != []
    requires p[0] == q[0] ==> Lookup(Kids(n), p[0]).Some? && NodeAt(Lookup(Kids(n), p[0]).value, p[1..]).Some? &&
                              SeenAfter(Lookup(Kids(n), p[0]).value, p[1..], repl, q[1..])
    ensures SeenAfter(n, p, repl, q)
  {
    hide NodeAt, UpdateAt, Lookup, SameShape, KidIndex;
    UpdateAtLevel(n, p, repl, q[0]);
    NodeAtCons(n, q);
    NodeAtCons(UpdateAt(n, p, repl), q);
    if q[0] == p[0] {
      PrefixTail(p, q);
      assert p <= q ==> q[1..][|p| - 1..] == q[|p|..];
    } else {
      assert !(p <= q) && !(q <= p);
    }
  }

  lemma {:induction false} UpdateAtSeen(n: Node, p: Path, repl: Node, q: Path)
    requires NodeAt(n, p).Some? && repl.name == NodeAt(n, p).value.name
    ensures SeenAfter(n, p, repl, q)
    decreases |p|
  {
    if p == [] {
      SeenAtRoot(n, repl, q);
    } else if q == [] {
      SeenByAncestor(n, p, repl);
    } else {
      if p[0] == q[0] {
        UpdateAtLevel(n, p, repl, p[0]);
        UpdateAtSeen(Lookup(n.kids, p[0]).value, p[1..], repl, q[1..]);
      }
      hide *;
      SeenBelow(n, p, repl, q);
    }
  }

  lemma PrefixTail(p: Path, q: Path)
    requires p != [] && q != [] && p[0] == q[0]
    ensures p <= q <==> p[1..] <= q[1..]
    ensures q <= p <==> q[1..] <= p[1..]
  {
    assert p == [p[0]] + p[1..] && q == [q[0]] + q[1..];
  }

  lemma NewDirFound(n: Node, p: Path, name: string)
    requires IsDir(n, p) && NodeAt(n, p + [name]).None?
    ensures IsDir(UpdateAt(n, p, AddKid(NodeAt(n, p).value, Dir(name, []))), p + [name])
  {
    AddKidEntries(n, p, Dir(name, []), p + [name]);
  }

  lemma {:induction false} UpdateAtWellFormed(n: Node, p: Path, repl: Node)
    requires WellFormed(n) && NodeAt(n, p).Some? && WellFormed(repl) && repl.name == NodeAt(n, p).value.name
    ensures WellFormed(UpdateAt(n, p, repl)) && UpdateAt(n, p, repl).name == n.name
    ensures WellFormed(NodeAt(n, p).value)
    decreases |p|
  {
    if p != [] {
      var i := KidIndex(n.kids, p[0]);
      UpdateAtWellFormed(n.kids[i], p[1..], repl);
    }
  }

  lemma {:induction false} NodeAtWellFormed(n: Node, p: Path)
    requires WellFormed(n) && NodeAt(n, p).Some?
    ensures WellFormed(NodeAt(n, p).value)
    ensures p != [] ==> NodeAt(n, p).value.name == p[|p| - 1]
    decreases |p|
  {
    if p != [] {
      var i := KidIndex(n.kids, p[0]);
      NodeAtWellFormed(n.kids[i], p[1..]);
      assert |p| > 1 ==> p[1..][|p| - 2] == p[|p| - 1];
    }
  }

  // ---- The operations on the finite map -------------------------------------------------------------------

  lemma AddKidBelow(cur: Node, kid: Node, r: Path)
    requires cur.Dir? && KidIndex(cur.kids, kid.name) == |cur.kids| && Kids(kid) == []
    ensures EntryAt(AddKid(cur, kid), r) == if r == [kid.name] then EntryAt(kid, []) else EntryAt(cur, r)
  {
    if r != [] {
      hide NodeAt, Lookup, KidIndex;
      NodeAtCons(AddKid(cur, kid), r);
      NodeAtCons(cur, r);
      LookupAppend(cur.kids, kid, r[0]);
      assert r == [r[0]] + r[1..];
      NodeAtRoot(kid);
      if r[0] == kid.name && |r| > 1 {
        NoKidsBelow(kid, r[1..]);
        AbsentLookup(cur.kids, kid.name);
      }
    }
  }

  lemma AbsentLookup(kids: seq<Node>, name: string)
    ensures Lookup(kids, name).None? <==> KidIndex(kids, name) == |kids|
  {
  }

  lemma NoKidsBelow(n: Node, r: Path)
    requires Kids(n) == [] && r != []
    ensures NodeAt(n, r).None?
  {
  }

  lemma AddKidEntries(n: Node, p: Path, kid: Node, q: Path)
    requires IsDir(n, p) && NodeAt(n, p + [kid.name]).None? && Kids(kid) == []
    ensures EntryAt(UpdateAt(n, p, AddKid(NodeAt(n, p).value, kid)), q)
         == if q == p + [kid.name] then EntryAt(kid, []) else EntryAt(n, q)
  {
    hide NodeAt, UpdateAt, Lookup, KidIndex;
    var cur := NodeAt(n, p).value;
    UpdateAtSeen(n, p, AddKid(cur, kid), q);
    NodeAtStep(n, p, kid.name);
    AbsentLookup(cur.kids, kid.name);
    if p <= q {
      var r := q[|p|..];
      assert q == p + r;
      NodeAtConcat(n, p, r);
      AddKidBelow(cur, kid, r);
      assert q == p + [kid.name] <==> r == [kid.name];
    }
  }

  lemma RemoveKidBelow(cur: Node, i: nat, r: Path)
    requires WellFormed(cur) && cur.Dir? && i < |cur.kids|
    ensures EntryAt(RemoveKid(cur, i), r) == if [cur.kids[i].name] <= r then None else EntryAt(cur, r)
  {
    if r != [] {
      hide NodeAt, Lookup, KidIndex;
      NodeAtCons(RemoveKid(cur, i), r);
      NodeAtCons(cur, r);
      LookupRemove(cur.kids, i, r[0]);
    }
  }

  lemma RemoveKidEntries(n: Node, p: Path, i: nat, q: Path)
    requires WellFormed(n) && IsDir(n, p) && i < |NodeAt(n, p).value.kids|
    ensures EntryAt(UpdateAt(n, p, RemoveKid(NodeAt(n, p).value, i)), q)
         == if p + [NodeAt(n, p).value.kids[i].name] <= q then None else EntryAt(n, q)
  {
    hide NodeAt, UpdateAt, Lookup, KidIndex, WellFormed;
    var cur := NodeAt(n, p).value;
    var name := cur.kids[i].name;
    NodeAtWellFormed(n, p);
    UpdateAtSeen(n, p, RemoveKid(cur, i), q);
    if p <= q {
      var r := q[|p|..];
      assert q == p + r;
      NodeAtConcat(n, p, r);
      RemoveKidBelow(cur, i, r);
      PrefixConcat(p, [name], r);
    } else {
      LongerPrefix(p, [name], q);
    }
  }

  lemma PrefixConcat(p: Path, x: Path, r: Path)
    ensures p + x <= p + r <==> x <= r
  {
    if p + x <= p + r {
      assert x == (p + r)[|p|..|p| + |x|];
    }
  }

  lemma LongerPrefix(p: Path, x: Path, q: Path)
    ensures p + x <= q ==> p <= q
  {
    if p + x <= q {
      assert p == q[..|p|];
    }
  }

  /** Node by node: adding a child changes the parent's child list, adds the child, and keeps every other
      node's shape. */
  lemma AddKidNodes(n: Node, p: Path, kid: Node, q: Path)
    requires IsDir(n, p) && NodeAt(n, p + [kid.name]).None? && Kids(kid) == []
    ensures var n' := UpdateAt(n, p, AddKid(NodeAt(n, p).value, kid));
            if q == p + [kid.name] then NodeAt(n', q) == Some(kid)
            else if q == p then NodeAt(n', q) == Some(AddKid(NodeAt(n, p).value, kid))
            else if NodeAt(n, q).None? then NodeAt(n', q).None?
            else NodeAt(n', q).Some? && SameShape(NodeAt(n, q).value, NodeAt(n', q).value)
  {
    hide NodeAt, UpdateAt, Lookup, KidIndex;
    var cur := NodeAt(n, p).value;
    UpdateAtSeen(n, p, AddKid(cur, kid), q);
    NodeAtStep(n, p, kid.name);
    AbsentLookup(cur.kids, kid.name);
    NodeAtRoot(AddKid(cur, kid));
    AddKidEntries(n, p, kid, q);
    if p <= q && q != p {
      var r := q[|p|..];
      assert q == p + r && r == [r[0]] + r[1..];
      NodeAtConcat(n, p, r);
      NodeAtCons(AddKid(cur, kid), r);
      NodeAtCons(cur, r);
      LookupAppend(cur.kids, kid, r[0]);
      NodeAtRoot(kid);
      if r[0] == kid.name && |r| > 1 { NoKidsBelow(kid, r[1..]); }
    }
  }

  lemma RemoveKidNodes(n: Node, p: Path, i: nat, q: Path)
    requires WellFormed(n) && IsDir(n, p) && i < |NodeAt(n, p).value.kids|
    ensures var cur := NodeAt(n, p).value;
            var n' := UpdateAt(n, p, RemoveKid(cur, i));
            if p + [cur.kids[i].name] <= q then NodeAt(n', q).None?
            else if q == p then NodeAt(n', q) == Some(RemoveKid(cur, i))
            else if NodeAt(n, q).None? then NodeAt(n', q).None?
            else NodeAt(n', q).Some? && SameShape(NodeAt(n, q).value, NodeAt(n', q).value)
  {
    hide NodeAt, UpdateAt, Lookup, KidIndex, WellFormed;
    var cur := NodeAt(n, p).value;
    RemoveKidEntries(n, p, i, q);
    UpdateAtSeen(n, p, RemoveKid(cur, i), q);
    NodeAtRoot(RemoveKid(cur, i));
    if p <= q && q != p {
      var r := q[|p|..];
      assert q == p + r && r == [r[0]] + r[1..];
      NodeAtConcat(n, p, r);
      NodeAtCons(RemoveKid(cur, i), r);
      NodeAtCons(cur, r);
      NodeAtWellFormed(n, p);
      RemoveKidLookup(cur, i, r[0]);
      PrefixConcat(p, [cur.kids[i].name], r);
    } else if p != q {
      LongerPrefix(p, [cur.kids[i].name], q);
    }
  }

  lemma RemoveKidLookup(cur: Node, i: nat, name: string)
    requires WellFormed(cur) && cur.Dir? && i < |cur.kids|
    ensures Lookup(RemoveKid(cur, i).kids, name) == if name == cur.kids[i].name then None else Lookup(cur.kids, name)
  {
    LookupRemove(cur.kids, i, name);
  }

  lemma WithBlockNodes(n: Node, p: Path, id: int, q: Path)
    requires IsFile(n, p)
    ensures var f := NodeAt(n, p).value;
            var n' := WithBlock(n, p, id);
            if q == p then NodeAt(n', q) == Some(f.(blocks := f.blocks + [id]))
            else if NodeAt(n, q).None? then NodeAt(n', q).None?
            else NodeAt(n', q).Some? && SameShape(NodeAt(n, q).value, NodeAt(n', q).value)
  {
    hide NodeAt, UpdateAt;
    var f := NodeAt(n, p).value;
    var repl := f.(blocks := f.blocks + [id]);
    UpdateAtSeen(n, p, repl, q);
    NodeAtRoot(repl);
    if p <= q && p != q {
      assert q == p + q[|p|..];
      NodeAtConcat(n, p, q[|p|..]);
      NoKidsBelow(f, q[|p|..]);
      NoKidsBelow(repl, q[|p|..]);
    }
  }

  /** CreateFile adds exactly the entry for p, and works exactly when p is free in an existing directory. */
  lemma CreateFileEntries(n: Node, p: Path, q: Path)
    ensures WithFile(n, p).Some? <==> p != [] && IsDir(n, p[..|p| - 1]) && EntryAt(n, p).None?
    ensures WithFile(n, p).Some? ==>
              EntryAt(WithFile(n, p).value, q) == if q == p then Some(FileEntry([])) else EntryAt(n, q)
  {
    hide NodeAt, UpdateAt, KidIndex;
    if p != [] {
      var dir, name := p[..|p| - 1], p[|p| - 1];
      assert p == dir + [name];
      NodeAtStep(n, dir, name);
      if IsDir(n, dir) { AbsentLookup(NodeAt(n, dir).value.kids, name); }
      if WithFile(n, p).Some? {
        NodeAtRoot(File(name, []));
        AddKidEntries(n, dir, File(name, []), q);
      }
    }
  }

  /** Delete removes exactly the entries at and below p, and works exactly when p exists and is not the root. */
  lemma DeleteEntries(n: Node, p: Path, q: Path)
    requires WellFormed(n)
    ensures Without(n, p).Some? <==> p != [] && EntryAt(n, p).Some?
    ensures Without(n, p).Some? ==> EntryAt(Without(n, p).value, q) == if p <= q then None else EntryAt(n, q)
  {
    hide NodeAt, UpdateAt, WellFormed, KidIndex;
    if p != [] {
      var dir, name := p[..|p| - 1], p[|p| - 1];
      assert p == dir + [name];
      NodeAtStep(n, dir, name);
      if NodeAt(n, dir).Some? {
        AbsentLookup(Kids(NodeAt(n, dir).value), name);
        if Without(n, p).Some? {
          RemoveKidEntries(n, dir, KidIndex(Kids(NodeAt(n, dir).value), name), q);
        }
      }
    }
  }

  lemma BelowMissing(n: Node, p: Path, i: nat, k: nat)
    requires i <= k <= |p| && NodeAt(n, p[..i]).None?
    ensures NodeAt(n, p[..k]).None?
  {
    assert p[..k] == p[..i] + p[i..k];
    NodeAtConcat(n, p[..i], p[i..k]);
  }

  /** Mkdirs turns every prefix of p into a directory and changes nothing else; it fails exactly when a prefix
      is a file, and then the tree is untouched. */
  lemma {:induction false} MkdirsEntries(n: Node, p: Path, i: nat, q: Path)
    requires i <= |p| && IsDir(n, p[..i])
    ensures var (n', ok) := MkdirsFrom(n, p, i);
            (ok <==> forall k :: i <= k <= |p| ==> !IsFile(n, p[..k])) &&
            (!ok ==> n' == n) &&
            (ok ==> EntryAt(n', q) == if q <= p && |q| > i then Some(DirEntry) else EntryAt(n, q))
    decreases |p| - i
  {
    if i < |p| {
      var pi := p[..i];
      assert p[..i + 1] == pi + [p[i]] && p[..i + 1][..i] == pi;
      assert q <= p && |q| == i + 1 <==> q == p[..i + 1];
      match NodeAt(n, p[..i + 1])
      case None =>
        var kid := Dir(p[i], []);
        var n' := UpdateAt(n, pi, AddKid(NodeAt(n, pi).value, kid));
        NewDirFound(n, pi, p[i]);
        AddKidEntries(n, pi, kid, q);
        forall k | i + 1 <= k <= |p| ensures !IsFile(n', p[..k]) && !IsFile(n, p[..k]) {
          BelowMissing(n, p, i + 1, k);
          AddKidEntries(n, pi, kid, p[..k]);
        }
        MkdirsEntries(n', p, i + 1, q);
      case Some(Dir(_, _)) =>
        MkdirsEntries(n, p, i + 1, q);
      case Some(File(_, _)) =>
        assert IsFile(n, p[..i + 1]);
    }
  }

  /** Appending a block changes the block list of the file at p and nothing else. */
  lemma AppendBlockEntries(n: Node, p: Path, id: int, q: Path)
    requires IsFile(n, p)
    ensures EntryAt(WithBlock(n, p, id), q)
         == if q == p then Some(FileEntry(NodeAt(n, p).value.blocks + [id])) else EntryAt(n, q)
  {
    var f := NodeAt(n, p).value;
    UpdateAtSeen(n, p, f.(blocks := f.blocks + [id]), q);
    if p <= q {
      assert q == p + q[|p|..];
      NodeAtConcat(n, p, q[|p|..]);
    }
  }

  // ---- Well-formedness and blocks -------------------------------------------------------------------------

  lemma MkdirsWellFormed(n: Node, p: Path, i: nat)
    requires i <= |p| && IsDir(n, p[..i]) && WellFormed(n) && forall k :: 0 <= k < |p| ==> IsField(p[k], IsSlash)
    ensures WellFormed(MkdirsFrom(n, p, i).0) && MkdirsFrom(n, p, i).0.name == n.name
    ensures n.Dir? ==> MkdirsFrom(n, p, i).0.Dir?
    decreases |p| - i
  {
    hide WellFormed, UpdateAt, NodeAt, KidIndex;
    if i < |p| {
      var pi := p[..i];
      assert p[..i + 1] == pi + [p[i]] && p[..i + 1][..i] == pi;
      match NodeAt(n, p[..i + 1])
      case None =>
        var kid := Dir(p[i], []);
        var n' := UpdateAt(n, pi, AddKid(NodeAt(n, pi).value, kid));
        NewDirFound(n, pi, p[i]);
        AddKidWellFormed(n, pi, kid);
        MkdirsWellFormed(n', p, i + 1);
      case Some(Dir(_, _)) => MkdirsWellFormed(n, p, i + 1);
      case Some(File(_, _)) =>
    }
  }

  lemma AddKidWellFormed(n: Node, p: Path, kid: Node)
    requires WellFormed(n) && IsDir(n, p) && NodeAt(n, p + [kid.name]).None?
    requires Kids(kid) == [] && IsField(kid.name, IsSlash)
    ensures var n' := UpdateAt(n, p, AddKid(NodeAt(n, p).value, kid));
            WellFormed(n') && n'.name == n.name && n'.Dir?
  {
    hide UpdateAt, NodeAt, KidIndex;
    var cur := NodeAt(n, p).value;
    NodeAtWellFormed(n, p);
    NodeAtStep(n, p, kid.name);
    AbsentLookup(cur.kids, kid.name);
    FindAbsent(cur.kids, kid.name);
    assert WellFormed(AddKid(cur, kid));
    UpdateAtWellFormed(n, p, AddKid(cur, kid));
    UpdateAtSeen(n, p, AddKid(cur, kid), []);
    RootStaysDir(n, p, AddKid(cur, kid));
  }

  lemma RootStaysDir(n: Node, p: Path, repl: Node)
    requires NodeAt(n, p).Some? && NodeAt(n, p).value.Dir? && repl.Dir?
    ensures UpdateAt(n, p, repl).Dir?
  {
  }

  lemma CreateFileWellFormed(n: Node, p: Path)
    requires WellFormed(n) && n.Dir? && WithFile(n, p).Some? && forall k :: 0 <= k < |p| ==> IsField(p[k], IsSlash)
    ensures WellFormed(WithFile(n, p).value) && WithFile(n, p).value.name == n.name && WithFile(n, p).value.Dir?
  {
    hide UpdateAt, NodeAt, KidIndex, WellFormed;
    var dir, name := p[..|p| - 1], p[|p| - 1];
    NodeAtStep(n, dir, name);
    AbsentLookup(NodeAt(n, dir).value.kids, name);
    AddKidWellFormed(n, dir, File(name, []));
  }

  lemma RemoveKidWellFormed(n: Node, p: Path, i: nat)
    requires WellFormed(n) && n.Dir? && IsDir(n, p) && i < |NodeAt(n, p).value.kids|
    ensures var n' := UpdateAt(n, p, RemoveKid(NodeAt(n, p).value, i));
            WellFormed(n') && n'.name == n.name && n'.Dir?
  {
    hide UpdateAt, NodeAt;
    var cur := NodeAt(n, p).value;
    NodeAtWellFormed(n, p);
    forall l: nat | l < |cur.kids| - 1 ensures RemoveKid(cur, i).kids[l] == cur.kids[if l < i then l else l + 1] {
      RemovedAt(cur.kids, i, l);
    }
    assert WellFormed(RemoveKid(cur, i));
    UpdateAtWellFormed(n, p, RemoveKid(cur, i));
    RootStaysDir(n, p, RemoveKid(cur, i));
  }

  lemma DeleteWellFormed(n: Node, p: Path)
    requires WellFormed(n) && n.Dir? && Without(n, p).Some?
    ensures WellFormed(Without(n, p).value) && Without(n, p).value.name == n.name && Without(n, p).value.Dir?
  {
    hide UpdateAt, NodeAt, KidIndex, WellFormed;
    var dir := p[..|p| - 1];
    RemoveKidWellFormed(n, dir, KidIndex(Kids(NodeAt(n, dir).value), p[|p| - 1]));
  }

  lemma AppendBlockWellFormed(n: Node, p: Path, id: int)
    requires WellFormed(n) && n.Dir? && IsFile(n, p)
    ensures WellFormed(WithBlock(n, p, id)) && WithBlock(n, p, id).name == n.name && WithBlock(n, p, id).Dir?
  {
    var f := NodeAt(n, p).value;
    UpdateAtWellFormed(n, p, f.(blocks := f.blocks + [id]));
  }

  /** How often each block id occurs in the files of a tree. */
  function Blocks(n: Node): multiset<int>
    decreases n, 0
  {
    if n.File? then multiset(n.blocks) else BlocksOf(n.kids)
  }

  function BlocksOf(kids: seq<Node>): multiset<int>
    decreases kids, 1
  {
    if kids == [] then multiset{} else Blocks(kids[0]) + BlocksOf(kids[1..])
  }

  lemma {:induction false} BlocksOfConcat(a: seq<Node>, b: seq<Node>)
    ensures BlocksOf(a + b) == BlocksOf(a) + BlocksOf(b)
  {
    if a == [] {
      assert a + b == b;
    } else {
      assert (a + b)[1..] == a[1..] + b;
      BlocksOfConcat(a[1..], b);
    }
  }

  lemma BlocksOfSplit(kids: seq<Node>, i: nat)
    requires i < |kids|
    ensures BlocksOf(kids) == BlocksOf(kids[..i]) + Blocks(kids[i]) + BlocksOf(kids[i + 1..])
  {
    hide *;
    assert kids == kids[..i] + ([kids[i]] + kids[i + 1..]);
    BlocksOfConcat(kids[..i], [kids[i]] + kids[i + 1..]);
    BlocksOfConcat([kids[i]], kids[i + 1..]);
    OneKid(kids[i]);
  }

  lemma OneKid(kid: Node)
    ensures BlocksOf([kid]) == Blocks(kid)
  {
    assert [kid][1..] == [];
  }

  lemma BlocksOfUpdate(kids: seq<Node>, i: nat, kid: Node)
    requires i < |kids|
    ensures BlocksOf(kids[i := kid]) + Blocks(kids[i]) == BlocksOf(kids) + Blocks(kid)
  {
    hide Blocks, BlocksOf;
    BlocksOfSplit(kids, i);
    BlocksOfSplit(kids[i := kid], i);
    assert kids[i := kid][..i] == kids[..i] && kids[i := kid][i + 1..] == kids[i + 1..];
  }

  lemma ChainBalance(a: multiset<int>, b: multiset<int>, kid: multiset<int>, up: multiset<int>,
                     before: multiset<int>, repl: multiset<int>)
    requires a + kid == b + up && up + before == kid + repl
    ensures a + before == b + repl
  {
    assert a + before == ((a + kid) + (up + before)) - (kid + up);
    assert b + repl == ((b + up) + (kid + repl)) - (kid + up);
  }

  lemma {:induction false} UpdateAtBlocks(n: Node, p: Path, repl: Node)
    requires NodeAt(n, p).Some?
    ensures Blocks(UpdateAt(n, p, repl)) + Blocks(NodeAt(n, p).value) == Blocks(n) + Blocks(repl)
    decreases |p|
  {
    if p != [] {
      var i := KidIndex(n.kids, p[0]);
      UpdateAtBlocks(n.kids[i], p[1..], repl);
      hide BlocksOf;
      var up := UpdateAt(n.kids[i], p[1..], repl);
      BlocksOfUpdate(n.kids, i, up);
      ChainBalance(BlocksOf(n.kids[i := up]), BlocksOf(n.kids), Blocks(n.kids[i]), Blocks(up),
                   Blocks(NodeAt(n, p).value), Blocks(repl));
    }
  }

  lemma AddKidBlocks(cur: Node, kid: Node)
    requires cur.Dir?
    ensures Blocks(AddKid(cur, kid)) == Blocks(cur) + Blocks(kid)
  {
    BlocksOfConcat(cur.kids, [kid]);
    OneKid(kid);
  }

  lemma MultisetBalance(a: multiset<int>, b: multiset<int>, c: multiset<int>, d: multiset<int>)
    requires a + b == c + (b + d)
    ensures a == c + d
  {
    assert a == (a + b) - b;
    assert c + d == (c + (b + d)) - b;
  }

  lemma MkdirsBlocks(n: Node, p: Path, i: nat)
    requires i <= |p| && IsDir(n, p[..i])
    ensures Blocks(MkdirsFrom(n, p, i).0) == Blocks(n)
    decreases |p| - i
  {
    hide UpdateAt, NodeAt, KidIndex, Blocks;
    if i < |p| {
      var pi := p[..i];
      assert p[..i + 1] == pi + [p[i]] && p[..i + 1][..i] == pi;
      match NodeAt(n, p[..i + 1])
      case None =>
        NewDirFound(n, pi, p[i]);
        AddKidAtBlocks(n, pi, Dir(p[i], []));
        MkdirsBlocks(UpdateAt(n, pi, AddKid(NodeAt(n, pi).value, Dir(p[i], []))), p, i + 1);
      case Some(Dir(_, _)) => MkdirsBlocks(n, p, i + 1);
      case Some(File(_, _)) =>
    }
  }

  lemma NoBlocks(kid: Node)
    requires kid == Dir(kid.name, []) || kid == File(kid.name, [])
    ensures Blocks(kid) == multiset{}
  {
  }

  lemma AddKidAtBlocks(n: Node, p: Path, kid: Node)
    requires IsDir(n, p) && (kid == Dir(kid.name, []) || kid == File(kid.name, []))
    ensures Blocks(UpdateAt(n, p, AddKid(NodeAt(n, p).value, kid))) == Blocks(n)
  {
    hide UpdateAt, NodeAt, KidIndex, Blocks;
    var cur := NodeAt(n, p).value;
    UpdateAtBlocks(n, p, AddKid(cur, kid));
    AddKidBlocks(cur, kid);
    NoBlocks(kid);
    var after := Blocks(UpdateAt(n, p, AddKid(cur, kid)));
    MultisetBalance(after, Blocks(cur), Blocks(n), multiset{});
  }

  lemma CreateFileBlocks(n: Node, p: Path)
    requires WithFile(n, p).Some?
    ensures Blocks(WithFile(n, p).value) == Blocks(n)
  {
    hide UpdateAt, NodeAt, KidIndex, Blocks;
    AddKidAtBlocks(n, p[..|p| - 1], File(p[|p| - 1], []));
  }

  /** A deleted subtree takes exactly its own block ids with it. */
  lemma DeleteBlocks(n: Node, p: Path)
    requires Without(n, p).Some?
    ensures NodeAt(n, p).Some?
    ensures Blocks(Without(n, p).value) + Blocks(NodeAt(n, p).value) == Blocks(n)
  {
    hide UpdateAt, NodeAt, Blocks;
    var dir, name := p[..|p| - 1], p[|p| - 1];
    assert p == dir + [name];
    NodeAtStep(n, dir, name);
    var parent := NodeAt(n, dir).value;
    var i := KidIndex(Kids(parent), name);
    UpdateAtBlocks(n, dir, RemoveKid(parent, i));
    RemoveKidBlocks(parent, i);
    var after, kid := Blocks(Without(n, p).value), Blocks(parent.kids[i]);
    RegroupBlocks(after, Blocks(RemoveKid(parent, i)), kid, Blocks(n));
  }

  lemma RegroupBlocks(after: multiset<int>, left: multiset<int>, kid: multiset<int>, before: multiset<int>)
    requires after + (left + kid) == before + left
    ensures after + kid == before
  {
    assert after + kid == (after + (left + kid)) - left;
    assert before == (before + left) - left;
  }

  lemma RemoveKidBlocks(cur: Node, i: nat)
    requires cur.Dir? && i < |cur.kids|
    ensures Blocks(cur) == Blocks(RemoveKid(cur, i)) + Blocks(cur.kids[i])
  {
    BlocksOfSplit(cur.kids, i);
    BlocksOfConcat(cur.kids[..i], cur.kids[i + 1..]);
  }

  lemma AppendBlockBlocks(n: Node, p: Path, id: int)
    requires IsFile(n, p)
    ensures Blocks(WithBlock(n, p, id)) == Blocks(n) + multiset{id}
  {
    hide UpdateAt, NodeAt;
    var f := NodeAt(n, p).value;
    UpdateAtBlocks(n, p, f.(blocks := f.blocks + [id]));
    assert multiset(f.blocks + [id]) == multiset(f.blocks) + multiset{id};
    MultisetBalance(Blocks(WithBlock(n, p, id)), Blocks(f), Blocks(n), multiset{id});
  }

  /** The blocks of a file or subtree are among the blocks of the tree. */
  lemma {:induction false} FileBlocks(n: Node, p: Path)
    requires NodeAt(n, p).Some?
    ensures Blocks(NodeAt(n, p).value) <= Blocks(n)
    decreases |p|
  {
    if p != [] {
      var i := KidIndex(n.kids, p[0]);
      FileBlocks(n.kids[i], p[1..]);
      hide BlocksOf;
      BlocksOfSplit(n.kids, i);
    }
  }
}
