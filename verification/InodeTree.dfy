/** InodeTree: INode objects linked by child lists and updated in place. The ghost field `tree` is the value the
    objects stand for; every method is proved to compute the corresponding operation of module Inodes. */
module InodeTree {
  import opened Options
  import opened Text
  import opened Inodes

  class INode {
    const name: string
    const isDir: bool
    var blocks: seq<int>
    var children: seq<INode>

    constructor (isDir: bool, name: string)
      ensures this.isDir == isDir && this.name == name && blocks == [] && children == []
    {
      this.isDir, this.name, blocks, children := isDir, name, [], [];
    }
  }

  /** Loop invariant of SplitPath: the finished parts, then the fields of what is left. */
  ghost predicate SplitSoFar(path: string, parts: Path, current: string, rest: string) {
    (forall k :: 0 <= k < |current| ==> current[k] != '/') &&
    parts + Fields(current + rest, IsSlash) == Fields(path, IsSlash)
  }

  lemma SplitStart(path: string, start: nat)
    requires start <= 1 && start <= |path| && (start == 1 ==> path[0] == '/')
    ensures SplitSoFar(path, [], "", path[start..])
  {
    assert path[0..] == path && "" + path[start..] == path[start..];
  }

  lemma SplitChar(path: string, parts: Path, current: string, rest: string)
    requires SplitSoFar(path, parts, current, rest) && rest != "" && rest[0] != '/'
    ensures SplitSoFar(path, parts, current + [rest[0]], rest[1..])
  {
    assert current + rest == current + [rest[0]] + rest[1..];
  }

  lemma SplitSlash(path: string, parts: Path, current: string, rest: string)
    requires SplitSoFar(path, parts, current, rest) && rest != "" && rest[0] == '/'
    ensures SplitSoFar(path, if current == "" then parts else parts + [current], "", rest[1..])
  {
    assert "" + rest[1..] == rest[1..];
    if current == "" {
      assert current + rest == rest;
    } else {
      FieldThenSeparator(current, rest, IsSlash);
      assert Fields(rest, IsSlash) == Fields(rest[1..], IsSlash);
      hide Fields;
      assert parts + ([current] + Fields(rest, IsSlash)) == parts + [current] + Fields(rest, IsSlash);
    }
  }

  lemma SplitEnd(path: string, parts: Path, current: string)
    requires SplitSoFar(path, parts, current, "")
    ensures (if current == "" then parts else parts + [current]) == Fields(path, IsSlash)
  {
    assert current + "" == current;
    if current != "" {
      FieldThenSeparator(current, "", IsSlash);
      assert Fields("", IsSlash) == [];
    }
  }

  /** SplitPath: the components of a path, empty ones dropped. */
  method SplitPath(path: string) returns (parts: Path)
    ensures parts == Fields(path, IsSlash)
  {
    parts := [];
    if path == "" || path == "/" {
      assert path == "/" ==> path[1..] == [];
      return;
    }
    hide *;
    var start := if path[0] == '/' then 1 else 0;
    var current := "";
    var i := start;
    SplitStart(path, start);
    while i < |path|
      invariant start <= i <= |path|
      invariant SplitSoFar(path, parts, current, path[i..])
    {
      assert path[i..][1..] == path[i + 1..];
      if path[i] == '/' {
        SplitSlash(path, parts, current, path[i..]);
        if current != "" {
          parts := parts + [current];
          current := "";
        }
      } else {
        SplitChar(path, parts, current, path[i..]);
        current := current + [path[i]];
      }
      i := i + 1;
    }
    // the last round of the loop, at i == path.size()
    SplitEnd(path, parts, current);
    if current != "" {
      parts := parts + [current];
    }
  }

  /** An object with these fields, at path p, stands for the value n. */
  ghost predicate Fits(n: Node, p: Path, nodes: map<Path, INode>, isDir: bool, name: string, blocks: seq<int>,
                       children: seq<INode>)
  {
    name == n.name && isDir == n.Dir? && blocks == (if n.File? then n.blocks else []) &&
    |children| == |Kids(n)| &&
    forall i :: 0 <= i < |Kids(n)| ==>
      p + [Kids(n)[i].name] in nodes && children[i] == nodes[p + [Kids(n)[i].name]]
  }

  lemma FitsSameShape(n: Node, m: Node, p: Path, nodes: map<Path, INode>, more: map<Path, INode>, isDir: bool,
                      name: string, blocks: seq<int>, children: seq<INode>)
    requires SameShape(n, m) && Fits(n, p, nodes, isDir, name, blocks, children)
    requires forall q :: q in nodes && p < q && |q| == |p| + 1 ==> q in more && more[q] == nodes[q]
    ensures Fits(m, p, more, isDir, name, blocks, children)
  {
    forall i | 0 <= i < |Kids(m)| ensures
      p + [Kids(m)[i].name] in more && children[i] == more[p + [Kids(m)[i].name]]
    {
      assert Kids(m)[i].name == Kids(n)[i].name;
      assert p < p + [Kids(n)[i].name];
    }
  }

  /** After a child was attached below p, the object at q stands for the new node at q. */
  lemma AttachedFits(before: Node, p: Path, kid: Node, child: INode, nodes: map<Path, INode>, q: Path, isDir: bool,
                     name: string, blocks: seq<int>, children: seq<INode>)
    requires IsDir(before, p) && NodeAt(before, p + [kid.name]).None? && Kids(kid) == []
    requires p + [kid.name] !in nodes && NodeAt(before, q).Some?
    requires Fits(NodeAt(before, q).value, q, nodes, isDir, name, blocks, children)
    ensures var after := UpdateAt(before, p, AddKid(NodeAt(before, p).value, kid));
            NodeAt(after, q).Some? &&
            Fits(NodeAt(after, q).value, q, nodes[p + [kid.name] := child], isDir, name, blocks,
                 if q == p then children + [child] else children)
  {
    hide NodeAt, UpdateAt;
    var more := nodes[p + [kid.name] := child];
    AddKidNodes(before, p, kid, q);
    var n := NodeAt(before, q).value;
    if q == p {
      var m := AddKid(n, kid);
      forall i | 0 <= i < |m.kids| ensures
        p + [m.kids[i].name] in more && (children + [child])[i] == more[p + [m.kids[i].name]]
      {
        if i < |n.kids| {
          assert m.kids[i] == n.kids[i];
          assert p + [n.kids[i].name] in nodes;
        }
      }
    } else {
      var after := UpdateAt(before, p, AddKid(NodeAt(before, p).value, kid));
      FitsSameShape(n, NodeAt(after, q).value, q, nodes, more, isDir, name, blocks, children);
    }
  }

  lemma ExtendedPrefix(g: Path, p: Path, q: Path, r: Path)
    requires q < r && |r| == |q| + 1 && p <= g && |g| == |p| + 1
    ensures g <= r ==> g <= q || q == p
  {
    if g <= r && |g| == |r| {
      assert p == g[..|p|] == r[..|p|] == q;
    } else if g <= r {
      assert g == r[..|g|] == q[..|g|];
    }
  }

  /** After child i was erased below p, a remaining object stands for the new node at its path. */
  lemma DetachedFits(before: Node, p: Path, i: nat, nodes: map<Path, INode>, q: Path, isDir: bool, name: string,
                     blocks: seq<int>, children: seq<INode>)
    requires WellFormed(before) && IsDir(before, p) && i < |NodeAt(before, p).value.kids| && NodeAt(before, q).Some?
    requires !(p + [NodeAt(before, p).value.kids[i].name] <= q)
    requires Fits(NodeAt(before, q).value, q, nodes, isDir, name, blocks, children)
    ensures var cur := NodeAt(before, p).value;
            var after := UpdateAt(before, p, RemoveKid(cur, i));
            var left := map r | r in nodes && !(p + [cur.kids[i].name] <= r) :: nodes[r];
            NodeAt(after, q).Some? &&
            (q == p ==> i < |children|) &&
            Fits(NodeAt(after, q).value, q, left, isDir, name, blocks,
                 if q == p then children[..i] + children[i + 1..] else children)
  {
    hide NodeAt, UpdateAt, WellFormed;
    var cur := NodeAt(before, p).value;
    var gone := p + [cur.kids[i].name];
    var left := map r | r in nodes && !(gone <= r) :: nodes[r];
    RemoveKidNodes(before, p, i, q);
    if q == p {
      NodeAtWellFormed(before, p);
      RemovedChildFits(cur, p, i, nodes, left, isDir, name, blocks, children);
    } else {
      forall r | r in nodes && q < r && |r| == |q| + 1 ensures r in left && left[r] == nodes[r] {
        ExtendedPrefix(gone, p, q, r);
      }
      var after := UpdateAt(before, p, RemoveKid(cur, i));
      FitsSameShape(NodeAt(before, q).value, NodeAt(after, q).value, q, nodes, left, isDir, name, blocks, children);
    }
  }

  lemma DistinctNames(cur: Node, i: nat, k: nat)
    requires WellFormed(cur) && cur.Dir? && i < |cur.kids| && k < |cur.kids| && i != k
    ensures !([cur.kids[i].name] <= [cur.kids[k].name])
  {
    assert if i < k then cur.kids[i].name != cur.kids[k].name else cur.kids[k].name != cur.kids[i].name;
    assert [cur.kids[i].name][0] != [cur.kids[k].name][0];
  }

  lemma RemovedChildFits(cur: Node, p: Path, i: nat, nodes: map<Path, INode>, left: map<Path, INode>, isDir: bool,
                         name: string, blocks: seq<int>, children: seq<INode>)
    requires WellFormed(cur) && cur.Dir? && i < |cur.kids| && Fits(cur, p, nodes, isDir, name, blocks, children)
    requires left == map r | r in nodes && !(p + [cur.kids[i].name] <= r) :: nodes[r]
    ensures Fits(RemoveKid(cur, i), p, left, isDir, name, blocks, children[..i] + children[i + 1..])
  {
    hide WellFormed;
    var m := RemoveKid(cur, i);
    forall l: nat | l < |m.kids| ensures
      p + [m.kids[l].name] in left && (children[..i] + children[i + 1..])[l] == left[p + [m.kids[l].name]]
    {
      var k := if l < i then l else l + 1;
      RemovedAt(cur.kids, i, l);
      DistinctNames(cur, i, k);
      PrefixConcat(p, [cur.kids[i].name], [cur.kids[k].name]);
      assert p + [cur.kids[k].name] in nodes;
    }
  }

  /** After a block was pushed to the file at p, the object at q stands for the new node at q. */
  lemma PushedFits(before: Node, p: Path, id: int, nodes: map<Path, INode>, q: Path, isDir: bool, name: string,
                   blocks: seq<int>, children: seq<INode>)
    requires IsFile(before, p) && NodeAt(before, q).Some?
    requires Fits(NodeAt(before, q).value, q, nodes, isDir, name, blocks, children)
    ensures NodeAt(WithBlock(before, p, id), q).Some?
    ensures Fits(NodeAt(WithBlock(before, p, id), q).value, q, nodes, isDir, name,
                 if q == p then blocks + [id] else blocks, children)
  {
    hide NodeAt, WithBlock;
    WithBlockNodes(before, p, id, q);
    if q != p {
      FitsSameShape(NodeAt(before, q).value, NodeAt(WithBlock(before, p, id), q).value, q, nodes, nodes, isDir, name,
                    blocks, children);
    }
  }

  lemma FreshFits(kid: Node, p: Path, nodes: map<Path, INode>)
    requires kid == Dir(kid.name, []) || kid == File(kid.name, [])
    ensures Fits(kid, p, nodes, kid.Dir?, kid.name, [], [])
  {
  }

  /** The tree without child i of the node at dir, when there is such a child. */
  function ErasedKid(n: Node, dir: Path, i: nat): Option<Node>
    requires NodeAt(n, dir).Some?
  {
    var cur := NodeAt(n, dir).value;
    if cur.Dir? && i < |cur.kids| then Some(UpdateAt(n, dir, RemoveKid(cur, i))) else None
  }

  lemma WithoutIs(n: Node, dir: Path, last: string)
    requires NodeAt(n, dir).Some?
    ensures Without(n, dir + [last]) == ErasedKid(n, dir, KidIndex(Kids(NodeAt(n, dir).value), last))
  {
    hide NodeAt, UpdateAt, KidIndex;
    assert (dir + [last])[..|dir|] == dir && (dir + [last])[|dir|] == last;
  }

  lemma ErasedKidIs(n: Node, dir: Path, i: nat)
    requires NodeAt(n, dir).Some?
    ensures i >= |Kids(NodeAt(n, dir).value)| ==> ErasedKid(n, dir, i) == None
    ensures NodeAt(n, dir).value.Dir? && i < |NodeAt(n, dir).value.kids| ==>
              ErasedKid(n, dir, i) == Some(UpdateAt(n, dir, RemoveKid(NodeAt(n, dir).value, i)))
  {
  }

  class InodeTree {
    const root: INode
    ghost var tree: Node
    ghost var nodes: map<Path, INode>

    /** The object at p carries the attributes of the node at p, and its children are the objects below p. */
    ghost predicate Matches(p: Path)
      requires p in nodes && NodeAt(tree, p).Some?
      reads this, nodes.Values
    {
      var o := nodes[p];
      Fits(NodeAt(tree, p).value, p, nodes, o.isDir, o.name, o.blocks, o.children)
    }

    ghost predicate Valid()
      reads this, nodes.Values
    {
      && tree.Dir? && WellFormed(tree)
      && [] in nodes && nodes[[]] == root
      && (forall p {:trigger p in nodes} {:trigger NodeAt(tree, p)} :: p in nodes <==> NodeAt(tree, p).Some?)
      && (forall p, q :: p in nodes && q in nodes && nodes[p] == nodes[q] ==> p == q)
      && (forall p :: p in nodes ==> Matches(p))
    }

    constructor ()
      ensures Valid() && tree == ROOT && fresh(nodes.Values)
    {
      root := new INode(true, "");
      tree := ROOT;
      nodes := map[[] := root];
      new;
      assert forall p :: NodeAt(tree, p).Some? ==> p == [];
    }

    lemma ChildAt(p: Path, i: nat)
      requires Valid() && p in nodes && i < |nodes[p].children|
      ensures |Kids(NodeAt(tree, p).value)| == |nodes[p].children|
      ensures var name := Kids(NodeAt(tree, p).value)[i].name;
              p + [name] in nodes && nodes[p].children[i] == nodes[p + [name]] && nodes[p].children[i].name == name
    {
      hide NodeAt, WellFormed;
      assert Matches(p);
      var name := Kids(NodeAt(tree, p).value)[i].name;
      assert Matches(p + [name]);
      NodeAtWellFormed(tree, p + [name]);
    }

    lemma ChildIndex(p: Path, name: string)
      requires Valid() && p in nodes
      ensures var n := NodeAt(tree, p).value;
              |nodes[p].children| == |Kids(n)| &&
              (p + [name] in nodes <==> KidIndex(Kids(n), name) < |Kids(n)|)
    {
      hide NodeAt, WellFormed, KidIndex;
      assert Matches(p);
      NodeAtStep(tree, p, name);
      AbsentLookup(Kids(NodeAt(tree, p).value), name);
    }

    /** FindChild, on the object at p. */
    method FindChild(parent: INode, name: string, ghost p: Path) returns (child: INode?)
      requires Valid() && p in nodes && nodes[p] == parent
      ensures child == null <==> p + [name] !in nodes
      ensures child != null ==> child == nodes[p + [name]]
    {
      hide *;
      InNodes(p);
      ChildIndex(p, name);
      ghost var kids := Kids(NodeAt(tree, p).value);
      FindAbsent(kids, name);
      var i := 0;
      while i < |parent.children|
        invariant 0 <= i <= |parent.children| == |kids|
        invariant forall j :: 0 <= j < i ==> kids[j].name != name
      {
        ChildAt(p, i);
        if parent.children[i].name == name {
          return parent.children[i];
        }
        i := i + 1;
      }
      child := null;
    }

    /** GetNode: the object at the path, or null when the value tree has no such node. */
    method GetNode(path: string) returns (node: INode?)
      requires Valid()
      ensures node == null <==> PathOf(path) !in nodes
      ensures node != null ==> node == nodes[PathOf(path)]
    {
      hide *;
      var parts := SplitPath(path);
      assert PathOf(path) == parts by { PartsOf(path); }
      node := Walk(parts);
    }

    lemma RootNode()
      requires Valid()
      ensures [] in nodes && nodes[[]] == root && IsDir(tree, []) && tree.Dir?
    {
    }

    lemma InNodes(p: Path)
      requires Valid()
      ensures p in nodes <==> NodeAt(tree, p).Some?
      ensures p in nodes ==> (nodes[p].isDir <==> IsDir(tree, p)) && (!nodes[p].isDir <==> IsFile(tree, p)) &&
                             nodes[p].blocks == if IsFile(tree, p) then NodeAt(tree, p).value.blocks else []
    {
      hide NodeAt, WellFormed;
      assert p in nodes ==> Matches(p);
    }

    method Walk(parts: Path) returns (node: INode?)
      requires Valid()
      ensures node == null <==> parts !in nodes
      ensures node != null ==> node == nodes[parts]
    {
      hide *;
      RootNode();
      assert parts[..0] == [];
      var cur: INode := root;
      for i := 0 to |parts|
        invariant parts[..i] in nodes && cur == nodes[parts[..i]]
      {
        assert parts[..i + 1] == parts[..i] + [parts[i]];
        var child := FindChild(cur, parts[i], parts[..i]);
        if child == null {
          MissingBelow(parts, i + 1);
          return null;
        }
        cur := child;
      }
      assert parts[..|parts|] == parts;
      return cur;
    }

    lemma MissingBelow(parts: Path, i: nat)
      requires Valid() && i <= |parts| && parts[..i] !in nodes
      ensures parts !in nodes
    {
      hide NodeAt, WellFormed;
      BelowMissing(tree, parts, i, |parts|);
      assert parts[..|parts|] == parts;
    }

    /** `cur->children.push_back(child)` for a new child of the directory at p. */
    method AttachChild(parent: INode, child: INode, ghost p: Path, ghost kid: Node)
      requires Valid() && p in nodes && nodes[p] == parent && parent.isDir && p + [child.name] !in nodes
      requires child !in nodes.Values && child.blocks == [] && child.children == []
      requires IsField(child.name, IsSlash)
      requires kid == if child.isDir then Dir(child.name, []) else File(child.name, [])
      modifies this, parent
      ensures Valid() && nodes == old(nodes)[p + [child.name] := child]
      ensures IsDir(old(tree), p) && NodeAt(old(tree), p + [child.name]).None?
      ensures tree == UpdateAt(old(tree), p, AddKid(NodeAt(old(tree), p).value, kid))
    {
      hide NodeAt, UpdateAt, WellFormed, Fits;
      ghost var before, had := tree, nodes;
      assert Matches(p);
      MatchesDir(p);
      parent.children := parent.children + [child];
      nodes := nodes[p + [child.name] := child];
      tree := UpdateAt(tree, p, AddKid(NodeAt(tree, p).value, kid));
      AddKidWellFormed(before, p, kid);
      forall q ensures q in nodes <==> NodeAt(tree, q).Some? {
        AddKidNodes(before, p, kid, q);
      }
      forall q | q in nodes ensures Matches(q) {
        if q == p + [child.name] {
          AddKidNodes(before, p, kid, q);
          FreshFits(kid, q, nodes);
        } else {
          assert old(Matches(q));
          AttachedFits(before, p, kid, child, had, q, nodes[q].isDir, nodes[q].name, nodes[q].blocks,
                       old(had[q].children));
        }
      }
    }

    lemma MatchesDir(p: Path)
      requires p in nodes && NodeAt(tree, p).Some? && Matches(p)
      ensures nodes[p].isDir <==> IsDir(tree, p)
    {
    }

    /** Mkdirs: existing directories are entered, missing ones created, a file on the way ends it. */
    method Mkdirs(path: string) returns (node: INode?)
      requires Valid()
      modifies this, nodes.Values
      ensures Valid() && tree == MadeDirs(old(tree), PathOf(path)).0
      ensures node != null <==> MadeDirs(old(tree), PathOf(path)).1
      ensures node != null ==> PathOf(path) in nodes && node == nodes[PathOf(path)]
      ensures forall o :: o in nodes.Values ==> o in old(nodes.Values) || fresh(o)
    {
      hide *;
      var parts := SplitPath(path);
      PartsOf(path);
      AreFields(path);
      node := MakeDirs(parts);
      MadeDirsIs(old(tree), parts);
    }

    lemma MadeDirsIs(n: Node, p: Path)
      requires n.Dir?
      ensures IsDir(n, p[..0]) && MadeDirs(n, p) == MkdirsFrom(n, p, 0)
    {
    }

    lemma AreFields(path: string)
      ensures forall k :: 0 <= k < |PathOf(path)| ==> IsField(PathOf(path)[k], IsSlash)
    {
      FieldsAreFields(path, IsSlash);
    }

    method MakeDirs(parts: Path) returns (node: INode?)
      requires Valid() && forall k :: 0 <= k < |parts| ==> IsField(parts[k], IsSlash)
      modifies this, nodes.Values
      ensures old(tree).Dir? && IsDir(old(tree), parts[..0])
      ensures Valid() && tree == MkdirsFrom(old(tree), parts, 0).0
      ensures node != null <==> MkdirsFrom(old(tree), parts, 0).1
      ensures node != null ==> parts in nodes && node == nodes[parts]
      ensures forall o :: o in nodes.Values ==> o in old(nodes.Values) || fresh(o)
    {
      hide Valid, Inodes.NodeAt, UpdateAt, WellFormed, Fits;
      RootNode();
      assert parts[..0] == [];
      var cur: INode := root;
      var i := 0;
      while i < |parts|
        invariant 0 <= i <= |parts| && Valid()
        invariant parts[..i] in nodes && cur == nodes[parts[..i]] && IsDir(tree, parts[..i])
        invariant MkdirsFrom(tree, parts, i) == MkdirsFrom(old(tree), parts, 0)
        invariant forall o :: o in nodes.Values ==> o in old(nodes.Values) || fresh(o)
      {
        var pi, next := parts[..i], parts[..i + 1];
        assert next == pi + [parts[i]] && next[..i] == pi;
        var child := FindChild(cur, parts[i], pi);
        InNodes(pi);
        InNodes(next);
        if child == null {
          var newNode := new INode(true, parts[i]);
          ghost var before := tree;
          AttachChild(cur, newNode, pi, Dir(parts[i], []));
          NewDirFound(before, pi, parts[i]);
          cur := newNode;
        } else if child.isDir {
          cur := child;
        } else {
          return null;
        }
        i := i + 1;
      }
      assert parts[..|parts|] == parts;
      return cur;
    }

    /** CreateFile: walk to the parent, refuse an existing name, append the new file. */
    method CreateFile(path: string) returns (file: INode?)
      requires Valid()
      modifies this, nodes.Values
      ensures Valid()
      ensures file != null <==> WithFile(old(tree), PathOf(path)).Some?
      ensures tree == if file == null then old(tree) else WithFile(old(tree), PathOf(path)).value
      ensures file != null ==> PathOf(path) in nodes && file == nodes[PathOf(path)] && fresh(file) && !file.isDir
      ensures forall o :: o in nodes.Values ==> o in old(nodes.Values) || fresh(o)
    {
      hide *;
      var parts := SplitPath(path);
      PartsOf(path);
      AreFields(path);
      NoFileAtRoot(tree);
      if parts == [] { return null; }
      file := AddFile(parts);
    }

    lemma NoFileAtRoot(n: Node)
      ensures WithFile(n, []).None?
    {
    }

    method AddFile(parts: Path) returns (file: INode?)
      requires Valid() && parts != [] && forall k :: 0 <= k < |parts| ==> IsField(parts[k], IsSlash)
      modifies this, nodes.Values
      ensures Valid()
      ensures file != null <==> WithFile(old(tree), parts).Some?
      ensures tree == if file == null then old(tree) else WithFile(old(tree), parts).value
      ensures file != null ==> parts in nodes && file == nodes[parts] && fresh(file) && !file.isDir
      ensures forall o :: o in nodes.Values ==> o in old(nodes.Values) || fresh(o)
    {
      hide Valid, NodeAt, UpdateAt, WellFormed, Fits, KidIndex;
      var dir, filename := parts[..|parts| - 1], parts[|parts| - 1];
      assert parts == dir + [filename];
      RootNode();
      assert dir[..0] == [];
      var parent: INode := root;
      for i := 0 to |dir|
        modifies {}
        invariant dir[..i] in nodes && parent == nodes[dir[..i]] && IsDir(tree, dir[..i])
      {
        assert dir[..i + 1] == dir[..i] + [dir[i]];
        var child := FindChild(parent, dir[i], dir[..i]);
        InNodes(dir[..i + 1]);
        if child == null || !child.isDir {
          NoDirBelow(tree, dir, i + 1);
          return null;
        }
        parent := child;
      }
      assert dir[..|dir|] == dir;
      var existing := FindChild(parent, filename, dir);
      InNodes(dir);
      InNodes(parts);
      CreateIff(tree, dir, filename);
      if existing != null { return null; }
      file := new INode(false, filename);
      AttachChild(parent, file, dir, File(filename, []));
    }

    lemma NoDirBelow(n: Node, dir: Path, i: nat)
      requires i <= |dir| && !IsDir(n, dir[..i])
      ensures !IsDir(n, dir) && forall name :: WithFile(n, dir + [name]).None?
    {
      hide NodeAt;
      NodeAtConcat(n, dir[..i], dir[i..]);
      assert dir == dir[..i] + dir[i..] && dir[..|dir|] == dir;
      if i < |dir| && NodeAt(n, dir[..i]).Some? {
        NoKidsBelow(NodeAt(n, dir[..i]).value, dir[i..]);
      }
      forall name ensures WithFile(n, dir + [name]).None? {
        CreateFileEntries(n, dir + [name], []);
        assert (dir + [name])[..|dir|] == dir;
      }
    }

    lemma CreateIff(n: Node, dir: Path, name: string)
      requires IsDir(n, dir)
      ensures WithFile(n, dir + [name]).Some? <==> NodeAt(n, dir + [name]).None?
      ensures WithFile(n, dir + [name]).Some? ==>
                WithFile(n, dir + [name]).value == UpdateAt(n, dir, AddKid(NodeAt(n, dir).value, File(name, [])))
    {
      hide NodeAt, UpdateAt, KidIndex;
      CreateFileEntries(n, dir + [name], []);
      assert (dir + [name])[..|dir|] == dir;
    }

    /** Delete: walk to the parent and erase the child with that name. */
    method Delete(path: string) returns (ok: bool)
      requires Valid()
      modifies this, nodes.Values
      ensures Valid()
      ensures ok <==> Without(old(tree), PathOf(path)).Some?
      ensures tree == if ok then Without(old(tree), PathOf(path)).value else old(tree)
      ensures nodes.Values <= old(nodes.Values)
    {
      hide *;
      var parts := SplitPath(path);
      PartsOf(path);
      RootStays(tree);
      if parts == [] { return false; }
      ok := RemoveAt(parts);
    }

    lemma RootStays(n: Node)
      ensures Without(n, []).None?
    {
    }

    method RemoveAt(parts: Path) returns (ok: bool)
      requires Valid() && parts != []
      modifies this, nodes.Values
      ensures Valid()
      ensures ok <==> Without(old(tree), parts).Some?
      ensures tree == if ok then Without(old(tree), parts).value else old(tree)
      ensures nodes.Values <= old(nodes.Values)
    {
      hide *;
      var dir, last := parts[..|parts| - 1], parts[|parts| - 1];
      assert parts == dir + [last];
      var parent := Walk(dir);
      DeleteIff(dir, last);
      if parent == null { return false; }
      ok := RemoveChild(parent, last, dir);
    }

    lemma DeleteIff(dir: Path, last: string)
      requires Valid()
      ensures Without(tree, dir + [last]).Some? ==> dir in nodes
    {
      hide NodeAt, WellFormed;
      assert (dir + [last])[..|dir|] == dir;
    }

    lemma DeleteAs(dir: Path, last: string)
      requires Valid() && dir in nodes
      ensures NodeAt(tree, dir).Some? && |Kids(NodeAt(tree, dir).value)| == |nodes[dir].children|
      ensures Without(tree, dir + [last]) == ErasedKid(tree, dir, KidIndex(Kids(NodeAt(tree, dir).value), last))
    {
      hide NodeAt, WellFormed, UpdateAt, KidIndex;
      ChildIndex(dir, last);
      WithoutIs(tree, dir, last);
    }

    /** RemoveChild: erase the first child with that name. */
    method RemoveChild(parent: INode, name: string, ghost p: Path) returns (ok: bool)
      requires Valid() && p in nodes && nodes[p] == parent
      modifies this, parent
      ensures Valid() && (ok <==> Without(old(tree), p + [name]).Some?)
      ensures tree == if ok then Without(old(tree), p + [name]).value else old(tree)
      ensures nodes.Values <= old(nodes.Values)
    {
      hide *;
      InNodes(p);
      DeleteAs(p, name);
      ChildIndex(p, name);
      ghost var kids := Kids(NodeAt(tree, p).value);
      FindAbsent(kids, name);
      var i := 0;
      while i < |parent.children|
        invariant Valid() && unchanged(this) && unchanged(parent)
        invariant 0 <= i <= |parent.children| == |kids|
        invariant forall j :: 0 <= j < i ==> kids[j].name != name
      {
        ChildAt(p, i);
        if parent.children[i].name == name {
          FindFirst(kids, name, i);
          ErasedKidIs(tree, p, i);
          DetachChild(parent, i, p);
          return true;
        }
        i := i + 1;
      }
      ErasedKidIs(tree, p, KidIndex(kids, name));
      ok := false;
    }

    /** `children.erase(it)`: the subtree leaves with the child. */
    method DetachChild(parent: INode, i: nat, ghost p: Path)
      requires Valid() && p in nodes && nodes[p] == parent && i < |parent.children|
      modifies this, parent
      ensures old(NodeAt(tree, p).Some? && NodeAt(tree, p).value.Dir? && i < |NodeAt(tree, p).value.kids|)
      ensures Valid() && tree == UpdateAt(old(tree), p, RemoveKid(old(NodeAt(tree, p).value), i))
      ensures nodes.Values <= old(nodes.Values)
    {
      hide NodeAt, UpdateAt, WellFormed, Fits;
      ghost var before, had := tree, nodes;
      assert Matches(p);
      MatchesDir(p);
      ChildAt(p, i);
      ghost var cur := NodeAt(tree, p).value;
      ghost var gone := p + [cur.kids[i].name];
      parent.children := parent.children[..i] + parent.children[i + 1..];
      nodes := map q | q in nodes && !(gone <= q) :: nodes[q];
      tree := UpdateAt(tree, p, RemoveKid(cur, i));
      RemoveKidWellFormed(before, p, i);
      forall q ensures q in nodes <==> NodeAt(tree, q).Some? {
        RemoveKidNodes(before, p, i, q);
      }
      forall q | q in nodes ensures Matches(q) {
        assert old(Matches(q));
        DetachedFits(before, p, i, had, q, nodes[q].isDir, nodes[q].name, nodes[q].blocks, old(had[q].children));
      }
      assert [] in nodes;
    }

    /** ListDir: the children of a directory, in order. */
    method ListDir(path: string) returns (result: seq<INode>)
      requires Valid()
      ensures if IsDir(tree, PathOf(path)) then
                |result| == |NodeAt(tree, PathOf(path)).value.kids| &&
                forall i :: 0 <= i < |result| ==>
                  PathOf(path) + [NodeAt(tree, PathOf(path)).value.kids[i].name] in nodes &&
                  result[i] == nodes[PathOf(path) + [NodeAt(tree, PathOf(path)).value.kids[i].name]]
              else result == []
    {
      hide *;
      var node := GetNode(path);
      InNodes(PathOf(path));
      if node == null || !node.isDir {
        NotADir(tree, PathOf(path));
        return [];
      }
      result := [];
      for i := 0 to |node.children|
        invariant result == node.children[..i]
      {
        result := result + [node.children[i]];
      }
      DirChildren(PathOf(path));
    }

    lemma NotADir(n: Node, p: Path)
      ensures IsDir(n, p) ==> NodeAt(n, p).Some?
    {
    }

    lemma DirChildren(p: Path)
      requires Valid() && p in nodes && nodes[p].isDir
      ensures IsDir(tree, p) && |nodes[p].children| == |NodeAt(tree, p).value.kids|
      ensures forall i :: 0 <= i < |nodes[p].children| ==>
                p + [NodeAt(tree, p).value.kids[i].name] in nodes &&
                nodes[p].children[i] == nodes[p + [NodeAt(tree, p).value.kids[i].name]]
    {
      hide NodeAt, WellFormed;
      assert Matches(p);
    }

    /** `file->blocks.push_back(id)` through the pointer that GetNode or CreateFile returned. */
    method PushBlock(file: INode, id: int, ghost p: Path)
      requires Valid() && p in nodes && nodes[p] == file && !file.isDir
      modifies this, file
      ensures IsFile(old(tree), p) && Valid() && tree == WithBlock(old(tree), p, id) && nodes == old(nodes)
    {
      hide NodeAt, WithBlock, WellFormed, Fits;
      ghost var before := tree;
      InNodes(p);
      file.blocks := file.blocks + [id];
      tree := WithBlock(tree, p, id);
      AppendBlockWellFormed(before, p, id);
      forall q ensures q in nodes <==> NodeAt(tree, q).Some? {
        WithBlockNodes(before, p, id, q);
      }
      forall q | q in nodes ensures Matches(q) {
        assert old(Matches(q));
        PushedFits(before, p, id, nodes, q, nodes[q].isDir, nodes[q].name, old(nodes[q].blocks), nodes[q].children);
      }
    }

    lemma PartsOf(path: string)
      ensures PathOf(path) == Fields(path, IsSlash)
    {
    }
  }
}
