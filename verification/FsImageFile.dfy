/** FsImage::Save and FsImage::Load on the linked tree. */
module FsImageFile {
  import opened Options
  import opened Text
  import opened Inodes
  import opened FsImage
  import opened InodeTree
  import opened LocalFiles

  method PrintBlocks(blocks: seq<int>) returns (text: string)
    ensures text == BlockList(blocks)
  {
    text := "";
    for i := 0 to |blocks|
      invariant text == BlockList(blocks[..i])
    {
      assert blocks[..i + 1][..i] == blocks[..i];
      if i > 0 { text := text + ","; }
      text := text + IntText(blocks[i]);
    }
    assert blocks[..|blocks|] == blocks;
  }

  /** SerializeNode: the lines of everything below a directory, in preorder. */
  method SerializeNode(t: InodeTree, node: INode, ghost p: Path, prefix: string) returns (out: string)
    requires t.Valid() && p in t.nodes && t.nodes[p] == node && node.isDir
    ensures IsDir(t.tree, p) && out == KidsText(NodeAt(t.tree, p).value.kids, prefix)
    decreases if NodeAt(t.tree, p).Some? then NodeAt(t.tree, p).value else ROOT
  {
    hide *;
    t.InNodes(p);
    t.DirChildren(p);
    DirValue(t.tree, p);
    ghost var kids := NodeAt(t.tree, p).value.kids;
    assert kids[0..] == kids;
    NoKidsText(prefix);
    out := "";
    for i := 0 to |node.children|
      invariant out + KidsText(kids[i..], prefix) == KidsText(kids, prefix)
    {
      var child := node.children[i];
      KidNode(t, p, i);
      var fullPath := prefix + "/" + child.name;
      var text: string;
      if child.isDir {
        var below := SerializeNode(t, child, p + [kids[i].name], fullPath);
        text := "DIR " + fullPath + "\n" + below;
      } else {
        var list := PrintBlocks(child.blocks);
        text := "FILE " + fullPath + " blocks=" + list + "\n";
      }
      KidTextIs(kids[i], prefix, text);
      KidsTextStep(kids, i, prefix);
      out := out + text;
    }
    assert kids[|kids|..] == [];
  }

  lemma DirValue(n: Node, p: Path)
    requires IsDir(n, p)
    ensures NodeAt(n, p).Some? && NodeAt(n, p).value.Dir?
  {
  }

  lemma KidNode(t: InodeTree, p: Path, i: nat)
    requires t.Valid() && p in t.nodes && IsDir(t.tree, p) && i < |NodeAt(t.tree, p).value.kids|
    ensures var kid := NodeAt(t.tree, p).value.kids[i];
            var q := p + [kid.name];
            NodeAt(t.tree, q) == Some(kid) && q in t.nodes && i < |t.nodes[p].children| &&
            t.nodes[p].children[i] == t.nodes[q] && t.nodes[q].name == kid.name &&
            (t.nodes[q].isDir <==> kid.Dir?) && (kid.File? ==> t.nodes[q].blocks == kid.blocks) &&
            (NodeAt(t.tree, p).value decreases to kid)
  {
    hide NodeAt, WellFormed, Fits;
    var n := NodeAt(t.tree, p).value;
    t.InNodes(p);
    t.DirChildren(p);
    t.ChildAt(p, i);
    NodeAtWellFormed(t.tree, p);
    NodeAtStep(t.tree, p, n.kids[i].name);
    KidLookup(n, i);
    t.InNodes(p + [n.kids[i].name]);
  }

  lemma KidLookup(n: Node, i: nat)
    requires WellFormed(n) && n.Dir? && i < |n.kids|
    ensures Lookup(n.kids, n.kids[i].name) == Some(n.kids[i])
  {
    FindFirst(n.kids, n.kids[i].name, i);
  }

  lemma KidTextIs(kid: Node, prefix: string, text: string)
    requires var full := prefix + "/" + kid.name;
             text == if kid.Dir? then "DIR " + full + "\n" + KidsText(kid.kids, full)
                     else "FILE " + full + " blocks=" + BlockList(kid.blocks) + "\n"
    ensures text == KidText(kid, prefix)
  {
    hide KidsText, BlockList;
  }

  lemma KidsTextStep(kids: seq<Node>, i: nat, prefix: string)
    requires i < |kids|
    ensures KidsText(kids[i..], prefix) == KidText(kids[i], prefix) + KidsText(kids[i + 1..], prefix)
  {
    hide KidText;
    assert kids[i..][1..] == kids[i + 1..];
  }

  const TEMP := ".tmp"

  /** The files after a save: the image under its own name, and no temporary file; or, when that could not be opened,
      what was there. */
  function Saved(files: map<string, string>, path: string, n: Node, writable: bool): map<string, string>
    requires n.Dir?
  {
    if writable then files[path := SaveText(n)] - {path + TEMP} else files
  }

  /** Writes a temporary file and renames it; gives up quietly when it cannot be opened. */
  method Save(t: InodeTree, files: FileStore, path: string, writable: bool)
    requires t.Valid()
    modifies files
    ensures t.Valid() && files.files == Saved(old(files.files), path, t.tree, writable)
    ensures writable ==> path in files.files && files.files[path] == SaveText(t.tree) && path + ".tmp" !in files.files
    ensures forall other :: other != path && other != path + ".tmp" ==>
              (other in files.files <==> other in old(files.files)) &&
              (other in files.files ==> files.files[other] == old(files.files)[other])
    ensures !writable ==> files.files == old(files.files)
  {
    hide *;
    t.RootNode();
    t.InNodes([]);
    NodeAtRoot(t.tree);
    SavedIs(files.files, path, t.tree, writable);
    TempIs(path);
    if !writable { return; }
    var body := SerializeNode(t, t.root, [], "");
    SaveTextIs(t.tree, body);
    var temp := path + TEMP;
    assert temp != path by { TempDiffers(path); }
    files.files := files.files[temp := HEADER + "\n" + body];
    files.files := files.files[path := files.files[temp]] - {temp};
    assert files.files == old(files.files)[path := SaveText(t.tree)] - {temp};
  }

  lemma SavedIs(files: map<string, string>, path: string, n: Node, writable: bool)
    requires n.Dir?
    ensures Saved(files, path, n, writable)
         == if writable then files[path := SaveText(n)] - {path + TEMP} else files
  {
  }

  lemma TempIs(path: string)
    ensures path + TEMP == path + ".tmp"
  {
  }

  lemma TempDiffers(path: string)
    ensures path + TEMP != path
  {
    assert |path + TEMP| == |path| + |TEMP|;
  }

  lemma SaveTextIs(n: Node, body: string)
    requires n.Dir? && body == KidsText(n.kids, "")
    ensures HEADER + "\n" + body == SaveText(n)
  {
  }

  /** The ids of one FILE line, pushed one by one. */
  method PushParsed(t: InodeTree, file: INode, ids: seq<string>, ghost p: Path) returns (ok: bool)
    requires t.Valid() && p in t.nodes && t.nodes[p] == file && !file.isDir
    modifies t, file
    ensures t.Valid() && t.nodes == old(t.nodes)
    ensures PushIds(old(t.tree), p, ids) == if ok then Some(t.tree) else None
  {
    hide *;
    assert ids[0..] == ids;
    for i := 0 to |ids|
      invariant t.Valid() && t.nodes == old(t.nodes)
      invariant PushIds(t.tree, p, ids[i..]) == PushIds(old(t.tree), p, ids)
    {
      t.InNodes(p);
      PushIdsUnfold(t.tree, p, ids, i);
      match Stoll(ids[i])
      case None => return false;
      case Some(id) => t.PushBlock(file, id, p);
    }
    PushIdsEnd(t.tree, p, ids[|ids|..]);
    ok := true;
  }

  lemma PushIdsUnfold(n: Node, p: Path, ids: seq<string>, i: nat)
    requires i < |ids| && IsFile(n, p)
    ensures PushIds(n, p, ids[i..]) == match Stoll(ids[i])
                                       case None => None
                                       case Some(id) => PushIds(WithBlock(n, p, id), p, ids[i + 1..])
  {
    hide Stoll, NodeAt, WithBlock;
    assert ids[i..][0] == ids[i] && ids[i..][1..] == ids[i + 1..];
  }

  lemma PushIdsEnd(n: Node, p: Path, ids: seq<string>)
    requires ids == []
    ensures PushIds(n, p, ids) == Some(n)
  {
  }

  /** One line of the image. */
  method ProcessLine(t: InodeTree, line: string) returns (ok: bool)
    requires t.Valid()
    modifies t, t.nodes.Values
    ensures t.Valid() && LoadLine(old(t.tree), line) == if ok then Some(t.tree) else None
    ensures forall o :: o in t.nodes.Values ==> o in old(t.nodes.Values) || fresh(o)
  {
    hide AfterMkdirs, WithFile, PushIds, Token, GetParentDir, Fields, MadeDirs, t.Valid;
    t.RootNode();
    ok := true;
    if line == "" || line[0] == '#' { return; }
    var kind := Token(line, 0);
    if kind == "DIR" {
      var dirpath := Token(line, 1);
      if dirpath != "" && dirpath != "/" {
        AfterMkdirsIs(t.tree, dirpath);
        var _ := t.Mkdirs(dirpath);
      }
    } else if kind == "FILE" {
      var filepath, blocksToken := Token(line, 1), Token(line, 2);
      var parent := GetParentDir(filepath);
      if parent != "/" {
        AfterMkdirsIs(t.tree, parent);
        var _ := t.Mkdirs(parent);
      }
      var node := t.CreateFile(filepath);
      if node == null { return; }
      if BLOCKS_KEY <= blocksToken {
        t.InNodes(PathOf(filepath));
        ok := PushParsed(t, node, Fields(blocksToken[|BLOCKS_KEY|..], IsComma), PathOf(filepath));
      }
    }
  }

  lemma AfterMkdirsIs(n: Node, path: string)
    requires n.Dir?
    ensures AfterMkdirs(n, path) == MadeDirs(n, PathOf(path)).0
  {
  }

  /** The getline loop; false stands for the exception a malformed id throws. */
  method Load(t: InodeTree, text: string) returns (ok: bool)
    requires t.Valid()
    modifies t, t.nodes.Values
    ensures t.Valid() && LoadText(old(t.tree), text) == if ok then Some(t.tree) else None
    ensures forall o :: o in t.nodes.Values ==> o in old(t.nodes.Values) || fresh(o)
  {
    LoadStart(t.tree, text);
    hide *;
    var rest := AfterLine(text);
    while rest != ""
      invariant t.Valid()
      invariant LoadLines(t.tree, Lines(rest)) == LoadText(old(t.tree), text)
      invariant forall o :: o in t.nodes.Values ==> o in old(t.nodes.Values) || fresh(o)
      decreases |rest|
    {
      var line := FirstLine(rest);
      LoadLinesUnfold(t.tree, rest);
      ok := ProcessLine(t, line);
      if !ok { return; }
      rest := AfterLine(rest);
    }
    NoLines();
    NothingToLoad(t.tree);
    ok := true;
  }

  lemma LoadStart(n: Node, text: string)
    ensures LoadText(n, text) == LoadLines(n, Lines(AfterLine(text)))
  {
  }

  lemma LoadLinesUnfold(n: Node, rest: string)
    requires rest != ""
    ensures LoadLines(n, Lines(rest)) == match LoadLine(n, FirstLine(rest))
                                         case None => None
                                         case Some(n') => LoadLines(n', Lines(AfterLine(rest)))
    ensures |AfterLine(rest)| < |rest|
  {
    hide LoadLine;
    assert Lines(rest) == [FirstLine(rest)] + Lines(AfterLine(rest));
  }
}
