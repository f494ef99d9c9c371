/** FsImage: the tree printed as one line per node in preorder, and rebuilt by running Mkdirs and CreateFile for
    each line. Values first; the methods on the linked tree follow. */
module FsImage {
  import opened Options
  import opened Text
  import opened Inodes

  // ---- Printing -------------------------------------------------------------------------------------------

  function IsComma(c: char): bool {
    c == ','
  }

  /** The path string of a node: a slash before every component. */
  function FullPath(p: Path): string {
    if p == [] then "" else FullPath(p[..|p| - 1]) + "/" + p[|p| - 1]
  }

  function BlockList(blocks: seq<int>): string {
    if blocks == [] then "" else
      BlockList(blocks[..|blocks| - 1]) + (if |blocks| > 1 then "," else "") + IntText(blocks[|blocks| - 1])
  }

  /** The line of one node, without its newline. */
  function NodeLine(n: Node, full: string): string {
    if n.Dir? then "DIR " + full else "FILE " + full + " blocks=" + BlockList(n.blocks)
  }

  function KidsText(kids: seq<Node>, prefix: string): string
    decreases kids, 0
  {
    if kids == [] then "" else KidText(kids[0], prefix) + KidsText(kids[1..], prefix)
  }

  function KidText(kid: Node, prefix: string): string
    decreases kid, 1
  {
    var full := prefix + "/" + kid.name;
    NodeLine(kid, full) + "\n" + (if kid.Dir? then KidsText(kid.kids, full) else "")
  }

  const HEADER := "# mini-hadoop FsImage v1"

  function SaveText(tree: Node): string {
    HEADER + "\n" + KidsText(Kids(tree), "")
  }

  // ---- Parsing --------------------------------------------------------------------------------------------

  /** Index of the last slash, or -1. */
  function LastSlash(s: string): (i: int)
    ensures -1 <= i < |s|
  {
    if s == "" then -1 else if s[|s| - 1] == '/' then |s| - 1 else LastSlash(s[..|s| - 1])
  }

  function GetParentDir(path: string): string {
    var pos := LastSlash(path);
    if pos <= 0 then "/" else path[..pos]
  }

  /** Mkdirs as a statement: the tree it leaves behind. */
  function AfterMkdirs(n: Node, path: string): Node {
    if n.Dir? then MadeDirs(n, PathOf(path)).0 else n
  }

  /** Parse and push the ids one by one; None when one does not parse. */
  function PushIds(n: Node, p: Path, ids: seq<string>): Option<Node>
    decreases |ids|
  {
    if ids == [] then Some(n)
    else
      match Stoll(ids[0])
      case None => None
      case Some(id) => if IsFile(n, p) then PushIds(WithBlock(n, p, id), p, ids[1..]) else None
  }

  const BLOCKS_KEY := "blocks="

  function Token(line: string, i: nat): string {
    var toks := Tokens(line);
    if i < |toks| then toks[i] else ""
  }

  /** What one line does to the tree; None stands for the exception a malformed id throws. */
  function LoadLine(n: Node, line: string): Option<Node> {
    if line == "" || line[0] == '#' then Some(n)
    else if Token(line, 0) == "DIR" then
      var dirpath := Token(line, 1);
      Some(if dirpath != "" && dirpath != "/" then AfterMkdirs(n, dirpath) else n)
    else if Token(line, 0) == "FILE" then
      var filepath, blocks := Token(line, 1), Token(line, 2);
      var parent := GetParentDir(filepath);
      var n' := if parent != "/" then AfterMkdirs(n, parent) else n;
      match WithFile(n', PathOf(filepath))
      case None => Some(n')
      case Some(n'') =>
        if BLOCKS_KEY <= blocks then PushIds(n'', PathOf(filepath), Fields(blocks[|BLOCKS_KEY|..], IsComma))
        else Some(n'')
    else Some(n)
  }

  function LoadLines(n: Node, lines: seq<string>): Option<Node>
    decreases |lines|
  {
    if lines == [] then Some(n)
    else
      match LoadLine(n, lines[0])
      case None => None
      case Some(n') => LoadLines(n', lines[1..])
  }

  function LoadText(n: Node, text: string): Option<Node> {
    LoadLines(n, Lines(AfterLine(text)))
  }

  /** Lines that change nothing: empty ones, comments, and those that are neither of a directory nor of a file. */
  lemma IgnoredLine(n: Node, line: string)
    requires line == "" || line[0] == '#' || Tokens(line) == [] || Tokens(line)[0] !in ["DIR", "FILE"]
    ensures LoadLine(n, line) == Some(n)
  {
    hide Fields;
  }

  /** The first line of an image is skipped, whatever it says. */
  lemma FirstLineSkipped(n: Node, header: string, rest: string)
    requires forall i :: 0 <= i < |header| ==> header[i] != '\n'
    ensures LoadText(n, header + "\n" + rest) == LoadLines(n, Lines(rest))
  {
    var text := header + "\n" + rest;
    assert text == header + ("\n" + rest);
    WordLengthOfPrefix(header, "\n" + rest, IsNewline);
    assert text[|header| + 1..] == rest;
  }

  /** A line of a file that cannot be created leaves the directories it made and goes on; one without "blocks=" makes an
      empty file. */
  lemma FileLineRules(n: Node, path: string, blocks: string)
    requires n.Dir? && IsField(path, IsSpace) && IsField(blocks, IsSpace)
    ensures var n' := if GetParentDir(path) == "/" then n else AfterMkdirs(n, GetParentDir(path));
            var file := WithFile(n', PathOf(path));
            (file == None ==> LoadLine(n, "FILE " + path + " " + blocks) == Some(n')) &&
            (file.Some? && !("blocks=" <= blocks) ==> LoadLine(n, "FILE " + path + " " + blocks) == file)
  {
    hide GetParentDir, AfterMkdirs, WithFile, PushIds;
    var line := "FILE " + path + " " + blocks;
    FileTokens(path, blocks);
    assert line[0] == 'F';
  }

  lemma FileTokens(path: string, blocks: string)
    requires IsField(path, IsSpace) && IsField(blocks, IsSpace)
    ensures Tokens("FILE " + path + " " + blocks) == ["FILE", path, blocks]
  {
    hide Fields;
    OneMoreToken(blocks, "");
    NoFields(IsSpace);
    assert blocks + "" == blocks;
    OneMoreToken(path, " " + blocks);
    AfterSpace(blocks);
    AfterSpace(path + (" " + blocks));
    OneMoreToken("FILE", " " + (path + (" " + blocks)));
    assert "FILE " + path + " " + blocks == "FILE" + (" " + (path + (" " + blocks)));
  }

  lemma OneMoreToken(w: string, rest: string)
    requires IsField(w, IsSpace) && (rest == "" || rest[0] == ' ')
    ensures Tokens(w + rest) == [w] + Tokens(rest)
  {
    hide Fields;
    FieldThenSeparator(w, rest, IsSpace);
  }

  lemma AfterSpace(s: string)
    ensures Tokens(" " + s) == Tokens(s)
  {
    assert (" " + s)[1..] == s;
  }

  /** Only commas separate block ids: text without one is parsed as one id, up to its first character that is no
      digit. */
  lemma OneId(n: Node, p: Path, text: string)
    requires text != "" && IsFile(n, p) && forall i :: 0 <= i < |text| ==> text[i] != ','
    ensures PushIds(n, p, Fields(text, IsComma))
         == match Stoll(text)
            case None => None
            case Some(id) => Some(WithBlock(n, p, id))
  {
    hide Stoll, WithBlock, NodeAt;
    assert text + "" == text;
    FieldThenSeparator(text, "", IsComma);
    assert [text][1..] == [];
    assert Fields("", IsComma) == [] && [text] + [] == [text];
  }

  // ---- Names and ids --------------------------------------------------------------------------------------

  /** None of the six blank characters. */
  function NoSpaceIn(name: string): bool {
    forall i :: 0 <= i < |name| ==> name[i] !in [' ', '\t', '\n', '\U{0B}', '\U{0C}', '\r']
  }

  /** No name below the root contains white space. */
  ghost predicate SpaceFree(n: Node) {
    n.Dir? ==> forall i :: 0 <= i < |n.kids| ==> NoSpaceIn(n.kids[i].name) && SpaceFree(n.kids[i])
  }

  ghost predicate IdsFit(n: Node) {
    match n
    case Dir(_, kids) => forall i :: 0 <= i < |kids| ==> IdsFit(kids[i])
    case File(_, blocks) => forall i :: 0 <= i < |blocks| ==> IsInt64(blocks[i])
  }

  ghost predicate GoodNames(p: Path) {
    forall i :: 0 <= i < |p| ==> IsField(p[i], IsSlash) && NoSpaceIn(p[i])
  }

  // ---- Paths as text --------------------------------------------------------------------------------------

  lemma {:induction false} FullPathFields(p: Path)
    requires forall i :: 0 <= i < |p| ==> IsField(p[i], IsSlash)
    ensures PathOf(FullPath(p)) == p
  {
    if p != [] {
      var init, name := p[..|p| - 1], p[|p| - 1];
      FullPathFields(init);
      FieldsCut(FullPath(init), "/" + name, IsSlash);
      assert FullPath(p) == FullPath(init) + ("/" + name);
      SlashName(name);
      assert p == init + [name];
    } else {
      assert Fields("", IsSlash) == [];
    }
  }

  lemma SlashName(name: string)
    requires IsField(name, IsSlash)
    ensures PathOf("/" + name) == [name]
  {
    assert ("/" + name)[1..] == name && name + "" == name;
    FieldThenSeparator(name, "", IsSlash);
    assert Fields("", IsSlash) == [];
  }

  lemma {:induction false} LastSlashOf(s: string, name: string)
    requires forall i :: 0 <= i < |name| ==> name[i] != '/'
    ensures LastSlash(s + "/" + name) == |s|
  {
    var t := s + "/" + name;
    if name == "" {
      assert t[|t| - 1] == '/';
    } else {
      var init := name[..|name| - 1];
      assert t[..|t| - 1] == s + "/" + init;
      LastSlashOf(s, init);
    }
  }

  lemma ParentOf(p: Path, name: string)
    requires IsField(name, IsSlash) && forall i :: 0 <= i < |p| ==> IsField(p[i], IsSlash)
    ensures GetParentDir(FullPath(p + [name])) == if p == [] then "/" else FullPath(p)
    ensures p != [] ==> FullPath(p) != "/" && FullPath(p) != ""
  {
    assert (p + [name])[..|p|] == p;
    LastSlashOf(FullPath(p), name);
    assert (FullPath(p) + "/" + name)[..|FullPath(p)|] == FullPath(p);
    if p != [] {
      assert |p[|p| - 1]| > 0;
    }
  }

  lemma {:induction false} FullPathNoSpace(p: Path)
    requires GoodNames(p)
    ensures NoSpaceIn(FullPath(p))
    ensures p != [] ==> FullPath(p) != "" && FullPath(p) != "/"
  {
    if p != [] {
      FullPathNoSpace(p[..|p| - 1]);
      assert |p[|p| - 1]| > 0;
    }
  }

  // ---- Block lists ----------------------------------------------------------------------------------------

  lemma IntTextPlain(v: int)
    ensures NoSpaceIn(IntText(v)) && IsField(IntText(v), IsComma)
  {
  }

  lemma {:induction false} BlockListPlain(blocks: seq<int>)
    ensures NoSpaceIn(BlockList(blocks))
  {
    if blocks != [] {
      BlockListPlain(blocks[..|blocks| - 1]);
      IntTextPlain(blocks[|blocks| - 1]);
    }
  }

  function IntTexts(blocks: seq<int>): seq<string> {
    seq(|blocks|, i requires 0 <= i < |blocks| => IntText(blocks[i]))
  }

  lemma CommaId(v: int)
    ensures Fields("," + IntText(v), IsComma) == [IntText(v)] == Fields(IntText(v), IsComma)
  {
    IntTextPlain(v);
    var t := IntText(v);
    assert ("," + t)[1..] == t && t + "" == t;
    FieldThenSeparator(t, "", IsComma);
    assert Fields("", IsComma) == [];
  }

  lemma BlockListUnfold(init: seq<int>, last: int)
    ensures BlockList(init + [last]) == BlockList(init) + (if init == [] then "" else ",") + IntText(last)
    ensures IntTexts(init + [last]) == IntTexts(init) + [IntText(last)]
  {
    assert (init + [last])[..|init|] == init;
  }

  lemma NoBlocksText()
    ensures BlockList([]) == "" && IntTexts([]) == [] && Fields("", IsComma) == []
  {
  }

  lemma {:induction false} BlockListFields(blocks: seq<int>)
    ensures Fields(BlockList(blocks), IsComma) == IntTexts(blocks)
  {
    hide *;
    NoBlocksText();
    if blocks != [] {
      var init, last := blocks[..|blocks| - 1], blocks[|blocks| - 1];
      assert blocks == init + [last];
      BlockListFields(init);
      BlockListUnfold(init, last);
      AppendId(BlockList(init), last);
      if init == [] {
        CommaId(last);
        assert BlockList(blocks) == IntText(last);
        assert IntTexts(blocks) == [IntText(last)];
      } else {
        assert BlockList(blocks) == BlockList(init) + "," + IntText(last);
      }
    }
  }

  lemma AppendId(list: string, id: int)
    ensures Fields(list + "," + IntText(id), IsComma) == Fields(list, IsComma) + [IntText(id)]
  {
    hide Fields;
    FieldsCut(list, "," + IntText(id), IsComma);
    CommaId(id);
    assert list + "," + IntText(id) == list + ("," + IntText(id));
  }

  // ---- What the printed lines do when loaded --------------------------------------------------------------

  lemma TwoTokens(key: string, value: string)
    requires IsField(key, IsSpace) && IsField(value, IsSpace)
    ensures Tokens(key + " " + value) == [key, value]
  {
    assert key + " " + value == key + (" " + value);
    FieldThenSeparator(key, " " + value, IsSpace);
    assert (" " + value)[1..] == value && value + "" == value;
    FieldThenSeparator(value, "", IsSpace);
    assert Fields("", IsSpace) == [];
  }

  lemma ThreeTokens(key: string, value: string, extra: string)
    requires IsField(key, IsSpace) && IsField(value, IsSpace) && IsField(extra, IsSpace)
    ensures Tokens(key + " " + value + " " + extra) == [key, value, extra]
  {
    hide Fields;
    FieldsCut(key + " " + value, " " + extra, IsSpace);
    assert key + " " + value + " " + extra == key + " " + value + (" " + extra);
    TwoTokens(key, value);
    SpaceToken(extra);
  }

  lemma SpaceToken(value: string)
    requires IsField(value, IsSpace)
    ensures Tokens(" " + value) == [value]
  {
    assert (" " + value)[1..] == value && value + "" == value;
    FieldThenSeparator(value, "", IsSpace);
    assert Fields("", IsSpace) == [];
  }

  /** Creating directories that are all there changes nothing. */
  lemma {:induction false} MkdirsThere(n: Node, p: Path, i: nat)
    requires i <= |p| && IsDir(n, p[..i]) && IsDir(n, p)
    ensures MkdirsFrom(n, p, i) == (n, true)
    decreases |p| - i
  {
    if i < |p| {
      DirsAbove(n, p, i + 1);
      MkdirsThere(n, p, i + 1);
    }
  }

  lemma DirsAbove(n: Node, p: Path, i: nat)
    requires i <= |p| && IsDir(n, p)
    ensures IsDir(n, p[..i])
  {
    hide NodeAt;
    NodeAtConcat(n, p[..i], p[i..]);
    assert p == p[..i] + p[i..] && p[..|p|] == p;
    if i < |p| && NodeAt(n, p[..i]).Some? && NodeAt(n, p[..i]).value.File? {
      NoKidsBelow(NodeAt(n, p[..i]).value, p[i..]);
    }
  }

  lemma MkdirsNew(n: Node, p: Path, name: string)
    requires IsDir(n, p) && NodeAt(n, p + [name]).None?
    ensures n.Dir? && MadeDirs(n, p + [name]) == (UpdateAt(n, p, AddKid(NodeAt(n, p).value, Dir(name, []))), true)
  {
    var q := p + [name];
    assert q[..|p|] == p && q[..0] == [] && q[..|q|] == q;
    DirsAbove(n, p, 0);
    assert p[..0] == [];
    MkdirsUpTo(n, q, 0, |p|);
    NewDirFound(n, p, name);
  }

  lemma {:induction false} MkdirsUpTo(n: Node, q: Path, i: nat, j: nat)
    requires i <= j <= |q| && IsDir(n, q[..i]) && IsDir(n, q[..j])
    ensures MkdirsFrom(n, q, i) == MkdirsFrom(n, q, j)
    decreases j - i
  {
    if i < j {
      DirsAbove(n, q[..j], i + 1);
      assert q[..j][..i + 1] == q[..i + 1];
      MkdirsUpTo(n, q, i + 1, j);
    }
  }

  ghost predicate FreePlace(n: Node, p: Path, name: string) {
    IsDir(n, p) && NodeAt(n, p + [name]).None? && GoodNames(p + [name])
  }

  lemma DirLineLoads(n: Node, p: Path, name: string)
    requires FreePlace(n, p, name)
    ensures LoadLine(n, "DIR " + FullPath(p + [name]))
         == Some(UpdateAt(n, p, AddKid(NodeAt(n, p).value, Dir(name, []))))
  {
    var q := p + [name];
    var line := "DIR " + FullPath(q);
    MkdirsNew(n, p, name);
    FullPathNoSpace(q);
    TwoTokens("DIR", FullPath(q));
    assert line == "DIR" + " " + FullPath(q);
    FullPathFields(q);
    hide Fields, FullPath, MadeDirs, UpdateAt, NodeAt;
  }

  lemma FileLineTokens(full: string, blocks: seq<int>)
    requires IsField(full, IsSpace)
    ensures var line := "FILE " + full + " blocks=" + BlockList(blocks);
            Tokens(line) == ["FILE", full, BLOCKS_KEY + BlockList(blocks)]
  {
    hide Fields, BlockList;
    BlockListPlain(blocks);
    var line := "FILE " + full + " blocks=" + BlockList(blocks);
    assert line == "FILE" + " " + full + " " + (BLOCKS_KEY + BlockList(blocks));
    ThreeTokens("FILE", full, BLOCKS_KEY + BlockList(blocks));
  }

  lemma {:induction false} PushIdsLoads(n: Node, p: Path, have: seq<int>, blocks: seq<int>)
    requires IsFile(n, p) && NodeAt(n, p).value.blocks == have
    requires forall i :: 0 <= i < |blocks| ==> IsInt64(blocks[i])
    ensures PushIds(n, p, IntTexts(blocks)) == Some(UpdateAt(n, p, NodeAt(n, p).value.(blocks := have + blocks)))
    decreases |blocks|
  {
    hide UpdateAt, NodeAt, Stoll, IntText;
    if blocks == [] {
      assert have + blocks == have;
      UpdateAtSame(n, p);
    } else {
      StollOfIntText(blocks[0]);
      assert IntTexts(blocks)[1..] == IntTexts(blocks[1..]);
      var n' := WithBlock(n, p, blocks[0]);
      var f := NodeAt(n, p).value.(blocks := have + [blocks[0]]);
      UpdateAtSelf(n, p, f);
      PushIdsLoads(n', p, have + [blocks[0]], blocks[1..]);
      UpdateAtTwice(n, p, f, f.(blocks := have + blocks));
      assert have + [blocks[0]] + blocks[1..] == have + blocks;
    }
  }

  lemma {:induction false} UpdateAtSame(n: Node, p: Path)
    requires NodeAt(n, p).Some?
    ensures UpdateAt(n, p, NodeAt(n, p).value) == n
    decreases |p|
  {
    if p != [] {
      var i := KidIndex(n.kids, p[0]);
      UpdateAtSame(n.kids[i], p[1..]);
      assert n.kids[i := n.kids[i]] == n.kids;
    }
  }

  lemma UpdateAtSelf(n: Node, p: Path, repl: Node)
    requires NodeAt(n, p).Some? && repl.name == NodeAt(n, p).value.name
    ensures NodeAt(UpdateAt(n, p, repl), p) == Some(repl)
  {
    hide NodeAt, UpdateAt;
    UpdateAtSeen(n, p, repl, p);
    NodeAtRoot(repl);
    assert p[|p|..] == [];
  }

  lemma {:induction false} UpdateAtTwice(n: Node, p: Path, a: Node, b: Node)
    requires NodeAt(n, p).Some? && a.name == NodeAt(n, p).value.name
    ensures NodeAt(UpdateAt(n, p, a), p).Some? && UpdateAt(UpdateAt(n, p, a), p, b) == UpdateAt(n, p, b)
    decreases |p|
  {
    if p != [] {
      var i := KidIndex(n.kids, p[0]);
      var up := UpdateAt(n.kids[i], p[1..], a);
      UpdateAtTwice(n.kids[i], p[1..], a, b);
      UpdateAtName(n.kids[i], p[1..], a);
      LookupUpdate(n.kids, i, up, p[0]);
      assert n.kids[i := up][i := UpdateAt(n.kids[i], p[1..], b)] == n.kids[i := UpdateAt(n.kids[i], p[1..], b)];
    }
  }

  /** Replacing the child that was just added is adding the replacement. */
  lemma ReplaceAdded(n: Node, p: Path, a: Node, b: Node)
    requires IsDir(n, p) && NodeAt(n, p + [a.name]).None? && b.name == a.name
    ensures var n1 := UpdateAt(n, p, AddKid(NodeAt(n, p).value, a));
            NodeAt(n1, p + [a.name]) == Some(a) &&
            UpdateAt(n1, p + [a.name], b) == UpdateAt(n, p, AddKid(NodeAt(n, p).value, b))
  {
    hide NodeAt, UpdateAt, Lookup, KidIndex;
    var cur := NodeAt(n, p).value;
    var n1 := UpdateAt(n, p, AddKid(cur, a));
    UpdateAtSelf(n, p, AddKid(cur, a));
    NodeAtStep(n, p, a.name);
    NodeAtStep(n1, p, a.name);
    AbsentLookup(cur.kids, a.name);
    LookupAppend(cur.kids, a, a.name);
    LastKidUpdate(cur, a, b);
    UpdateAtPath(n1, p, [a.name], b);
    UpdateAtTwice(n, p, AddKid(cur, a), AddKid(cur, b));
  }

  lemma LastKidUpdate(cur: Node, a: Node, b: Node)
    requires cur.Dir? && KidIndex(cur.kids, a.name) == |cur.kids| && b.name == a.name
    ensures NodeAt(AddKid(cur, a), [a.name]).Some? && UpdateAt(AddKid(cur, a), [a.name], b) == AddKid(cur, b)
  {
    FindAbsent(cur.kids, a.name);
    FindFirst(cur.kids + [a], a.name, |cur.kids|);
    assert [a.name][1..] == [];
    assert (cur.kids + [a])[|cur.kids| := b] == cur.kids + [b];
  }

  lemma {:induction false} UpdateAtPath(n: Node, p: Path, q: Path, repl: Node)
    requires NodeAt(n, p).Some? && NodeAt(NodeAt(n, p).value, q).Some?
    ensures NodeAt(n, p + q).Some?
    ensures UpdateAt(n, p + q, repl) == UpdateAt(n, p, UpdateAt(NodeAt(n, p).value, q, repl))
    decreases |p|
  {
    NodeAtConcat(n, p, q);
    if p == [] {
      assert p + q == q;
    } else {
      assert (p + q)[1..] == p[1..] + q;
      UpdateAtPath(n.kids[KidIndex(n.kids, p[0])], p[1..], q, repl);
    }
  }

  lemma FileLineLoads(n: Node, p: Path, name: string, blocks: seq<int>)
    requires FreePlace(n, p, name) && forall i :: 0 <= i < |blocks| ==> IsInt64(blocks[i])
    ensures LoadLine(n, NodeLine(File(name, blocks), FullPath(p + [name])))
         == Some(UpdateAt(n, p, AddKid(NodeAt(n, p).value, File(name, blocks))))
  {
    var q, f := p + [name], File(name, []);
    var full := FullPath(q);
    var line := NodeLine(File(name, blocks), full);
    var n1 := UpdateAt(n, p, AddKid(NodeAt(n, p).value, f));
    FullPathNoSpace(q);
    FileLineTokens(full, blocks);
    FullPathFields(q);
    ParentStays(n, p, name);
    FileCreated(n, p, name);
    ReplaceAdded(n, p, f, File(name, blocks));
    PushIdsLoads(n1, q, [], blocks);
    BlockListFields(blocks);
    assert [] + blocks == blocks;
    assert (BLOCKS_KEY + BlockList(blocks))[|BLOCKS_KEY|..] == BlockList(blocks);
    FileLineBranch(n, line, full);
    hide *;
  }

  /** The branch of LoadLine a FILE line takes. */
  lemma FileLineBranch(n: Node, line: string, full: string)
    requires line != "" && line[0] == 'F' && |Tokens(line)| == 3 && Tokens(line)[0] == "FILE" && Tokens(line)[1] == full
    requires BLOCKS_KEY <= Tokens(line)[2]
    ensures var parent := GetParentDir(full);
            var n' := if parent != "/" then AfterMkdirs(n, parent) else n;
            LoadLine(n, line) == match WithFile(n', PathOf(full))
                                 case None => Some(n')
                                 case Some(n'') =>
                                   PushIds(n'', PathOf(full), Fields(Tokens(line)[2][|BLOCKS_KEY|..], IsComma))
  {
    hide Fields, GetParentDir, AfterMkdirs, WithFile, PushIds;
  }

  lemma ParentStays(n: Node, p: Path, name: string)
    requires FreePlace(n, p, name)
    ensures var parent := GetParentDir(FullPath(p + [name]));
            (if parent != "/" then AfterMkdirs(n, parent) else n) == n
  {
    assert forall i :: 0 <= i < |p| ==> p[i] == (p + [name])[i];
    assert name == (p + [name])[|p|];
    ParentOf(p, name);
    FullPathFields(p);
    DirsAbove(n, p, 0);
    assert p[..0] == [];
    MkdirsThere(n, p, 0);
    hide FullPath, Fields, GetParentDir;
  }

  lemma FileCreated(n: Node, p: Path, name: string)
    requires FreePlace(n, p, name)
    ensures WithFile(n, p + [name]) == Some(UpdateAt(n, p, AddKid(NodeAt(n, p).value, File(name, []))))
  {
    hide NodeAt, UpdateAt, KidIndex;
    assert (p + [name])[..|p|] == p;
    CreateFileEntries(n, p + [name], []);
  }

  // ---- The round trip -------------------------------------------------------------------------------------

  ghost predicate Printable(n: Node) {
    WellFormed(n) && SpaceFree(n) && IdsFit(n)
  }

  ghost predicate PrintableKids(kids: seq<Node>) {
    (forall i :: 0 <= i < |kids| ==> Printable(kids[i]) && IsField(kids[i].name, IsSlash) && NoSpaceIn(kids[i].name)) &&
    (forall i, j :: 0 <= i < j < |kids| ==> kids[i].name != kids[j].name)
  }

  function WithKids(n: Node, p: Path, kids: seq<Node>): Node
    requires IsDir(n, p)
  {
    var cur := NodeAt(n, p).value;
    UpdateAt(n, p, cur.(kids := cur.kids + kids))
  }

  lemma LoadFirstLine(n: Node, line: string, rest: string, n': Node)
    requires (forall i :: 0 <= i < |line| ==> line[i] != '\n') && LoadLine(n, line) == Some(n')
    ensures LoadLines(n, Lines(line + "\n" + rest)) == LoadLines(n', Lines(rest))
  {
    hide LoadLine, Lines;
    LinesPrepend(line, rest);
  }

  lemma LineHasNoNewline(kid: Node, full: string)
    requires NoSpaceIn(full)
    ensures var line := NodeLine(kid, full); forall i :: 0 <= i < |line| ==> line[i] != '\n'
  {
    if kid.File? { BlockListPlain(kid.blocks); }
    hide BlockList;
  }

  /** Loading the text of one node adds exactly that node below p. */
  lemma {:induction false} KidLoads(n: Node, p: Path, kid: Node, rest: string)
    requires FreePlace(n, p, kid.name) && Printable(kid)
    ensures LoadLines(n, Lines(KidText(kid, FullPath(p)) + rest))
         == LoadLines(UpdateAt(n, p, AddKid(NodeAt(n, p).value, kid)), Lines(rest))
    decreases kid, 1
  {
    hide LoadLines, LoadLine, Lines, NodeAt, UpdateAt, KidsText, NodeLine, WellFormed, SpaceFree, IdsFit, Printable,
         GoodNames;
    var q := p + [kid.name];
    var full := FullPath(p) + "/" + kid.name;
    assert full == FullPath(q) by { FullPathSnoc(p, kid.name); }
    FullPathNoSpace(q);
    LineHasNoNewline(kid, full);
    var line := NodeLine(kid, full);
    if kid.Dir? {
      var more := KidsText(kid.kids, full);
      var empty := Dir(kid.name, []);
      var n1 := UpdateAt(n, p, AddKid(NodeAt(n, p).value, empty));
      assert KidText(kid, FullPath(p)) + rest == line + "\n" + (more + rest) by { KidTextDir(kid, FullPath(p), rest); }
      DirLineLoads(n, p, kid.name);
      assert line == "DIR " + full by { DirLine(kid, full); }
      LoadFirstLine(n, line, more + rest, n1);
      ReplaceAdded(n, p, empty, kid);
      EmptyDirFree(n1, q, kid);
      KidsLoad(n1, q, kid.kids, rest);
      assert WithKids(n1, q, kid.kids) == UpdateAt(n1, q, kid) by { assert [] + kid.kids == kid.kids; }
    } else {
      assert KidText(kid, FullPath(p)) + rest == line + "\n" + rest by { KidTextFile(kid, FullPath(p), rest); }
      FileIds(kid);
      FileLineLoads(n, p, kid.name, kid.blocks);
      LoadFirstLine(n, line, rest, UpdateAt(n, p, AddKid(NodeAt(n, p).value, kid)));
    }
  }

  lemma FullPathSnoc(p: Path, name: string)
    ensures FullPath(p + [name]) == FullPath(p) + "/" + name
  {
    assert (p + [name])[..|p|] == p;
  }

  lemma DirLine(kid: Node, full: string)
    requires kid.Dir?
    ensures NodeLine(kid, full) == "DIR " + full
  {
  }

  lemma KidTextDir(kid: Node, prefix: string, rest: string)
    requires kid.Dir?
    ensures var full := prefix + "/" + kid.name;
            KidText(kid, prefix) + rest == NodeLine(kid, full) + "\n" + (KidsText(kid.kids, full) + rest)
  {
    hide NodeLine, KidsText;
  }

  lemma KidTextFile(kid: Node, prefix: string, rest: string)
    requires kid.File?
    ensures KidText(kid, prefix) + rest == NodeLine(kid, prefix + "/" + kid.name) + "\n" + rest
  {
    hide NodeLine;
  }

  lemma FileIds(kid: Node)
    requires kid.File? && Printable(kid)
    ensures forall i :: 0 <= i < |kid.blocks| ==> IsInt64(kid.blocks[i])
  {
  }

  lemma EmptyDirFree(n: Node, q: Path, kid: Node)
    requires kid.Dir? && Printable(kid) && NodeAt(n, q) == Some(Dir(kid.name, [])) && GoodNames(q)
    ensures IsDir(n, q) && PrintableKids(kid.kids)
    ensures forall i :: 0 <= i < |kid.kids| ==> FreePlace(n, q, kid.kids[i].name)
  {
    hide NodeAt;
    forall i | 0 <= i < |kid.kids| ensures FreePlace(n, q, kid.kids[i].name) {
      NodeAtStep(n, q, kid.kids[i].name);
      AbsentLookup([], kid.kids[i].name);
    }
  }

  lemma {:induction false} KidsLoad(n: Node, p: Path, kids: seq<Node>, rest: string)
    requires IsDir(n, p) && PrintableKids(kids) && forall i :: 0 <= i < |kids| ==> FreePlace(n, p, kids[i].name)
    ensures LoadLines(n, Lines(KidsText(kids, FullPath(p)) + rest)) == LoadLines(WithKids(n, p, kids), Lines(rest))
    decreases kids, 0
  {
    hide LoadLines, Lines, NodeAt, UpdateAt, KidText, FreePlace, Printable, WithKids;
    if kids == [] {
      NoKidsText(FullPath(p));
      assert "" + rest == rest;
      WithNoKids(n, p);
    } else {
      var kid, others := kids[0], kids[1..];
      var n1 := UpdateAt(n, p, AddKid(NodeAt(n, p).value, kid));
      assert KidsText(kids, FullPath(p)) + rest == KidText(kid, FullPath(p)) + (KidsText(others, FullPath(p)) + rest);
      KidLoads(n, p, kid, KidsText(others, FullPath(p)) + rest);
      WithFirstKid(n, p, kids);
      forall i | 0 <= i < |others| ensures FreePlace(n1, p, others[i].name) {
        assert others[i] == kids[i + 1];
        StillFree(n, p, kid, others[i].name);
      }
      KidsLoad(n1, p, others, rest);
    }
  }

  lemma NoKidsText(prefix: string)
    ensures KidsText([], prefix) == ""
  {
  }

  lemma WithNoKids(n: Node, p: Path)
    requires IsDir(n, p)
    ensures WithKids(n, p, []) == n
  {
    var cur := NodeAt(n, p).value;
    assert cur.kids + [] == cur.kids;
    UpdateAtSame(n, p);
  }

  lemma WithFirstKid(n: Node, p: Path, kids: seq<Node>)
    requires IsDir(n, p) && kids != []
    ensures var n1 := UpdateAt(n, p, AddKid(NodeAt(n, p).value, kids[0]));
            IsDir(n1, p) && WithKids(n1, p, kids[1..]) == WithKids(n, p, kids)
  {
    hide NodeAt, UpdateAt;
    var cur := NodeAt(n, p).value;
    var a := AddKid(cur, kids[0]);
    UpdateAtSelf(n, p, a);
    UpdateAtTwice(n, p, a, cur.(kids := cur.kids + kids));
    assert cur.kids + [kids[0]] + kids[1..] == cur.kids + kids;
  }

  lemma StillFree(n: Node, p: Path, kid: Node, name: string)
    requires FreePlace(n, p, kid.name) && FreePlace(n, p, name) && kid.name != name
    ensures FreePlace(UpdateAt(n, p, AddKid(NodeAt(n, p).value, kid)), p, name)
  {
    hide NodeAt, UpdateAt, Lookup, KidIndex, GoodNames;
    var cur := NodeAt(n, p).value;
    UpdateAtSelf(n, p, AddKid(cur, kid));
    NodeAtStep(n, p, kid.name);
    NodeAtStep(n, p, name);
    AbsentLookup(cur.kids, kid.name);
    NodeAtStep(UpdateAt(n, p, AddKid(cur, kid)), p, name);
    LookupAppend(cur.kids, kid, name);
  }

  /** Loading a saved image into an empty tree gives the same tree: types, names, child order, block lists. */
  lemma ImageLoads(t: Node)
    requires t.Dir? && t.name == "" && Printable(t)
    ensures LoadText(ROOT, SaveText(t)) == Some(t)
  {
    HeaderSkipped(t);
    hide LoadLines, Lines, KidsText, Printable, SaveText, UpdateAt;
    var text := KidsText(t.kids, "");
    assert NodeAt(ROOT, []) == Some(Dir("", []));
    EmptyDirFree(ROOT, [], t);
    assert FullPath([]) == "";
    KidsLoad(ROOT, [], t.kids, "");
    assert text + "" == text;
    assert Lines("") == [] by { NoLines(); }
    assert WithKids(ROOT, [], t.kids) == t by { RootWithKids(t); }
    NothingToLoad(t);
  }

  lemma HeaderSkipped(t: Node)
    requires t.Dir?
    ensures AfterLine(SaveText(t)) == KidsText(t.kids, "")
  {
    hide KidsText;
    var text := KidsText(t.kids, "");
    assert SaveText(t) == HEADER + ("\n" + text);
    assert forall i :: 0 <= i < |HEADER| ==> HEADER[i] != '\n';
    WordLengthOfPrefix(HEADER, "\n" + text, IsNewline);
    assert SaveText(t)[|HEADER| + 1..] == text;
  }

  lemma NoLines()
    ensures Lines("") == []
  {
  }

  lemma NothingToLoad(n: Node)
    ensures LoadLines(n, []) == Some(n)
  {
  }

  lemma RootWithKids(t: Node)
    requires t.Dir? && t.name == ""
    ensures IsDir(ROOT, []) && WithKids(ROOT, [], t.kids) == t
  {
    assert [] + t.kids == t.kids;
  }

  // ---- Why names with white space cannot survive ----------------------------------------------------------

  lemma {:induction false} FieldsKeepNoSpace(s: string, sep: Separator)
    requires NoSpaceIn(s)
    ensures forall i :: 0 <= i < |Fields(s, sep)| ==> NoSpaceIn(Fields(s, sep)[i])
    decreases |s|
  {
    if s != [] && sep(s[0]) {
      FieldsKeepNoSpace(s[1..], sep);
    } else if s != [] {
      FieldsKeepNoSpace(s[WordLength(s, sep)..], sep);
    }
  }

  lemma TokenNoSpace(line: string, i: nat)
    ensures NoSpaceIn(Token(line, i))
  {
    FieldsAreFields(line, IsSpace);
    if i < |Tokens(line)| {
      assert Tokens(line)[i] in Tokens(line);
      assert IsField(Tokens(line)[i], IsSpace);
    }
  }

  lemma {:induction false} UpdateAtSpaceFree(n: Node, p: Path, repl: Node)
    requires SpaceFree(n) && NodeAt(n, p).Some? && SpaceFree(repl) && repl.name == NodeAt(n, p).value.name
    ensures SpaceFree(UpdateAt(n, p, repl)) && UpdateAt(n, p, repl).name == n.name
    decreases |p|
  {
    if p != [] {
      var i := KidIndex(n.kids, p[0]);
      UpdateAtSpaceFree(n.kids[i], p[1..], repl);
    }
  }

  lemma {:induction false} NodeAtSpaceFree(n: Node, p: Path)
    requires SpaceFree(n) && NodeAt(n, p).Some?
    ensures SpaceFree(NodeAt(n, p).value)
    decreases |p|
  {
    if p != [] {
      NodeAtSpaceFree(n.kids[KidIndex(n.kids, p[0])], p[1..]);
    }
  }

  lemma AddKidSpaceFree(n: Node, p: Path, kid: Node)
    requires SpaceFree(n) && IsDir(n, p) && Kids(kid) == [] && NoSpaceIn(kid.name)
    ensures SpaceFree(UpdateAt(n, p, AddKid(NodeAt(n, p).value, kid)))
  {
    hide NodeAt, UpdateAt;
    NodeAtSpaceFree(n, p);
    var cur := NodeAt(n, p).value;
    assert SpaceFree(AddKid(cur, kid));
    UpdateAtSpaceFree(n, p, AddKid(cur, kid));
  }

  lemma {:induction false} MkdirsSpaceFree(n: Node, p: Path, i: nat)
    requires i <= |p| && IsDir(n, p[..i]) && SpaceFree(n) && forall k :: 0 <= k < |p| ==> NoSpaceIn(p[k])
    ensures SpaceFree(MkdirsFrom(n, p, i).0)
    decreases |p| - i
  {
    hide SpaceFree, UpdateAt, NodeAt;
    if i < |p| {
      var pi := p[..i];
      assert p[..i + 1] == pi + [p[i]] && p[..i + 1][..i] == pi;
      match NodeAt(n, p[..i + 1])
      case None =>
        NewDirFound(n, pi, p[i]);
        AddKidSpaceFree(n, pi, Dir(p[i], []));
        MkdirsSpaceFree(UpdateAt(n, pi, AddKid(NodeAt(n, pi).value, Dir(p[i], []))), p, i + 1);
      case Some(Dir(_, _)) => MkdirsSpaceFree(n, p, i + 1);
      case Some(File(_, _)) =>
    }
  }

  lemma AfterMkdirsSpaceFree(n: Node, path: string)
    requires SpaceFree(n) && NoSpaceIn(path)
    ensures SpaceFree(AfterMkdirs(n, path))
  {
    hide SpaceFree, MkdirsFrom, Fields;
    FieldsKeepNoSpace(path, IsSlash);
    if n.Dir? {
      assert PathOf(path)[..0] == [];
      MkdirsSpaceFree(n, PathOf(path), 0);
    }
  }

  lemma WithFileSpaceFree(n: Node, path: string)
    requires SpaceFree(n) && NoSpaceIn(path) && WithFile(n, PathOf(path)).Some?
    ensures SpaceFree(WithFile(n, PathOf(path)).value)
  {
    hide SpaceFree, UpdateAt, NodeAt, Fields, KidIndex;
    FieldsKeepNoSpace(path, IsSlash);
    var p := PathOf(path);
    AddKidSpaceFree(n, p[..|p| - 1], File(p[|p| - 1], []));
  }

  lemma {:induction false} PushIdsSpaceFree(n: Node, p: Path, ids: seq<string>)
    requires SpaceFree(n) && PushIds(n, p, ids).Some?
    ensures SpaceFree(PushIds(n, p, ids).value)
    decreases |ids|
  {
    if ids != [] {
      hide SpaceFree, UpdateAt, NodeAt, Stoll;
      var id := Stoll(ids[0]).value;
      var f := NodeAt(n, p).value;
      assert SpaceFree(f.(blocks := f.blocks + [id])) by { FileSpaceFree(f.(blocks := f.blocks + [id])); }
      UpdateAtSpaceFree(n, p, f.(blocks := f.blocks + [id]));
      PushIdsSpaceFree(WithBlock(n, p, id), p, ids[1..]);
    }
  }

  lemma FileSpaceFree(f: Node)
    requires f.File?
    ensures SpaceFree(f)
  {
  }

  lemma LineSpaceFree(n: Node, line: string)
    requires SpaceFree(n) && LoadLine(n, line).Some?
    ensures SpaceFree(LoadLine(n, line).value)
  {
    hide SpaceFree, UpdateAt, NodeAt, Fields, MkdirsFrom, AfterMkdirs, WithFile, PushIds, Token, GetParentDir;
    var path := Token(line, 1);
    TokenNoSpace(line, 1);
    if line != "" && line[0] != '#' {
      if Token(line, 0) == "DIR" {
        AfterMkdirsSpaceFree(n, path);
      } else if Token(line, 0) == "FILE" {
        var parent := GetParentDir(path);
        ParentNoSpace(path);
        AfterMkdirsSpaceFree(n, parent);
        var n' := if parent != "/" then AfterMkdirs(n, parent) else n;
        if WithFile(n', PathOf(path)).Some? {
          WithFileSpaceFree(n', path);
          var n'' := WithFile(n', PathOf(path)).value;
          var blocks := Token(line, 2);
          if BLOCKS_KEY <= blocks {
            PushIdsSpaceFree(n'', PathOf(path), Fields(blocks[|BLOCKS_KEY|..], IsComma));
          }
        }
      }
    }
  }

  lemma ParentNoSpace(path: string)
    requires NoSpaceIn(path)
    ensures NoSpaceIn(GetParentDir(path))
  {
  }

  lemma {:induction false} LinesSpaceFree(n: Node, lines: seq<string>)
    requires SpaceFree(n) && LoadLines(n, lines).Some?
    ensures SpaceFree(LoadLines(n, lines).value)
    decreases |lines|
  {
    if lines != [] {
      hide SpaceFree, LoadLine;
      LineSpaceFree(n, lines[0]);
      LinesSpaceFree(LoadLine(n, lines[0]).value, lines[1..]);
    }
  }

  /** A saved tree loads back as itself exactly when none of its names contains white space. */
  lemma ImageRoundTripIff(t: Node)
    requires t.Dir? && t.name == "" && WellFormed(t) && IdsFit(t)
    ensures LoadText(ROOT, SaveText(t)) == Some(t) <==> SpaceFree(t)
  {
    hide LoadLines, Lines, SaveText, AfterLine, WellFormed, IdsFit;
    if SpaceFree(t) {
      ImageLoads(t);
    }
    if LoadText(ROOT, SaveText(t)).Some? {
      LinesSpaceFree(ROOT, Lines(AfterLine(SaveText(t))));
    }
  }

  /** A directory "/a b", as Mkdirs makes it, comes back as something else, whichever blank character stands there. */
  lemma SpaceNameLost(c: char)
    requires c in [' ', '\t', '\n', '\U{0B}', '\U{0C}', '\r']
    ensures var t := AfterMkdirs(ROOT, "/a" + [c] + "b");
            t == Dir("", [Dir("a" + [c] + "b", [])]) && LoadText(ROOT, SaveText(t)) != Some(t)
  {
    hide LoadText, SaveText;
    var name := "a" + [c] + "b";
    var t := Dir("", [Dir(name, [])]);
    assert "/a" + [c] + "b" == "/" + name && ("/" + name)[1..] == name;
    assert IsField(name, IsSlash);
    assert PathOf("/" + name) == [name] by {
      assert name + "" == name && Fields("", IsSlash) == [];
      FieldThenSeparator(name, "", IsSlash);
    }
    OneDir(name);
    assert !NoSpaceIn(t.kids[0].name) by { assert name[1] == c; }
    hide NoSpaceIn;
    ImageRoundTripIff(t);
  }

  lemma OneDir(name: string)
    ensures MadeDirs(ROOT, [name]).0 == Dir("", [Dir(name, [])])
  {
    var p, t := [name], Dir("", [Dir(name, [])]);
    assert p[..0] == [] && p[..1] == [name];
    assert NodeAt(ROOT, []) == Some(ROOT) && NodeAt(ROOT, [name]) == None;
    assert UpdateAt(ROOT, [], AddKid(ROOT, Dir(name, []))) == t;
    NewDirFound(ROOT, [], name);
    assert [] + [name] == p;
    assert MkdirsFrom(t, p, 1) == (t, true);
  }

  /** What an image looks like. */
  lemma ImageExample()
    ensures SaveText(Dir("", [Dir("a", [File("f", [1, -2]), Dir("b", [])]), File("g", [])]))
         == "# mini-hadoop FsImage v1\n" +
            (("DIR /a\n" + ("FILE /a/f blocks=1,-2\n" + "DIR /a/b\n")) + "FILE /g blocks=\n")
  {
    hide KidText, KidsText, BlockList, HEADER;
    var f, b, g := File("f", [1, -2]), Dir("b", []), File("g", []);
    var a := Dir("a", [f, b]);
    LineOfF();
    LineOfB();
    LineOfG();
    TextOfKids([f, b], "/a", KidText(f, "/a"), KidText(b, "/a"));
    LineOfA(a, KidsText([f, b], "/a"));
    TextOfKids([a, g], "", KidText(a, ""), KidText(g, ""));
    HeaderLine();
  }

  lemma HeaderLine()
    ensures HEADER + "\n" == "# mini-hadoop FsImage v1\n"
  {
  }

  lemma LineOfA(a: Node, inner: string)
    requires a.Dir? && a.name == "a" && KidsText(a.kids, "/a") == inner
    ensures KidText(a, "") == "DIR /a\n" + inner
  {
    hide KidsText;
    assert "" + "/" + "a" == "/a" && "DIR " + "/a" + "\n" == "DIR /a\n";
    TextOfDir(a, "", inner);
  }

  lemma LineOfF()
    ensures KidText(File("f", [1, -2]), "/a") == "FILE /a/f blocks=1,-2\n"
  {
    hide BlockList;
    TwoBlocks();
    assert "/a" + "/" + "f" == "/a/f";
    assert "FILE " + "/a/f" + " blocks=" + "1,-2" + "\n" == "FILE /a/f blocks=1,-2\n";
    TextOfFile(File("f", [1, -2]), "/a", "1,-2");
  }

  lemma LineOfB()
    ensures KidText(Dir("b", []), "/a") == "DIR /a/b\n"
  {
    hide KidsText;
    TwoBlocks();
    assert "/a" + "/" + "b" == "/a/b" && "DIR " + "/a/b" + "\n" == "DIR /a/b\n";
    TextOfDir(Dir("b", []), "/a", "");
    assert "DIR /a/b\n" + "" == "DIR /a/b\n";
  }

  lemma LineOfG()
    ensures KidText(File("g", []), "") == "FILE /g blocks=\n"
  {
    hide BlockList;
    TwoBlocks();
    assert "" + "/" + "g" == "/g" && "FILE " + "/g" + " blocks=" + "" + "\n" == "FILE /g blocks=\n";
    TextOfFile(File("g", []), "", "");
  }

  lemma TwoBlocks()
    ensures BlockList([1, -2]) == "1,-2" && BlockList([]) == "" && KidsText([], "/a/b") == ""
  {
    One();
    MinusTwo();
    hide IntText;
    assert [1, -2][..1] == [1] && [1][..0] == [];
    assert BlockList([1]) == "1";
  }

  lemma One()
    ensures IntText(1) == "1"
  {
    DecimalText(0, 1);
  }

  lemma MinusTwo()
    ensures IntText(-2) == "-2"
  {
    assert NatText(2) == "2";
  }

  lemma TextOfFile(f: Node, prefix: string, list: string)
    requires f.File? && BlockList(f.blocks) == list
    ensures KidText(f, prefix) == "FILE " + (prefix + "/" + f.name) + " blocks=" + list + "\n"
  {
    hide BlockList;
  }

  lemma TextOfDir(d: Node, prefix: string, inner: string)
    requires d.Dir? && KidsText(d.kids, prefix + "/" + d.name) == inner
    ensures KidText(d, prefix) == "DIR " + (prefix + "/" + d.name) + "\n" + inner
  {
    hide KidsText;
  }

  lemma TextOfKids(kids: seq<Node>, prefix: string, first: string, second: string)
    requires kids == [] || |kids| == 2
    requires |kids| == 2 ==> KidText(kids[0], prefix) == first && KidText(kids[1], prefix) == second
    ensures KidsText(kids, prefix) == if kids == [] then "" else first + second
  {
    hide KidText;
    if |kids| == 2 {
      assert kids[1..] == [kids[1]] && kids[1..][1..] == [];
      assert KidsText(kids[1..], prefix) == second + "";
    }
  }
}
