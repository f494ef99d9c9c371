/** A data node's block files: one file per block, named after the block id. */
module BlockStorage {
  import opened Options
  import opened Text
  import opened Bytes
  import opened Cluster

  const EXTENSION := ".blk"

  function BlockName(id: int): string {
    IntText(id) + EXTENSION
  }

  predicate HasExtension(name: string) {
    |name| > |EXTENSION| && name[|name| - |EXTENSION|..] == EXTENSION
  }

  function Stem(name: string): string
    requires HasExtension(name)
  {
    name[..|name| - |EXTENSION|]
  }

  lemma BlockNameStem(id: int)
    ensures HasExtension(BlockName(id)) && Stem(BlockName(id)) == IntText(id)
  {
    assert IntText(id) != [];
    var name := BlockName(id);
    assert name[|name| - |EXTENSION|..] == EXTENSION;
    assert name[..|name| - |EXTENSION|] == IntText(id);
  }

  lemma NameIs(id: int)
    ensures BlockName(id) == IntText(id) + ".blk"
  {
    hide IntText;
  }

  lemma SameName(a: int, b: int)
    requires BlockName(a) == BlockName(b)
    ensures a == b
  {
    hide IntText;
    BlockNameStem(a);
    BlockNameStem(b);
    IntTextInjective(a, b);
  }

  /** A block file whose name std::stoll refuses. */
  predicate Unparsable(name: string) {
    HasExtension(name) && Stoll(Stem(name)).None?
  }

  class BlockStorage {
    var files: map<string, Bytes>
    ghost var disk: Disk

    /** The disk maps each id whose block file is there to its content; any other files may lie beside them. */
    ghost predicate Valid()
      reads this
    {
      && (forall id :: id in disk <==> BlockName(id) in files)
      && (forall id :: id in disk ==> files[BlockName(id)] == disk[id])
    }

    /** Only StoreBlock has put block files there. */
    ghost predicate Clean()
      reads this
    {
      forall name :: name in files && HasExtension(name) ==>
        exists id :: id in disk && IsInt64(id) && BlockName(id) == name
    }

    constructor (others: map<string, Bytes>)
      requires forall name :: name in others ==> !HasExtension(name)
      ensures Valid() && Clean() && disk == map[]
    {
      files, disk := others, map[];
      new;
      forall id ensures BlockName(id) !in files { BlockNameStem(id); }
    }

    /** Fails when the file system lets no file be created. */
    method StoreBlock(id: int, data: Bytes, creatable: bool) returns (ok: bool)
      requires Valid() && IsInt64(id)
      modifies this
      ensures Valid() && ok == creatable && (old(Clean()) ==> Clean())
      ensures disk == if creatable then old(disk)[id := data] else old(disk)
      ensures files == if creatable then old(files)[IntText(id) + ".blk" := data] else old(files)
    {
      hide BlockName, HasExtension, IsInt64;
      if !creatable { return false; }
      assert BlockName(id) == IntText(id) + ".blk" by { NameIs(id); }
      BlockNameStem(id);
      forall other | BlockName(other) == BlockName(id) ensures other == id { SameName(other, id); }
      files := files[BlockName(id) := data];
      disk := disk[id := data];
      assert id in disk;
      ok := true;
    }

    method ReadBlock(id: int) returns (data: Option<Bytes>)
      requires Valid()
      ensures data == if id in disk then Some(disk[id]) else None
    {
      hide BlockName;
      data := if BlockName(id) in files then Some(files[BlockName(id)]) else None;
    }

    method RemoveBlock(id: int) returns (ok: bool)
      requires Valid()
      modifies this
      ensures Valid() && ok == (id in old(disk)) && disk == old(disk) - {id} && (old(Clean()) ==> Clean())
    {
      hide BlockName, HasExtension, IsInt64;
      forall other | BlockName(other) == BlockName(id) ensures other == id { SameName(other, id); }
      ok := BlockName(id) in files;
      files := files - {BlockName(id)};
      disk := disk - {id};
    }

    /** Lists the directory in whatever order the file system returns. None stands for the exception that a name
        that is no 64-bit number causes. */
    method GetBlockReport() returns (report: Option<seq<Namespace.Block>>)
      requires Valid()
      ensures report.None? <==> exists name :: name in files && Unparsable(name)
      ensures Clean() ==> report.Some? && ReportOf(disk, report.value)
    {
      hide BlockName, HasExtension, Stem, IsInt64, Stoll, IntText;
      var found: seq<Namespace.Block> := [];
      var names := files.Keys;
      while names != {}
        invariant names <= files.Keys
        invariant forall name :: name in files && name !in names ==> !Unparsable(name)
        invariant Clean() ==> CleanSoFar(names, found)
        decreases names
      {
        var name :| name in names;
        if HasExtension(name) {
          if Clean() { CleanName(names, found, name); }
          if Stoll(Stem(name)).None? {
            assert Unparsable(name);
            return None;
          }
          found := found + [Namespace.Block(Stoll(Stem(name)).value, |files[name]|, 0)];
        } else {
          OtherName(names, found, name);
        }
        names := names - {name};
      }
      report := Some(found);
    }

    /** The report so far covers exactly the block files not in `names`. */
    ghost predicate CleanSoFar(names: set<string>, found: seq<Namespace.Block>)
      reads this
    {
      && (forall i :: 0 <= i < |found| ==>
            found[i].id in disk && found[i].numBytes == |disk[found[i].id]| && BlockName(found[i].id) !in names)
      && (forall i, j :: 0 <= i < j < |found| ==> found[i].id != found[j].id)
      && (forall id :: id in disk && BlockName(id) !in names ==> Reported(found, id))
    }

    lemma CleanName(names: set<string>, found: seq<Namespace.Block>, name: string)
      requires Valid() && Clean() && names <= files.Keys && CleanSoFar(names, found)
      requires name in names && HasExtension(name)
      ensures Stoll(Stem(name)).Some?
      ensures CleanSoFar(names - {name}, found + [Namespace.Block(Stoll(Stem(name)).value, |files[name]|, 0)])
    {
      hide BlockName, HasExtension, Stem, IsInt64, Stoll, IntText;
      var id :| id in disk && IsInt64(id) && BlockName(id) == name;
      BlockNameStem(id);
      StollOfIntText(id);
      var more := found + [Namespace.Block(id, |files[name]|, 0)];
      assert Reported(more, id) by { assert more[|found|].id == id; }
      forall other | other in disk && BlockName(other) == name ensures other == id { SameName(other, id); }
      forall other | Reported(found, other) ensures Reported(more, other) { StillReported(found, more, other); }
    }

    lemma OtherName(names: set<string>, found: seq<Namespace.Block>, name: string)
      requires !HasExtension(name)
      ensures CleanSoFar(names, found) ==> CleanSoFar(names - {name}, found)
      ensures !Unparsable(name)
    {
      hide BlockName, HasExtension;
      forall id ensures BlockName(id) != name { BlockNameStem(id); }
    }
  }

  lemma StillReported(a: seq<Namespace.Block>, b: seq<Namespace.Block>, id: int)
    requires Reported(a, id) && a <= b
    ensures Reported(b, id)
  {
    var i :| 0 <= i < |a| && a[i].id == id;
    assert b[i].id == id;
  }
}
