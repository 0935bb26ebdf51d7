/**
 * `TextImagePacker`: walks a directory tree and packs every text-image
 * directory (exactly the three files of a text image) into a zip archive
 * beside it. The file system is a tree of named nodes listed in the
 * order `listFiles` returns them; writing the archive is not modelled,
 * only its name and the order of its entries.
 */
module Packer {
  import opened Wrappers
  import opened Paths
  import TextImageIO

  datatype Node = File(name: string) | Directory(name: string, children: seq<Node>)

  function ChildNames(children: seq<Node>): (names: seq<string>)
    ensures |names| == |children| && forall i :: 0 <= i < |children| ==> names[i] == children[i].name
  {
    if children == [] then [] else [children[0].name] + ChildNames(children[1..])
  }

  /**
   * `isTextImageDirectory`: a directory listing exactly three names that
   * include the glyphs, the foreground and the background file.
   */
  predicate IsTextImageDirectory(node: Node) {
    && node.Directory?
    && |node.children| == 3
    && TextImageIO.GlyphsName in ChildNames(node.children)
    && TextImageIO.ForegroundName in ChildNames(node.children)
    && TextImageIO.BackgroundName in ChildNames(node.children)
  }

  /** The names inside one directory are distinct. */
  predicate DistinctNames(children: seq<Node>) {
    forall i, j :: 0 <= i < j < |children| ==> children[i].name != children[j].name
  }

  /** The set of names in a listing. */
  function NameSet(children: seq<Node>): set<string> {
    set i | 0 <= i < |children| :: children[i].name
  }

  const TextImageNames := {TextImageIO.GlyphsName, TextImageIO.ForegroundName, TextImageIO.BackgroundName}

  /**
   * For a directory whose names are distinct, the test holds exactly when
   * its names are the three text-image names and nothing else.
   */
  lemma TextImageDirectoryNames(node: Node)
    requires node.Directory? && DistinctNames(node.children)
    ensures IsTextImageDirectory(node) <==> NameSet(node.children) == TextImageNames
  {
    ListedNames(node.children);
    NamesOfDistinct(node.children);
    if IsTextImageDirectory(node) {
      ThreeNamesListed(node.children);
    }
  }

  /** A name is listed exactly when it is in the name set. */
  lemma ListedNames(children: seq<Node>)
    ensures forall n :: n in ChildNames(children) <==> n in NameSet(children)
  {
    var listed := ChildNames(children);
    forall n | n in listed ensures n in NameSet(children) {
      var i :| 0 <= i < |listed| && listed[i] == n;
      assert children[i].name == n;
    }
  }

  /** Three distinct children listing the three names have exactly those names. */
  lemma ThreeNamesListed(children: seq<Node>)
    requires |children| == 3 && |NameSet(children)| == 3
    requires TextImageNames <= NameSet(children)
    ensures NameSet(children) == TextImageNames
  {
    assert |TextImageNames| == 3;
    SubsetOfSameSize(TextImageNames, NameSet(children));
  }

  /** A subset as large as its superset is the superset. */
  lemma SubsetOfSameSize<T>(a: set<T>, b: set<T>)
    requires a <= b && |a| == |b|
    ensures a == b
  {
    if b - a != {} {
      var x :| x in b - a;
      assert |a + {x}| == |a| + 1;
      assert a + {x} <= b;
      SubsetSize(a + {x}, b);
    } else {
      forall y | y in b ensures y in a {
        assert y !in b - a;
      }
    }
  }

  lemma {:induction false} SubsetSize<T>(a: set<T>, b: set<T>)
    requires a <= b
    ensures |a| <= |b|
    decreases |a|
  {
    if a != {} {
      var x :| x in a;
      SubsetSize(a - {x}, b - {x});
    }
  }

  /** Distinct names give as many names as children. */
  lemma {:induction false} NamesOfDistinct(children: seq<Node>)
    requires DistinctNames(children)
    ensures |NameSet(children)| == |children|
    decreases |children|
  {
    if children != [] {
      var rest := children[1..];
      NamesOfDistinct(rest);
      var restNames := set i | 0 <= i < |rest| :: rest[i].name;
      var names := set i | 0 <= i < |children| :: children[i].name;
      assert names == {children[0].name} + restNames by {
        forall n | n in names ensures n in {children[0].name} + restNames {
          var i :| 0 <= i < |children| && children[i].name == n;
          if i > 0 {
            assert rest[i - 1].name == n;
          }
        }
        forall n | n in restNames ensures n in names {
          var i :| 0 <= i < |rest| && rest[i].name == n;
          assert children[i + 1].name == n;
        }
      }
      assert forall i :: 0 <= i < |rest| ==> rest[i].name != children[0].name by {
        forall i | 0 <= i < |rest| ensures rest[i].name != children[0].name {
          assert rest[i] == children[i + 1];
        }
      }
      assert children[0].name !in restNames;
    }
  }

  /**
   * `traverse`: the text-image directories it packs, in the order it packs
   * them. A file is skipped; a text-image directory is packed and not
   * entered; any other directory is walked child by child.
   */
  function Traverse(node: Node): seq<Node>
    decreases node
  {
    match node
    case File(_) => []
    case Directory(_, children) =>
      if IsTextImageDirectory(node) then [node] else TraverseAll(children)
  }

  function TraverseAll(children: seq<Node>): seq<Node>
    decreases children
  {
    if children == [] then [] else Traverse(children[0]) + TraverseAll(children[1..])
  }

  /**
   * `node` is reached: a text-image directory met before any other
   * text-image directory on the way down from `root`.
   */
  ghost predicate Packable(root: Node, node: Node)
    decreases root
  {
    if IsTextImageDirectory(root) then node == root
    else root.Directory? && exists i :: 0 <= i < |root.children| && Packable(root.children[i], node)
  }

  /** `traverse` packs exactly the reachable text-image directories. */
  lemma {:induction false} TraversePacksPackable(root: Node, node: Node)
    ensures node in Traverse(root) <==> Packable(root, node)
    decreases root, 1
  {
    if !IsTextImageDirectory(root) && root.Directory? {
      TraverseAllPacksPackable(root.children, node);
    }
  }

  lemma {:induction false} TraverseAllPacksPackable(children: seq<Node>, node: Node)
    ensures node in TraverseAll(children) <==> exists i :: 0 <= i < |children| && Packable(children[i], node)
    decreases children, 0
  {
    if children != [] {
      TraversePacksPackable(children[0], node);
      TraverseAllPacksPackable(children[1..], node);
      if exists i :: 0 <= i < |children| && Packable(children[i], node) {
        var i :| 0 <= i < |children| && Packable(children[i], node);
        if i > 0 {
          assert children[1..][i - 1] == children[i];
        }
      }
      if exists i :: 0 <= i < |children[1..]| && Packable(children[1..][i], node) {
        var i :| 0 <= i < |children[1..]| && Packable(children[1..][i], node);
        assert children[i + 1] == children[1..][i];
      }
    }
  }

  /** Everything packed is a text-image directory. */
  lemma {:induction false} OnlyTextImagesPacked(root: Node)
    ensures forall i :: 0 <= i < |Traverse(root)| ==> IsTextImageDirectory(Traverse(root)[i])
    decreases root, 1
  {
    if !IsTextImageDirectory(root) && root.Directory? {
      OnlyTextImagesPackedAll(root.children);
    }
  }

  lemma {:induction false} OnlyTextImagesPackedAll(children: seq<Node>)
    ensures forall i :: 0 <= i < |TraverseAll(children)| ==> IsTextImageDirectory(TraverseAll(children)[i])
    decreases children, 0
  {
    if children != [] {
      OnlyTextImagesPacked(children[0]);
      OnlyTextImagesPackedAll(children[1..]);
    }
  }

  /**
   * `pack`'s archive: `new File(getParent(), getName() + ".zip")`, a
   * sibling named after the directory.
   */
  function PackTarget(path: string): string {
    Child(Parent(path), BaseName(path) + ".zip")
  }

  /**
   * The archive is the directory's own path with ".zip" appended; for the
   * root, which has no parent and an empty name, it is ".zip".
   */
  lemma PackTargetSibling(path: string)
    requires Normalised(path)
    ensures PackTarget(path) == if path == "/" then ".zip" else path + ".zip"
  {
    ChildOfParent(path, BaseName(path) + ".zip");
    assert path[..NameStart(path)] + BaseName(path) == path;
  }

  /** The entries `pack` writes, in order. */
  const PackEntries := [TextImageIO.GlyphsName, TextImageIO.ForegroundName, TextImageIO.BackgroundName]

  /**
   * An archive written by `pack` is read back whole: the entry loop stops
   * after its three entries with every part present.
   */
  lemma PackedArchiveReadable(entries: seq<TextImageIO.Entry>)
    requires |entries| == 3 && forall i :: 0 <= i < 3 ==> entries[i].name == PackEntries[i]
    ensures TextImageIO.CountRecognised(entries) == 3 && TextImageIO.CountRecognised(entries[..2]) == 2
    ensures TextImageIO.PartsOf(entries) ==
              TextImageIO.Parts(Some(entries[0].lines), Some(entries[1].picture), Some(entries[2].picture))
  {
    assert forall i :: 0 <= i < 3 ==> TextImageIO.Recognised(entries[i].name);
    assert entries[..2][..1] == entries[..1];
    assert entries[..1][..0] == [];
    assert entries[..2] == [entries[0], entries[1]];
    assert entries[..1] == [entries[0]];
    assert entries == [entries[0], entries[1], entries[2]];
    assert TextImageIO.CountRecognised(entries[..0]) == 0;
    assert TextImageIO.CountRecognised(entries[..1]) == 1;
    assert TextImageIO.CountRecognised(entries[..2]) == 2;
    assert entries[..3] == entries;
    assert TextImageIO.LastNamed(entries[..1], TextImageIO.ForegroundName) == None;
    assert TextImageIO.LastNamed(entries[..2], TextImageIO.GlyphsName) == Some(entries[0]);
  }

  /** `main`: exactly one argument, the directory to walk. */
  function MainArgument(args: seq<string>): (r: Result<string>)
    ensures r.Ok? <==> |args| == 1
    ensures r.Ok? ==> r.value == args[0]
    ensures r.Err? ==> r.error == IllegalArgument("no directory")
  {
    if |args| != 1 then Err(IllegalArgument("no directory")) else Ok(args[0])
  }
}
