/**
 * The part of `java.io.File` the tools rely on, over '/'-separated paths
 * as `File` would have normalised them: the file name and the parent.
 */
module Paths {
  import opened Wrappers
  import opened Strings

  /** Where the file name starts in `path`: just after its last '/'. */
  function NameStart(path: string): (i: nat)
    ensures i <= |path|
    ensures forall j :: i <= j < |path| ==> path[j] != '/'
    ensures i > 0 ==> path[i - 1] == '/'
  {
    LastIndexOf(path, '/') + 1
  }

  /** `File.getName()`: the path after its last '/'. */
  function BaseName(path: string): (name: string)
    ensures forall j :: 0 <= j < |name| ==> name[j] != '/'
  {
    path[NameStart(path)..]
  }

  /**
   * `File.getParent()`: the path before the last '/', the root "/" for a
   * file directly under it, and null for a bare name and for the root
   * itself.
   */
  function Parent(path: string): (r: Option<string>)
    ensures r.None? <==> NameStart(path) == 0 || path == "/"
    ensures r.Some? ==> |r.value| < |path|
  {
    var start := NameStart(path);
    if start == 0 then None
    else if start == 1 then (if |path| > 1 then Some("/") else None)
    else Some(path[..start - 1])
  }

  /**
   * `new File(parent, child)`: the child alone for a null parent, the child
   * after the root, otherwise parent '/' child.
   */
  function Child(parent: Option<string>, child: string): string {
    match parent
    case None => child
    case Some(p) => if p == "/" then "/" + child else p + "/" + child
  }

  /**
   * A path as `File` keeps it: no empty name between two '/', and no
   * trailing '/' except for the root.
   */
  predicate Normalised(path: string) {
    && (forall i :: 0 <= i < |path| - 1 ==> !(path[i] == '/' && path[i + 1] == '/'))
    && (|path| > 1 ==> path[|path| - 1] != '/')
  }

  /**
   * A child of the parent: the directory part of the path, with its
   * trailing '/', then the child; the root has no parent, so a child of
   * it is the bare child.
   */
  lemma ChildOfParent(path: string, child: string)
    requires Normalised(path)
    ensures Child(Parent(path), child) == if path == "/" then child else path[..NameStart(path)] + child
  {
    var start := NameStart(path);
    if path == "/" {
    } else if start > 1 {
      assert path[..start] == path[..start - 1] + "/";
      assert start == 2 ==> path[1] == '/';
    } else if start == 1 {
      assert path[..start] == "/";
    }
  }
}
