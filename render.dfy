/**
 * The two rendering passes of the tree command: the full listing (showTree)
 * and the directories-only listing (showDir), each as a specification
 * function giving the state after the first k entries of a listing, and as
 * the looping method that the source runs, proved equal to it.
 */
module Render {
  import opened FileTree

  /** Indentation handed to the children of an entry that is not last. */
  const Bar := "│   "
  /** Indentation handed to the children of the last entry. */
  const Blank := "    "
  /** Terminal glyph, for the entry judged last at its level. */
  const Corner := "└──"
  /** Branch glyph, for every other entry. */
  const Tee := "├──"

  /** One printed line: inherited connector, glyph, a space, the entry's name. */
  function GetOutput(connector: string, parts: string, fileName: string): string {
    connector + parts + " " + fileName
  }

  /** A line splits back into its connector, glyph, separating space and name. */
  lemma GetOutputLayout(connector: string, parts: string, fileName: string)
    ensures var line := GetOutput(connector, parts, fileName);
      && |line| == |connector| + |parts| + 1 + |fileName|
      && line[..|connector|] == connector
      && line[|connector|..|connector| + |parts|] == parts
      && line[|connector| + |parts|] == ' '
      && line[|connector| + |parts| + 1..] == fileName
  {
  }

  /**
   * The line for `file` followed by `sub`, what the recursive call on `file`
   * printed (`Empty` for a non-directory); a failure in `sub` is located
   * below `file`.
   */
  function Emit(connector: string, parts: string, file: Node, sub: Run): Run {
    Run([GetOutput(connector, parts, file.name)] + sub.lines, Within(file.name, sub.exit))
  }

  // ---------------------------------------------------------------------
  // showTree
  // ---------------------------------------------------------------------

  /** showTree(dir, connector): a failed listing exits at once. */
  function TreeRun(n: Node, connector: string, showAll: bool): Run
    decreases n, 1
  {
    if n.Dir? then TreeLevel(n, |n.children|, connector, showAll) else Refused
  }

  /**
   * The loop of showTree after its first k iterations: hidden entries are
   * skipped, every other entry prints as TreeEntry says.
   */
  function TreeLevel(d: Node, k: nat, connector: string, showAll: bool): Run
    requires d.Dir? && k <= |d.children|
    decreases d, 0, k
  {
    if k == 0 then Empty
    else if !Visible(d.children[k - 1], showAll) then TreeLevel(d, k - 1, connector, showAll)
    else Then(TreeLevel(d, k - 1, connector, showAll), TreeEntry(d, k - 1, connector, showAll))
  }

  /**
   * What the visible entry at position i prints in showTree: it is judged last
   * when i is the last index of the UNFILTERED listing; a directory is then
   * descended into with the connector extended by one segment.
   */
  function TreeEntry(d: Node, i: nat, connector: string, showAll: bool): Run
    requires d.Dir? && i < |d.children|
    decreases d, 0, i
  {
    var file := d.children[i];
    var last := i == |d.children| - 1;
    var sub := if IsDir(file) then TreeRun(file, connector + (if last then Blank else Bar), showAll) else Empty;
    Emit(connector, if last then Corner else Tee, file, sub)
  }

  /** Once a listing has failed, later entries of the same level add nothing. */
  lemma {:induction false} TreeLevelExitPersists(d: Node, i: nat, k: nat, connector: string, showAll: bool)
    requires d.Dir? && i <= k <= |d.children|
    requires TreeLevel(d, i, connector, showAll).exit.Some?
    ensures TreeLevel(d, k, connector, showAll) == TreeLevel(d, i, connector, showAll)
    decreases k
  {
    if k > i {
      TreeLevelExitPersists(d, i, k - 1, connector, showAll);
    }
  }

  method ShowTree(dir: Node, connector: string, showAll: bool) returns (r: Run)
    ensures r == TreeRun(dir, connector, showAll)
    decreases dir
  {
    if !dir.Dir? {
      return Refused;
    }
    var files := dir.children;
    var newConnector := connector;
    var fileCount := |files|;
    r := Empty;
    var i := 0;
    while i < |files|
      invariant 0 <= i <= |files|
      invariant r == TreeLevel(dir, i, connector, showAll)
      invariant r.exit.None?
    {
      var file := files[i];
      if !Visible(file, showAll) {
        i := i + 1;
        continue;
      }
      var parts;
      if i == fileCount - 1 {
        parts := Corner;
        newConnector := connector + Blank;
      } else {
        parts := Tee;
        newConnector := connector + Bar;
      }
      var sub := Empty;
      if IsDir(file) {
        sub := ShowTree(file, newConnector, showAll);
      }
      r := Then(r, Emit(connector, parts, file, sub));
      i := i + 1;
      if sub.exit.Some? {
        TreeLevelExitPersists(dir, i, |files|, connector, showAll);
        return;
      }
    }
  }

  // ---------------------------------------------------------------------
  // showDir
  // ---------------------------------------------------------------------

  /** Visible directories among `files`: what the first loop of showDir counts. */
  function DirsAmong(files: seq<Node>, showAll: bool): nat
  {
    if files == [] then 0
    else
      var file := files[|files| - 1];
      DirsAmong(files[..|files| - 1], showAll) + (if Visible(file, showAll) && IsDir(file) then 1 else 0)
  }

  /** One more entry of a listing adds one exactly when it is a visible directory. */
  lemma DirsAmongGrows(files: seq<Node>, i: nat, showAll: bool)
    requires i < |files|
    ensures DirsAmong(files[..i + 1], showAll)
         == DirsAmong(files[..i], showAll) + (if Visible(files[i], showAll) && IsDir(files[i]) then 1 else 0)
  {
    assert files[..i + 1][..i] == files[..i];
  }

  /** showDir(dir, connector). */
  function DirRun(n: Node, connector: string, showAll: bool): Run
    decreases n, 1
  {
    if n.Dir? then DirLevel(n, |n.children|, connector, showAll) else Refused
  }

  /**
   * The second loop of showDir after its first k iterations: hidden entries
   * and non-directories are skipped, every other entry prints as DirEntry says.
   */
  function DirLevel(d: Node, k: nat, connector: string, showAll: bool): Run
    requires d.Dir? && k <= |d.children|
    decreases d, 0, k
  {
    if k == 0 then Empty
    else if !Visible(d.children[k - 1], showAll) || !IsDir(d.children[k - 1]) then DirLevel(d, k - 1, connector, showAll)
    else Then(DirLevel(d, k - 1, connector, showAll), DirEntry(d, k - 1, connector, showAll))
  }

  /**
   * What the visible directory at position i prints in showDir: it is judged
   * last when the visible directories before it number one fewer than those
   * of the whole listing.
   */
  function DirEntry(d: Node, i: nat, connector: string, showAll: bool): Run
    requires d.Dir? && i < |d.children|
    decreases d, 0, i
  {
    var file := d.children[i];
    var last := DirsAmong(d.children[..i], showAll) == DirsAmong(d.children, showAll) - 1;
    Emit(connector, if last then Corner else Tee, file, DirRun(file, connector + (if last then Blank else Bar), showAll))
  }

  lemma {:induction false} DirLevelExitPersists(d: Node, i: nat, k: nat, connector: string, showAll: bool)
    requires d.Dir? && i <= k <= |d.children|
    requires DirLevel(d, i, connector, showAll).exit.Some?
    ensures DirLevel(d, k, connector, showAll) == DirLevel(d, i, connector, showAll)
    decreases k
  {
    if k > i {
      DirLevelExitPersists(d, i, k - 1, connector, showAll);
    }
  }

  method ShowDir(dir: Node, connector: string, showAll: bool) returns (r: Run)
    ensures r == DirRun(dir, connector, showAll)
    decreases dir
  {
    if !dir.Dir? {
      return Refused;
    }
    var files := dir.children;

    var dirCount := 0;
    var i := 0;
    while i < |files|
      invariant 0 <= i <= |files|
      invariant dirCount == DirsAmong(files[..i], showAll)
    {
      var file := files[i];
      DirsAmongGrows(files, i, showAll);
      if Visible(file, showAll) && IsDir(file) {
        dirCount := dirCount + 1;
      }
      i := i + 1;
    }
    assert files[..|files|] == files;
    assert dirCount == DirsAmong(dir.children, showAll);

    var newConnector := connector;
    var dirAppearCount := 0;
    r := Empty;
    i := 0;
    while i < |files|
      invariant 0 <= i <= |files|
      invariant dirAppearCount == DirsAmong(files[..i], showAll)
      invariant r == DirLevel(dir, i, connector, showAll)
      invariant r.exit.None?
    {
      var file := files[i];
      DirsAmongGrows(files, i, showAll);
      if !Visible(file, showAll) || !IsDir(file) {
        i := i + 1;
        continue;
      }
      var parts;
      if dirAppearCount == dirCount - 1 {
        parts := Corner;
        newConnector := connector + Blank;
      } else {
        parts := Tee;
        newConnector := connector + Bar;
      }
      dirAppearCount := dirAppearCount + 1;
      var sub := ShowDir(file, newConnector, showAll);
      r := Then(r, Emit(connector, parts, file, sub));
      i := i + 1;
      if sub.exit.Some? {
        DirLevelExitPersists(dir, i, |files|, connector, showAll);
        return;
      }
    }
  }
}
