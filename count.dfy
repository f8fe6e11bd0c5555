/**
 * The counting pass of the tree command, `(*count).getCount`: a depth-first
 * walk that raises a directory counter and a file counter held in an object.
 */
module Counting {
  import opened FileTree

  /**
   * What a counting walk adds to the counters, and where it exited, if a
   * listing failed before the walk finished.
   */
  datatype Tally = Tally(dirs: nat, files: nat, exit: Option<seq<string>>)

  /** getCount(dir) as a function of the tree. */
  function TallyOf(n: Node, showAll: bool): Tally
    decreases n, 1
  {
    if n.Dir? then TallyLevel(n, |n.children|, showAll) else Tally(0, 0, Some([]))
  }

  /**
   * The loop of getCount after its first k iterations: a visible directory is
   * counted before it is descended into, a visible non-directory is counted
   * as a file, a hidden entry is skipped.
   */
  function TallyLevel(d: Node, k: nat, showAll: bool): Tally
    requires d.Dir? && k <= |d.children|
    decreases d, 0, k
  {
    if k == 0 then Tally(0, 0, None)
    else
      var prev := TallyLevel(d, k - 1, showAll);
      var file := d.children[k - 1];
      if prev.exit.Some? || !Visible(file, showAll) then prev
      else if IsDir(file) then
        var sub := TallyOf(file, showAll);
        Tally(prev.dirs + 1 + sub.dirs, prev.files + sub.files, Within(file.name, sub.exit))
      else
        Tally(prev.dirs, prev.files + 1, None)
  }

  lemma {:induction false} TallyLevelExitPersists(d: Node, i: nat, k: nat, showAll: bool)
    requires d.Dir? && i <= k <= |d.children|
    requires TallyLevel(d, i, showAll).exit.Some?
    ensures TallyLevel(d, k, showAll) == TallyLevel(d, i, showAll)
    decreases k
  {
    if k > i {
      TallyLevelExitPersists(d, i, k - 1, showAll);
    }
  }

  /** The `count` record, whose two counters the walk updates in place. */
  class Count {
    var FileCount: int
    var DirCount: int

    constructor ()
      ensures FileCount == 0 && DirCount == 0
    {
      FileCount := 0;
      DirCount := 0;
    }

    /**
     * Raises the counters by what TallyOf finds below `dir` (the counters
     * never decrease) and reports where the walk exited, if it did; the
     * counters then hold what was counted before the exit.
     */
    method GetCount(dir: Node, showAll: bool) returns (exit: Option<seq<string>>)
      modifies this
      ensures exit == TallyOf(dir, showAll).exit
      ensures DirCount == old(DirCount) + TallyOf(dir, showAll).dirs
      ensures FileCount == old(FileCount) + TallyOf(dir, showAll).files
      decreases dir
    {
      if !dir.Dir? {
        return Some([]);
      }
      var files := dir.children;
      var i := 0;
      while i < |files|
        invariant 0 <= i <= |files|
        invariant TallyLevel(dir, i, showAll).exit.None?
        invariant DirCount == old(DirCount) + TallyLevel(dir, i, showAll).dirs
        invariant FileCount == old(FileCount) + TallyLevel(dir, i, showAll).files
      {
        var file := files[i];
        if !Visible(file, showAll) {
          i := i + 1;
          continue;
        }
        if IsDir(file) {
          DirCount := DirCount + 1;
          var sub := GetCount(file, showAll);
          i := i + 1;
          if sub.Some? {
            TallyLevelExitPersists(dir, i, |files|, showAll);
            return Within(file.name, sub);
          }
        } else {
          FileCount := FileCount + 1;
          i := i + 1;
        }
      }
      return None;
    }
  }
}
