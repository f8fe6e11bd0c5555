/**
 * The tree command as a whole: choose the root path, count the whole tree,
 * print the root path, render it in one of the two modes, and print the
 * summary counts.
 */
module Command {
  import opened FileTree
  import opened Render
  import opened Counting
  import opened Properties

  /** The root path: the first positional argument, or "." when there is none. */
  function GetPath(paths: seq<string>): (path: string)
    ensures |paths| < 1 ==> path == "."
    ensures |paths| >= 1 ==> path == paths[0]
  {
    if |paths| < 1 then "." else paths[0]
  }

  /** Decimal digits of a count, as `%d` prints it. */
  function Decimal(n: nat): string
    decreases n
  {
    if n < 10 then ["0123456789"[n]] else Decimal(n / 10) + ["0123456789"[n % 10]]
  }

  /** The summary after the listing; -d reports directories only. */
  function Summary(t: Tally, dirOnly: bool): string {
    if dirOnly then Decimal(t.dirs) + " directories"
    else Decimal(t.dirs) + " directories, " + Decimal(t.files) + " files"
  }

  /**
   * What the command prints for the tree found at the root path. Counting
   * runs first, so a failing listing stops the command before any listing
   * line is printed (the diagnostic is recorded as the exit). Otherwise the
   * chosen rendering, which reads the same unchanging tree, cannot fail
   * either, and the output is the root path, one line per counted entry (per
   * counted directory with -d), a blank line and the summary.
   */
  function TreeCommand(args: seq<string>, root: Node, showAll: bool, dirOnly: bool): (out: Run)
    ensures out.exit == TallyOf(root, showAll).exit
    ensures out.exit.Some? ==> out.lines == []
    ensures out.exit.None? ==>
      var t := TallyOf(root, showAll);
      && |out.lines| == 3 + t.dirs + (if dirOnly then 0 else t.files)
      && out.lines[0] == GetPath(args)
      && out.lines[|out.lines| - 2] == ""
      && out.lines[|out.lines| - 1] == Summary(t, dirOnly)
  {
    var path := GetPath(args);
    var t := TallyOf(root, showAll);
    if t.exit.Some? then Run([], t.exit)
    else
      TreeListsWhatIsCounted(root, "", showAll);
      DirListsCountedDirs(root, "", showAll);
      var body := if dirOnly then DirRun(root, "", showAll) else TreeRun(root, "", showAll);
      Run([path] + body.lines + ["", Summary(t, dirOnly)], None)
  }

  /** The output of a command whose counting pass completes. */
  lemma CommandCompletes(args: seq<string>, root: Node, showAll: bool, dirOnly: bool)
    requires TallyOf(root, showAll).exit.None?
    ensures TreeCommand(args, root, showAll, dirOnly).lines
         == [GetPath(args)]
          + (if dirOnly then DirRun(root, "", showAll) else TreeRun(root, "", showAll)).lines
          + ["", Summary(TallyOf(root, showAll), dirOnly)]
  {
  }

  /** main, over the tree found at the root path and the two flags. */
  method Execute(args: seq<string>, root: Node, showAll: bool, dirOnly: bool) returns (out: Run)
    ensures out == TreeCommand(args, root, showAll, dirOnly)
  {
    var path := GetPath(args);
    var c := new Count();
    var failed := c.GetCount(root, showAll);
    if failed.Some? {
      return Run([], failed);
    }
    var body;
    if dirOnly {
      body := ShowDir(root, "", showAll);
    } else {
      body := ShowTree(root, "", showAll);
    }
    var t := Tally(c.DirCount, c.FileCount, None);
    out := Run([path] + body.lines + ["", Summary(t, dirOnly)], None);
  }

  // ---------------------------------------------------------------------
  // Worked examples
  // ---------------------------------------------------------------------

  lemma SummaryOneOne(dirOnly: bool)
    ensures Summary(Tally(1, 1, None), dirOnly)
         == if dirOnly then "1 directories" else "1 directories, 1 files"
  {
    assert Decimal(1) == "1";
  }

  lemma SummaryZero()
    ensures Summary(Tally(0, 0, None), false) == "0 directories, 0 files"
  {
    assert Decimal(0) == "0";
  }

  /** /r holds a directory `a` (empty) and a file `b.txt`. */
  const Sample := Dir("r", [Dir("a", []), File("b.txt")])

  lemma SampleTally()
    ensures TallyOf(Sample, false) == Tally(1, 1, None)
  {
    assert TallyLevel(Sample, 1, false) == Tally(1, 0, None);
  }

  lemma SampleTree()
    ensures TreeRun(Sample, "", false) == Run(["├── a", "└── b.txt"], None)
  {
    assert TreeRun(Dir("a", []), "│   ", false) == Empty;
    assert GetOutput("", Tee, "a") == "├── a";
    assert GetOutput("", Corner, "b.txt") == "└── b.txt";
    assert TreeLevel(Sample, 1, "", false) == Run(["├── a"], None);
  }

  lemma SampleDirs()
    ensures DirRun(Sample, "", false) == Run(["└── a"], None)
  {
    assert Sample.children[..1] == [Dir("a", [])];
    assert DirsAmong(Sample.children[..1], false) == 1;
    assert DirsAmong(Sample.children, false) == 1;
    assert DirRun(Dir("a", []), "    ", false) == Empty;
    assert GetOutput("", Corner, "a") == "└── a";
    assert DirLevel(Sample, 1, "", false) == Run(["└── a"], None);
  }

  /** The sample listed in full: the file, last in the listing, is terminal. */
  lemma ExampleTree()
    ensures TreeCommand(["/r"], Sample, false, false)
         == Run(["/r", "├── a", "└── b.txt", "", "1 directories, 1 files"], None)
  {
    assert ["/r"] + ["├── a", "└── b.txt"] + ["", "1 directories, 1 files"]
        == ["/r", "├── a", "└── b.txt", "", "1 directories, 1 files"];
    SampleTally();
    CommandCompletes(["/r"], Sample, false, false);
    SampleTree();
    SummaryOneOne(false);
  }

  /**
   * The sample with -d: the directory is terminal although a file follows it,
   * and the summary gives the directory count only.
   */
  lemma ExampleDirsOnly()
    ensures TreeCommand(["/r"], Sample, false, true)
         == Run(["/r", "└── a", "", "1 directories"], None)
  {
    assert ["/r"] + ["└── a"] + ["", "1 directories"] == ["/r", "└── a", "", "1 directories"];
    SampleTally();
    CommandCompletes(["/r"], Sample, false, true);
    SampleDirs();
    SummaryOneOne(true);
  }

  /** An unreadable root: no listing line is printed and the command exits at the root. */
  lemma ExampleMissingRoot()
    ensures TreeCommand(["/missing"], Unreadable("missing"), false, false) == Run([], Some([]))
  {
  }

  /** The current directory holds only a hidden directory `.git` with one file. */
  const Dotted := Dir(".", [Dir(".git", [File("HEAD")])])

  lemma DottedShownTally()
    ensures TallyOf(Dotted, true) == Tally(1, 1, None)
  {
  }

  lemma DottedShownTree()
    ensures TreeRun(Dotted, "", true) == Run(["└── .git", "    └── HEAD"], None)
  {
    assert TreeRun(Dir(".git", [File("HEAD")]), "    ", true) == Run(["    └── HEAD"], None) by {
      assert GetOutput("    ", Corner, "HEAD") == "    └── HEAD";
    }
    assert GetOutput("", Corner, ".git") == "└── .git";
    assert "" + Blank == "    ";
  }

  /** With -a the hidden directory is listed, descended into and counted. */
  lemma ExampleShowAll()
    ensures TreeCommand([], Dotted, true, false)
         == Run([".", "└── .git", "    └── HEAD", "", "1 directories, 1 files"], None)
  {
    assert ["."] + ["└── .git", "    └── HEAD"] + ["", "1 directories, 1 files"]
        == [".", "└── .git", "    └── HEAD", "", "1 directories, 1 files"];
    DottedShownTally();
    CommandCompletes([], Dotted, true, false);
    DottedShownTree();
    SummaryOneOne(false);
  }

  /** Without -a it is neither listed, descended into nor counted. */
  lemma ExampleHiddenSkipped()
    ensures TreeCommand([], Dotted, false, false)
         == Run([".", "", "0 directories, 0 files"], None)
  {
    assert ["."] + [] + ["", "0 directories, 0 files"] == [".", "", "0 directories, 0 files"];
    assert Hidden(Dotted.children[0]);
    assert TallyLevel(Dotted, 1, false) == Tally(0, 0, None);
    assert TreeLevel(Dotted, 1, "", false) == Empty;
    CommandCompletes([], Dotted, false, false);
    SummaryZero();
  }
}
