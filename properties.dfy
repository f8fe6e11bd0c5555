/**
 * Properties that relate the three passes of the tree command to each other
 * and to the filter: what is counted is what is listed, where one pass exits
 * the others exit, the shape of every printed line, how many lines of a
 * completed level carry the terminal glyph, and that, when -a is off, what a
 * hidden entry is (its name, kind and contents) plays no part. Its presence still
 * matters to showTree: a hidden entry at the end of a listing takes the
 * terminal glyph away from the level.
 */
module Properties {
  import opened FileTree
  import opened Render
  import opened Counting
  import opened Reference

  // ---------------------------------------------------------------------
  // Counting agrees with the listings
  // ---------------------------------------------------------------------

  /**
   * showTree prints one line per entry that getCount counts, and both stop at
   * the same failing directory; this holds of the lines printed before an
   * exit as well.
   */
  lemma {:induction false} TreeListsWhatIsCounted(n: Node, connector: string, showAll: bool)
    ensures |TreeRun(n, connector, showAll).lines| == TallyOf(n, showAll).dirs + TallyOf(n, showAll).files
    ensures TreeRun(n, connector, showAll).exit == TallyOf(n, showAll).exit
    decreases n, 1
  {
    if n.Dir? {
      TreeLevelCounted(n, |n.children|, connector, showAll);
    }
  }

  lemma {:induction false} TreeLevelCounted(d: Node, k: nat, connector: string, showAll: bool)
    requires d.Dir? && k <= |d.children|
    ensures |TreeLevel(d, k, connector, showAll).lines| == TallyLevel(d, k, showAll).dirs + TallyLevel(d, k, showAll).files
    ensures TreeLevel(d, k, connector, showAll).exit == TallyLevel(d, k, showAll).exit
    decreases d, 0, k
  {
    if k > 0 {
      TreeLevelCounted(d, k - 1, connector, showAll);
      var e := d.children[k - 1];
      if Visible(e, showAll) && IsDir(e) {
        TreeListsWhatIsCounted(e, connector + (if k - 1 == |d.children| - 1 then Blank else Bar), showAll);
      }
    }
  }

  /**
   * showDir prints one line per directory that getCount counts (so no line
   * for a non-directory), and both stop at the same failing directory.
   */
  lemma {:induction false} DirListsCountedDirs(n: Node, connector: string, showAll: bool)
    ensures |DirRun(n, connector, showAll).lines| == TallyOf(n, showAll).dirs
    ensures DirRun(n, connector, showAll).exit == TallyOf(n, showAll).exit
    decreases n, 1
  {
    if n.Dir? {
      DirLevelCounted(n, |n.children|, connector, showAll);
    }
  }

  lemma {:induction false} DirLevelCounted(d: Node, k: nat, connector: string, showAll: bool)
    requires d.Dir? && k <= |d.children|
    ensures |DirLevel(d, k, connector, showAll).lines| == TallyLevel(d, k, showAll).dirs
    ensures DirLevel(d, k, connector, showAll).exit == TallyLevel(d, k, showAll).exit
    decreases d, 0, k
  {
    if k > 0 {
      DirLevelCounted(d, k - 1, connector, showAll);
      var e := d.children[k - 1];
      if Visible(e, showAll) && IsDir(e) {
        var last := DirsAmong(d.children[..k - 1], showAll) == DirsAmong(d.children, showAll) - 1;
        DirListsCountedDirs(e, connector + (if last then Blank else Bar), showAll);
      }
    }
  }

  // ---------------------------------------------------------------------
  // The shape of printed lines
  // ---------------------------------------------------------------------

  /** The four characters that follow the connector on a line below it. */
  predicate Segment(s: string) {
    s == Tee + " " || s == Corner + " " || s == Bar || s == Blank
  }

  /**
   * Every line printed under `connector` starts with it and continues with a
   * glyph and a space (an entry of this level) or with one 4-character
   * indentation segment (an entry further down).
   */
  predicate Beneath(lines: seq<string>, connector: string) {
    forall l | l in lines :: LineBeneath(l, connector)
  }

  predicate LineBeneath(l: string, connector: string) {
    |l| >= |connector| + 4 && l[..|connector|] == connector && Segment(l[|connector|..|connector| + 4])
  }

  lemma BeneathAppend(a: seq<string>, b: seq<string>, connector: string)
    requires Beneath(a, connector) && Beneath(b, connector)
    ensures Beneath(a + b, connector)
  {
  }

  /** Lines one level down are lines of this level's subtree. */
  lemma BeneathExtended(lines: seq<string>, connector: string, segment: string)
    requires segment == Bar || segment == Blank
    requires Beneath(lines, connector + segment)
    ensures Beneath(lines, connector)
    ensures forall l | l in lines :: l[|connector|..|connector| + 4] == segment
  {
    forall l | l in lines
      ensures l[..|connector|] == connector && l[|connector|..|connector| + 4] == segment
    {
      assert l[..|connector| + 4] == connector + segment;
      assert l[..|connector|] == l[..|connector| + 4][..|connector|];
      assert l[|connector|..|connector| + 4] == l[..|connector| + 4][|connector|..];
    }
  }

  lemma EmitBeneath(connector: string, parts: string, file: Node, sub: Run, segment: string)
    requires parts == Tee || parts == Corner
    requires segment == Bar || segment == Blank
    requires Beneath(sub.lines, connector + segment)
    ensures Beneath(Emit(connector, parts, file, sub).lines, connector)
  {
    var line := GetOutput(connector, parts, file.name);
    GetOutputLayout(connector, parts, file.name);
    assert line[|connector|..|connector| + 4] == parts + " ";
    BeneathExtended(sub.lines, connector, segment);
    BeneathAppend([line], sub.lines, connector);
  }

  lemma ThenBeneath(a: Run, b: Run, connector: string)
    requires Beneath(a.lines, connector) && Beneath(b.lines, connector)
    ensures Beneath(Then(a, b).lines, connector)
  {
    if a.exit.None? {
      BeneathAppend(a.lines, b.lines, connector);
    }
  }

  /** Every line showTree prints descends from the connector it was given. */
  lemma {:induction false} TreeLinesBeneath(n: Node, connector: string, showAll: bool)
    ensures Beneath(TreeRun(n, connector, showAll).lines, connector)
    decreases n, 1
  {
    if n.Dir? {
      TreeLevelBeneath(n, |n.children|, connector, showAll);
    }
  }

  lemma {:induction false} TreeLevelBeneath(d: Node, k: nat, connector: string, showAll: bool)
    requires d.Dir? && k <= |d.children|
    ensures Beneath(TreeLevel(d, k, connector, showAll).lines, connector)
    decreases d, 0, k
  {
    if k > 0 {
      TreeLevelBeneath(d, k - 1, connector, showAll);
      if Visible(d.children[k - 1], showAll) {
        TreeEntryBeneath(d, k - 1, connector, showAll);
        ThenBeneath(TreeLevel(d, k - 1, connector, showAll), TreeEntry(d, k - 1, connector, showAll), connector);
      }
    }
  }

  lemma {:induction false} TreeEntryBeneath(d: Node, i: nat, connector: string, showAll: bool)
    requires d.Dir? && i < |d.children|
    ensures Beneath(TreeEntry(d, i, connector, showAll).lines, connector)
    decreases d, 0, i
  {
    var e := d.children[i];
    var last := i == |d.children| - 1;
    var segment := if last then Blank else Bar;
    if IsDir(e) {
      TreeLinesBeneath(e, connector + segment, showAll);
    }
    var sub := if IsDir(e) then TreeRun(e, connector + segment, showAll) else Empty;
    EmitBeneath(connector, if last then Corner else Tee, e, sub, segment);
  }

  /** Every line showDir prints descends from the connector it was given. */
  lemma DirLinesBeneath(n: Node, connector: string, showAll: bool)
    ensures Beneath(DirRun(n, connector, showAll).lines, connector)
  {
    DirMatchesReference(n, connector, showAll);
    DrawLinesBeneath(n, connector, showAll, DirsOnly);
  }

  /** Every line the rule draws descends from the connector it was given. */
  lemma {:induction false} DrawLinesBeneath(n: Node, connector: string, showAll: bool, mode: Mode)
    ensures Beneath(Draw(n, connector, showAll, mode).lines, connector)
    decreases n, 1
  {
    if n.Dir? {
      DrawFromBeneath(n, 0, connector, showAll, mode);
    }
  }

  lemma {:induction false} DrawFromBeneath(d: Node, i: nat, connector: string, showAll: bool, mode: Mode)
    requires d.Dir? && i <= |d.children|
    ensures Beneath(DrawFrom(d, i, connector, showAll, mode).lines, connector)
    decreases d, 0, |d.children| - i, 1
  {
    if i < |d.children| {
      DrawFromBeneath(d, i + 1, connector, showAll, mode);
      if Shown(d.children[i], showAll, mode) {
        DrawEntryBeneath(d, i, connector, showAll, mode);
        ThenBeneath(DrawEntry(d, i, connector, showAll, mode), DrawFrom(d, i + 1, connector, showAll, mode), connector);
      }
    }
  }

  lemma {:induction false} DrawEntryBeneath(d: Node, i: nat, connector: string, showAll: bool, mode: Mode)
    requires d.Dir? && i < |d.children|
    ensures Beneath(DrawEntry(d, i, connector, showAll, mode).lines, connector)
    decreases d, 0, |d.children| - i, 0
  {
    var e := d.children[i];
    var last := NoneShownAfter(d.children, i, showAll, mode);
    var segment := if last then Blank else Bar;
    if IsDir(e) {
      DrawLinesBeneath(e, connector + segment, showAll, mode);
    }
    var sub := if IsDir(e) then Draw(e, connector + segment, showAll, mode) else Empty;
    EmitBeneath(connector, if last then Corner else Tee, e, sub, segment);
  }

  // ---------------------------------------------------------------------
  // Terminal glyphs per level
  // ---------------------------------------------------------------------

  /** `l` is an entry line of the level under `connector` with the terminal glyph. */
  predicate CornerAt(l: string, connector: string) {
    |l| >= |connector| + 4 && l[|connector|..|connector| + 4] == Corner + " "
  }

  /** How many of `lines` are entry lines of the level under `connector` with the terminal glyph. */
  function Corners(lines: seq<string>, connector: string): nat {
    if lines == [] then 0
    else (if CornerAt(lines[0], connector) then 1 else 0) + Corners(lines[1..], connector)
  }

  lemma {:induction false} CornersAppend(a: seq<string>, b: seq<string>, connector: string)
    ensures Corners(a + b, connector) == Corners(a, connector) + Corners(b, connector)
    decreases |a|
  {
    if a == [] {
      assert a + b == b;
    } else {
      assert (a + b)[1..] == a[1..] + b;
      CornersAppend(a[1..], b, connector);
    }
  }

  /** Lines of a subtree never count as terminal entries of the level above. */
  lemma {:induction false} NoCornersBelow(lines: seq<string>, connector: string, segment: string)
    requires segment == Bar || segment == Blank
    requires Beneath(lines, connector + segment)
    ensures Corners(lines, connector) == 0
    decreases |lines|
  {
    if lines != [] {
      BeneathExtended(lines, connector, segment);
      assert lines[0] in lines;
      assert segment[0] != (Corner + " ")[0];
      assert !CornerAt(lines[0], connector);
      assert Beneath(lines[1..], connector + segment) by {
        forall l | l in lines[1..] ensures l in lines { }
      }
      NoCornersBelow(lines[1..], connector, segment);
    }
  }

  /** The line of an entry counts as terminal exactly when it got the terminal glyph. */
  lemma EmitCorners(connector: string, parts: string, file: Node, sub: Run, segment: string)
    requires parts == Tee || parts == Corner
    requires segment == Bar || segment == Blank
    requires Beneath(sub.lines, connector + segment)
    ensures Corners(Emit(connector, parts, file, sub).lines, connector) == if parts == Corner then 1 else 0
  {
    var line := GetOutput(connector, parts, file.name);
    GetOutputLayout(connector, parts, file.name);
    assert line[|connector|..|connector| + 4] == parts + " ";
    assert Tee[0] != Corner[0];
    assert (parts + " ")[0] == parts[0];
    CornersAppend([line], sub.lines, connector);
    NoCornersBelow(sub.lines, connector, segment);
    assert [line][1..] == [];
  }

  /**
   * In a level that showTree completes, at most one line gets the terminal
   * glyph, and one does exactly when the last entry of the unfiltered
   * listing is visible: when that entry is hidden, no line of the level does.
   */
  lemma TreeLevelCorners(d: Node, connector: string, showAll: bool)
    requires d.Dir?
    requires TreeRun(d, connector, showAll).exit.None?
    ensures Corners(TreeRun(d, connector, showAll).lines, connector)
         == if |d.children| > 0 && Visible(d.children[|d.children| - 1], showAll) then 1 else 0
  {
    TreeLevelCornersUpTo(d, |d.children|, connector, showAll);
  }

  lemma {:induction false} TreeLevelCornersUpTo(d: Node, k: nat, connector: string, showAll: bool)
    requires d.Dir? && k <= |d.children|
    requires TreeLevel(d, k, connector, showAll).exit.None?
    ensures Corners(TreeLevel(d, k, connector, showAll).lines, connector)
         == if k == |d.children| && k > 0 && Visible(d.children[k - 1], showAll) then 1 else 0
    decreases k
  {
    if k > 0 {
      var prev := TreeLevel(d, k - 1, connector, showAll);
      assert prev.exit.None?;
      TreeLevelCornersUpTo(d, k - 1, connector, showAll);
      if Visible(d.children[k - 1], showAll) {
        TreeEntryCorners(d, k - 1, connector, showAll);
        CornersAppend(prev.lines, TreeEntry(d, k - 1, connector, showAll).lines, connector);
      }
    }
  }

  /** An entry of showTree brings a terminal glyph to its level exactly when it is last in the listing. */
  lemma TreeEntryCorners(d: Node, i: nat, connector: string, showAll: bool)
    requires d.Dir? && i < |d.children|
    ensures Corners(TreeEntry(d, i, connector, showAll).lines, connector) == if i == |d.children| - 1 then 1 else 0
  {
    var e := d.children[i];
    var last := i == |d.children| - 1;
    var segment := if last then Blank else Bar;
    if IsDir(e) {
      TreeLinesBeneath(e, connector + segment, showAll);
    }
    var sub := if IsDir(e) then TreeRun(e, connector + segment, showAll) else Empty;
    EmitCorners(connector, if last then Corner else Tee, e, sub, segment);
  }

  /**
   * The rule gives the terminal glyph to exactly one line of a completed
   * level that shows any entry, and to none of a level that shows nothing.
   */
  lemma DrawLevelCorners(d: Node, connector: string, showAll: bool, mode: Mode)
    requires d.Dir?
    requires Draw(d, connector, showAll, mode).exit.None?
    ensures Corners(Draw(d, connector, showAll, mode).lines, connector)
         == if NoneShownAfter(d.children, -1, showAll, mode) then 0 else 1
  {
    DrawFromCorners(d, 0, connector, showAll, mode);
  }

  lemma {:induction false} DrawFromCorners(d: Node, i: nat, connector: string, showAll: bool, mode: Mode)
    requires d.Dir? && i <= |d.children|
    requires DrawFrom(d, i, connector, showAll, mode).exit.None?
    ensures Corners(DrawFrom(d, i, connector, showAll, mode).lines, connector)
         == if NoneShownAfter(d.children, i - 1, showAll, mode) then 0 else 1
    decreases |d.children| - i
  {
    if i < |d.children| {
      var rest := DrawFrom(d, i + 1, connector, showAll, mode);
      if Shown(d.children[i], showAll, mode) {
        var item := DrawEntry(d, i, connector, showAll, mode);
        assert item.exit.None?;
        DrawFromCorners(d, i + 1, connector, showAll, mode);
        DrawEntryCorners(d, i, connector, showAll, mode);
        CornersAppend(item.lines, rest.lines, connector);
      } else {
        DrawFromCorners(d, i + 1, connector, showAll, mode);
      }
    }
  }

  /** A shown entry brings a terminal glyph to its level exactly when no shown sibling follows it. */
  lemma DrawEntryCorners(d: Node, i: nat, connector: string, showAll: bool, mode: Mode)
    requires d.Dir? && i < |d.children|
    ensures Corners(DrawEntry(d, i, connector, showAll, mode).lines, connector)
         == if NoneShownAfter(d.children, i, showAll, mode) then 1 else 0
  {
    var e := d.children[i];
    var last := NoneShownAfter(d.children, i, showAll, mode);
    var segment := if last then Blank else Bar;
    if IsDir(e) {
      DrawLinesBeneath(e, connector + segment, showAll, mode);
    }
    var sub := if IsDir(e) then Draw(e, connector + segment, showAll, mode) else Empty;
    EmitCorners(connector, if last then Corner else Tee, e, sub, segment);
  }

  /**
   * showDir, on a completed level with at least one visible directory, gives
   * the terminal glyph to exactly one line, and to none when there is none.
   */
  lemma DirLevelCorners(d: Node, connector: string, showAll: bool)
    requires d.Dir?
    requires DirRun(d, connector, showAll).exit.None?
    ensures Corners(DirRun(d, connector, showAll).lines, connector)
         == if DirsAmong(d.children, showAll) == 0 then 0 else 1
  {
    DirMatchesReference(d, connector, showAll);
    DrawLevelCorners(d, connector, showAll, DirsOnly);
    DirsAmongZero(d.children, showAll);
  }

  // ---------------------------------------------------------------------
  // Without -a, what a hidden entry is plays no part. That it is there still
  // does for showTree, whose "last" is judged on the unfiltered listing.
  // ---------------------------------------------------------------------

  /**
   * The tree with every hidden entry, at any depth, replaced by `stand`, an
   * arbitrary hidden entry: whatever a hidden entry is (a file, a listable
   * or an unreadable directory, with any contents), it becomes `stand`.
   */
  function Mask(n: Node, stand: Node): (m: Node)
    ensures m.name == n.name && m.Dir? == n.Dir? && IsDir(m) == IsDir(n)
    ensures n.Dir? ==> |m.children| == |n.children|
    decreases n
  {
    if n.Dir? then
      Dir(n.name, seq(|n.children|, i requires 0 <= i < |n.children| =>
        if Hidden(n.children[i]) then stand else Mask(n.children[i], stand)))
    else n
  }

  lemma MaskChild(d: Node, i: nat, stand: Node)
    requires d.Dir? && i < |d.children|
    ensures Mask(d, stand).children[i] == if Hidden(d.children[i]) then stand else Mask(d.children[i], stand)
  {
  }

  /**
   * The presence of a hidden entry is not without effect on showTree. In the
   * listing "-a", ".h" (the order a by-name listing gives, since '-' sorts
   * before '.'), the trailing hidden file turns the terminal glyph of "-a"
   * into a branch glyph.
   */
  lemma TreeSeesTrailingHidden()
    ensures TreeRun(Dir("r", [File("-a"), File(".h")]), "", false) != TreeRun(Dir("r", [File("-a")]), "", false)
  {
    var with := Dir("r", [File("-a"), File(".h")]);
    var without := Dir("r", [File("-a")]);
    assert Hidden(with.children[1]);
    assert GetOutput("", Tee, "-a") == Tee + " -a";
    assert GetOutput("", Corner, "-a") == Corner + " -a";
    assert TreeLevel(with, 1, "", false) == Run([Tee + " -a"], None);
    assert TreeRun(with, "", false) == Run([Tee + " -a"], None);
    assert TreeRun(without, "", false) == Run([Corner + " -a"], None);
    assert (Tee + " -a")[0] != (Corner + " -a")[0];
  }


  /**
   * showTree without -a neither prints nor descends into a hidden entry:
   * whatever each hidden entry is, the output is the same.
   */
  lemma {:induction false} TreeIgnoresHidden(n: Node, stand: Node, connector: string)
    requires Hidden(stand)
    ensures TreeRun(Mask(n, stand), connector, false) == TreeRun(n, connector, false)
    decreases n, 1
  {
    if n.Dir? {
      TreeLevelIgnoresHidden(n, |n.children|, stand, connector);
    }
  }

  lemma {:induction false} TreeLevelIgnoresHidden(d: Node, k: nat, stand: Node, connector: string)
    requires Hidden(stand)
    requires d.Dir? && k <= |d.children|
    ensures TreeLevel(Mask(d, stand), k, connector, false) == TreeLevel(d, k, connector, false)
    decreases d, 0, k
  {
    if k > 0 {
      TreeLevelIgnoresHidden(d, k - 1, stand, connector);
      MaskChild(d, k - 1, stand);
      if !Hidden(d.children[k - 1]) {
        TreeEntryIgnoresHidden(d, k - 1, stand, connector);
      }
    }
  }

  lemma {:induction false} TreeEntryIgnoresHidden(d: Node, i: nat, stand: Node, connector: string)
    requires Hidden(stand)
    requires d.Dir? && i < |d.children| && !Hidden(d.children[i])
    ensures TreeEntry(Mask(d, stand), i, connector, false) == TreeEntry(d, i, connector, false)
    decreases d, 0, i
  {
    var e := d.children[i];
    MaskChild(d, i, stand);
    TreeIgnoresHidden(e, stand, connector + (if i == |d.children| - 1 then Blank else Bar));
  }

  /** DirsAmong without -a is unchanged by masking. */
  lemma {:induction false} DirsAmongIgnoresHidden(d: Node, k: nat, stand: Node)
    requires Hidden(stand)
    requires d.Dir? && k <= |d.children|
    ensures DirsAmong(Mask(d, stand).children[..k], false) == DirsAmong(d.children[..k], false)
    decreases k
  {
    if k > 0 {
      DirsAmongIgnoresHidden(d, k - 1, stand);
      MaskChild(d, k - 1, stand);
      assert Mask(d, stand).children[..k][..k - 1] == Mask(d, stand).children[..k - 1];
      assert d.children[..k][..k - 1] == d.children[..k - 1];
    }
  }

  lemma DirsAmongMasked(d: Node, stand: Node)
    requires Hidden(stand)
    requires d.Dir?
    ensures DirsAmong(Mask(d, stand).children, false) == DirsAmong(d.children, false)
  {
    var m := Mask(d, stand);
    DirsAmongIgnoresHidden(d, |d.children|, stand);
    assert m.children[..|m.children|] == m.children;
    assert d.children[..|d.children|] == d.children;
  }

  /**
   * showDir without -a neither prints nor descends into a hidden entry, and
   * hidden directories do not take part in its choice of the last directory.
   */
  lemma {:induction false} DirIgnoresHidden(n: Node, stand: Node, connector: string)
    requires Hidden(stand)
    ensures DirRun(Mask(n, stand), connector, false) == DirRun(n, connector, false)
    decreases n, 1
  {
    if n.Dir? {
      DirLevelIgnoresHidden(n, |n.children|, stand, connector);
    }
  }

  lemma {:induction false} DirLevelIgnoresHidden(d: Node, k: nat, stand: Node, connector: string)
    requires Hidden(stand)
    requires d.Dir? && k <= |d.children|
    ensures DirLevel(Mask(d, stand), k, connector, false) == DirLevel(d, k, connector, false)
    decreases d, 0, k
  {
    if k > 0 {
      DirLevelIgnoresHidden(d, k - 1, stand, connector);
      MaskChild(d, k - 1, stand);
      if !Hidden(d.children[k - 1]) && IsDir(d.children[k - 1]) {
        DirEntryIgnoresHidden(d, k - 1, stand, connector);
      }
    }
  }

  lemma {:induction false} DirEntryIgnoresHidden(d: Node, i: nat, stand: Node, connector: string)
    requires Hidden(stand)
    requires d.Dir? && i < |d.children| && !Hidden(d.children[i])
    ensures DirEntry(Mask(d, stand), i, connector, false) == DirEntry(d, i, connector, false)
    decreases d, 0, i
  {
    var e := d.children[i];
    MaskChild(d, i, stand);
    DirsAmongIgnoresHidden(d, i, stand);
    DirsAmongMasked(d, stand);
    var last := DirsAmong(d.children[..i], false) == DirsAmong(d.children, false) - 1;
    DirIgnoresHidden(e, stand, connector + (if last then Blank else Bar));
  }

  /** getCount without -a neither counts nor descends into a hidden entry. */
  lemma {:induction false} CountIgnoresHidden(n: Node, stand: Node)
    requires Hidden(stand)
    ensures TallyOf(Mask(n, stand), false) == TallyOf(n, false)
    decreases n, 1
  {
    if n.Dir? {
      CountLevelIgnoresHidden(n, |n.children|, stand);
    }
  }

  lemma {:induction false} CountLevelIgnoresHidden(d: Node, k: nat, stand: Node)
    requires Hidden(stand)
    requires d.Dir? && k <= |d.children|
    ensures TallyLevel(Mask(d, stand), k, false) == TallyLevel(d, k, false)
    decreases d, 0, k
  {
    if k > 0 {
      CountLevelIgnoresHidden(d, k - 1, stand);
      MaskChild(d, k - 1, stand);
      var e := d.children[k - 1];
      var me := Mask(d, stand).children[k - 1];
      if Hidden(e) {
        assert !Visible(me, false);
      } else {
        CountIgnoresHidden(e, stand);
        assert me == Mask(e, stand) && TallyOf(me, false) == TallyOf(e, false);
      }
    }
  }
}
