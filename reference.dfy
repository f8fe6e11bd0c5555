/**
 * The usual tree drawing, the convention showDir follows, written once for
 * both listing modes: at every level, among the entries the mode shows, the
 * last one (no shown sibling after it) gets the terminal glyph and hands a
 * blank segment to its children; every other one gets the branch glyph and
 * hands a vertical bar. The output is pre-order: an entry's line, then the
 * lines of its subtree, then its later siblings.
 *
 * showDir follows this rule on every tree. showTree follows it only when, in
 * every directory, the last entry of the unfiltered listing is visible,
 * because it judges "last" by the unfiltered index.
 */
module Reference {
  import opened FileTree
  import opened Render

  /** Which entries a listing shows besides the hidden-entry filter. */
  datatype Mode = AllEntries | DirsOnly

  predicate Shown(e: Node, showAll: bool, mode: Mode) {
    Visible(e, showAll) && (mode == AllEntries || IsDir(e))
  }

  /** No sibling after position i is shown. */
  predicate NoneShownAfter(s: seq<Node>, i: int, showAll: bool, mode: Mode) {
    forall j | 0 <= j < |s| && i < j :: !Shown(s[j], showAll, mode)
  }

  function Draw(n: Node, connector: string, showAll: bool, mode: Mode): Run
    decreases n, 1
  {
    if n.Dir? then DrawFrom(n, 0, connector, showAll, mode) else Refused
  }

  /** The rendering of the entries of `d` from position i on. */
  function DrawFrom(d: Node, i: nat, connector: string, showAll: bool, mode: Mode): Run
    requires d.Dir? && i <= |d.children|
    decreases d, 0, |d.children| - i, 1
  {
    if i == |d.children| then Empty
    else if !Shown(d.children[i], showAll, mode) then DrawFrom(d, i + 1, connector, showAll, mode)
    else Then(DrawEntry(d, i, connector, showAll, mode), DrawFrom(d, i + 1, connector, showAll, mode))
  }

  /** The shown entry at position i: terminal exactly when no shown sibling follows. */
  function DrawEntry(d: Node, i: nat, connector: string, showAll: bool, mode: Mode): Run
    requires d.Dir? && i < |d.children|
    decreases d, 0, |d.children| - i, 0
  {
    var e := d.children[i];
    var last := NoneShownAfter(d.children, i, showAll, mode);
    var sub := if IsDir(e) then Draw(e, connector + (if last then Blank else Bar), showAll, mode) else Empty;
    Emit(connector, if last then Corner else Tee, e, sub)
  }

  // ---------------------------------------------------------------------
  // Counting visible directories
  // ---------------------------------------------------------------------

  lemma {:induction false} DirsAmongConcat(a: seq<Node>, b: seq<Node>, showAll: bool)
    ensures DirsAmong(a + b, showAll) == DirsAmong(a, showAll) + DirsAmong(b, showAll)
    decreases |b|
  {
    if b != [] {
      assert (a + b)[..|a + b| - 1] == a + b[..|b| - 1];
      DirsAmongConcat(a, b[..|b| - 1], showAll);
    } else {
      assert a + b == a;
    }
  }

  lemma {:induction false} DirsAmongZero(s: seq<Node>, showAll: bool)
    ensures DirsAmong(s, showAll) == 0 <==> NoneShownAfter(s, -1, showAll, DirsOnly)
    decreases |s|
  {
    if s != [] {
      DirsAmongZero(s[..|s| - 1], showAll);
    }
  }

  /**
   * The directories-only notion of "last": the visible directories before
   * position i are one fewer than those of the whole listing exactly when no
   * visible directory follows position i.
   */
  lemma DirsLastIff(s: seq<Node>, i: nat, showAll: bool)
    requires i < |s| && Shown(s[i], showAll, DirsOnly)
    ensures DirsAmong(s[..i], showAll) == DirsAmong(s, showAll) - 1 <==> NoneShownAfter(s, i, showAll, DirsOnly)
  {
    assert s == s[..i + 1] + s[i + 1..];
    DirsAmongConcat(s[..i + 1], s[i + 1..], showAll);
    assert s[..i + 1][..i] == s[..i];
    DirsAmongZero(s[i + 1..], showAll);
    if NoneShownAfter(s[i + 1..], -1, showAll, DirsOnly) {
      forall j | i < j < |s| ensures !Shown(s[j], showAll, DirsOnly) {
        assert s[j] == s[i + 1..][j - i - 1];
      }
    }
    if NoneShownAfter(s, i, showAll, DirsOnly) {
      var t := s[i + 1..];
      forall j | 0 <= j < |t| ensures !Shown(t[j], showAll, DirsOnly) {
        assert t[j] == s[i + 1 + j];
      }
    }
  }

  // ---------------------------------------------------------------------
  // showDir follows the rule
  // ---------------------------------------------------------------------

  /** showDir renders every tree as the rule prescribes for directories only. */
  lemma {:induction false} DirMatchesReference(n: Node, connector: string, showAll: bool)
    ensures DirRun(n, connector, showAll) == Draw(n, connector, showAll, DirsOnly)
    decreases n, 1
  {
    if n.Dir? {
      DirLevelMatches(n, |n.children|, connector, showAll);
      ThenEmpty(DirLevel(n, |n.children|, connector, showAll));
    }
  }

  lemma {:induction false} DirLevelMatches(d: Node, k: nat, connector: string, showAll: bool)
    requires d.Dir? && k <= |d.children|
    ensures Then(DirLevel(d, k, connector, showAll), DrawFrom(d, k, connector, showAll, DirsOnly))
         == DrawFrom(d, 0, connector, showAll, DirsOnly)
    decreases d, 0, k
  {
    if k == 0 {
      ThenEmpty(DrawFrom(d, 0, connector, showAll, DirsOnly));
    } else {
      DirLevelMatches(d, k - 1, connector, showAll);
      if Shown(d.children[k - 1], showAll, DirsOnly) {
        DirEntryMatches(d, k - 1, connector, showAll);
        ThenAssociative(DirLevel(d, k - 1, connector, showAll), DirEntry(d, k - 1, connector, showAll),
          DrawFrom(d, k, connector, showAll, DirsOnly));
      }
    }
  }

  /** A visible directory is drawn by showDir as the rule draws it. */
  lemma {:induction false} DirEntryMatches(d: Node, i: nat, connector: string, showAll: bool)
    requires d.Dir? && i < |d.children| && Shown(d.children[i], showAll, DirsOnly)
    ensures DirEntry(d, i, connector, showAll) == DrawEntry(d, i, connector, showAll, DirsOnly)
    decreases d, 0, i
  {
    DirsLastIff(d.children, i, showAll);
    var last := NoneShownAfter(d.children, i, showAll, DirsOnly);
    DirMatchesReference(d.children[i], connector + (if last then Blank else Bar), showAll);
  }

  // ---------------------------------------------------------------------
  // showTree follows the rule when no listing ends with a hidden entry
  // ---------------------------------------------------------------------

  /** In every directory of the tree, the last entry of the listing is visible. */
  predicate LastEntriesVisible(n: Node, showAll: bool)
    decreases n
  {
    n.Dir? ==>
      (|n.children| > 0 ==> Visible(n.children[|n.children| - 1], showAll)) &&
      forall i | 0 <= i < |n.children| :: LastEntriesVisible(n.children[i], showAll)
  }

  /** With -a nothing is filtered, so the condition always holds. */
  lemma {:induction false} ShowAllKeepsLastEntries(n: Node)
    ensures LastEntriesVisible(n, true)
    decreases n
  {
    if n.Dir? {
      forall i | 0 <= i < |n.children| ensures LastEntriesVisible(n.children[i], true) {
        ShowAllKeepsLastEntries(n.children[i]);
      }
    }
  }

  /** showTree renders as the rule prescribes when every listing ends visibly. */
  lemma {:induction false} TreeMatchesReference(n: Node, connector: string, showAll: bool)
    requires LastEntriesVisible(n, showAll)
    ensures TreeRun(n, connector, showAll) == Draw(n, connector, showAll, AllEntries)
    decreases n, 1
  {
    if n.Dir? {
      TreeLevelMatches(n, |n.children|, connector, showAll);
      ThenEmpty(TreeLevel(n, |n.children|, connector, showAll));
    }
  }

  lemma {:induction false} TreeLevelMatches(d: Node, k: nat, connector: string, showAll: bool)
    requires d.Dir? && k <= |d.children|
    requires LastEntriesVisible(d, showAll)
    ensures Then(TreeLevel(d, k, connector, showAll), DrawFrom(d, k, connector, showAll, AllEntries))
         == DrawFrom(d, 0, connector, showAll, AllEntries)
    decreases d, 0, k
  {
    if k == 0 {
      ThenEmpty(DrawFrom(d, 0, connector, showAll, AllEntries));
    } else {
      TreeLevelMatches(d, k - 1, connector, showAll);
      var prev := TreeLevel(d, k - 1, connector, showAll);
      var rest := DrawFrom(d, k, connector, showAll, AllEntries);
      if Visible(d.children[k - 1], showAll) {
        var item := TreeEntry(d, k - 1, connector, showAll);
        TreeEntryMatches(d, k - 1, connector, showAll);
        assert DrawFrom(d, k - 1, connector, showAll, AllEntries) == Then(item, rest);
        ThenAssociative(prev, item, rest);
      } else {
        assert DrawFrom(d, k - 1, connector, showAll, AllEntries) == rest;
      }
    }
  }

  /**
   * A visible entry of a directory whose listing ends visibly is drawn by
   * showTree as the rule draws it: being last in the listing and having no
   * shown sibling after it coincide.
   */
  lemma {:induction false} TreeEntryMatches(d: Node, i: nat, connector: string, showAll: bool)
    requires d.Dir? && i < |d.children| && Visible(d.children[i], showAll)
    requires LastEntriesVisible(d, showAll)
    ensures TreeEntry(d, i, connector, showAll) == DrawEntry(d, i, connector, showAll, AllEntries)
    decreases d, 0, i
  {
    var e := d.children[i];
    var last := i == |d.children| - 1;
    assert last <==> NoneShownAfter(d.children, i, showAll, AllEntries) by {
      if !last {
        assert Shown(d.children[|d.children| - 1], showAll, AllEntries);
      }
    }
    if IsDir(e) {
      TreeMatchesReference(e, connector + (if last then Blank else Bar), showAll);
    }
  }

  /**
   * Without the condition the two disagree: in a listing "#notes", ".profile"
   * (the order a by-name listing gives), showTree judges the hidden
   * ".profile" last, so the one visible entry gets the branch glyph.
   */
  lemma TreeDivergesWhenLastEntryHidden()
    ensures var d := Dir("r", [File("#notes"), File(".profile")]);
      && !LastEntriesVisible(d, false)
      && TreeRun(d, "", false) == Run([Tee + " #notes"], None)
      && Draw(d, "", false, AllEntries) == Run([Corner + " #notes"], None)
  {
    var d := Dir("r", [File("#notes"), File(".profile")]);
    assert !Hidden(d.children[0]) && Hidden(d.children[1]);
    assert GetOutput("", Tee, "#notes") == Tee + " #notes";
    assert GetOutput("", Corner, "#notes") == Corner + " #notes";
    assert TreeEntry(d, 0, "", false) == Run([Tee + " #notes"], None);
    assert TreeLevel(d, 1, "", false) == Run([Tee + " #notes"], None);
    assert NoneShownAfter(d.children, 0, false, AllEntries);
    assert DrawEntry(d, 0, "", false, AllEntries) == Run([Corner + " #notes"], None);
    assert DrawFrom(d, 1, "", false, AllEntries) == Empty;
  }
}
