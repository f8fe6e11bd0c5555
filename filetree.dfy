/**
 * The abstract directory hierarchy the tree command walks, and the shape of
 * what a pass produces: the lines it printed and, when a listing failed, the
 * directory at which the process exited.
 */
module FileTree {

  datatype Option<T> = None | Some(value: T)

  /**
   * An entry as a directory listing reports it. A `Dir` carries the entries
   * its own listing returns, in listing order; an `Unreadable` entry is a
   * directory whose listing fails (missing, not a directory, no permission).
   */
  datatype Node =
    | File(name: string)
    | Dir(name: string, children: seq<Node>)
    | Unreadable(name: string)

  /** What the listing's IsDir() answers: every directory, listable or not. */
  predicate IsDir(n: Node) {
    !n.File?
  }

  /** A hidden entry: its name starts with a dot. */
  predicate Hidden(n: Node) {
    |n.name| > 0 && n.name[0] == '.'
  }

  /** The filter shared by all three passes: hidden entries only with `-a`. */
  predicate Visible(n: Node, showAll: bool) {
    showAll || !Hidden(n)
  }

  /**
   * The effect of a pass: the lines printed, in order, and `exit`, which is
   * `Some(path)` when the pass stopped the process because a listing failed;
   * `path` names the entries from the starting directory down to the one whose
   * listing failed (`[]` is the starting directory itself).
   */
  datatype Run = Run(lines: seq<string>, exit: Option<seq<string>>)

  /** Nothing printed, no failure. */
  const Empty := Run([], None)

  /** The listing of the starting directory itself failed. */
  const Refused := Run([], Some([]))

  /** Sequential composition: `b` only happens when `a` did not exit. */
  function Then(a: Run, b: Run): (r: Run)
    ensures a.exit.Some? ==> r == a
    ensures a.exit.None? ==> r.lines == a.lines + b.lines && r.exit == b.exit
  {
    if a.exit.Some? then a else Run(a.lines + b.lines, b.exit)
  }

  /** A failure below entry `name` seen from the directory that holds it. */
  function Within(name: string, exit: Option<seq<string>>): (e: Option<seq<string>>)
    ensures e.Some? <==> exit.Some?
    ensures e.Some? ==> e.value == [name] + exit.value
  {
    if exit.Some? then Some([name] + exit.value) else None
  }

  lemma ThenAssociative(a: Run, b: Run, c: Run)
    ensures Then(Then(a, b), c) == Then(a, Then(b, c))
  {
    if a.exit.None? && b.exit.None? {
      assert (a.lines + b.lines) + c.lines == a.lines + (b.lines + c.lines);
    }
  }

  lemma ThenEmpty(a: Run)
    ensures Then(a, Empty) == a && Then(Empty, a) == a
  {
    if a.exit.None? {
      assert a.lines + [] == a.lines;
    }
  }
}
