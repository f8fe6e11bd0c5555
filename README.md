# tree: a verified model of the directory-listing command

This project models `tree`, a small Go command that prints a directory
hierarchy. Entries are drawn with box-drawing connectors (`├──` for an
entry, `└──` for the entry judged last at its level). Each line is
indented by one segment per ancestor: `│   ` under an entry that was not
last, four spaces under one that was. The listing ends with a blank line
and a summary such as `1 directories, 1 files`.

The command has two flags:

- `-a` also shows hidden entries, whose name starts with a dot.
- `-d` shows directories only.

The source has three independent passes over the filesystem. A run makes
two of them: getCount, then either showTree or showDir.

- **getCount** counts the visible directories and files into a record that
  it updates in place.
- **showTree** prints every visible entry.
- **showDir** prints the visible directories only. It first counts a
  level's visible directories, so it can tell which of them is the last.

The model has these parts:

- **The filesystem** is a value, `FileTree.Node`. A `Dir` carries its
  listing in listing order. An `Unreadable` entry is a directory whose
  listing fails.
- **What a pass prints** is `FileTree.Run`: the printed lines, plus an
  `exit`. When a listing failed, `exit` holds the path of names from the
  starting directory to the failing one. The process stops there.
- **Each loop of the source** is specified by a function that gives its
  state after the first k raw entries of a listing (`TreeLevel`,
  `DirLevel`, `TallyLevel`). What one entry contributes is a function of
  its own (`TreeEntry`, `DirEntry`).
- **The looping code** is kept as methods proved equal to those functions:
  - `ShowTree`;
  - `ShowDir`, with both of its loops;
  - `Count.GetCount`, on a `Count` object whose two counter fields it
    raises in place;
  - `Execute`, for `main`.
- **The usual tree drawing** is written once, in `Reference`, as an
  independent rule. At every level, among the entries shown, the one with
  no shown sibling after it gets `└──` and hands blank indentation to its
  children. Every other shown entry gets `├──` and hands a bar. showDir
  follows this convention.

The proofs relate the passes to each other and to that rule:

- **Counts.** Lines printed equal entries counted.
- **Exits.** Every pass exits at the same directory.
- **Line shape.** Every line showTree or showDir prints is the inherited
  connector followed by one 4-character segment.
- **Terminal glyphs.** These are stated for levels that complete without an
  exit. Such a level has at most one. For showTree, it has one exactly when
  the last raw entry is visible. For showDir, it has one exactly when it has
  a visible directory.
- **Hidden entries.** Without `-a`, what a hidden entry is (its name, kind
  and contents) plays no part in any pass: each may be replaced by any other
  hidden entry. Its presence still matters to showTree, where a hidden entry
  at the end of a listing removes the `└──` from that level.
- **The reference rule.** showDir always follows it. showTree follows it
  when every listing ends with a visible entry, which `-a` guarantees.

### Where the code departs from the usual tree drawing

The model follows the code in both places.

**The last-entry check.** In the usual tree drawing, the last *visible*
entry of a level gets the terminal glyph. showTree instead compares the entry's index
with the length of the *unfiltered* listing (`tree.go:70`). So when
`-a` is off and the last raw entry is hidden, no line of that level gets
`└──`. `Reference.TreeDivergesWhenLastEntryHidden` shows this on a
listing `#notes`, `.profile`. `Properties.TreeLevelCorners` states it in
general. `Properties.TreeSeesTrailingHidden` shows that adding a trailing
hidden file changes the output, on the listing `-a`, `.h`.
`Reference.TreeMatchesReference` gives the condition under which showTree
and the rule agree. ReadDir lists a directory by name, so a hidden entry
ends a listing only when every visible name at that level starts with a
character that sorts before `.`, such as `#` or `-`.

**The diagnostic stream.** The diagnostic for an unreadable directory is
written with `fmt.Printf`, so it goes to standard output, not to an error
stream as a command's diagnostics usually do.

## Model

| member | source | states |
|---|---|---|
| Render.GetOutputLayout | tree.go:164-166 | a printed line is the connector, then the glyph, one space and the entry name, and it splits back into exactly those parts |
| Render.ShowTree | tree.go:55-83 | the looping showTree prints exactly `TreeRun`. An unlistable directory prints no line other than the diagnostic, which the model records as the exit, and exits there. Hidden entries are skipped without -a. An entry is judged last by its index in the unfiltered listing. A subdirectory is descended into with the connector extended by a blank or a bar. A failure below stops the loop |
| Render.TreeLevelExitPersists | tree.go:56-60 | once a listing below a level has failed, the process has exited, and later entries of that level add nothing |
| Render.ShowDir | tree.go:86-128 | the looping showDir prints exactly `DirRun`. Its first loop counts the visible directories of the level. Its second loop prints only visible directories, and gives the terminal glyph when the number printed so far is one less than that count |
| Render.DirLevelExitPersists | tree.go:87-91 | once a listing below a level of showDir has failed, later entries of that level add nothing |
| Counting.Count.constructor | tree.go:35 | the counting record starts with both counters at zero |
| Counting.Count.GetCount | tree.go:131-151 | getCount raises DirCount by the visible directories below `dir` and FileCount by the visible files (a directory is counted before it is descended into), and exits where `TallyOf` exits |
| Counting.TallyLevelExitPersists | tree.go:132-136 | after a failing listing, the counting walk adds nothing more |
| Reference.DirsLastIff | tree.go:115 | `dirAppearCount == dirCount-1` holds exactly when no visible directory follows the entry in the listing |
| Reference.DirMatchesReference | tree.go:86-128 | showDir draws every tree as the usual tree drawing prescribes for a directories-only listing: the last visible directory of a level is terminal even when files follow it |
| Reference.DirEntryMatches | tree.go:114-125 | each visible directory of showDir gets the glyph and indentation that the rule gives it |
| Reference.TreeMatchesReference | tree.go:55-83 | showTree draws as the usual tree drawing prescribes whenever, in every directory, the last entry of the unfiltered listing is visible |
| Reference.TreeEntryMatches | tree.go:70-80 | in such a directory, "last index of the listing" and "no shown sibling follows" coincide for every visible entry |
| Reference.ShowAllKeepsLastEntries | tree.go:66-68 | with -a nothing is filtered, so showTree always follows the usual tree drawing |
| Reference.TreeDivergesWhenLastEntryHidden | tree.go:70-76 | a listing `#notes`, `.profile` without -a: showTree prints `├── #notes`, the rule prints `└── #notes` |
| Reference.DirsAmongZero | tree.go:93-103 | the directory count of a level is zero exactly when no visible directory appears in it |
| Properties.TreeListsWhatIsCounted | tree.go:62-81 | showTree prints one line per directory and file that getCount counts, also before an exit, and exits exactly where getCount exits |
| Properties.DirListsCountedDirs | tree.go:105-127 | showDir prints one line per directory that getCount counts, and exits exactly where getCount exits |
| Properties.DirLinesBeneath | tree.go:114-125 | every line showDir prints under a connector starts with it and continues with `├── `, `└── `, a bar or a blank segment |
| Properties.TreeLinesBeneath | tree.go:70-80 | every line showTree prints under a connector starts with it and continues with `├── `, `└── `, a bar or a blank segment |
| Properties.TreeLevelCorners | tree.go:70-76 | in a level showTree completes, the terminal glyph appears on one line if the last raw entry is visible, and on none otherwise |
| Properties.DirLevelCorners | tree.go:114-121 | in a level showDir completes, the terminal glyph appears on exactly one line when the level has a visible directory, and on none otherwise |
| Properties.TreeSeesTrailingHidden | tree.go:63-76 | without -a, in the by-name listing `-a`, `.h`, the hidden file still changes showTree's output: `-a` gets `├──` instead of `└──` |
| Properties.TreeIgnoresHidden | tree.go:66-68 | without -a, replacing every hidden entry, at any depth, by any other hidden entry leaves showTree's output unchanged |
| Properties.DirIgnoresHidden | tree.go:108-112 | without -a, replacing every hidden entry, at any depth, by any other hidden entry changes neither showDir's output nor its choice of the last directory |
| Properties.CountIgnoresHidden | tree.go:138-142 | without -a, replacing every hidden entry, at any depth, by any other hidden entry leaves both counts and the exit unchanged: hidden entries are neither counted nor descended into |
| Command.GetPath | tree.go:155-161 | the root path is the first argument, or "." when there are no arguments |
| Command.TreeCommand | tree.go:31-52 | if counting fails, the command prints no line other than the diagnostic, which the model records as the exit, and exits where counting did. Otherwise it prints the root path, one line per counted entry (per counted directory with -d), a blank line and the summary |
| Command.Execute | tree.go:31-52 | `main`, run as the source runs it, produces exactly `TreeCommand` |
| Command.ExampleTree | tree.go:39-51 | `/r` holding directory `a` and file `b.txt` prints `/r`, `├── a`, `└── b.txt`, a blank line and `1 directories, 1 files` |
| Command.ExampleDirsOnly | tree.go:42-44 | the same tree with -d prints `/r`, `└── a`, a blank line and `1 directories` |
| Command.ExampleMissingRoot | tree.go:132-136 | an unreadable root prints no line other than the diagnostic, which the model records as the exit, and exits at the root |
| Command.ExampleShowAll | tree.go:140-142 | with -a, a hidden `.git` holding `HEAD` is listed, descended into and counted |
| Command.ExampleHiddenSkipped | tree.go:66-68 | without -a, the same `.git` is neither listed nor counted: `.`, a blank line, `0 directories, 0 files` |

## Left out

- Flag parsing (`flag.Parse`, the `-a` and `-d` flags) is not modelled. The two flags are boolean parameters, and the positional arguments are a sequence of strings.
- All three passes read one unchanging tree. The source lists every directory again in each pass, so a filesystem that changes between the counting pass and the rendering pass is not modelled. With such a change, showTree or showDir could exit after the root path and some lines were printed. TreeCommand's promise that an exit prints no listing line rests on this.
- `ioutil.ReadDir` becomes a lookup in the `Node` value. A listing that fails for any reason (missing, not a directory, no permission) is an `Unreadable` node, or a non-directory at the root.
- ReadDir's sorting by name is not modelled: the model takes the order of a `Dir`'s children as the listing order.
- The text of the diagnostic printed before `os.Exit(1)` is not modelled. The exit records the path of names from the root to the failing directory instead, and the exit status (always 1) is not carried.
- `filepath.Join` is left out: a child is reached through the `Node` value rather than through a joined path.
- Symbolic links are not modelled. A link shows as a file, as `IsDir` reports it, so there are no cycles to model.
- The hidden-entry check reads the first byte of the name, which panics on an empty name. The model treats an empty name as not hidden; ReadDir never returns one.
- Count.GetCount: does not model wrap-around of the Go `int` counters; they are unbounded here.
- `fmt.Println` output is modelled as a sequence of lines without their newline characters. `fmt.Sprintf("%d", …)` is modelled by a decimal rendering of a natural number.
