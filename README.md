# Twee2 project splitter, modelled in Dafny

Twee2 tools split one monolithic Twee story file into a project: a tree of
directories, each with an `includes.txt`, and `.tw2` files holding the
passages. The pipeline has four stages:

- read the file's lines into passages, splitting at the `::name [tags] <geometry>` header lines;
- drop the special passages;
- sort the rest in natural order and key them by their final dotted name;
- build the project tree from those names and write it out.

This project models that core. It also models the older single-file version
of the splitter and the prototype Twine-export reader.

Modules, one concept each:

- `Wrappers`: `Option` and `Result`, with `Failure` standing for the exceptions the program raises.
- `Strings`: joining, splitting and searching `seq<char>`, and the order-keeping filter `Pick`.
- `OrderedMaps`: an insertion-ordered dictionary. It stands for Python's `dict`/`OrderedDict`: assigning an existing key keeps its position and replaces its value.
- `Natural`: `atoi` and `natural_keys` from `twee2tools/util.py`, and the order Python's list comparison gives those keys.
- `Sorting`: a stable insertion sort by a key. It stands for Python's `sorted`.
- `Segments`: splitting a list of lines at header lines. `parse_lines` and `passageParser` both do this.
- `HeaderLines`: a hand-written matcher for the passage-header regular expression, and `parse_passage_header`.
- `Passages`: the rest of `twee2tools/passages.py`: names, the passage record, the line parser and `filter_passages`.
- `ProjectTree`: the `ProjectNode` tree as an arena of nodes indexed from the root `0`, and its derived properties: depth, height, module, submodule, file, includes, passages, full name, and lookup by path.
- `Reconstruction`: `reconstruct` as the list of file-system actions it performs, and a model of applying them.
- `Projects`: the `Project` class, whose methods update the node arena in place (`add_child`, `add_passage`, the walks that write files), and `populate_project_tree`.
- `LegacyTwee`: `process_file` of `twee/parse_twee.py`.
- `TwineToTwee`: `passageParser` of `twee/twine_to_twee.py`.

`twee/parse_twee.py` is an earlier copy of `twee2tools/passages.py`,
`twee2tools/projects.py` and `twee2tools/util.py`. Its `atoi`, `natural_keys`,
`split_name`, `Passage`, `parse_passage_line`, `parse_lines`, `ProjectNode`
and `populate_project_tree` are the same code under other names. They are
modelled once, by the members cited below for the `twee2tools` files.
`LegacyTwee.ProcessFile` models what that file adds: the chain of parse,
filter and populate.

## Model

| member | source | states |
|---|---|---|
| `Passages.SplitName` | twee2tools/passages.py:27-30 | the first fragment has no `.`; with a `.` in the name, fragment + `.` + rest is the name; without one, the rest is empty |
| `Passages.NewPassage` | twee2tools/passages.py:34-44 | a missing tag list or geometry becomes empty; the name is kept; the content starts empty |
| `Passages.PassageText` | twee2tools/passages.py:56-57 | a passage as text is its header line, a newline, then its content |
| `Passages.PassageHeader` | twee2tools/passages.py:59-66 | the header line is `::` and the name, then the tags in `[ ]` separated by spaces and the geometry in `< >` separated by commas, each only when the list is non-empty |
| `Passages.CombinedContent` | twee2tools/passages.py:68-70 | the content lines joined with newlines |
| `Passages.PassageHeaderRoundTrip` | twee2tools/passages.py:56-70 | a passage's header line is a header line, and reading it back with the passage's content as body gives back the passage |
| `Passages.TagsIn` | twee2tools/passages.py:76-86 | the special or project tags of a passage are tags it carries that belong to the wanted set; the result is empty exactly when none of its tags belongs |
| `Passages.TagsInOrder` | twee2tools/passages.py:76-86 | the wanted tags appear each once, in the order the passage lists them, and every wanted tag of the passage is among them |
| `Passages.IsSpecialPassage` | twee2tools/passages.py:72-74 | a passage is special exactly when its name is one of the special passage names |
| `Passages.IsProjectPassage` | twee2tools/passages.py:80-82 | a passage is a project passage exactly when its name is one of the project passage names |
| `Passages.FullName` | twee2tools/passages.py:88-92 | the name becomes `stella.` + name exactly when the passage is a project passage or has a project tag; otherwise the name is kept |
| `Passages.ProjectPassageName` | twee2tools/passages.py:81-92 | a project passage splits into the `stella` module and its own name |
| `HeaderLines.MatchHeader` | twee2tools/passages.py:9 | a line that matches the header pattern starts with `::` |
| `HeaderLines.BareHeader` | twee2tools/passages.py:9 | a bare `::` is a header with an empty name and neither tags nor geometry |
| `HeaderLines.HeaderWithoutBracket` | twee2tools/passages.py:9 | every line that starts with `::` and holds no `[` matches the pattern |
| `HeaderLines.ParseHeader` | twee2tools/passages.py:94-119 | no header exactly when the line does not match; parsed tags are non-empty and free of spaces; parsed geometry has at least one part |
| `HeaderLines.HeaderLayout` | twee2tools/passages.py:60-66 | a written header is `::`, the name, then the tag text and the geometry text |
| `HeaderLines.HeaderRoundTrip` | twee2tools/passages.py:60-66 | parsing a written header gives back its name, tags and geometry, with empty tags or geometry read back as absent |
| `HeaderLines.NameMatches` | twee2tools/passages.py:9 | the lazy name group ends at the first place where the tag and geometry part of the pattern matches |
| `HeaderLines.HeaderFields` | twee2tools/passages.py:109-118 | splitting the tag group at spaces and the geometry group at commas gives back the tags and geometry that were rendered |
| `Segments.SplitAtHeadersUnsplit` | twee2tools/passages.py:132-145 | splitting lines at header lines loses and invents nothing: the lead lines and then the groups, written out, are the input |
| `Segments.UnsplitSplit` | twee2tools/passages.py:132-145 | header groups written out split back into the same groups when no body line is a header |
| `Passages.ParseLines` | twee2tools/passages.py:121-147 | the loop returns the parse of the lines: passages split at header lines, or the error |
| `Passages.ParseLinesSpec` | twee2tools/passages.py:121-147 | the parse of a file: the error carrying the first line when text comes before the first header, otherwise one passage per header line, with the lines up to the next header as its content |
| `Passages.ParseLinesFails` | twee2tools/passages.py:139-141 | parsing fails exactly when the first line is not a header, and the error carries that line |
| `Passages.ParseLinesHeaders` | twee2tools/passages.py:135-138 | on success there is one passage per header line, in order, with the name, tags and geometry of that header |
| `Passages.ParseLinesContents` | twee2tools/passages.py:142-145 | on success the lines are exactly each header followed by its passage's content, and no content line is a header |
| `Passages.ParseWrittenLines` | twee2tools/passages.py:56-70 | writing passages out as header and content lines and parsing the lines gives the passages back |
| `Passages.ParseNoLines` | twee2tools/passages.py:144-147 | an empty file parses to no passages |
| `Passages.FilterPassages` | twee2tools/passages.py:149-155 | the result is a well-formed ordered dictionary |
| `Passages.Excluded` | twee2tools/passages.py:154 | a passage is left out exactly when it is special or carries a special tag |
| `Passages.SortKeepsPassages` | twee2tools/passages.py:152 | sorting by natural key keeps exactly the passages it is given |
| `Passages.FilterPassagesKeys` | twee2tools/passages.py:149-155 | a name is a key exactly when some passage that is neither special nor specially tagged has it as its full name |
| `Passages.FilterPassagesValues` | twee2tools/passages.py:149-155 | the passage under a name is an input passage with that full name that is not excluded; of several, the last in natural-key order |
| `Passages.FilterPassagesOrder` | twee2tools/passages.py:149-155 | keys are ordered by their first occurrence in natural-key order |
| `Passages.StoryInitMoves` | twee2tools/passages.py:15-25 | `StoryInit` is kept and filed as `stella.StoryInit` |
| `Passages.StartIsLeftOut` | twee2tools/passages.py:15-25 | `Start` is special and left out |
| `Natural.Atoi` | twee2tools/util.py:9-10 | a number exactly when the text is a non-empty run of digits; otherwise the text unchanged |
| `Natural.AtoiLeadingZero` | twee2tools/util.py:9-10 | a leading zero does not change the number |
| `Natural.SplitDigits` | twee2tools/util.py:16 | the pieces alternate between digit-free text and digit runs, and concatenate to the text |
| `Natural.NaturalKeys` | twee2tools/util.py:12-16 | the key of a repr'd text: its split into digit-free text and digit runs, with each piece passed through `atoi` |
| `Natural.SplitDigitsUnique` | twee2tools/util.py:16 | the split is the only alternating decomposition of the text |
| `Natural.NaturalKeysShape` | twee2tools/util.py:12-16 | a key has odd length, digit-free text at even positions and numbers at odd positions |
| `Natural.KeysComparable` | twee2tools/util.py:12-16 | at each position two keys share, both hold text or both hold numbers, so comparing them never mixes `str` and `int` |
| `Natural.KeyLtOrder` | twee2tools/util.py:12-16 | the order of keys is a strict total order |
| `Natural.NumbersCompareNumerically` | twee2tools/util.py:12-16 | `p2` sorts before `p10`, although `p10` comes first character by character |
| `Natural.LeadingZerosEqualKeys` | twee2tools/util.py:12-16 | `p007` and `p7` get equal keys |
| `Sorting.SortBy` | twee2tools/passages.py:152 | the list sorted by key, each element inserted after those whose key is not greater |
| `Sorting.SortBySorted` | twee2tools/passages.py:152 | the sort's output is ordered by key and is a permutation of its input |
| `Sorting.SortByStable` | twee2tools/passages.py:152 | elements with equal keys keep their input order |
| `Projects.Project.constructor` | twee2tools/projects.py:15-21 | a new project is one root with no passage and no children |
| `ProjectTree.NodeFullNameJoin` | twee2tools/projects.py:23-30 | a node below the root is named by its fragments from the root joined with `.`, after the leading empty fragments are dropped, since an empty parent name counts as no name |
| `ProjectTree.NodeFullNamePlain` | twee2tools/projects.py:23-30 | when the first fragment below the root is not empty, the full name is all fragments from the root joined with `.` |
| `ProjectTree.EmptyLeadDropped` | twee2tools/projects.py:27-30 | the name `.x` is filed under an empty fragment and then `x`, and its full name is `x`, not `.x` |
| `ProjectTree.Depth` | twee2tools/projects.py:32-36 | the root has depth 0; any other node is one deeper than its parent |
| `ProjectTree.Height` | twee2tools/projects.py:38-42 | a node without children has height 0; otherwise its height is one more than the greatest height of its children |
| `ProjectTree.HeightIsMax` | twee2tools/projects.py:38-42 | a node's height is zero exactly when it has no children, and one more than the highest child's otherwise |
| `ProjectTree.IsModule` | twee2tools/projects.py:50-52 | a module is a node of depth 1 |
| `ProjectTree.IsSubmodule` | twee2tools/projects.py:54-56 | a submodule is a node of depth 2 whose height reaches the submodule threshold |
| `ProjectTree.IsFile` | twee2tools/projects.py:58-66 | the root is not a file; a child of a submodule is; a child of a module is when it has a passage or is not a submodule; nothing else is |
| `ProjectTree.HasIncludes` | twee2tools/projects.py:68-70 | a node has includes exactly when it is the root, a module or a submodule |
| `ProjectTree.Classification` | twee2tools/projects.py:32-70 | depth 0 is the root; module and submodule exclude each other; files are by parent kind and depth; includes exist exactly for root, modules and submodules |
| `ProjectTree.DirectoriesOf` | twee2tools/projects.py:74-78 | the directories are the fragments of exactly the module and submodule children |
| `ProjectTree.FilesOf` | twee2tools/projects.py:80-84 | the files are the fragments of exactly the file children |
| `ProjectTree.DirectoriesInOrder` | twee2tools/projects.py:74-78 | each directory is the fragment of a module or submodule child; every such child gives exactly one entry, and the entries follow the order of the children |
| `ProjectTree.FilesInOrder` | twee2tools/projects.py:80-84 | each file is the fragment of a file child; every such child gives exactly one entry, and the entries follow the order of the children |
| `ProjectTree.Includes` | twee2tools/projects.py:86-90 | the includes are each directory with `/`, then the files |
| `ProjectTree.IncludesListChildren` | twee2tools/projects.py:74-90 | every directory child and every file child is listed; a submodule with a passage is listed both ways |
| `ProjectTree.PassageNodes` | twee2tools/projects.py:92-101 | the nodes whose passages a node collects: its own if it has one; then, unless it is a submodule with a passage, those its children collect, in order; each lies at the node or below it and holds a passage |
| `ProjectTree.NodePassages` | twee2tools/projects.py:92-101 | the passages a node collects are the passages of those nodes, in that order |
| `ProjectTree.PassageNodesCut` | twee2tools/projects.py:92-101 | a submodule with a passage collects only that passage; a leaf collects its own passage if any |
| `ProjectTree.PassageNodesDeeper` | twee2tools/projects.py:92-101 | every collected passage lies at the node or below it |
| `Projects.Project.CollectPassages` | twee2tools/projects.py:92-101 | the walk returns the node's passage and then its children's, in order, and stops at a submodule with a passage |
| `ProjectTree.FindChild` | twee2tools/projects.py:109-113 | a child is found exactly when one of the node's children has the fragment, and it is that child |
| `Projects.Project.AddChild` | twee2tools/projects.py:105-113 | an explicit child with another fragment fails and leaves the tree unchanged; otherwise the child under the fragment is returned, new unless the fragment is taken and overwrite is off |
| `Projects.Step` | twee2tools/projects.py:105-113 | `add_child` without overwrite or explicit child keeps the tree well-formed, never removes a node, and leaves a child under the fragment |
| `Projects.Walked` | twee2tools/projects.py:115-122 | following a name's fragments keeps the tree well-formed and never removes a node |
| `Projects.WalkedGrows` | twee2tools/projects.py:115-122 | following a path grows the tree and reaches a node; every added node lies on the path and has at most one child; an old node that changed lies on the path and gained exactly one child, a new node, after its other children |
| `Projects.Project.AddPassage` | twee2tools/projects.py:115-122 | the new tree is the old one with the name's path followed and the passage set on the node reached; so the tree only grows, other passages are kept, the path reaches the passage's node, and nodes change only along the path |
| `ProjectTree.LookupPath` | twee2tools/projects.py:115-122 | following a path from a node appends it to that node's path from the root |
| `ProjectTree.LookupInjective` | twee2tools/projects.py:115-122 | different paths from the root reach different nodes |
| `ProjectTree.PathOfJoin` | twee2tools/projects.py:115-122 | the fragments a name is split into join back into the name, so distinct names get distinct paths |
| `Projects.PopulateProjectTree` | twee2tools/projects.py:177-189 | every dictionary name leads from the root to a node holding its passage; every passage in the tree is the passage of a name that leads to it; every node but the root lies on a name's path; every node's children come in the order in which the names first passed them |
| `Projects.PopulateOnPaths` | twee2tools/projects.py:177-189 | after adding one more name, every node but the root still lies on the path of one of the names added so far |
| `Projects.PopulateOrder` | twee2tools/projects.py:177-189 | after adding one more name, the children of every node are still ordered by the first name passing them; a child added now comes last and is passed only by the new name |
| `Projects.Project.Reconstruct` | twee2tools/projects.py:126-138 | the method issues the actions the recursive definition of `reconstruct` gives |
| `Projects.Project.ReconstructChild` | twee2tools/projects.py:132-138 | the actions for one child: recurse into a directory, write a submodule file beside it, recurse into a file |
| `Reconstruction.Reconstruct` | twee2tools/projects.py:126-131 | at a node: make its directory and write its includes when it has includes, write its passages when it is a file but not a submodule, then the children's actions in order |
| `Reconstruction.ChildActions` | twee2tools/projects.py:132-138 | for one child: a module or submodule is reconstructed in the directory named by its fragment, and a submodule that is also a file gets its `.tw2` beside that directory; a file is reconstructed in the parent's directory; any other child does nothing |
| `Reconstruction.Content` | twee2tools/projects.py:140-148 | what a write puts in its file: each include followed by a newline, or each collected passage's text followed by a newline |
| `Reconstruction.ReconstructAimed` | twee2tools/projects.py:126-138 | includes are written only for root, modules and submodules, and passages only for files |
| `Reconstruction.ReconstructStarts` | twee2tools/projects.py:127-131 | a node with includes first makes its directory and writes its includes; a plain file writes its passages |
| `Reconstruction.ChildrenWritten` | twee2tools/projects.py:132-138 | every directory child's includes and every file child's passages are written |
| `Reconstruction.ModulePassagesNotWritten` | twee2tools/projects.py:126-138 | a module's own passage is in no written `.tw2` file |
| `Reconstruction.ReconstructReady` | twee2tools/projects.py:126-138 | every directory is made before anything is written into it |
| `Reconstruction.ReconstructIdempotent` | twee2tools/projects.py:126-148 | reconstructing a tree twice leaves the same files as reconstructing it once |
| `Projects.Project.IncludesText` | twee2tools/projects.py:140-143 | `includes.txt` holds each include followed by a newline |
| `Projects.Project.PassagesText` | twee2tools/projects.py:145-148 | the `.tw2` file holds each collected passage's text followed by a newline |
| `LegacyTwee.ProcessFile` | twee/parse_twee.py:315-324 | a parse error is returned as is; otherwise the tree built from the filtered passages holds every kept name's passage and only those, every node lies on a kept name's path, and children come in the order in which the names first passed them |
| `TwineToTwee.KeyOf` | twee/twine_to_twee.py:29-33 | the key has no space; it is the text from position 2 up to the first space, or to the end of the line when there is none, and empty when the first space is at position 0 or 1 |
| `TwineToTwee.KeyOfMidLine` | twee/twine_to_twee.py:24-33 | `ab::c d` is a key line, and its key `::c` starts at position 2, not after the `::` |
| `TwineToTwee.KeyOfHeader` | twee/twine_to_twee.py:3-10 | `::name <geometry>` gets the key `name` |
| `TwineToTwee.PassageParser` | twee/twine_to_twee.py:3-42 | the loop returns the dictionary of the lines: stored key and text pairs assigned in order |
| `TwineToTwee.ReadLine` | twee/twine_to_twee.py:16-36 | one round of the loop for a line that is not the end of file keeps the loop state: the dictionary holds the stored pairs before the current one, and the current key and text are the last pair of the lines read |
| `TwineToTwee.PassageDict` | twee/twine_to_twee.py:11-42 | the dictionary of the lines: the stored pairs (every key and text pair closed by a key line unless both are empty, and the pair open at the end always) assigned in order, so a repeated key keeps its first position and its last text; the result is a well-formed dictionary |
| `TwineToTwee.EmptyInput` | twee/twine_to_twee.py:11-14 | an empty file gives `{'': ''}` |
| `TwineToTwee.PassageDictValues` | twee/twine_to_twee.py:24-40 | a key is present exactly when a stored pair has it, and its text is that of the last such pair |
| `TwineToTwee.LastPairWins` | twee/twine_to_twee.py:40 | the pair current at end of file is always stored with its text |
| `TwineToTwee.BlankLineIgnored` | twee/twine_to_twee.py:18-19 | a line that is only a newline, anywhere, changes nothing |

## Left out

- Files and directories: `load_file`, `open`/`write`, `mkdir_p` and `readline` are left out. The model takes the file's lines as a sequence; for `passageParser`, `''` marks the end of file. `reconstruct` returns the list of actions it would perform, and `Apply` interprets them on a map from paths to contents.
- `mkdir_p` creating missing parent directories is not modelled. `MakeDirs` records the one directory it names.
- `print`, `print_tree`, `tree.print()` and the debug prints of `passageParser` write to standard output only. They are left out.
- The command-line front ends are left out: `twee2tools/parse_twee.py`, `twee2tools/reconstruct.py` and the `argparse` part of `twee/parse_twee.py` only wire the modelled functions to files.
- Python's general regular-expression engine is not modelled. `HeaderLines` matches the one header pattern by hand. `$` is taken as the end of the line; the pattern's acceptance of a final `\n` before `$` is left out, since the lines the parser receives are already split at newlines.
- `\d` and `str.isdigit` are modelled as the ASCII digits `0`-`9`. Other Unicode digits are left out.
- `Passages.PassageRepr`: Python's `repr` of a string switches to double quotes and escapes characters. The model always quotes with `'` and escapes nothing. The repr only feeds the natural sort key, so the order can differ only for tags or geometry holding quotes, backslashes or non-printable characters. The name enters the repr unquoted, so names never make a difference.
- `Reconstruction.Dir`: a directory is the list of its fragments, not a joined string. An empty fragment (from names such as `a..b` or `.x`) or a fragment holding `/` or `..` gives its own `Dir` in the model. `os.path.join` would instead merge it with its parent or leave the project directory. `ReconstructReady` and `ReconstructIdempotent` hold for these lists of fragments, not for the joined file-system paths.
- Object identity is replaced by an arena: nodes are indices into `Project.nodes` and `parent` is an index. Aliasing between trees is not modelled.
- `Projects.Project.AddChild`: an explicit `child` argument is modelled by its fragment and passage (`Leaf`), not as a subtree. The program calls `add_child` only without a child.
- The root's `None` fragment is the empty string in the model. `ProjectTree.NodeFullName` returns `Option`: `None` for the root, whose `full_name` is `None` in the program.
- `Sorting.SortBy` stands for Python's `sorted`. Both are stable sorts by the same strict total order, so they give the same list.
- `Natural.NaturalKeys` takes the text that `repr` produced, as `natural_keys` splits `repr(text)`.
- `Passages.FilterPassages` states in its own contract only that the dictionary is well-formed. Its meaning is in `FilterPassagesKeys`, `FilterPassagesValues` and `FilterPassagesOrder`.
- `TwineToTwee.PassageDict` states in its own contract only that the dictionary is well-formed. Its meaning is in `PassageDictValues`, `LastPairWins`, `EmptyInput` and `BlankLineIgnored`.

Where the documented behaviour and the code differ, the model follows the code:

- `StoryTitle` is a project passage but not a special passage. It is therefore kept and filed as `stella.StoryTitle`.
- Text before the first header is an error (`ValueError` carrying the line), not silently dropped.
- A submodule's children are collected separately only when the submodule itself has a passage. A submodule without a passage collects its children's passages like any other node.
- A module's own passage (a depth-1 node) is never written to any `.tw2` file. This is stated by `Reconstruction.ModulePassagesNotWritten`.
- In `passageParser`, a key line without a space keeps its trailing newline in the key. A line holding `::` anywhere, not only at its start, starts a new key, and its key is still taken from position 2, so for `ab::c d` it is `::c` (`TwineToTwee.KeyOfMidLine`).
- The `passageParser` docstring expects the `::PassageFooter` value `"<p>Footer goes here</p>\n\n"`. The code skips every line that is only a newline, so no value can end in `\n\n`. The model follows the code (`TwineToTwee.BlankLineIgnored`).
