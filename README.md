# Structurator, modelled in Dafny

Structurator is a scaffolding script. It reads a JSON description of a
directory tree, creates that tree on disk and writes a box-drawing diagram of
it to `diagram.md`. The description is an ordered mapping. Each name maps
either to a nested mapping (a directory) or to a string (the text of a file).

This project models the two walks of that mapping in `main.py`:

- **The diagram renderer** (`generate_diagram`), in `Diagram.dfy`.
  `GenerateDiagram` follows the source. It loops over the entries, appends
  each entry's line (including the `.env` special case at depth 0) and
  recurses into nested mappings. It is proved equal to `Render`, an
  independent description of the output. `Preorder` lists one
  (depth, name) row per entry in depth-first, mapping order. `Layout` writes
  each row as `"│   "` repeated depth times, then `"├── "`, then the name
  and a line break. The lemmas read the text back as lines. They cover line
  count and line shape, pre-order placement of descendants, concatenation
  over entries, the redundancy of the `.env` branch and the worked example.
- **The materialiser** (`create_structure`), in `Materialize.dfy`. The file
  system is a `FileSystem` object whose `entries` map a path to a directory
  or to a file's text. A path is a sequence of name segments. The model
  provides `os.path.exists`, `os.makedirs` and `open(…, 'w').write` as
  methods on that object. `CreateStructure` follows the source's loop,
  existence checks and recursion. It is proved to leave the file system at
  `Desired(base, structure) + old state`. In Dafny map union the right side
  wins, so every existing path keeps its item and every missing described
  path gets the item described for it. The lemmas then show:
  - nothing that existed is overwritten;
  - a second run is allowed and changes nothing;
  - from an empty base, every mapping-valued key is a directory and every
    string-valued key is a file with exactly that text, at every depth.
- **The parsed description** (the value `json.load` returns), in
  `Tree.dfy`: `Node = Dir(entries) | File(content)` with ordered entries.

Two things about the script shape the model:

- The script takes only the JSON path (main.py:50-55). It has no
  target-folder argument: it always materialises under `"."` (main.py:41)
  and always writes the root line `"225lol/\n"` (main.py:43).
- The script has no explicit error handling.

## Model

| member | source | states |
|---|---|---|
| `Diagram.GenerateDiagram` | main.py:25-34 | the loop with its `.env` branch and recursion returns exactly `Render(structure, indent)`, the pre-order layout of one line per entry |
| `Diagram.EnvLineRedundant` | main.py:28-31 | the top-level `.env` branch writes exactly the line the general branch writes, since `"│   " * 0` is empty |
| `Diagram.EnvLines` | main.py:28-31 | a top-level `.env` line is `"├── .env"` with no indentation; a deeper `.env` starts with `"│   "` like any other name |
| `Diagram.RenderConcat` | main.py:26-34 | the diagram of a mapping is the concatenation, in mapping order, of the diagrams of its parts |
| `Diagram.RenderSingle` | main.py:29-33 | one entry renders as its own line followed at once by the lines of its nested mapping, one level deeper |
| `Diagram.RenderSplit` | main.py:27-33 | the diagram is the text before entry i, entry i's line, all of entry i's descendants, then the text of the later siblings |
| `Diagram.PreorderSplit` | main.py:27-33 | in row form, a directory's row is followed immediately by its descendants' rows, which are all deeper, and then by the next sibling's row |
| `Diagram.PreorderSize` | main.py:27-33 | there is exactly one row per entry of the tree, counted at every depth |
| `Diagram.PreorderDepth` | main.py:31-33 | the rows of a nested mapping are never shallower than that mapping's own depth |
| `Diagram.DiagramLines` | main.py:27-33 | when no name at any depth contains a line break, the diagram read back as lines has one line per entry; line k is `"│   "` times that entry's depth, then `"├── "`, then its name; the text ends with a line break. A name holding a line break makes more lines than entries, and the lemma does not cover that case |
| `Diagram.ExampleDiagram` | main.py:43 | for `{"a": {"b": "hello"}, "c": "world"}` the body is `"├── a\n│   ├── b\n├── c\n"` and `diagram.md` holds that body after `"225lol/\n"` |
| `Materialize.FileSystem.constructor` | main.py:41 | the file system the run starts from is any map that is already a tree, such as the current directory `"."` with its contents |
| `Materialize.FileSystem.Exists` | main.py:16 | `os.path.exists(p)` is true exactly when p is in the file system |
| `Materialize.FileSystem.MakeDirs` | main.py:17 | `os.makedirs` on a missing path whose parent is a directory adds exactly that directory and keeps the file system a tree |
| `Materialize.FileSystem.WriteFile` | main.py:21-22 | opening a non-directory path for writing and writing `content` makes it a file holding exactly `content`; nothing else changes |
| `Materialize.CreateStructure` | main.py:12-22 | the new state is `Desired(base, structure)` under the old state; every path that existed keeps its item; the file system stays a tree |
| `Materialize.DesiredKeys` | main.py:14 | everything the materialiser creates lies below the base path, under one of the mapping's own names |
| `Materialize.DesiredEntry` | main.py:14-22 | each entry of a mapping is described at `base/name` with its own kind: a directory for a mapping, a file with the string for a string |
| `Materialize.DesiredBelowEntry` | main.py:18 | below a nested mapping's path, what is created is exactly what that nested mapping creates, as in the recursive call |
| `Materialize.DesiredRealizes` | main.py:15-22 | what a structure describes contains every one of its entries, at every depth, with the right kind and contents |
| `Materialize.CreateFromEmpty` | main.py:15-22 | starting with nothing under the base, afterwards every mapping-valued key is a directory and every string-valued key is a file holding that string |
| `Materialize.Idempotent` | main.py:16-22 | a first run creates nothing at the base itself, so the base keeps its item. A second run with the same base and structure meets the first run's precondition again and leaves the file system unchanged |
| `Materialize.CreateStructureTwice` | main.py:16-22 | two runs in a row with the same base and structure are both allowed, and together they leave the same state as one run |
| `Materialize.ExampleDesired` | main.py:12-22 | `{"a": {"b": "hello"}, "c": "world"}` describes directory `a`, file `a/b` holding `hello` and file `c` holding `world` |
| `Materialize.ExampleFromEmpty` | main.py:12-22 | in an empty root that example creates exactly directory `a`, file `a/b` (`hello`) and file `c` (`world`) |
| `Materialize.ExampleOverExisting` | main.py:16-22 | over a root that already has directory `a` and file `c` with other text, `a/b` is still created and `c` keeps its old text |

## Left out

- `load_structure` (main.py:6-9) opens a file and parses JSON. The model takes the parsed mapping as input. Non-string, non-mapping values cannot occur, because the datatype has only `Dir` and `File`.
- `main` (main.py:37-48) and the argument parsing (main.py:50-55) are left out. So are writing `diagram.md` and printing the status line. Only the text written, `Document`, is modelled.
- Real `os.path.join`: a name is treated as one new path segment below the base. The model does not cover names that the real join resolves differently:
  - a relative name with a separator, such as `"a/b"`, lands more than one segment below the base. For a mapping value `os.makedirs` (main.py:17) then also creates the missing directories in between; for a string value `open` (main.py:21) fails if they are missing;
  - a name holding `..`, or an absolute name, makes the join escape the base;
  - the names `""` and `"."` point back at the base itself. The real code then writes nothing for a string value, since the base exists, and merges a mapping's children directly into the base. The model instead creates a new child named `""` or `"."` with everything under it.
- Materialize.FileSystem.MakeDirs: does not model `os.makedirs` creating missing intermediate directories. It requires the parent to be a directory already. For single-segment names the materialiser only calls it under an existing base.
- Materialize.CreateStructure: requires `NoFileInTheWay`, which excludes a non-empty mapping whose path already exists as a file. The source crashes there while creating the first child, and the model does not include that crash.
- Materialize.CreateStructure: requires `WellFormed` (distinct names at every depth). This always holds for a dict loaded from JSON.
- Permission errors, other OS errors and concurrent runs are not modelled. They depend on the environment, and the source does not handle them.
