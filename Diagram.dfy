/**
 * The diagram renderer, `generate_diagram` (main.py:25-34), and the text
 * written to `diagram.md` (main.py:43).
 *
 * The renderer is specified by an independent description of its output:
 * `Preorder` lists one row (depth, name) per entry of the tree, depth first
 * and in mapping order, and `Layout` writes each row as one line.  The
 * method `GenerateDiagram` follows the source's loop and recursion and is
 * proved to produce `Render(structure, indent) == Layout(Preorder(...))`.
 */
module Diagram {
  import opened Tree

  /** The branch marker in front of every name; there is no last-child marker. */
  const Branch: string := "├── "
  /** One level of indentation. */
  const Pipe: string := "│   "
  /** The fixed first line of `diagram.md`. */
  const RootLine: string := "225lol/\n"

  /** Python's `s * n`. */
  function Repeat(s: string, n: nat): string
  {
    if n == 0 then "" else s + Repeat(s, n - 1)
  }

  /** One line of the diagram before its terminator: an entry's name at a depth. */
  datatype Row = Row(depth: nat, name: string)

  function LineOf(r: Row): string
  {
    Repeat(Pipe, r.depth) + Branch + r.name
  }

  /** Every row written as its line followed by a line break. */
  function Layout(rows: seq<Row>): string
  {
    if rows == [] then "" else LineOf(rows[0]) + "\n" + Layout(rows[1..])
  }

  /**
   * The entries of a mapping whose own entries sit at `depth`, in pre-order:
   * an entry's row, then the rows of everything below it, then its next sibling.
   */
  function Preorder(es: seq<Entry>, depth: nat): seq<Row>
  {
    if es == [] then []
    else [Row(depth, es[0].name)] + Below(es[0], depth) + Preorder(es[1..], depth)
  }

  /** The rows of an entry's descendants. */
  function Below(e: Entry, depth: nat): seq<Row>
  {
    match e.value
    case Dir(children) => Preorder(children, depth + 1)
    case File(_) => []
  }

  /** The text `generate_diagram(structure, indent)` returns. */
  function Render(es: seq<Entry>, depth: nat): string
  {
    Layout(Preorder(es, depth))
  }

  /** The whole content of `diagram.md`. */
  function Document(structure: seq<Entry>): string
  {
    RootLine + Render(structure, 0)
  }

  // ---------------------------------------------------------------------
  // The renderer as the source writes it
  // ---------------------------------------------------------------------

  /**
   * `generate_diagram`: a loop over the mapping that appends each entry's
   * line (with the `.env` special case at depth 0) and, for a nested mapping,
   * the rendering of that mapping one level deeper.
   */
  method GenerateDiagram(structure: seq<Entry>, indent: nat) returns (diagram: string)
    ensures diagram == Render(structure, indent)
    decreases structure
  {
    diagram := "";
    for i := 0 to |structure|
      invariant diagram == Render(structure[..i], indent)
    {
      var name, content := structure[i].name, structure[i].value;
      EnvLineRedundant(indent, name);
      if indent == 0 && name == ".env" {
        diagram := diagram + (Branch + name + "\n");
      } else {
        diagram := diagram + (Repeat(Pipe, indent) + Branch + name + "\n");
      }
      if content.Dir? {
        var nested := GenerateDiagram(content.entries, indent + 1);
        diagram := diagram + nested;
      }
      RenderStep(structure, i, indent);
    }
    assert structure[..|structure|] == structure;
  }

  // ---------------------------------------------------------------------
  // Properties of the rendering
  // ---------------------------------------------------------------------

  /** The `.env` branch writes exactly the line the general branch writes. */
  lemma EnvLineRedundant(indent: nat, name: string)
    ensures (if indent == 0 && name == ".env" then Branch + name + "\n"
             else Repeat(Pipe, indent) + Branch + name + "\n")
            == LineOf(Row(indent, name)) + "\n"
  {
  }

  /** A top-level `.env` has no indentation; a nested one is indented like any other name. */
  lemma EnvLines(depth: nat)
    ensures depth == 0 ==> LineOf(Row(depth, ".env")) == "├── .env"
    ensures depth > 0 ==> LineOf(Row(depth, ".env"))[..|Pipe|] == Pipe
  {
  }

  lemma {:induction false} LayoutAppend(a: seq<Row>, b: seq<Row>)
    ensures Layout(a + b) == Layout(a) + Layout(b)
  {
    if a == [] {
      assert a + b == b;
    } else {
      assert (a + b)[0] == a[0];
      assert (a + b)[1..] == a[1..] + b;
      LayoutAppend(a[1..], b);
    }
  }

  lemma {:induction false} PreorderAppend(a: seq<Entry>, b: seq<Entry>, depth: nat)
    ensures Preorder(a + b, depth) == Preorder(a, depth) + Preorder(b, depth)
  {
    if a == [] {
      assert a + b == b;
    } else {
      assert (a + b)[0] == a[0];
      assert (a + b)[1..] == a[1..] + b;
      PreorderAppend(a[1..], b, depth);
    }
  }

  /** The diagram of a mapping is the concatenation of its entries' diagrams, in order. */
  lemma RenderConcat(a: seq<Entry>, b: seq<Entry>, depth: nat)
    ensures Render(a + b, depth) == Render(a, depth) + Render(b, depth)
  {
    PreorderAppend(a, b, depth);
    LayoutAppend(Preorder(a, depth), Preorder(b, depth));
  }

  /** One entry renders as its own line followed immediately by its descendants' lines. */
  lemma RenderSingle(e: Entry, depth: nat)
    ensures Render([e], depth)
         == LineOf(Row(depth, e.name)) + "\n" +
            (if e.value.Dir? then Render(e.value.entries, depth + 1) else "")
  {
    var rows := [Row(depth, e.name)] + Below(e, depth);
    assert [e][1..] == [];
    assert Preorder([e], depth) == rows;
    assert rows[0] == Row(depth, e.name);
    assert rows[1..] == Below(e, depth);
    assert Render([e], depth) == LineOf(Row(depth, e.name)) + "\n" + Layout(Below(e, depth));
    if e.value.Dir? {
      assert Below(e, depth) == Preorder(e.value.entries, depth + 1);
    } else {
      assert Below(e, depth) == [];
    }
  }

  /** Appending the i-th entry's rendering to the rendering of the entries before it. */
  lemma RenderStep(es: seq<Entry>, i: nat, depth: nat)
    requires i < |es|
    ensures Render(es[..i + 1], depth)
         == Render(es[..i], depth) + (LineOf(Row(depth, es[i].name)) + "\n") +
            (if es[i].value.Dir? then Render(es[i].value.entries, depth + 1) else "")
  {
    assert es[..i + 1] == es[..i] + [es[i]];
    RenderConcat(es[..i], [es[i]], depth);
    RenderSingle(es[i], depth);
  }

  /**
   * Pre-order at the level of text: the diagram of a mapping is the diagram
   * of the entries before the i-th, the i-th entry's line, all of the i-th
   * entry's descendants, and then the diagram of the entries after it.
   */
  lemma RenderSplit(es: seq<Entry>, i: nat, depth: nat)
    requires i < |es|
    ensures Render(es, depth)
         == Render(es[..i], depth) + LineOf(Row(depth, es[i].name)) + "\n" +
            (if es[i].value.Dir? then Render(es[i].value.entries, depth + 1) else "") +
            Render(es[i + 1..], depth)
  {
    assert es == es[..i] + [es[i]] + es[i + 1..];
    RenderConcat(es[..i] + [es[i]], es[i + 1..], depth);
    RenderConcat(es[..i], [es[i]], depth);
    RenderSingle(es[i], depth);
  }

  /** There is one row for every entry at every depth. */
  lemma {:induction false} PreorderSize(es: seq<Entry>, depth: nat)
    ensures |Preorder(es, depth)| == Size(es)
  {
    if es != [] {
      if es[0].value.Dir? {
        PreorderSize(es[0].value.entries, depth + 1);
        assert |Below(es[0], depth)| == Size(es[0].value.entries);
      } else {
        assert Below(es[0], depth) == [];
      }
      PreorderSize(es[1..], depth);
    }
  }

  /** A mapping's rows are never shallower than its own entries. */
  lemma {:induction false} PreorderDepth(es: seq<Entry>, depth: nat)
    ensures forall k :: 0 <= k < |Preorder(es, depth)| ==> Preorder(es, depth)[k].depth >= depth
  {
    if es != [] {
      var below := Below(es[0], depth);
      if es[0].value.Dir? {
        PreorderDepth(es[0].value.entries, depth + 1);
        assert below == Preorder(es[0].value.entries, depth + 1);
      } else {
        assert below == [];
      }
      PreorderDepth(es[1..], depth);
      assert Preorder(es, depth) == [Row(depth, es[0].name)] + below + Preorder(es[1..], depth);
    }
  }

  /** Rows carry only names of the tree, so no row breaks a line when no name does. */
  lemma {:induction false} PreorderNoNewline(es: seq<Entry>, depth: nat)
    requires NoNewlineNames(es)
    ensures forall k :: 0 <= k < |Preorder(es, depth)| ==> '\n' !in Preorder(es, depth)[k].name
  {
    if es != [] {
      var below := Below(es[0], depth);
      if es[0].value.Dir? {
        PreorderNoNewline(es[0].value.entries, depth + 1);
        assert below == Preorder(es[0].value.entries, depth + 1);
      } else {
        assert below == [];
      }
      assert forall i :: 0 <= i < |es[1..]| ==> es[1..][i] == es[i + 1];
      PreorderNoNewline(es[1..], depth);
      assert Preorder(es, depth) == [Row(depth, es[0].name)] + below + Preorder(es[1..], depth);
    }
  }

  /**
   * The rows of the entries after a directory at position i all come after
   * every row of that directory's descendants, and all of those are deeper.
   */
  lemma PreorderSplit(es: seq<Entry>, i: nat, depth: nat)
    requires i < |es|
    ensures Preorder(es, depth)
         == Preorder(es[..i], depth) + [Row(depth, es[i].name)] + Below(es[i], depth) +
            Preorder(es[i + 1..], depth)
    ensures forall k :: 0 <= k < |Below(es[i], depth)| ==> Below(es[i], depth)[k].depth > depth
  {
    assert es == es[..i] + ([es[i]] + es[i + 1..]);
    PreorderAppend(es[..i], [es[i]] + es[i + 1..], depth);
    assert ([es[i]] + es[i + 1..])[1..] == es[i + 1..];
    if es[i].value.Dir? {
      PreorderDepth(es[i].value.entries, depth + 1);
    }
  }

  // ---------------------------------------------------------------------
  // Reading the text back as lines
  // ---------------------------------------------------------------------

  /** The index of the first line break of s, or |s| when there is none. */
  function LineEnd(s: string): (k: nat)
    ensures k <= |s|
    ensures forall j :: 0 <= j < k ==> s[j] != '\n'
    ensures k < |s| ==> s[k] == '\n'
  {
    if s == [] || s[0] == '\n' then 0 else 1 + LineEnd(s[1..])
  }

  /** The lines of s, split at each line break; a final line needs no terminator. */
  function SplitLines(s: string): seq<string>
    decreases |s|
  {
    if s == [] then []
    else
      var k := LineEnd(s);
      if k == |s| then [s] else [s[..k]] + SplitLines(s[k + 1..])
  }

  lemma SplitLinesCons(x: string, rest: string)
    requires '\n' !in x
    ensures SplitLines(x + "\n" + rest) == [x] + SplitLines(rest)
  {
    var s := x + "\n" + rest;
    var k := LineEnd(s);
    assert s[|x|] == '\n';
    assert k == |x|;
    assert s[..k] == x;
    assert s[k + 1..] == rest;
  }

  lemma {:induction false} RepeatNoNewline(s: string, n: nat)
    requires '\n' !in s
    ensures '\n' !in Repeat(s, n)
  {
    if n > 0 {
      RepeatNoNewline(s, n - 1);
    }
  }

  /** Laid-out rows read back as exactly those rows' lines. */
  lemma {:induction false} LayoutLines(rows: seq<Row>)
    requires forall k :: 0 <= k < |rows| ==> '\n' !in rows[k].name
    ensures |SplitLines(Layout(rows))| == |rows|
    ensures forall k :: 0 <= k < |rows| ==> SplitLines(Layout(rows))[k] == LineOf(rows[k])
  {
    if rows != [] {
      var line, rest := LineOf(rows[0]), Layout(rows[1..]);
      RepeatNoNewline(Pipe, rows[0].depth);
      assert '\n' !in Branch;
      assert '\n' !in line;
      LayoutLines(rows[1..]);
      SplitLinesCons(line, rest);
      var lines := SplitLines(Layout(rows));
      assert lines == [line] + SplitLines(rest);
      forall k | 0 <= k < |rows|
        ensures lines[k] == LineOf(rows[k])
      {
        if k > 0 {
          assert lines[k] == SplitLines(rest)[k - 1];
          assert rows[1..][k - 1] == rows[k];
        }
      }
    }
  }

  /** Every line of a layout, the last one included, is terminated by a line break. */
  lemma {:induction false} LayoutTerminated(rows: seq<Row>)
    ensures rows != [] ==> Layout(rows)[|Layout(rows)| - 1] == '\n'
  {
    if rows != [] {
      var line, rest := LineOf(rows[0]), Layout(rows[1..]);
      LayoutTerminated(rows[1..]);
      assert Layout(rows) == (line + "\n") + rest;
      if rows[1..] == [] {
        assert rest == "";
      }
    }
  }

  /**
   * The diagram has exactly one line per entry of the tree, at every depth,
   * and the k-th line is `"│   "` repeated by the k-th entry's depth, then
   * `"├── "`, then its name; every line ends with a line break.
   */
  lemma DiagramLines(es: seq<Entry>, depth: nat)
    requires NoNewlineNames(es)
    ensures |SplitLines(Render(es, depth))| == |Preorder(es, depth)| == Size(es)
    ensures forall k :: 0 <= k < |Preorder(es, depth)| ==>
      SplitLines(Render(es, depth))[k]
        == Repeat(Pipe, Preorder(es, depth)[k].depth) + Branch + Preorder(es, depth)[k].name
    ensures Render(es, depth) == "" || Render(es, depth)[|Render(es, depth)| - 1] == '\n'
  {
    PreorderSize(es, depth);
    PreorderNoNewline(es, depth);
    LayoutLines(Preorder(es, depth));
    LayoutTerminated(Preorder(es, depth));
  }

  /** The worked example: `{"a": {"b": "hello"}, "c": "world"}`. */
  lemma ExampleDiagram()
    ensures Render(Example(), 0) == "├── a\n│   ├── b\n├── c\n"
    ensures Document(Example()) == "225lol/\n├── a\n│   ├── b\n├── c\n"
  {
    var a, c := Example()[0], Example()[1];
    ExampleA();
    ExampleC();
    assert [a] + [c] == Example();
    RenderConcat([a], [c], 0);
  }

  lemma ExampleA()
    ensures Render([Example()[0]], 0) == "├── a\n│   ├── b\n"
  {
    var b := Entry("b", File("hello"));
    RenderSingle(b, 1);
    assert Repeat(Pipe, 1) == Pipe;
    assert Render([b], 1) == "│   ├── b\n";
    RenderSingle(Example()[0], 0);
  }

  lemma ExampleC()
    ensures Render([Example()[1]], 0) == "├── c\n"
  {
    RenderSingle(Example()[1], 0);
  }
}
