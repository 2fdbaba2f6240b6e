/**
 * The structure description that both the materialiser and the diagram
 * renderer walk: an ordered mapping from a name to either a nested mapping
 * (a directory) or a string (the contents of a file).  This is the value
 * that `json.load` hands to `create_structure` and `generate_diagram`;
 * insertion order is kept, as in a Python dict.
 */
module Tree {

  /** What one name maps to: a nested mapping, or the text of a file. */
  datatype Node = Dir(entries: seq<Entry>) | File(content: string)

  /** One key/value pair of a mapping, in the mapping's order. */
  datatype Entry = Entry(name: string, value: Node)

  /** The names of one mapping's own entries (not of its descendants). */
  function Names(es: seq<Entry>): set<string>
  {
    set i | 0 <= i < |es| :: es[i].name
  }

  /** A dict cannot hold the same key twice. */
  predicate DistinctNames(es: seq<Entry>)
  {
    forall i, j :: 0 <= i < j < |es| ==> es[i].name != es[j].name
  }

  /** Distinct names in this mapping and in every nested one. */
  predicate WellFormed(es: seq<Entry>)
  {
    DistinctNames(es) &&
    forall i :: 0 <= i < |es| && es[i].value.Dir? ==> WellFormed(es[i].value.entries)
  }

  /** The number of entries of the mapping, counted at every depth. */
  function Size(es: seq<Entry>): nat
  {
    if es == [] then 0
    else 1 + (if es[0].value.Dir? then Size(es[0].value.entries) else 0) + Size(es[1..])
  }

  /** No name, at any depth, holds a line break. */
  predicate NoNewlineNames(es: seq<Entry>)
  {
    forall i :: 0 <= i < |es| ==>
      '\n' !in es[i].name &&
      (es[i].value.Dir? ==> NoNewlineNames(es[i].value.entries))
  }

  /** The mapping `{"a": {"b": "hello"}, "c": "world"}`. */
  function Example(): seq<Entry>
  {
    [Entry("a", Dir([Entry("b", File("hello"))])), Entry("c", File("world"))]
  }
}
