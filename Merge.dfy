/**
 * `merge_notebooks` (tasks.py): the first notebook read becomes the
 * accumulator, every later notebook's cells are appended to it in place, and
 * finally its metadata name gets the suffix `_merged`.
 *
 * Reading and parsing a notebook file is replaced by taking its parsed
 * contents; each one still becomes a new notebook object, as a fresh read does.
 */
module Merge {
  import opened Wrappers

  datatype CellKind = Code | Markdown | Raw

  /** A notebook cell; its contents are carried along, never inspected. */
  datatype Cell = Cell(kind: CellKind, source: string)

  /** What parsing one notebook file yields: its cells and its optional metadata name. */
  datatype Parsed = Parsed(cells: seq<Cell>, name: Option<string>)

  /** Why a merge produced no notebook. */
  datatype MergeError = NoNotebooks

  /** The suffix appended to the merged notebook's name. */
  const Suffix := "_merged"

  /** A notebook object: a cell list grown in place and a metadata name. */
  class Notebook {
    var cells: seq<Cell>
    var name: Option<string>

    /** The notebook object a read of a file with these contents produces. */
    constructor (parsed: Parsed)
      ensures cells == parsed.cells && name == parsed.name
    {
      cells := parsed.cells;
      name := parsed.name;
    }

    /** `cells.extend(more)`: appends in order, keeping the name. */
    method Extend(more: seq<Cell>)
      modifies this
      ensures cells == old(cells) + more && name == old(name)
    {
      cells := cells + more;
    }

    /** Gives the name the suffix, starting from "" when there is none. */
    method MarkMerged()
      modifies this
      ensures cells == old(cells)
      ensures name == Some(MergedName(old(name)))
    {
      if name.None? {
        name := Some("");
      }
      name := Some(name.value + Suffix);
    }
  }

  /** The cells of `docs`, concatenated in input order. */
  function AllCells(docs: seq<Parsed>): seq<Cell> {
    if docs == [] then [] else AllCells(docs[..|docs| - 1]) + docs[|docs| - 1].cells
  }

  /** Number of cells in `docs`, counted notebook by notebook from the front. */
  function TotalCells(docs: seq<Parsed>): nat {
    if docs == [] then 0 else |docs[0].cells| + TotalCells(docs[1..])
  }

  /** The merged name: the first notebook's name, or "", followed by `_merged`. */
  function MergedName(first: Option<string>): (n: string)
    ensures |n| >= |Suffix| && n[|n| - |Suffix|..] == Suffix
    ensures first.Some? ==> n[..|n| - |Suffix|] == first.value
    ensures first.None? ==> n == Suffix
  {
    match first
    case Some(base) => base + Suffix
    case None => "" + Suffix
  }

  /**
   * `merge_notebooks`: on a non-empty input, a new notebook object whose cells
   * are all the inputs' cells in order and whose name is the first input's
   * name with the suffix; on an empty input, an error.
   */
  method MergeNotebooks(docs: seq<Parsed>) returns (r: Result<Notebook, MergeError>)
    ensures r.Failure? <==> docs == []
    ensures r.Success? ==> fresh(r.value)
    ensures r.Success? ==> r.value.cells == AllCells(docs) && r.value.name == Some(MergedName(docs[0].name))
    ensures r.Success? && |docs| == 1 ==> r.value.cells == docs[0].cells
  {
    var merged: Notebook? := null;
    for i := 0 to |docs|
      invariant (merged == null) <==> i == 0
      invariant merged != null ==> fresh(merged)
      invariant merged != null ==> merged.cells == AllCells(docs[..i]) && merged.name == docs[0].name
    {
      var nb := new Notebook(docs[i]);
      if merged == null {
        merged := nb;
        assert docs[..1] == [docs[0]];
      } else {
        assert docs[..i + 1][..i] == docs[..i];
        merged.Extend(nb.cells);
      }
    }
    if merged == null {
      return Failure(NoNotebooks);
    }
    assert docs[..|docs|] == docs;
    merged.MarkMerged();
    if |docs| == 1 {
      assert AllCells(docs) == AllCells([]) + docs[0].cells;
    }
    return Success(merged);
  }

  // ----- Properties of the merge -----

  /** Concatenating the inputs' cells distributes over splitting the input list. */
  lemma {:induction false} AllCellsAppend(a: seq<Parsed>, b: seq<Parsed>)
    ensures AllCells(a + b) == AllCells(a) + AllCells(b)
    decreases |b|
  {
    if b == [] {
      assert a + b == a;
    } else {
      var last := |b| - 1;
      assert (a + b)[..|a + b| - 1] == a + b[..last];
      AllCellsAppend(a, b[..last]);
      assert b[..last] + [b[last]] == b;
      assert AllCells(b) == AllCells(b[..last]) + b[last].cells;
    }
  }

  /** The first notebook's cells come first, then the rest in order. */
  lemma AllCellsFront(docs: seq<Parsed>)
    requires docs != []
    ensures AllCells(docs) == docs[0].cells + AllCells(docs[1..])
  {
    assert docs == [docs[0]] + docs[1..];
    AllCellsAppend([docs[0]], docs[1..]);
    assert AllCells([docs[0]]) == AllCells([]) + docs[0].cells;
  }

  /** The merged cell count is the sum of the inputs' cell counts: nothing added or lost. */
  lemma {:induction false} MergedCellCount(docs: seq<Parsed>)
    ensures |AllCells(docs)| == TotalCells(docs)
  {
    if docs != [] {
      AllCellsFront(docs);
      MergedCellCount(docs[1..]);
    }
  }

  /**
   * Order: cell `j` of notebook `i` sits in the merged list right after the
   * cells of the notebooks before `i`.
   */
  lemma {:induction false} MergedCellAt(docs: seq<Parsed>, i: nat, j: nat)
    requires i < |docs| && j < |docs[i].cells|
    ensures TotalCells(docs[..i]) + j < |AllCells(docs)|
    ensures AllCells(docs)[TotalCells(docs[..i]) + j] == docs[i].cells[j]
  {
    AllCellsFront(docs);
    MergedCellCount(docs[1..]);
    if i > 0 {
      MergedCellAt(docs[1..], i - 1, j);
      assert docs[1..][..i - 1] == docs[..i][1..];
      assert docs[1..][i - 1] == docs[i];
    }
  }
}
