/**
 * The sidebar: the fixed catalogue of sample files, one item per name, and
 * the loop that gives the `active` class to exactly the items whose label is
 * the chosen file name.
 */
module Sidebar {

  /** The sample files listed in the sidebar, in display order. */
  const HtmlFiles: seq<string> := [
    "3d_button.html", "anchor.html", "button.html", "css_grid.html", "div1.html",
    "div2.html", "font_family.html", "formatting.html", "headings.html", "img.html",
    "inline_alignment.html", "List.html", "mail.html", "psudo_classes.html",
    "table.html", "text.html", "text2.html"
  ]

  ghost predicate Distinct(labels: seq<string>) {
    forall i, j :: 0 <= i < j < |labels| ==> labels[i] != labels[j]
  }

  /** Which items carry `active` after choosing `filename`: those whose label equals it. */
  function ActiveMarks(labels: seq<string>, filename: string): (marks: seq<bool>)
    ensures |marks| == |labels|
    ensures forall i :: 0 <= i < |marks| ==> (marks[i] <==> labels[i] == filename)
  {
    seq(|labels|, i requires 0 <= i < |labels| => labels[i] == filename)
  }

  function CountActive(marks: seq<bool>): nat {
    if marks == [] then 0 else (if marks[0] then 1 else 0) + CountActive(marks[1..])
  }

  /** With distinct labels, choosing a listed name marks exactly one item, any other name none. */
  lemma {:induction false} ExactlyOneActive(labels: seq<string>, filename: string)
    requires Distinct(labels)
    ensures CountActive(ActiveMarks(labels, filename)) == if filename in labels then 1 else 0
  {
    if labels != [] {
      var marks := ActiveMarks(labels, filename);
      assert marks[1..] == ActiveMarks(labels[1..], filename);
      ExactlyOneActive(labels[1..], filename);
      if labels[0] == filename {
        assert filename !in labels[1..] by {
          forall j | 0 <= j < |labels[1..]| ensures labels[1..][j] != filename {
            assert labels[1..][j] == labels[j + 1];
          }
        }
      } else {
        assert filename in labels <==> filename in labels[1..] by {
          assert labels == [labels[0]] + labels[1..];
        }
      }
    }
  }

  lemma CatalogDistinct()
    ensures Distinct(HtmlFiles)
  {
  }

  /** Choosing any sample of the catalogue marks exactly one sidebar item. */
  lemma CatalogChoiceMarksOne(filename: string)
    requires filename in HtmlFiles
    ensures CountActive(ActiveMarks(HtmlFiles, filename)) == 1
  {
    CatalogDistinct();
    ExactlyOneActive(HtmlFiles, filename);
  }

  /** The sidebar's items: a label each and whether its class list holds `active`. */
  class FileList {
    const labels: seq<string>
    const active: array<bool>

    ghost predicate Valid() {
      active.Length == |labels|
    }

    /** One item per name, in order, none of them active. */
    constructor (names: seq<string>)
      ensures Valid() && fresh(active)
      ensures labels == names && active[..] == seq(|names|, _ => false)
    {
      labels := names;
      active := new bool[|names|](_ => false);
    }

    /** Remove `active` from every item, then add it to those labelled `filename`. */
    method MarkActive(filename: string)
      requires Valid()
      modifies active
      ensures Valid()
      ensures active[..] == ActiveMarks(labels, filename)
    {
      for i := 0 to active.Length
        invariant forall j :: 0 <= j < i ==> active[j] == (labels[j] == filename)
      {
        active[i] := false;
        if labels[i] == filename {
          active[i] := true;
        }
      }
    }
  }
}
