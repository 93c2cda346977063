/**
 * The two strings the PDF export builds from the selection: the title line
 * drawn on the page and the label the download file is named after.
 * The drawing itself is not modelled.
 */
module PdfExport {

  /** The fixed part of the title line. */
  const TITLE: string := "Deutschland – Bundesländer & Großstädte"

  /** The fixed part of the download label. */
  const LABEL_STEM: string := "Deutschlandkarte"

  /** The number of characters in all of `xs` together. */
  function TotalLength(xs: seq<string>): nat {
    if xs == [] then 0 else |xs[0]| + TotalLength(xs[1..])
  }

  /**
   * `sep.join(xs)`: empty for no elements; otherwise exactly the characters of
   * the elements and one separator between each two neighbours.
   */
  function Join(sep: string, xs: seq<string>): (r: string)
    ensures xs == [] ==> r == ""
    ensures xs != [] ==> |r| == TotalLength(xs) + (|xs| - 1) * |sep|
  {
    if |xs| == 0 then ""
    else if |xs| == 1 then xs[0]
    else xs[0] + sep + Join(sep, xs[1..])
  }

  /** `sep.join(xs)` starts with the first element and ends with the last one. */
  lemma {:induction false} JoinEnds(sep: string, xs: seq<string>)
    requires xs != []
    ensures |xs[0]| <= |Join(sep, xs)| && Join(sep, xs)[..|xs[0]|] == xs[0]
    ensures |xs[|xs| - 1]| <= |Join(sep, xs)| && Join(sep, xs)[|Join(sep, xs)| - |xs[|xs| - 1]|..] == xs[|xs| - 1]
  {
    if |xs| > 1 {
      JoinEnds(sep, xs[1..]);
      assert xs[1..][|xs| - 2] == xs[|xs| - 1];
    }
  }

  /**
   * Joining two non-empty lists one after the other is joining their
   * concatenation: the pieces appear in list order with `sep` between them.
   */
  lemma {:induction false} JoinAppend(sep: string, xs: seq<string>, ys: seq<string>)
    requires xs != [] && ys != []
    ensures Join(sep, xs + ys) == Join(sep, xs) + sep + Join(sep, ys)
  {
    if |xs| == 1 {
      assert (xs + ys)[1..] == ys;
    } else {
      assert (xs + ys)[1..] == xs[1..] + ys;
      JoinAppend(sep, xs[1..], ys);
    }
  }

  /** `a` occurs in `b` starting at position `k`. */
  ghost predicate InfixAt(a: string, b: string, k: int) {
    0 <= k && k + |a| <= |b| && b[k..k + |a|] == a
  }

  /** `a` occurs in `b` as a contiguous piece. */
  ghost predicate IsInfix(a: string, b: string) {
    exists k :: InfixAt(a, b, k)
  }

  lemma InfixExtend(a: string, b: string, pre: string, post: string)
    requires IsInfix(a, b)
    ensures IsInfix(a, pre + b + post)
  {
    var k :| InfixAt(a, b, k);
    var t := pre + b + post;
    assert t[|pre| + k..|pre| + k + |a|] == b[k..k + |a|];
    assert InfixAt(a, t, |pre| + k);
  }

  /** Every element of `xs` occurs, contiguously, in `sep.join(xs)`. */
  lemma {:induction false} JoinListsEvery(sep: string, xs: seq<string>, i: nat)
    requires i < |xs|
    ensures IsInfix(xs[i], Join(sep, xs))
  {
    if |xs| == 1 || i == 0 {
      assert Join(sep, xs)[0..|xs[0]|] == xs[0];
      assert InfixAt(xs[0], Join(sep, xs), 0);
    } else {
      JoinListsEvery(sep, xs[1..], i - 1);
      InfixExtend(xs[i], Join(sep, xs[1..]), xs[0] + sep, "");
      assert xs[0] + sep + Join(sep, xs[1..]) + "" == Join(sep, xs);
    }
  }

  /** A character found neither in `sep` nor in any element is not in `sep.join(xs)`. */
  lemma {:induction false} JoinAvoids(sep: string, xs: seq<string>, c: char)
    requires c !in sep
    requires forall i :: 0 <= i < |xs| ==> c !in xs[i]
    ensures c !in Join(sep, xs)
  {
    if |xs| > 1 {
      JoinAvoids(sep, xs[1..], c);
    }
  }

  /** `s.replace(' ', '_')`: every space becomes an underscore, nothing else moves. */
  function Underscored(s: string): (r: string)
    ensures |r| == |s|
    ensures forall i :: 0 <= i < |s| ==> r[i] == (if s[i] == ' ' then '_' else s[i])
    ensures ' ' !in r
  {
    if s == [] then [] else [if s[0] == ' ' then '_' else s[0]] + Underscored(s[1..])
  }

  /**
   * The title line: `TITLE`, followed by `" (markiert: "`, the selected names
   * joined with `", "` and `")"` exactly when something is selected.
   */
  function Title(selected: seq<string>): (t: string)
    ensures |t| >= |TITLE| && t[..|TITLE|] == TITLE
    ensures t == TITLE <==> selected == []
    ensures selected != [] ==> |t| > |TITLE| + 12 && t[|TITLE|..|TITLE| + 12] == " (markiert: " && t[|t| - 1] == ')'
    ensures selected != [] ==> t[|TITLE| + 12..|t| - 1] == Join(", ", selected)
  {
    if selected == [] then TITLE
    else
      var names := Join(", ", selected);
      var t := TITLE + " (markiert: " + names + ")";
      assert t[|TITLE| + 12..|t| - 1] == names;
      t
  }

  /** Every selected name appears in the title line. */
  lemma TitleListsSelected(selected: seq<string>, i: nat)
    requires i < |selected|
    ensures IsInfix(selected[i], Title(selected))
  {
    JoinListsEvery(", ", selected, i);
    InfixExtend(selected[i], Join(", ", selected), TITLE + " (markiert: ", ")");
  }

  /**
   * The download label: `LABEL_STEM` alone when nothing is selected,
   * otherwise `LABEL_STEM + "_"` followed by the selected names, spaces
   * replaced by underscores, joined with `"_"`.
   */
  function Label(selected: seq<string>): (r: string)
    ensures selected == [] ==> r == LABEL_STEM
    ensures selected != [] ==> |r| > |LABEL_STEM| && r[..|LABEL_STEM| + 1] == LABEL_STEM + "_"
    ensures selected != [] ==> r[|LABEL_STEM| + 1..] == Join("_", UnderscoredAll(selected))
  {
    if selected == [] then LABEL_STEM
    else
      var names := Join("_", UnderscoredAll(selected));
      var r := LABEL_STEM + "_" + names;
      assert r[|LABEL_STEM| + 1..] == names;
      r
  }

  /** The selected names with spaces replaced, one for one. */
  function UnderscoredAll(selected: seq<string>): (r: seq<string>)
    ensures |r| == |selected| && forall i :: 0 <= i < |r| ==> r[i] == Underscored(selected[i])
  {
    seq(|selected|, i requires 0 <= i < |selected| => Underscored(selected[i]))
  }

  /** The label never contains a space. */
  lemma LabelHasNoSpaces(selected: seq<string>)
    ensures ' ' !in Label(selected)
  {
    if selected != [] {
      JoinAvoids("_", UnderscoredAll(selected), ' ');
    }
  }

  /** Every selected name, with its spaces replaced, appears in the label. */
  lemma LabelListsSelected(selected: seq<string>, i: nat)
    requires i < |selected|
    ensures IsInfix(Underscored(selected[i]), Label(selected))
  {
    var parts := UnderscoredAll(selected);
    JoinListsEvery("_", parts, i);
    InfixExtend(parts[i], Join("_", parts), LABEL_STEM + "_", "");
    assert LABEL_STEM + "_" + Join("_", parts) + "" == Label(selected);
  }

  /**
   * Selecting one more name extends the title in order: the new name follows
   * the earlier ones after `", "`, just before the closing `")"`.
   */
  lemma TitleAppend(selected: seq<string>, x: string)
    requires selected != []
    ensures Title(selected + [x]) == Title(selected)[..|Title(selected)| - 1] + ", " + x + ")"
  {
    var pre := TITLE + " (markiert: " + Join(", ", selected);
    JoinAppend(", ", selected, [x]);
    TitleShape(selected);
    TitleShape(selected + [x]);
    assert (pre + ")")[..|pre|] == pre;
    Reassociate(TITLE + " (markiert: ", Join(", ", selected), ", ", x);
  }

  /**
   * A non-empty selection's title is the fixed part, the marker, the joined
   * names and `")"`. Stated on its own so that `TitleAppend` stays cheap to verify.
   */
  lemma TitleShape(selected: seq<string>)
    requires selected != []
    ensures Title(selected) == TITLE + " (markiert: " + Join(", ", selected) + ")"
  {
  }

  /**
   * Selecting one more name extends the label in order: the new name, spaces
   * replaced, follows the earlier ones after `"_"`.
   */
  lemma LabelAppend(selected: seq<string>, x: string)
    requires selected != []
    ensures Label(selected + [x]) == Label(selected) + "_" + Underscored(x)
  {
    var u := Underscored(x);
    var parts := UnderscoredAll(selected);
    UnderscoredAllAppend(selected, x);
    var joined := Join("_", parts);
    JoinAppend("_", parts, [u]);
    LabelShape(selected);
    LabelShape(selected + [x]);
    Reassociate(LABEL_STEM + "_", joined, "_", u);
  }

  /**
   * A non-empty selection's label is the stem, `"_"` and the joined names.
   * Stated on its own so that `LabelAppend` stays cheap to verify.
   */
  lemma LabelShape(selected: seq<string>)
    requires selected != []
    ensures Label(selected) == LABEL_STEM + "_" + Join("_", UnderscoredAll(selected))
  {
  }

  /** Regrouping a concatenation; a separate step keeps the append proofs cheap. */
  lemma Reassociate(a: string, b: string, c: string, d: string)
    ensures a + (b + c + d) == a + b + c + d
  {
  }

  /** Replacing spaces name by name commutes with appending a name. */
  lemma UnderscoredAllAppend(selected: seq<string>, x: string)
    ensures UnderscoredAll(selected + [x]) == UnderscoredAll(selected) + [Underscored(x)]
  {
    var parts := UnderscoredAll(selected);
    var all := UnderscoredAll(selected + [x]);
    assert forall i :: 0 <= i < |selected| ==> all[i] == parts[i] by {
      forall i | 0 <= i < |selected| ensures all[i] == parts[i] {
        assert (selected + [x])[i] == selected[i];
      }
    }
  }

  /** The download file name `f"{label}.pdf"`. */
  function FileName(selected: seq<string>): (r: string)
    ensures ' ' !in r
    ensures |r| >= 4 && r[|r| - 4..] == ".pdf"
    ensures r[..|r| - 4] == Label(selected)
  {
    LabelHasNoSpaces(selected);
    Label(selected) + ".pdf"
  }
}
