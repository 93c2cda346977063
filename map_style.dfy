/**
 * Which regions the interactive map draws in the "selected" style. The
 * style function names a feature with the same `or` chain as
 * `build_geometries`, but without the final "Unbekannt" fallback, and
 * highlights the feature when that name is in the selection. The colours
 * themselves are not modelled.
 */
module MapStyle {
  import opened Wrappers
  import opened GeometryIndex

  /**
   * The name the style function computes, as written: the first non-empty
   * name value; when there is none, the chain yields its last operand,
   * `props.get("id")`, which is then absent (`None`) or empty.
   */
  function StyleName(props: Props): (r: Option<string>)
    ensures FirstNonEmpty(props, NAME_KEYS).Some? ==> r == FirstNonEmpty(props, NAME_KEYS)
    ensures FirstNonEmpty(props, NAME_KEYS).None? ==> (r.None? || r == Some(""))
  {
    match FirstNonEmpty(props, NAME_KEYS)
    case Some(v) => Some(v)
    case None =>
      assert Lookup(props, NAME_KEYS[4]) == "";
      if "id" in props then Some(props["id"]) else None
  }

  /** `nm in st.session_state.selected_states`, as written. */
  predicate HighlightedAsWritten(props: Props, selected: seq<string>) {
    match StyleName(props)
    case Some(nm) => nm in selected
    case None => false
  }

  /**
   * A region none of whose name keys has a value is called "Unbekannt" and
   * can be selected by a click, yet the map never draws it selected, while
   * the PDF export (which compares the resolved name) does.
   */
  lemma UnnamedRegionNeverHighlighted(props: Props, selected: seq<string>)
    requires forall i :: 0 <= i < |NAME_KEYS| ==> Lookup(props, NAME_KEYS[i]) == ""
    requires "" !in selected
    ensures ResolveName(props) == UNKNOWN_NAME
    ensures !HighlightedAsWritten(props, selected)
  {
  }

  /** The concrete case: no properties at all, "Unbekannt" selected. */
  lemma UnnamedRegionCounterexample()
    ensures ResolveName(map[]) == UNKNOWN_NAME
    ensures !HighlightedAsWritten(map[], [UNKNOWN_NAME])
  {
    UnnamedRegionNeverHighlighted(map[], [UNKNOWN_NAME]);
  }

  /** The evidently intended test: the region's resolved name is selected. */
  predicate Highlighted(props: Props, selected: seq<string>) {
    ResolveName(props) in selected
  }

  /**
   * The intended test agrees with the written one for every region that has
   * a name value.
   */
  lemma HighlightedAgreesWhenNamed(props: Props, selected: seq<string>)
    requires FirstNonEmpty(props, NAME_KEYS).Some?
    ensures HighlightedAsWritten(props, selected) <==> Highlighted(props, selected)
  {
  }
}
