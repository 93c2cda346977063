/**
 * The selection store of one session: `st.session_state.selected_states`
 * (a list of region names) and `st.session_state.last_click`, with the
 * transitions the page applies to them on a rerun: the map-click toggle,
 * the two bulk buttons and the two columns of checkboxes.
 *
 * The framework's widgets are inputs here. A click arrives as its
 * coordinates and the geometry calls for it; a checkbox's returned value is
 * given by `widget`: a name in `widget` has a stored widget state, which the
 * checkbox returns, and any other checkbox returns its `value=` default.
 */
module Selection {
  import opened Wrappers
  import opened Order
  import opened GeometryIndex
  import opened HitTesting

  /** `s` with the membership of `x` flipped (`remove` if present, else `add`). */
  function Toggled(s: set<string>, x: string): (r: set<string>)
    ensures x in r <==> x !in s
    ensures forall y :: y != x ==> (y in r <==> y in s)
  {
    if x in s then s - {x} else s + {x}
  }

  /** Toggling the same name twice restores the set. */
  lemma ToggledTwice(s: set<string>, x: string)
    ensures Toggled(Toggled(s, x), x) == s
  {
  }

  /**
   * What `st.checkbox(name, value=checked, key=...)` returns: the stored
   * widget state when there is one, and only then can it differ from the
   * `value=` default.
   */
  function CheckboxValue(widget: map<string, bool>, name: string, checked: bool): (r: bool)
    ensures name in widget ==> r == widget[name]
    ensures r != checked ==> name in widget
  {
    if name in widget then widget[name] else checked
  }

  /**
   * The two checkbox columns: `half = (len(names) + 1) // 2`, the first
   * `half` names on the left and the rest on the right.
   */
  function Columns(names: seq<string>): (r: (seq<string>, seq<string>))
    ensures r.0 + r.1 == names
    ensures |r.0| == |r.1| || |r.0| == |r.1| + 1
  {
    var half := (|names| + 1) / 2;
    (names[..half], names[half..])
  }

  class Session {
    /** `state_names` of the geometry index, sorted by `build_geometries`. */
    const stateNames: seq<string>
    /** `st.session_state.selected_states`. */
    var selected: seq<string>
    /** `st.session_state.last_click`, as (lat, lon). */
    var lastClick: Option<(real, real)>

    /** Both the region list and the selection are kept in sorted order. */
    ghost predicate Valid()
      reads this
    {
      Sorted(stateNames) && Sorted(selected)
    }

    /** The session state as first initialised: nothing selected, no click. */
    constructor (stateNames: seq<string>)
      requires Sorted(stateNames)
      ensures Valid()
      ensures this.stateNames == stateNames && selected == [] && lastClick == None
    {
      this.stateNames := stateNames;
      selected := [];
      lastClick := None;
    }

    /**
     * The toggle of a hit name: the membership of `name` flips, that of every
     * other name is kept, and the new selection is sorted without repeats.
     */
    method Toggle(name: string)
      requires Valid()
      modifies this`selected
      ensures Valid() && StrictlySorted(selected)
      ensures Elems(selected) == Toggled(Elems(old(selected)), name)
    {
      var sel := Elems(selected);
      if name in sel {
        sel := sel - {name};
      } else {
        sel := sel + {name};
      }
      selected := SortedList(sel);
      StrictlySortedIsSorted(selected);
    }

    /**
     * A map click at (`lat`, `lon`): it is recorded, and when the hit test
     * names a region, that region's selection is toggled; otherwise the
     * selection is unchanged.
     */
    method OnMapClick<G>(feats: seq<FeatureRecord<G>>, p: Probes<G>, lat: real, lon: real)
      requires Valid()
      modifies this`selected, this`lastClick
      ensures Valid()
      ensures lastClick == Some((lat, lon))
      ensures var h := FirstHit(feats, p, Point(lon, lat));
        if h.Some? && h.value != "" then
          StrictlySorted(selected) && Elems(selected) == Toggled(Elems(old(selected)), h.value)
        else
          selected == old(selected)
    {
      lastClick := Some((lat, lon));
      var hit := HitTest(feats, p, Point(lon, lat));
      if hit.Some? && hit.value != "" {
        Toggle(hit.value);
      }
    }

    /** "Alle auswählen": the selection becomes a copy of the region list. */
    method SelectAll()
      requires Valid()
      modifies this`selected
      ensures Valid() && selected == stateNames
    {
      selected := stateNames;
    }

    /** "Alle abwählen": the selection becomes empty. */
    method SelectNone()
      requires Valid()
      modifies this`selected
      ensures Valid() && selected == []
    {
      selected := [];
    }

    /**
     * `render_checks(names, col)`: starting from the current selection, every
     * name of `names` is selected exactly when its checkbox returns true;
     * every other name keeps its membership. The result is sorted without
     * repeats. The store itself is not changed here.
     */
    method RenderChecks(names: seq<string>, widget: map<string, bool>) returns (after: seq<string>)
      ensures StrictlySorted(after)
      ensures forall x :: x in names ==> (x in after <==> CheckboxValue(widget, x, x in selected))
      ensures forall x :: x !in names ==> (x in after <==> x in selected)
    {
      var updated := Elems(selected);
      for i := 0 to |names|
        invariant forall x :: x in updated <==>
          if x in names[..i] then CheckboxValue(widget, x, x in selected) else x in selected
      {
        var nm := names[i];
        var checked := nm in updated;
        var newVal := CheckboxValue(widget, nm, checked);
        if newVal && !checked {
          updated := updated + {nm};
        }
        if !newVal && checked {
          updated := updated - {nm};
        }
        assert names[..i + 1] == names[..i] + [nm];
      }
      assert names[..|names|] == names;
      after := SortedList(updated);
    }

    /**
     * Both checkbox columns, the left one first and its result stored before
     * the right one is rendered: every region's membership follows its
     * checkbox, and names outside the region list keep theirs.
     */
    method SyncCheckboxes(widget: map<string, bool>)
      requires Valid()
      modifies this`selected
      ensures Valid() && StrictlySorted(selected)
      ensures forall x :: x in stateNames ==> (x in selected <==> CheckboxValue(widget, x, x in old(selected)))
      ensures forall x :: x !in stateNames ==> (x in selected <==> x in old(selected))
    {
      var columns := Columns(stateNames);
      var afterA := RenderChecks(columns.0, widget);
      selected := afterA;
      var afterB := RenderChecks(columns.1, widget);
      selected := afterB;
      StrictlySortedIsSorted(selected);
      assert forall x :: x in stateNames <==> x in columns.0 || x in columns.1;
    }
  }
}
