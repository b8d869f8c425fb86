/** The category check-box list (Categoryfilter.tsx): ticking or unticking a
    category builds a new selection list and hands it to the page's setter. */
module CategoryFilter {
  import opened Sequences

  /** `selected.filter((c) => c !== value)`. */
  function Without(selected: seq<string>, value: string): (r: seq<string>)
    ensures value !in r
    ensures forall c :: c != value ==> multiset(r)[c] == multiset(selected)[c]
    ensures forall c :: c != value ==> (c in r <==> c in selected)
    ensures IsSubsequence(r, selected)
    decreases |selected|
  {
    if selected == [] then []
    else
      var rest := Without(selected[1..], value);
      assert selected == [selected[0]] + selected[1..];
      if selected[0] == value then
        assert IsSubsequence(rest, selected) by {
          if rest != [] { assert rest[0] != selected[0]; }
        }
        rest
      else
        assert ([selected[0]] + rest)[1..] == rest;
        [selected[0]] + rest
  }

  /** A checkbox is ticked exactly when its category is in the selection. */
  predicate IsChecked(selected: seq<string>, category: string)
  {
    category in selected
  }

  /** handleCheckBoxChange: remove a selected category, or append an unselected one. */
  function ToggleCategory(selected: seq<string>, value: string): (r: seq<string>)
    ensures IsChecked(r, value) <==> !IsChecked(selected, value)
    ensures forall c :: c != value ==> (c in r <==> c in selected)
    ensures value in selected ==> r == Without(selected, value)
    ensures value !in selected ==> |r| == |selected| + 1 && r[..|selected|] == selected && r[|selected|] == value
  {
    if value in selected then Without(selected, value) else selected + [value]
  }

  lemma {:induction false} WithoutAbsent(selected: seq<string>, value: string)
    requires value !in selected
    ensures Without(selected, value) == selected
    decreases |selected|
  {
    if selected != [] {
      WithoutAbsent(selected[1..], value);
      assert [selected[0]] + selected[1..] == selected;
    }
  }

  lemma {:induction false} WithoutAppended(selected: seq<string>, value: string)
    ensures Without(selected + [value], value) == Without(selected, value)
    decreases |selected|
  {
    if selected == [] {
      assert Without([value], value) == Without([value][1..], value);
    } else {
      assert (selected + [value])[1..] == selected[1..] + [value];
      WithoutAppended(selected[1..], value);
    }
  }

  /** Ticking an unticked category and then unticking it restores the original list. */
  lemma ToggleTwiceRestores(selected: seq<string>, value: string)
    requires value !in selected
    ensures ToggleCategory(ToggleCategory(selected, value), value) == selected
  {
    WithoutAppended(selected, value);
    WithoutAbsent(selected, value);
  }

  lemma {:induction false} WithoutKeepsNoDuplicates(selected: seq<string>, value: string)
    requires NoDuplicates(selected)
    ensures NoDuplicates(Without(selected, value))
    decreases |selected|
  {
    if selected != [] {
      var tail := selected[1..];
      NoDuplicatesTail(selected);
      WithoutKeepsNoDuplicates(tail, value);
      if selected[0] != value {
        assert selected[0] !in tail;
        assert selected[0] !in Without(tail, value);
        NoDuplicatesPrepend(selected[0], Without(tail, value));
      }
    }
  }

  /** A selection without repeats stays without repeats after a toggle. */
  lemma ToggleKeepsNoDuplicates(selected: seq<string>, value: string)
    requires NoDuplicates(selected)
    ensures NoDuplicates(ToggleCategory(selected, value))
  {
    if value in selected {
      WithoutKeepsNoDuplicates(selected, value);
    }
  }
}
