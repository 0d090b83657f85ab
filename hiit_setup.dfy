/**
 * src/screens/HIITSetupScreen.jsx: the exercise-selection toggle and the guard
 * that disables the start button.
 */
module HiitSetup {

  /** `list.filter((e) => e !== x)`. */
  function Without(list: seq<string>, x: string): (r: seq<string>)
    ensures x !in r
    ensures forall y :: y != x ==> (y in r <==> y in list)
    decreases |list|
  {
    if list == [] then []
    else
      assert list == [list[0]] + list[1..];
      (if list[0] == x then [] else [list[0]]) + Without(list[1..], x)
  }

  /** Filtering keeps every other element as often as it occurred and drops x altogether. */
  lemma {:induction false} WithoutMultiset(list: seq<string>, x: string)
    ensures multiset(Without(list, x)) == multiset(list)[x := 0]
    decreases |list|
  {
    if list != [] {
      WithoutMultiset(list[1..], x);
      assert list == [list[0]] + list[1..];
    }
  }

  /** Filtering distributes over concatenation, so the kept elements stay in their order. */
  lemma {:induction false} WithoutAppend(a: seq<string>, b: seq<string>, x: string)
    ensures Without(a + b, x) == Without(a, x) + Without(b, x)
    decreases |a|
  {
    if a == [] {
      assert a + b == b;
    } else {
      var head := if a[0] == x then [] else [a[0]];
      assert (a + b)[0] == a[0] && (a + b)[1..] == a[1..] + b;
      assert Without(a + b, x) == head + Without(a[1..] + b, x);
      assert Without(a, x) == head + Without(a[1..], x);
      WithoutAppend(a[1..], b, x);
      assert head + (Without(a[1..], x) + Without(b, x)) == (head + Without(a[1..], x)) + Without(b, x);
    }
  }

  /** Filtering out an absent element changes nothing. */
  lemma {:induction false} WithoutAbsent(list: seq<string>, x: string)
    requires x !in list
    ensures Without(list, x) == list
    decreases |list|
  {
    if list != [] {
      assert list[0] in list;
      WithoutAbsent(list[1..], x);
      assert list == [list[0]] + list[1..];
    }
  }

  /** `toggleExercise`: a selected exercise is removed (every occurrence), an unselected one
      is appended at the end. */
  function ToggleExercise(prev: seq<string>, exercise: string): (r: seq<string>)
    ensures exercise in r <==> exercise !in prev
    ensures forall other :: other != exercise ==> (other in r <==> other in prev)
    ensures exercise !in prev ==> |r| == |prev| + 1 && r[..|prev|] == prev && r[|prev|] == exercise
    ensures exercise in prev ==> multiset(r) == multiset(prev)[exercise := 0]
  {
    if exercise in prev then
      WithoutMultiset(prev, exercise);
      Without(prev, exercise)
    else prev + [exercise]
  }

  /** Toggling an unselected exercise twice restores the selection. */
  lemma ToggleTwiceRestores(prev: seq<string>, exercise: string)
    requires exercise !in prev
    ensures ToggleExercise(ToggleExercise(prev, exercise), exercise) == prev
  {
    WithoutAppend(prev, [exercise], exercise);
    WithoutAbsent(prev, exercise);
    assert Without([exercise], exercise) == [];
  }

  /** Removing a selected exercise keeps the other exercises in their order: what is before
      it and what is after it are filtered independently. */
  lemma ToggleRemovesInOrder(before: seq<string>, exercise: string, after: seq<string>)
    requires exercise !in before && exercise !in after
    ensures ToggleExercise(before + [exercise] + after, exercise) == before + after
  {
    var list := before + [exercise] + after;
    assert exercise in list by { assert list[|before|] == exercise; }
    calc {
      Without(list, exercise);
      { WithoutAppend(before + [exercise], after, exercise); }
      Without(before + [exercise], exercise) + Without(after, exercise);
      { WithoutAppend(before, [exercise], exercise); }
      Without(before, exercise) + Without([exercise], exercise) + Without(after, exercise);
      { WithoutAbsent(before, exercise); WithoutAbsent(after, exercise);
        assert Without([exercise], exercise) == []; }
      before + [] + after;
    }
    assert before + [] + after == before + after;
  }

  /** `disabled={selectedExercises.length === 0}`. */
  function StartDisabled(selected: seq<string>): (r: bool)
    ensures r <==> forall e :: e !in selected
  {
    if |selected| == 0 then true
    else
      assert selected[0] in selected;
      false
  }
}
