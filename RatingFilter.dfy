/**
  The age-rating filter modal: a working selection (`tempSelected`) edited
  by toggling ratings, a dirty flag telling whether it differs from the
  applied selection (`selectedRatings`, owned by the parent screen), and
  one footer button that either applies the working selection or clears
  the applied filter.
 */
module RatingFilter {
  import StringSort

  /**
    `areArraysEqual`: lengths first, then both arrays sorted and compared
    position by position (`every`, where an index past the end of the
    second array compares against `undefined` and fails).
   */
  function ArraysEqual(arr1: seq<string>, arr2: seq<string>): bool {
    if |arr1| != |arr2| then false
    else EveryMatches(StringSort.Sort(arr1), StringSort.Sort(arr2))
  }

  predicate EveryMatches(xs: seq<string>, ys: seq<string>) {
    forall i :: 0 <= i < |xs| ==> i < |ys| && xs[i] == ys[i]
  }

  /**
    The comparison is multiset equality: the same ratings with the same
    multiplicities, in any order. In particular lists of different
    lengths are never equal.
   */
  lemma ArraysEqualIffSameMultiset(arr1: seq<string>, arr2: seq<string>)
    ensures ArraysEqual(arr1, arr2) <==> multiset(arr1) == multiset(arr2)
    ensures |arr1| != |arr2| ==> !ArraysEqual(arr1, arr2)
  {
    var s1, s2 := StringSort.Sort(arr1), StringSort.Sort(arr2);
    StringSort.SortIsSortedPermutation(arr1);
    StringSort.SortIsSortedPermutation(arr2);
    assert |s1| == |multiset(s1)| == |arr1|;
    assert |s2| == |multiset(s2)| == |arr2|;
    if multiset(arr1) == multiset(arr2) {
      assert |arr1| == |multiset(arr1)| == |multiset(arr2)| == |arr2|;
      StringSort.SortedUnique(s1, s2);
    }
    if ArraysEqual(arr1, arr2) {
      assert s1 == s2;
    }
  }

  /** The comparison is an equivalence: reflexive, symmetric and transitive. */
  lemma ArraysEqualIsEquivalence(a: seq<string>, b: seq<string>, c: seq<string>)
    ensures ArraysEqual(a, a)
    ensures ArraysEqual(a, b) == ArraysEqual(b, a)
    ensures ArraysEqual(a, b) && ArraysEqual(b, c) ==> ArraysEqual(a, c)
  {
    ArraysEqualIffSameMultiset(a, a);
    ArraysEqualIffSameMultiset(a, b);
    ArraysEqualIffSameMultiset(b, a);
    ArraysEqualIffSameMultiset(b, c);
    ArraysEqualIffSameMultiset(a, c);
  }

  /** `selection.filter(r => r !== rating)`. */
  function RemoveAll(selection: seq<string>, rating: string): (r: seq<string>)
    ensures multiset(r) == multiset(selection)[rating := 0]
    decreases |selection|
  {
    if selection == [] then []
    else
      assert selection == [selection[0]] + selection[1..];
      if selection[0] == rating then RemoveAll(selection[1..], rating)
      else [selection[0]] + RemoveAll(selection[1..], rating)
  }

  /** The new working selection after the row for `rating` is pressed. */
  function Toggled(selection: seq<string>, rating: string): seq<string> {
    if rating in selection then RemoveAll(selection, rating)
    else selection + [rating]
  }

  ghost predicate NoDuplicates(s: seq<string>) {
    forall i, j :: 0 <= i < j < |s| ==> s[i] != s[j]
  }

  /** Filtering out one value keeps the order of the others. */
  lemma {:induction false} RemoveAllAppend(s: seq<string>, t: seq<string>, rating: string)
    ensures RemoveAll(s + t, rating) == RemoveAll(s, rating) + RemoveAll(t, rating)
    decreases |s|
  {
    if s != [] {
      assert (s + t)[0] == s[0] && (s + t)[1..] == s[1..] + t;
      RemoveAllAppend(s[1..], t, rating);
      if s[0] != rating {
        assert RemoveAll(s + t, rating) == [s[0]] + RemoveAll(s[1..] + t, rating);
        assert RemoveAll(s, rating) == [s[0]] + RemoveAll(s[1..], rating);
      } else {
        assert RemoveAll(s + t, rating) == RemoveAll(s[1..] + t, rating);
        assert RemoveAll(s, rating) == RemoveAll(s[1..], rating);
      }
    } else {
      assert s + t == t;
    }
  }

  lemma {:induction false} RemoveAllAbsent(s: seq<string>, rating: string)
    requires rating !in s
    ensures RemoveAll(s, rating) == s
    decreases |s|
  {
    if s != [] {
      RemoveAllAbsent(s[1..], rating);
      assert s == [s[0]] + s[1..];
    }
  }

  /**
    Toggling removes every occurrence of a present rating and appends an
    absent one at the end; the rating's membership flips, the other
    ratings keep their multiplicities, and with the toggled rating filtered
    out both selections are the same sequence (so the others keep their
    relative order).
   */
  lemma ToggleEffect(selection: seq<string>, rating: string)
    ensures rating in selection ==> multiset(Toggled(selection, rating))[rating] == 0
    ensures rating !in selection ==> Toggled(selection, rating) == selection + [rating]
    ensures (rating in Toggled(selection, rating)) <==> (rating !in selection)
    ensures forall other :: other != rating ==>
      multiset(Toggled(selection, rating))[other] == multiset(selection)[other]
    ensures RemoveAll(Toggled(selection, rating), rating) == RemoveAll(selection, rating)
  {
    var t := Toggled(selection, rating);
    if rating in selection {
      assert rating !in multiset(t);
      RemoveAllAbsent(t, rating);
    } else {
      RemoveAllAppend(selection, [rating], rating);
      assert RemoveAll([rating], rating) == [];
      assert multiset(t) == multiset(selection) + multiset{rating};
    }
  }

  lemma {:induction false} NoDuplicatesCount(s: seq<string>, x: string)
    requires NoDuplicates(s)
    ensures multiset(s)[x] <= 1
    decreases |s|
  {
    if s != [] {
      assert s == [s[0]] + s[1..];
      assert NoDuplicates(s[1..]) by {
        forall i, j | 0 <= i < j < |s[1..]| ensures s[1..][i] != s[1..][j] {
          assert s[1..][i] == s[i + 1] && s[1..][j] == s[j + 1];
        }
      }
      NoDuplicatesCount(s[1..], x);
      if s[0] == x {
        assert x !in s[1..];
      }
    }
  }

  lemma RepeatCounted(s: seq<string>, i: nat, j: nat)
    requires i < j < |s|
    ensures s[i] == s[j] ==> multiset(s)[s[i]] >= 2
  {
    assert s == s[..i] + [s[i]] + s[i + 1..j] + [s[j]] + s[j + 1..];
  }

  lemma CountAtMostOneNoDuplicates(s: seq<string>)
    requires forall x :: multiset(s)[x] <= 1
    ensures NoDuplicates(s)
  {
    forall i, j | 0 <= i < j < |s| ensures s[i] != s[j] {
      RepeatCounted(s, i, j);
    }
  }

  /** A selection without repeated ratings stays without them after a toggle. */
  lemma ToggleKeepsNoDuplicates(selection: seq<string>, rating: string)
    requires NoDuplicates(selection)
    ensures NoDuplicates(Toggled(selection, rating))
  {
    var t := Toggled(selection, rating);
    ToggleEffect(selection, rating);
    forall x ensures multiset(t)[x] <= 1 {
      NoDuplicatesCount(selection, x);
      if x == rating && rating !in selection {
        assert multiset(t) == multiset(selection) + multiset{rating};
      }
    }
    CountAtMostOneNoDuplicates(t);
  }

  /**
    Pressing the same row twice: an absent rating is back out exactly, and
    in a duplicate-free selection a present rating is back in, possibly
    moved to the end, so the two selections compare equal.
   */
  lemma ToggleTwice(selection: seq<string>, rating: string)
    ensures rating !in selection ==> Toggled(Toggled(selection, rating), rating) == selection
    ensures NoDuplicates(selection) ==>
      ArraysEqual(Toggled(Toggled(selection, rating), rating), selection)
  {
    var once := Toggled(selection, rating);
    var twice := Toggled(once, rating);
    ToggleEffect(selection, rating);
    ToggleEffect(once, rating);
    if rating !in selection {
      RemoveAllAppend(selection, [rating], rating);
      RemoveAllAbsent(selection, rating);
      assert RemoveAll([rating], rating) == [];
    }
    if NoDuplicates(selection) {
      if rating in selection {
        NoDuplicatesCount(selection, rating);
        assert multiset(twice) == multiset(once) + multiset{rating};
        assert multiset(twice) == multiset(selection);
      }
      ArraysEqualIffSameMultiset(twice, selection);
    }
  }

  /**
    When the dirty flag is in step with the selections, pressing the same
    row twice on a duplicate-free working selection brings the recomputed
    dirty flag back to its earlier value.
   */
  lemma ToggleTwiceRestoresDirtyFlag(isDirty: bool, selection: seq<string>, selectedRatings: seq<string>, rating: string)
    requires NoDuplicates(selection)
    requires isDirty == (multiset(selection) != multiset(selectedRatings))
    ensures !ArraysEqual(Toggled(Toggled(selection, rating), rating), selectedRatings) == isDirty
  {
    var twice := Toggled(Toggled(selection, rating), rating);
    ToggleTwice(selection, rating);
    ArraysEqualIffSameMultiset(twice, selection);
    ArraysEqualIffSameMultiset(twice, selectedRatings);
  }

  /** The row text of a rating: `L` reads "Livre", any other rating `r` reads "r anos". */
  function RatingLabel(rating: string): string {
    if rating == "L" then "Livre" else rating + " anos"
  }

  /** Any rating other than `L` reads as the rating itself followed by " anos". */
  lemma AgeLabelParts(rating: string)
    requires rating != "L"
    ensures RatingLabel(rating)[..|rating|] == rating
    ensures RatingLabel(rating)[|rating|..] == " anos"
  {
  }

  /** Distinct ratings get distinct row texts. */
  lemma RatingLabelInjective(r1: string, r2: string)
    ensures RatingLabel("L") == "Livre"
    ensures RatingLabel(r1) == RatingLabel(r2) ==> r1 == r2
  {
    if r1 != "L" { AgeLabelParts(r1); }
    if r2 != "L" { AgeLabelParts(r2); }
  }

  /** What the footer button does: clear the applied filter, or apply a selection. */
  datatype Action = ClearFilter | ApplySelection(selection: seq<string>)

  /** The branch of `handleApplyOrClear`. */
  function ApplyOrClear(isDirty: bool, tempSelected: seq<string>, selectedRatings: seq<string>): Action {
    if !isDirty && |selectedRatings| > 0 then ClearFilter else ApplySelection(tempSelected)
  }

  /** The list handed to `onApply`: clearing hands over the empty list. */
  function Emitted(action: Action): seq<string> {
    match action
    case ClearFilter => []
    case ApplySelection(selection) => selection
  }

  /** `buttonText`, computed on its own from the same state. */
  function ButtonText(isDirty: bool, selectedRatings: seq<string>): string {
    if !isDirty && |selectedRatings| > 0 then "Limpar Filtro" else "Aplicar Filtros"
  }

  /** The button says "Limpar Filtro" exactly when pressing it clears the filter, and "Aplicar Filtros" otherwise. */
  lemma ButtonTextMatchesAction(isDirty: bool, tempSelected: seq<string>, selectedRatings: seq<string>)
    ensures ButtonText(isDirty, selectedRatings) == "Limpar Filtro"
      <==> ApplyOrClear(isDirty, tempSelected, selectedRatings) == ClearFilter
    ensures ButtonText(isDirty, selectedRatings) == "Aplicar Filtros"
      <==> ApplyOrClear(isDirty, tempSelected, selectedRatings).ApplySelection?
  {
  }

  /**
    With the dirty flag in step with the selections, the button clears
    exactly when the working selection matches a non-empty applied one,
    and whatever it hands to `onApply` differs from the applied selection
    unless both are empty.
   */
  lemma ApplyOrClearChangesFilter(isDirty: bool, tempSelected: seq<string>, selectedRatings: seq<string>)
    requires isDirty == (multiset(tempSelected) != multiset(selectedRatings))
    ensures ApplyOrClear(isDirty, tempSelected, selectedRatings) == ClearFilter
      <==> multiset(tempSelected) == multiset(selectedRatings) && selectedRatings != []
    ensures var emitted := Emitted(ApplyOrClear(isDirty, tempSelected, selectedRatings));
      multiset(emitted) == multiset(selectedRatings) <==> tempSelected == [] && selectedRatings == []
  {
  }

  /** A callback the modal fires. */
  datatype Event = OnApply(selection: seq<string>) | OnClose

  /** The modal's own state; the applied selection belongs to the parent and is passed in. */
  class RatingFilterModal {
    var tempSelected: seq<string>
    var isDirty: bool

    /** The dirty flag tells whether the working selection differs, as a multiset, from the applied one. */
    ghost predicate Valid(selectedRatings: seq<string>)
      reads this
    {
      isDirty == (multiset(tempSelected) != multiset(selectedRatings))
    }

    /** The initial `useState` values. */
    constructor (selectedRatings: seq<string>)
      ensures tempSelected == selectedRatings && !isDirty
      ensures Valid(selectedRatings)
    {
      tempSelected := selectedRatings;
      isDirty := false;
    }

    /** The effect run when visibility or the applied selection changes: a visible modal starts over from the applied selection. */
    method SyncOnShow(isVisible: bool, selectedRatings: seq<string>)
      modifies this
      ensures isVisible ==> tempSelected == selectedRatings && !isDirty && Valid(selectedRatings)
      ensures !isVisible ==> tempSelected == old(tempSelected) && isDirty == old(isDirty)
    {
      if isVisible {
        tempSelected := selectedRatings;
        isDirty := false;
      }
    }

    /** Whether the row for `rating` shows a checked box. */
    function IsChecked(rating: string): bool
      reads this
    {
      rating in tempSelected
    }

    /** `toggleRating`: the working selection is toggled and the dirty flag recomputed against the applied selection. */
    method ToggleRating(rating: string, selectedRatings: seq<string>)
      modifies this
      ensures tempSelected == Toggled(old(tempSelected), rating)
      ensures isDirty == !ArraysEqual(tempSelected, selectedRatings)
      ensures Valid(selectedRatings)
      ensures IsChecked(rating) == !old(IsChecked(rating))
    {
      var newSelection := if rating in tempSelected then RemoveAll(tempSelected, rating) else tempSelected + [rating];
      tempSelected := newSelection;
      isDirty := !ArraysEqual(newSelection, selectedRatings);
      ArraysEqualIffSameMultiset(newSelection, selectedRatings);
      ToggleEffect(old(tempSelected), rating);
    }

    /**
      `handleApplyOrClear`: fires `onApply` with the empty list (clear) or
      the working selection (apply), and then always `onClose`; the modal's
      own state is untouched.
     */
    method HandleApplyOrClear(selectedRatings: seq<string>) returns (events: seq<Event>)
      ensures |events| == 2 && events[1] == OnClose
      ensures events[0] == OnApply(Emitted(ApplyOrClear(isDirty, tempSelected, selectedRatings)))
      ensures Valid(selectedRatings) ==>
        (multiset(events[0].selection) == multiset(selectedRatings) <==> tempSelected == [] && selectedRatings == [])
    {
      if !isDirty && |selectedRatings| > 0 {
        events := [OnApply([])];
      } else {
        events := [OnApply(tempSelected)];
      }
      events := events + [OnClose];
      if Valid(selectedRatings) {
        ApplyOrClearChangesFilter(isDirty, tempSelected, selectedRatings);
      }
    }
  }
}
