/**
 * The picker's transition protocol as functions of the current state: what
 * a select, deselect, highlight or unhighlight request does to the selected
 * list or the highlighted set, and which events it emits.
 */
module Protocol {
  import opened Wrappers
  import opened Selection
  import opened Gate
  import opened Events

  /** A select request goes through: not yet selected, enabled, and approved. */
  predicate SelectAccepted<A(==)>(d: Delegate<A>, sel: seq<A>, a: A) {
    a !in sel && IsEnabled(d, sel, a) && CanSelect(d, sel, a)
  }

  function AfterSelect<A(==)>(d: Delegate<A>, sel: seq<A>, a: A): seq<A> {
    if SelectAccepted(d, sel, a) then Add(sel, a) else sel
  }

  /** didSelect to the delegate, then the two notifications. */
  function SelectEvents<A(==)>(d: Delegate<A>, sel: seq<A>, a: A): seq<Event<A>> {
    if SelectAccepted(d, sel, a) then
      [DidSelectAsset(a), SelectedAssetsDidChangeNotification(Add(sel, a)), DidSelectAssetNotification(a)]
    else []
  }

  /** A deselect request goes through: currently selected and approved. */
  predicate DeselectAccepted<A(==)>(d: Delegate<A>, sel: seq<A>, a: A) {
    a in sel && CanDeselect(d, sel, a)
  }

  function AfterDeselect<A(==)>(d: Delegate<A>, sel: seq<A>, a: A): seq<A> {
    if DeselectAccepted(d, sel, a) then Remove(sel, a) else sel
  }

  function DeselectEvents<A(==)>(d: Delegate<A>, sel: seq<A>, a: A): seq<Event<A>> {
    if DeselectAccepted(d, sel, a) then
      [DidDeselectAsset(a), SelectedAssetsDidChangeNotification(Remove(sel, a)), DidDeselectAssetNotification(a)]
    else []
  }

  /**
   * A highlight request goes through: not yet highlighted and approved.
   * The delegate sees the selected list; highlighting never changes it.
   */
  predicate HighlightAccepted<A(==)>(d: Delegate<A>, sel: seq<A>, hs: set<A>, a: A) {
    a !in hs && CanHighlight(d, sel, a)
  }

  function AfterHighlight<A(==)>(d: Delegate<A>, sel: seq<A>, hs: set<A>, a: A): set<A> {
    if HighlightAccepted(d, sel, hs, a) then hs + {a} else hs
  }

  function HighlightEvents<A(==)>(d: Delegate<A>, sel: seq<A>, hs: set<A>, a: A): seq<Event<A>> {
    if HighlightAccepted(d, sel, hs, a) then [DidHighlightAsset(a)] else []
  }

  function AfterUnhighlight<A(==)>(hs: set<A>, a: A): set<A> {
    hs - {a}
  }

  function UnhighlightEvents<A(==)>(hs: set<A>, a: A): seq<Event<A>> {
    if a in hs then [DidUnhighlightAsset(a)] else []
  }

  /** A request arriving from the picker's user interface or its host. */
  datatype Request<A> =
    | SelectRequest(asset: A)
    | DeselectRequest(asset: A)
    | HighlightRequest(asset: A)
    | UnhighlightRequest(asset: A)

  /** The selected list after one request; highlighting leaves it alone. */
  function StepSelection<A(==)>(d: Delegate<A>, sel: seq<A>, r: Request<A>): seq<A> {
    match r
    case SelectRequest(a) => AfterSelect(d, sel, a)
    case DeselectRequest(a) => AfterDeselect(d, sel, a)
    case HighlightRequest(_) => sel
    case UnhighlightRequest(_) => sel
  }

  /** The selected list after a sequence of requests, handled one at a time. */
  function Run<A(==)>(d: Delegate<A>, sel: seq<A>, reqs: seq<Request<A>>): seq<A>
    decreases |reqs|
  {
    if reqs == [] then sel else Run(d, StepSelection(d, sel, reqs[0]), reqs[1..])
  }

  // ---------------------------------------------------------------------
  // Selecting

  /**
   * An accepted select puts the asset after every previously selected one,
   * so its selection index is the new length; any other request leaves the
   * list as it was. Disabled or vetoed assets are never added.
   */
  lemma SelectOutcome<A>(d: Delegate<A>, sel: seq<A>, a: A)
    ensures AfterSelect(d, sel, a) != sel <==> SelectAccepted(d, sel, a)
    ensures SelectAccepted(d, sel, a) ==>
      AfterSelect(d, sel, a) == sel + [a] && IndexOf(AfterSelect(d, sel, a), a) == Some(|sel| + 1)
    ensures !IsEnabled(d, sel, a) || !CanSelect(d, sel, a) ==> AfterSelect(d, sel, a) == sel
    ensures Unique(sel) ==> Unique(AfterSelect(d, sel, a))
  {
    if SelectAccepted(d, sel, a) {
      var r := sel + [a];
      assert |r| == |sel| + 1;
      assert r[..|sel|] == sel;
      var i := IndexOf(r, a);
      assert i.value - 1 == |sel|;
    }
  }

  /**
   * A select emits events exactly when it changes the list; then it tells
   * the delegate and the observers about the asset and posts the new list.
   */
  lemma SelectReported<A>(d: Delegate<A>, sel: seq<A>, a: A)
    ensures SelectEvents(d, sel, a) != [] <==> AfterSelect(d, sel, a) != sel
    ensures SelectEvents(d, sel, a) != [] ==>
      DidSelectAsset(a) in SelectEvents(d, sel, a) &&
      DidSelectAssetNotification(a) in SelectEvents(d, sel, a) &&
      SelectedAssetsDidChangeNotification(AfterSelect(d, sel, a)) in SelectEvents(d, sel, a)
    ensures !SelectAccepted(d, sel, a) ==> SelectEvents(d, sel, a) == []
  {
    SelectOutcome(d, sel, a);
  }

  // ---------------------------------------------------------------------
  // Deselecting

  /**
   * An accepted deselect on a duplicate-free list removes exactly that
   * asset and leaves the others in their relative order.
   */
  lemma DeselectOutcome<A>(d: Delegate<A>, sel: seq<A>, a: A, k: nat)
    requires Unique(sel) && k < |sel| && sel[k] == a
    ensures AfterDeselect(d, sel, a) != sel <==> CanDeselect(d, sel, a)
    ensures CanDeselect(d, sel, a) ==> AfterDeselect(d, sel, a) == sel[..k] + sel[k + 1..]
  {
    if CanDeselect(d, sel, a) {
      UniqueAt(sel, k);
      RemoveAt(sel, a, k);
    }
  }

  /**
   * A deselect the delegate vetoes, or of an asset that is not selected,
   * changes nothing and emits nothing.
   */
  lemma DeselectRefused<A>(d: Delegate<A>, sel: seq<A>, a: A)
    requires a !in sel || !CanDeselect(d, sel, a)
    ensures AfterDeselect(d, sel, a) == sel && DeselectEvents(d, sel, a) == []
  {
  }

  /**
   * A deselect emits events exactly when it changes the list; then it tells
   * the delegate and the observers about the asset and posts the new list.
   */
  lemma DeselectReported<A>(d: Delegate<A>, sel: seq<A>, a: A)
    ensures DeselectEvents(d, sel, a) != [] <==> AfterDeselect(d, sel, a) != sel
    ensures DeselectEvents(d, sel, a) != [] ==>
      DidDeselectAsset(a) in DeselectEvents(d, sel, a) &&
      DidDeselectAssetNotification(a) in DeselectEvents(d, sel, a) &&
      SelectedAssetsDidChangeNotification(AfterDeselect(d, sel, a)) in DeselectEvents(d, sel, a)
  {
    if DeselectAccepted(d, sel, a) {
      assert a !in Remove(sel, a);
    }
  }

  // ---------------------------------------------------------------------
  // Highlighting

  /**
   * Highlighting is vetoable, touches only the requested asset, is
   * idempotent, and is reported exactly when the highlight state changes.
   */
  lemma HighlightOutcome<A>(d: Delegate<A>, sel: seq<A>, hs: set<A>, a: A)
    ensures !CanHighlight(d, sel, a) ==>
      AfterHighlight(d, sel, hs, a) == hs && HighlightEvents(d, sel, hs, a) == []
    ensures CanHighlight(d, sel, a) ==> a in AfterHighlight(d, sel, hs, a)
    ensures AfterHighlight(d, sel, hs, a) - {a} == hs - {a}
    ensures HighlightEvents(d, sel, hs, a) != [] <==> AfterHighlight(d, sel, hs, a) != hs
    ensures HighlightEvents(d, sel, hs, a) != [] ==> HighlightEvents(d, sel, hs, a) == [DidHighlightAsset(a)]
    ensures AfterHighlight(d, sel, AfterHighlight(d, sel, hs, a), a) == AfterHighlight(d, sel, hs, a)
    ensures HighlightEvents(d, sel, AfterHighlight(d, sel, hs, a), a) == []
  {
  }

  /**
   * Removing a highlight touches only that asset, is idempotent, and is
   * reported exactly when the state changes.
   */
  lemma UnhighlightOutcome<A>(hs: set<A>, a: A)
    ensures a !in AfterUnhighlight(hs, a)
    ensures AfterUnhighlight(hs, a) - {a} == hs - {a}
    ensures UnhighlightEvents(hs, a) != [] <==> AfterUnhighlight(hs, a) != hs
    ensures UnhighlightEvents(hs, a) != [] ==> UnhighlightEvents(hs, a) == [DidUnhighlightAsset(a)]
    ensures AfterUnhighlight(AfterUnhighlight(hs, a), a) == AfterUnhighlight(hs, a)
    ensures UnhighlightEvents(AfterUnhighlight(hs, a), a) == []
  {
  }

  // ---------------------------------------------------------------------
  // Sequences of requests

  /** Every sequence of requests keeps the selected list free of duplicates. */
  lemma {:induction false} RunPreservesUnique<A>(d: Delegate<A>, sel: seq<A>, reqs: seq<Request<A>>)
    requires Unique(sel)
    ensures Unique(Run(d, sel, reqs))
    decreases |reqs|
  {
    if reqs != [] {
      var next := StepSelection(d, sel, reqs[0]);
      match reqs[0] {
        case SelectRequest(a) => SelectOutcome(d, sel, a);
        case DeselectRequest(a) => RemoveUnique(sel, a);
        case HighlightRequest(_) =>
        case UnhighlightRequest(_) =>
      }
      RunPreservesUnique(d, next, reqs[1..]);
    }
  }

  /**
   * A leading part of the selection, in particular the initial selection the
   * host supplies, stays the leading part, in its order, until one of its
   * assets is actually deselected: every request to deselect one of them
   * along the way is vetoed by the delegate.
   */
  lemma {:induction false} PrefixKept<A>(d: Delegate<A>, p: seq<A>, sel: seq<A>, reqs: seq<Request<A>>)
    requires p <= sel
    requires forall i :: 0 <= i < |reqs| && reqs[i].DeselectRequest? && reqs[i].asset in p ==>
      !CanDeselect(d, Run(d, sel, reqs[..i]), reqs[i].asset)
    ensures p <= Run(d, sel, reqs)
    decreases |reqs|
  {
    if reqs != [] {
      var next := StepSelection(d, sel, reqs[0]);
      match reqs[0] {
        case SelectRequest(a) =>
          assert p <= next;
        case DeselectRequest(a) =>
          if DeselectAccepted(d, sel, a) {
            assert reqs[..0] == [];
            assert a !in p;
            var t := sel[|p|..];
            assert sel == p + t;
            RemoveAppend(p, t, a);
            assert Remove(p, a) == p;
            assert p <= next;
          }
        case HighlightRequest(_) =>
        case UnhighlightRequest(_) =>
      }
      forall i | 0 <= i < |reqs[1..]| && reqs[1..][i].DeselectRequest? && reqs[1..][i].asset in p
        ensures !CanDeselect(d, Run(d, next, reqs[1..][..i]), reqs[1..][i].asset)
      {
        assert reqs[..i + 1][0] == reqs[0] && reqs[..i + 1][1..] == reqs[1..][..i];
        assert reqs[1..][i] == reqs[i + 1];
      }
      PrefixKept(d, p, next, reqs[1..]);
    }
  }

  /**
   * Selection index badges follow the selection order: with a host-supplied
   * [a, b], selecting c gives [a, b, c] with b second; deselecting a gives
   * [b, c] with b first; selecting a again puts it last.
   */
  lemma SelectionOrderExample<A>(a: A, b: A, c: A)
    requires a != b && b != c && a != c
    ensures AfterSelect(Permissive(), [a, b], c) == [a, b, c]
    ensures IndexOf([a, b, c], b) == Some(2)
    ensures AfterDeselect(Permissive(), [a, b, c], a) == [b, c]
    ensures IndexOf([b, c], b) == Some(1)
    ensures AfterSelect(Permissive(), [b, c], a) == [b, c, a]
  {
    var d: Delegate<A> := Permissive();
    assert SelectAccepted(d, [a, b], c);
    assert [a, b, c][1..] == [b, c];
    assert [b, c][1..] == [c];
    assert IndexOf([b, c], b) == Some(1);
    assert Remove([c], a) == [c] by {
      assert [c][1..] == [];
    }
    assert Remove([b, c], a) == [b, c] by {
      assert Remove([b, c], a) == [b] + Remove([c], a);
    }
    assert SelectAccepted(d, [b, c], a);
  }
}
