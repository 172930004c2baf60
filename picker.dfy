/**
 * The assets picker controller: it owns the selected-assets list and the
 * highlighted set, consults its delegate before each change, and records
 * every delegate callback and notification it emits in an event log.
 */
module Picker {
  import opened Selection
  import opened Gate
  import opened Events
  import opened Protocol

  /** The picker is active until the user finishes picking or cancels. */
  datatype Phase = Active | Finished | Cancelled

  class AssetsPickerController<A(==)> {
    var delegate: Delegate<A>
    /** The selected assets, in selection order. */
    var selectedAssets: seq<A>
    var highlightedAssets: set<A>
    /** Everything emitted so far, oldest first. */
    var events: seq<Event<A>>
    var phase: Phase

    /**
     * A picker presented with the host's initial selection, which it keeps
     * as given: the host may pre-select assets before presenting it.
     */
    constructor (delegate: Delegate<A>, initialSelection: seq<A>)
      ensures this.delegate == delegate
      ensures selectedAssets == initialSelection
      ensures highlightedAssets == {} && events == [] && phase == Active
    {
      this.delegate := delegate;
      selectedAssets := initialSelection;
      highlightedAssets := {};
      events := [];
      phase := Active;
    }

    /**
     * The host replaces the delegate; later requests consult the new one.
     */
    method SetDelegate(delegate: Delegate<A>)
      modifies this`delegate
      ensures this.delegate == delegate
    {
      this.delegate := delegate;
    }

    /**
     * The host assigns the selected assets directly, as the property's
     * setter allows; the list is taken as given and nothing is emitted.
     */
    method SetSelectedAssets(assets: seq<A>)
      modifies this`selectedAssets
      ensures selectedAssets == assets
    {
      selectedAssets := assets;
    }

    /**
     * Selects an asset: unless it is already selected, disabled, or vetoed
     * by the delegate, it goes after every selected asset, the delegate is
     * told, and both notifications are posted.
     */
    method SelectAsset(a: A)
      requires phase == Active
      modifies this`selectedAssets, this`events
      ensures selectedAssets == AfterSelect(delegate, old(selectedAssets), a)
      ensures events == old(events) + SelectEvents(delegate, old(selectedAssets), a)
      ensures Unique(old(selectedAssets)) ==> Unique(selectedAssets)
    {
      if a in selectedAssets {
        return;
      }
      // A disabled asset never reaches the should-select hook.
      if !IsEnabled(delegate, selectedAssets, a) {
        return;
      }
      if !CanSelect(delegate, selectedAssets, a) {
        return;
      }
      selectedAssets := selectedAssets + [a];
      events := events + [DidSelectAsset(a),
        SelectedAssetsDidChangeNotification(selectedAssets), DidSelectAssetNotification(a)];
    }

    /**
     * Deselects an asset: unless it is not selected or the delegate vetoes,
     * it is removed, the others keep their order, the delegate is told, and
     * both notifications are posted.
     */
    method DeselectAsset(a: A)
      requires phase == Active
      modifies this`selectedAssets, this`events
      ensures selectedAssets == AfterDeselect(delegate, old(selectedAssets), a)
      ensures events == old(events) + DeselectEvents(delegate, old(selectedAssets), a)
      ensures Unique(old(selectedAssets)) ==> Unique(selectedAssets)
    {
      if a !in selectedAssets || !CanDeselect(delegate, selectedAssets, a) {
        return;
      }
      if Unique(selectedAssets) {
        RemoveUnique(selectedAssets, a);
      }
      selectedAssets := Remove(selectedAssets, a);
      events := events + [DidDeselectAsset(a),
        SelectedAssetsDidChangeNotification(selectedAssets), DidDeselectAssetNotification(a)];
    }

    /** Highlights an asset unless the delegate vetoes; the selection is untouched. */
    method HighlightAsset(a: A)
      requires phase == Active
      modifies this`highlightedAssets, this`events
      ensures highlightedAssets == AfterHighlight(delegate, selectedAssets, old(highlightedAssets), a)
      ensures events == old(events) + HighlightEvents(delegate, selectedAssets, old(highlightedAssets), a)
      ensures selectedAssets == old(selectedAssets)
    {
      if a !in highlightedAssets && CanHighlight(delegate, selectedAssets, a) {
        highlightedAssets := highlightedAssets + {a};
        events := events + [DidHighlightAsset(a)];
      }
    }

    /** Removes an asset's highlight; the selection is untouched. */
    method UnhighlightAsset(a: A)
      requires phase == Active
      modifies this`highlightedAssets, this`events
      ensures highlightedAssets == AfterUnhighlight(old(highlightedAssets), a)
      ensures events == old(events) + UnhighlightEvents(old(highlightedAssets), a)
      ensures selectedAssets == old(selectedAssets)
    {
      if a in highlightedAssets {
        highlightedAssets := highlightedAssets - {a};
        events := events + [DidUnhighlightAsset(a)];
      }
    }

    /** The user finishes picking: the delegate receives the selected assets in selection order. */
    method FinishPicking()
      requires phase == Active
      modifies this`phase, this`events
      ensures phase == Finished
      ensures events == old(events) + [DidFinishPickingAssets(selectedAssets)]
      ensures selectedAssets == old(selectedAssets)
    {
      events := events + [DidFinishPickingAssets(selectedAssets)];
      phase := Finished;
    }

    /** The user cancels the pick operation. */
    method Cancel()
      requires phase == Active
      modifies this`phase, this`events
      ensures phase == Cancelled
      ensures events == old(events) + [DidCancel]
      ensures selectedAssets == old(selectedAssets)
    {
      events := events + [DidCancel];
      phase := Cancelled;
    }
  }

  /**
   * A host that pre-selects [a, b] and then lets the user pick c, drop a
   * and finish receives [b, c], with each accepted change reported.
   */
  method PickingSession<A(==)>(a: A, b: A, c: A) returns (picked: seq<A>)
    requires a != b && b != c && a != c
    ensures picked == [b, c]
  {
    var picker := new AssetsPickerController<A>(Permissive(), [a, b]);
    picker.SelectAsset(c);
    assert SelectAccepted(Permissive(), [a, b], c);
    assert picker.selectedAssets == [a, b, c];
    picker.HighlightAsset(a);
    picker.DeselectAsset(a);
    assert [a, b, c][1..] == [b, c];
    RemoveAt([a, b, c], a, 0);
    assert picker.selectedAssets == [b, c];
    picker.FinishPicking();
    assert picker.events[|picker.events| - 1] == DidFinishPickingAssets([b, c]);
    picked := picker.events[|picker.events| - 1].assets;
  }
}
