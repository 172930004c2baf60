# KITAssetsPickerController selection model

A Dafny model of the selection and highlight protocol of `KITAssetsPickerController`,
a controller that lets an iOS user pick several photos and videos.
The controller owns `selectedAssets`, a mutable array whose order is the selection order.
The host may fill it before presenting the picker.
`selectAsset:` and `deselectAsset:` change the array.
Before each change the picker asks its delegate's optional `should…` hooks.
After an accepted change it calls the delegate's `did…` hooks and posts notifications.
Finishing hands the delegate the selected assets; cancelling tells the delegate.

The source is an Objective-C header, so the model follows the promises made by its doc-comments.

Files:

- `selection.dfy` (module `Selection`): the selected list as a value, with `Add`, `Remove` and the 1-based selection index `IndexOf`.
- `gate.dfy` (module `Gate`): the delegate's four optional veto hooks. Each hook sees the picker's current selected list and the asset, as the header passes the picker to every hook. An absent hook is `None` and allows the change.
- `events.dfy` (module `Events`): one constructor per delegate callback and notification.
- `protocol.dfy` (module `Protocol`): each request as a function of the current state. It gives the new list or highlight set and the events emitted. Lemmas state the veto, order and reporting properties, including over whole request sequences (`Run`).
- `picker.dfy` (module `Picker`): the class `AssetsPickerController`. Its fields are the selected list, the highlighted set, the event log and the phase. The select, deselect, highlight and unhighlight methods tie the new state and the new log to the `Protocol` functions of the old state. The constructor, the two setters, `FinishPicking` and `Cancel` state their new fields directly.

Modelling choices:

- Assets are values of a type parameter with equality. `KITAssetDataSource` is not part of this model.
- A hook the delegate does not implement (the hooks are `@optional`) allows the change.
- `selectAsset:` and `deselectAsset:` go through the same gates as a tap in the grid.
- Selecting an already selected asset does nothing and emits nothing. So does deselecting an asset that is not selected.
- `shouldEnableAsset` is asked before `shouldSelectAsset`. A disabled asset is refused without asking `shouldSelectAsset`. Deselection asks only `shouldDeselectAsset`.
- The header fixes no order for the events of one accepted change. The model emits the delegate callback first, then `SelectedAssetsDidChange` carrying the new array, then the per-asset notification.
- The host's initial selection is taken as given, and so is a list the host assigns later through `SetSelectedAssets`. Uniqueness is proved to be preserved, not demanded.
- Deselecting removes every occurrence of the asset, as an array's `removeObject:` does. On a duplicate-free list that is exactly one element. An asset the host pre-selected twice is removed entirely by one deselect.
- The host may replace the delegate at any time (`SetDelegate`). The methods consult whichever delegate is current. `Protocol.Run` and the lemmas about it fix one delegate for the whole request sequence; a replacement starts a new sequence.
- Highlighting is independent of selection. `shouldHighlightAsset` does not gate selection.

## Model

| member | source | states |
|---|---|---|
| `Selection.Add` | KITAssetsPickerController/KITAssetsPickerController.h:47-54 | a new asset goes after every selected asset; the list is otherwise unchanged; an already selected asset keeps its place; no duplicates are introduced |
| `Selection.Remove` | KITAssetsPickerController/KITAssetsPickerController.h:106-113 | the result holds the same assets, each as often, except the removed one, which is gone; an unselected asset leaves the list unchanged |
| `Selection.RemoveUnique` | KITAssetsPickerController/KITAssetsPickerController.h:106-113 | removing from a duplicate-free list keeps it duplicate-free and takes out exactly one element when the asset was selected |
| `Selection.IndexOf` | KITAssetsPickerController/KITAssetsPickerController.h:82-90 | the 1-based selection index is present iff the asset is selected, points at that asset, and is its first occurrence |
| `Selection.IndexOfAt` | KITAssetsPickerController/KITAssetsPickerController.h:82-90 | in a list without duplicates, the asset at position j has selection index j + 1 |
| `Selection.RemoveAt` | KITAssetsPickerController/KITAssetsPickerController.h:106-113 | removing an asset that occurs only at position k yields the list with exactly that position cut out, the rest in order |
| `Selection.RemoveAppend` | KITAssetsPickerController/KITAssetsPickerController.h:106-113 | removing an asset from a concatenation removes it from each part, so assets before it keep their places |
| `Gate.Ask` | KITAssetsPickerController/KITAssetsPickerController.h:147 | an optional hook the delegate does not implement answers yes; an implemented one answers for the current selected list and the asset |
| `Gate.IsEnabled` | KITAssetsPickerController/KITAssetsPickerController.h:190-200 | the should-enable hook, asked with the current selected list; absent means enabled |
| `Gate.CanSelect` | KITAssetsPickerController/KITAssetsPickerController.h:207-217 | the should-select hook, asked with the current selected list; absent means approved |
| `Gate.CanDeselect` | KITAssetsPickerController/KITAssetsPickerController.h:229-239 | the should-deselect hook, asked with the current selected list; absent means approved |
| `Gate.CanHighlight` | KITAssetsPickerController/KITAssetsPickerController.h:257-265 | the should-highlight hook, asked with the current selected list; absent means approved |
| `Gate.PermissiveAllows` | KITAssetsPickerController/KITAssetsPickerController.h:147 | a delegate that implements none of the optional hooks allows every enable, select, deselect and highlight |
| `Protocol.SelectAccepted` | KITAssetsPickerController/KITAssetsPickerController.h:190-217 | a select goes through iff the asset is not yet selected, the delegate enables it and then approves it |
| `Protocol.AfterSelect` | KITAssetsPickerController/KITAssetsPickerController.h:97-104 | the selected list after a select: the asset appended last when accepted, otherwise the list unchanged |
| `Protocol.SelectEvents` | KITAssetsPickerController/KITAssetsPickerController.h:219-227 | an accepted select emits didSelect, then the selected-assets-changed notification with the new list, then the did-select notification; a refused one emits nothing |
| `Protocol.DeselectAccepted` | KITAssetsPickerController/KITAssetsPickerController.h:229-239 | a deselect goes through iff the asset is selected and the delegate approves |
| `Protocol.AfterDeselect` | KITAssetsPickerController/KITAssetsPickerController.h:106-113 | the selected list after a deselect: the asset removed when accepted, otherwise the list unchanged |
| `Protocol.DeselectEvents` | KITAssetsPickerController/KITAssetsPickerController.h:241-249 | an accepted deselect emits didDeselect, then the selected-assets-changed notification with the new list, then the did-deselect notification; a refused one emits nothing |
| `Protocol.HighlightAccepted` | KITAssetsPickerController/KITAssetsPickerController.h:257-265 | a highlight goes through iff the asset is not yet highlighted and the delegate approves |
| `Protocol.AfterHighlight` | KITAssetsPickerController/KITAssetsPickerController.h:257-275 | the highlight set after a highlight request: the asset added when accepted, otherwise unchanged |
| `Protocol.HighlightEvents` | KITAssetsPickerController/KITAssetsPickerController.h:267-275 | an accepted highlight emits one didHighlight; a refused one emits nothing |
| `Protocol.AfterUnhighlight` | KITAssetsPickerController/KITAssetsPickerController.h:278-286 | the highlight set after an unhighlight: the asset no longer highlighted; there is no veto hook |
| `Protocol.UnhighlightEvents` | KITAssetsPickerController/KITAssetsPickerController.h:278-286 | didUnhighlight is emitted only when the asset was highlighted |
| `Protocol.StepSelection` | KITAssetsPickerController/KITAssetsPickerController.h:97-113 | the selected list after one request: select and deselect as above; highlight requests leave it alone |
| `Protocol.Run` | KITAssetsPickerController/KITAssetsPickerController.h:97-113 | the selected list after a sequence of requests handled one at a time, in order, with one delegate |
| `Protocol.SelectOutcome` | KITAssetsPickerController/KITAssetsPickerController.h:190-217 | a select changes the list iff the asset is unselected, enabled and approved; then it is appended last with index = new length; a disabled or vetoed asset leaves the list unchanged; uniqueness is kept |
| `Protocol.SelectReported` | KITAssetsPickerController/KITAssetsPickerController.h:295-307 | a select emits events iff it changes the list; then it emits didSelect and the did-select notification for the asset and the selected-assets-changed notification carrying the new list; a refused select emits nothing |
| `Protocol.DeselectOutcome` | KITAssetsPickerController/KITAssetsPickerController.h:229-239 | in a duplicate-free list, a deselect of a selected asset changes the list iff the delegate approves; the result is the list with that one position cut out |
| `Protocol.DeselectRefused` | KITAssetsPickerController/KITAssetsPickerController.h:229-239 | a deselect the delegate vetoes, or of an asset that is not selected, changes nothing and emits nothing, whatever the list |
| `Protocol.DeselectReported` | KITAssetsPickerController/KITAssetsPickerController.h:241-249 | a deselect emits events iff it changes the list; then it emits didDeselect and the did-deselect notification for the asset and the selected-assets-changed notification carrying the new list |
| `Protocol.HighlightOutcome` | KITAssetsPickerController/KITAssetsPickerController.h:257-275 | a vetoed highlight changes nothing and emits nothing; an approved one ends highlighted; no other asset's highlight changes; the single didHighlight is emitted iff the highlight set changes; highlighting twice is the same as once and the second time emits nothing |
| `Protocol.UnhighlightOutcome` | KITAssetsPickerController/KITAssetsPickerController.h:278-286 | the asset ends unhighlighted; no other asset's highlight changes; the single didUnhighlight is emitted iff the set changes; a second unhighlight changes and emits nothing |
| `Protocol.RunPreservesUnique` | KITAssetsPickerController/KITAssetsPickerController.h:47-54 | any sequence of select, deselect and highlight requests keeps a duplicate-free selection duplicate-free |
| `Protocol.PrefixKept` | KITAssetsPickerController/KITAssetsPickerController.h:52-54 | a leading part of the selection, such as the host's initial selection, stays the leading part in its order until one of its assets is actually deselected: every deselect request for one of them along the way is vetoed by the delegate, given the selection at that point |
| `Protocol.SelectionOrderExample` | KITAssetsPickerController/KITAssetsPickerController.h:82-90 | from [a, b]: selecting c gives [a, b, c] with b at index 2; deselecting a gives [b, c] with b at index 1; reselecting a gives [b, c, a] |
| `Picker.AssetsPickerController.constructor` | KITAssetsPickerController/KITAssetsPickerController.h:47-54 | the picker starts active, with the host's initial selection as given, nothing highlighted and nothing emitted |
| `Picker.AssetsPickerController.SetDelegate` | KITAssetsPickerController/KITAssetsPickerController.h:40-43 | the delegate is replaced; later requests consult the new one |
| `Picker.AssetsPickerController.SetSelectedAssets` | KITAssetsPickerController/KITAssetsPickerController.h:47-54 | the selected list becomes exactly the assigned list, and nothing else changes |
| `Picker.AssetsPickerController.SelectAsset` | KITAssetsPickerController/KITAssetsPickerController.h:97-104 | the new list and the appended events are those of `AfterSelect` and `SelectEvents` on the old list; only the list and the log change; uniqueness is kept |
| `Picker.AssetsPickerController.DeselectAsset` | KITAssetsPickerController/KITAssetsPickerController.h:106-113 | the new list and the appended events are those of `AfterDeselect` and `DeselectEvents` on the old list; only the list and the log change; uniqueness is kept |
| `Picker.AssetsPickerController.HighlightAsset` | KITAssetsPickerController/KITAssetsPickerController.h:257-275 | the new highlight set and the appended events are those of `AfterHighlight` and `HighlightEvents`; the selection is unchanged |
| `Picker.AssetsPickerController.UnhighlightAsset` | KITAssetsPickerController/KITAssetsPickerController.h:278-286 | the new highlight set and the appended events are those of `AfterUnhighlight` and `UnhighlightEvents`; the selection is unchanged |
| `Picker.AssetsPickerController.FinishPicking` | KITAssetsPickerController/KITAssetsPickerController.h:137-145 | the delegate receives exactly the current selected list, in selection order; the picker becomes finished; the selection is unchanged |
| `Picker.AssetsPickerController.Cancel` | KITAssetsPickerController/KITAssetsPickerController.h:149-156 | didCancel is emitted and the picker becomes cancelled; the selection is unchanged |
| `Picker.PickingSession` | KITAssetsPickerController/KITAssetsPickerController.h:137-145 | a host that pre-selects [a, b], lets the user select c, highlight and deselect a, then finish, receives [b, c] |

## Left out

- UIKit view-controller behaviour, `collectionViewLayoutForContentSize` and `shouldScrollToBottomForAssetCollection`: layout and scrolling only.
- `showsCancelButton`, `showsEmptyAlbums`, `showsNumberOfAssets` and `showsSelectionIndex`: they only affect rendering. `IndexOf` gives the index the grid would show.
- `collectionDataSources`, `KITAssetDataSource`, `KITAssetCollectionDataSource` and `KITCustomAssetPickerController`: not part of this model. Assets are opaque values with equality.
- `weak` ownership of the delegate and the data sources: Dafny has no counterpart.
- The broadcast itself: the notification centre and the delegate calls are replaced by the appended event log. Whether the delegate implements an optional `did…` hook does not change what is logged.
- `shouldShowAsset`, named in a `@see` reference: it is not declared in this header.
- Use after finishing or cancelling: the header states no behaviour, so every request method requires the picker to be active.
- Toggling an asset: the header has no such operation.
- Dismissing the picker: the header leaves this to the delegate.
- Delegate hooks that depend on anything other than the selected list and the asset (the highlight set, or state outside the picker that changes between calls): each hook is a function of those two only.
- Protocol.Run: the lemmas about request sequences assume one delegate for the whole sequence. Replacing the delegate part-way, or assigning `selectedAssets` part-way, starts a new sequence.
