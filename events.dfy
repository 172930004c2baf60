/** What the picker emits: delegate callbacks and notifications, in order. */
module Events {
  datatype Event<A> =
    | DidSelectAsset(asset: A)
    | DidDeselectAsset(asset: A)
    | DidHighlightAsset(asset: A)
    | DidUnhighlightAsset(asset: A)
    | SelectedAssetsDidChangeNotification(assets: seq<A>)
    | DidSelectAssetNotification(asset: A)
    | DidDeselectAssetNotification(asset: A)
    | DidFinishPickingAssets(assets: seq<A>)
    | DidCancel
}
