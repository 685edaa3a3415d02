/** `AssetReuploadedListener`: on a re-upload, queue a metadata import only
    when `overwrite_on_reupload` is on, under the same extension test as an
    upload. */
module AssetReuploadedListener {
  import opened PhpStrings
  import opened Host
  import AssetUploadedListener

  /** `handle(AssetReuploaded $event)`: the jobs queued for the re-uploaded
      asset. The overwrite setting is checked before the extension list: with
      it off nothing is queued, with it on exactly what an upload would queue. */
  function Handle(overwriteOnReupload: bool, extensions: seq<string>, asset: Asset): (jobs: seq<Job>)
    ensures jobs == if overwriteOnReupload then AssetUploadedListener.Handle(extensions, asset) else []
  {
    if !overwriteOnReupload then []
    else if "*" in extensions then [ImportMetadataJob(asset)]
    else if !ExtensionIsOneOf(asset, extensions) then []
    else [ImportMetadataJob(asset)]
  }

  /** For a file named `stem.ext` and the setting on, an import is queued
      exactly when the list holds `'*'` or the lower-cased `ext`. */
  lemma ReuploadDispatchedByFileName(extensions: seq<string>, asset: Asset, stem: string, ext: string)
    requires asset.path == stem + ['.'] + ext
    requires '.' !in ext && '/' !in ext
    ensures Handle(true, extensions, asset) != [] <==> "*" in extensions || StrToLower(ext) in extensions
  {
    AssetUploadedListener.DispatchedByFileName(extensions, asset, stem, ext);
  }
}
