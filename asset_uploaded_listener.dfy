/** `AssetUploadedListener`: on an upload, queue a metadata import for the
    asset when its extension is one of the configured ones. */
module AssetUploadedListener {
  import opened PhpStrings
  import opened Host

  /** `handle(AssetUploaded $event)`: the jobs queued for the uploaded asset,
      given the configured `extensions`. A `'*'` entry admits every asset;
      otherwise the asset's extension, lower-cased, must be listed. */
  function Handle(extensions: seq<string>, asset: Asset): (jobs: seq<Job>)
    ensures jobs == [] || jobs == [ImportMetadataJob(asset)]
    ensures jobs != [] <==> "*" in extensions || StrToLower(PathExtension(asset.path)) in extensions
  {
    if "*" in extensions then [ImportMetadataJob(asset)]
    else if !ExtensionIsOneOf(asset, extensions) then []
    else [ImportMetadataJob(asset)]
  }

  /** For a file named `stem.ext`, an import is queued exactly when the list
      holds `'*'` or the lower-cased `ext`; so `photo.JPG` is imported when
      `jpg` is listed. */
  lemma DispatchedByFileName(extensions: seq<string>, asset: Asset, stem: string, ext: string)
    requires asset.path == stem + ['.'] + ext
    requires '.' !in ext && '/' !in ext
    ensures Handle(extensions, asset) != [] <==> "*" in extensions || StrToLower(ext) in extensions
  {
    PathExtensionOfName(stem, ext);
  }

  /** An upper-case `JPG` file is imported when `jpg` is configured. */
  lemma UpperCaseExtensionDispatched(asset: Asset)
    requires asset.path == "photos/IMG_0001.JPG"
    ensures Handle(["jpg", "png"], asset) == [ImportMetadataJob(asset)]
  {
    assert asset.path == "photos/IMG_0001" + ['.'] + "JPG";
    DispatchedByFileName(["jpg", "png"], asset, "photos/IMG_0001", "JPG");
    assert StrToLower("JPG") == "jpg";
  }

  /** A file without an extension (its base name holds no dot, whatever its
      directories hold) is imported only under the wildcard, unless the empty
      extension is listed. */
  lemma NoExtensionNeedsWildcard(extensions: seq<string>, asset: Asset)
    requires '.' !in BaseName(asset.path)
    ensures Handle(extensions, asset) != [] <==> "*" in extensions || "" in extensions
  {
    assert PathExtension(asset.path) == "";
    assert StrToLower("") == "";
  }

  /** `dir.v2/file` has no extension, though its directory holds a dot. */
  lemma DottedDirectoryNoExtension(asset: Asset)
    requires asset.path == "dir.v2/file"
    ensures Handle(["jpg", "png"], asset) == []
    ensures Handle(["*"], asset) == [ImportMetadataJob(asset)]
  {
    assert asset.path == "dir.v2" + ['/'] + "file";
    AfterLastSeparator('/', "dir.v2", "file");
    assert TrimRightChar('/', asset.path) == asset.path;
    NoExtensionNeedsWildcard(["jpg", "png"], asset);
  }
}
