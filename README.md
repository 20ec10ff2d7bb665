# Icon background removal and packaging, modelled in Dafny

This project models `process_and_package`, the core of a small web tool. The tool takes a batch of uploaded icon images and processes each one:

1. removes its background;
2. crops it to its visible pixels;
3. shrinks it to fit a square of the requested edge length;
4. centres it on a transparent square canvas;
5. optionally lays it over an opaque colour chosen by Chinese label.

Each icon is then saved as `icon_NNN.png`, shown in a gallery and added to `processed_icons.zip`. Every item's failure is caught separately: the item becomes one error line of the log and the batch goes on.

Modules:

- `Images` holds a value model of the Pillow operations involved:
  - RGBA rasters whose sides are at least 1 pixel;
  - `getbbox`, `crop` and `thumbnail`;
  - `Image.new`, `paste` and `alpha_composite`.
- `Backgrounds` holds the label-to-colour table and its lookup with a default.
- `Pipeline` holds steps 3 to 6 for one image: crop, shrink, centre and background.
- `Naming` holds the `icon_{n:03}.png` file names and POSIX `os.path.join`. `PathInDir` is the relative-name case of `os.path.join`, the only case the loop meets.
- `Batch` holds the loop itself as an imperative method:
  - the loop keeps its results, paths and log in local sequences;
  - the open archive is a `ZipWriter` object holding its entry names;
  - the loop is proved against `Collect(Outcomes(...))`, a fold over the tagged result of each item.
- `BatchProperties` holds what the batch promises, stated over that fold:
  - one log line per item;
  - outputs in input order minus failures, named by original position;
  - distinct names;
  - square icons.

The calls into foreign code are part of each `Upload` value. They are the image decoder, the background remover, `save` and `zipf.write`. For each call, the value says whether it returns normally (and with what image) or raises an exception, and with what text.

Two details of the code are easy to misread, and the model follows the code:
- The success line labels a size 裁剪后 ("after cropping"), but it prints `out_img.size` after `thumbnail` (app.py:63, app.py:85). `Fitted.resized` is that image.
- `zipf.write` (app.py:83) runs after the appends at app.py:81-82. So when it raises, the icon and its path stay in the gallery and file lists, while the archive lacks the entry and the log shows an error (`ItemOutcome.Listed`, `BatchProperties.ArchiveFailureKeepsIcon`).

## Model

| member | source | states |
|---|---|---|
| Backgrounds.ResolveBackground | app.py:25-38 | each of the five labels gives its fixed value (transparent, or RGB 255,255,255 / 0,0,0 / 240,240,240 / 255,204,0); the result is a colour exactly when the label is one of the four colour labels, and any other label means transparent instead of raising |
| Images.ContentBox | app.py:58 | `getbbox` is None exactly when no pixel has non-zero alpha; otherwise it is a box inside the image holding every visible pixel, with a visible pixel on each of its four edges |
| Images.TightBoxUnique | app.py:58 | there is only one such tight box, so `getbbox`'s answer is determined by that property |
| Images.Crop | app.py:60 | the crop has the box's width and height, and its pixel (x, y) is the source pixel at the box corner plus (x, y) |
| Images.CropIsTrimmed | app.py:58-60 | after cropping to the tight box, `getbbox` of the crop is the whole crop |
| Images.RoundNearest | app.py:63 | the rounded width is within half a pixel of the exact aspect-preserving width |
| Images.RoundByInverse | app.py:63 | the rounded height is the floor or the ceiling of the exact aspect-preserving height |
| Images.ThumbnailSize | app.py:63 | the target size `thumbnail` computes: the original if it fits, otherwise `size` on the longer side and the rounded aspect-preserving value, at least 1, on the other. It has no contract of its own; its properties are stated by `ThumbnailSizeBounds`, `RoundNearest` and `RoundByInverse` |
| Images.ThumbnailSizeBounds | app.py:63 | both sides of the shrunk size are between 1 and `size` and no larger than the original; an image that fits keeps its size; otherwise the longer side is `size` and the shorter one is the aspect-preserving value rounded |
| Images.Resize | app.py:63 | the resampled image has exactly the requested width and height |
| Images.Thumbnail | app.py:63 | the result fits in `size` by `size` and is no larger than the input; an image that already fits is returned unchanged; otherwise one side equals `size` and the size is the one `ThumbnailSize` computes, so the aspect facts of `ThumbnailSizeBounds` apply to it |
| Images.Canvas | app.py:66 | `Image.new` gives the requested size with every pixel the fill colour |
| Images.Paste | app.py:69 | the canvas keeps its size; covered pixels are the pasted image's, including alpha, and all others are the canvas's |
| Images.Over | app.py:74 | over an opaque destination the result is opaque; an opaque source replaces the destination; a fully transparent source leaves it unchanged |
| Images.AlphaComposite | app.py:74 | the composite has the destination's size, and each pixel is the source pixel laid over the destination pixel |
| Pipeline.CropToContent | app.py:58-60 | with a content box, the result has the box's size and pixels, and no pixel outside the box was visible; without one (fully transparent), the image is unchanged |
| Pipeline.CropToContentTrims | app.py:58-60 | the cropped image is trimmed or fully transparent, and cropping it again changes nothing |
| Pipeline.CentreOffset | app.py:67-68 | the offset is `(size - extent) // 2`, i.e. the largest whole number whose double does not exceed the spare room; its placement facts are in `CentreOffsetInBounds` |
| Pipeline.CentreOffsetInBounds | app.py:67-68 | for an extent that fits, the floor-divided offset is non-negative, the pasted span ends inside the square, and the two margins differ by at most one pixel |
| Pipeline.Padded | app.py:66-69 | the padded canvas is exactly `size` by `size` |
| Pipeline.ApplyBackground | app.py:72-74 | compositing over the background keeps the canvas size |
| Pipeline.FitIcon | app.py:58-74 | the steps succeed exactly when `size >= 1`; the icon is then `size` by `size` and the shrunk image fits inside it |
| Pipeline.TransparentOutsidePaste | app.py:66-69 | with the transparent choice, both offsets keep the shrunk image inside the square; icon pixels under it are the shrunk image's, and every other pixel is (0, 0, 0, 0) |
| Pipeline.ColouredIsOpaque | app.py:72-74 | with a colour chosen, every pixel of the icon has alpha 255, and pixels outside the pasted rectangle are exactly that colour |
| Pipeline.OpaqueIsTrimmed | app.py:58-60 | a fully opaque image is its own content box, so cropping leaves it alone |
| Pipeline.CompositeOpaqueIsIdentity | app.py:72-74 | compositing a fully opaque image over any canvas of its size gives it back |
| Pipeline.SquareAtSize | app.py:58-69 | a trimmed or blank `size` by `size` input passes through the transparent steps unchanged |
| Pipeline.RefitColouredIsIdentity | app.py:58-74 | feeding a coloured icon back through the same steps returns it unchanged |
| Pipeline.PaddedKeepsTrim | app.py:58-69 | the content box of the padded canvas of a trimmed image is the rectangle it was pasted into |
| Pipeline.PaddedAt | app.py:66-69 | each pixel of the shrunk image sits in the padded canvas at its floor-divided centring offset |
| Pipeline.PaddedVisibleInPaste | app.py:66-69 | every visible pixel of the padded canvas lies inside the pasted rectangle, because the canvas starts fully transparent |
| Pipeline.PasteBoxIsTight | app.py:58-69 | when the shrunk image has visible pixels on all four of its edges, the pasted rectangle is the tight box of the padded canvas |
| Pipeline.PaddedKeepsTransparency | app.py:66-69 | padding a fully transparent image gives a fully transparent canvas |
| Pipeline.CropWholeIsIdentity | app.py:60 | cropping to the whole image gives the image back |
| Pipeline.PasteWholeIsIdentity | app.py:69 | pasting an image at the origin of a canvas of its own size gives the image back |
| Pipeline.CropPasteBox | app.py:60-69 | cropping the padded canvas to the pasted rectangle returns the shrunk image |
| Pipeline.RefitTransparentIsIdentity | app.py:58-69 | feeding a transparent-background icon back through the same steps returns it unchanged, provided its shrunk image was trimmed or blank |
| Naming.Decimal | app.py:77 | `str(n)` is a non-empty string of decimal digits, a single digit exactly below 10, and never starts with `0` from 10 on |
| Naming.ValueOfDecimal | app.py:77 | `str(n)` reads back as `n` |
| Naming.ZeroPad | app.py:77 | zero padding gives digits only, exactly `width` characters long, or the number itself when that is already as long |
| Naming.ZeroPadShape | app.py:77 | the padded string ends with the number's digits and everything before them is `0` |
| Naming.ValueOfPadded | app.py:77 | zero padding does not change the number written |
| Naming.FileName | app.py:77 | `f"icon_{n:03}.png"` with n = idx+1. It has no contract of its own; its format is stated by `FileNameFormat`, its distinctness by `FileNameInjective` and `FileNamesDiffer`, and its relativity by `FileNameIsRelative` |
| Naming.FileNameFormat | app.py:77 | below 1000 the name is `icon_` followed by exactly three digits of the index and `.png`; from 1000 on, it uses all the digits |
| Naming.FileNameInjective | app.py:77 | two indices give the same file name only if they are equal |
| Naming.FileNamesDiffer | app.py:77 | different indices give different file names |
| Naming.JoinPath | app.py:78 | an absolute name replaces the directory; a relative name is placed in the directory, with a `/` between them unless the directory is empty or already ends in `/` |
| Naming.PathInDir | app.py:78 | the case of `os.path.join` the loop meets: a relative name placed in the directory. It has no contract of its own; `JoinPath` states that it is that case, and `PathInDirInjective` and `PathsDiffer` state its injectivity |
| Naming.PathInDirInjective | app.py:78 | within one directory, two names give the same path only if they are the same name |
| Naming.PathsDiffer | app.py:77-78 | different indices give different paths inside one directory |
| Naming.JoinPathInjective | app.py:78 | within one directory, two relative names give the same path only if they are the same name |
| Naming.FileNameIsRelative | app.py:77-78 | a file name never starts with `/`, so joining keeps it inside the batch directory |
| Batch.Attempt | app.py:47-92 | an item is dropped exactly when decoding, background removal, `thumbnail` (a size below one) or `save` raises, and the error text is that of the first call to raise; when only `zipf.write` raises the item is listed with that call's text; otherwise it keeps the decoded original and the fitted icon |
| Batch.LineFor | app.py:85-92 | only a fully packed item gets a success line, naming its 1-based file with the original and shrunk sizes; every other item, including one whose archive write raised, gets an error line with index k+1 and its own exception text |
| Batch.Record | app.py:79-92 | one item adds exactly its log line; its icon and its path in the batch directory unless it was dropped; and its archive entry only when fully packed |
| Batch.Collect | app.py:46-92 | the batch has one log line per item, as many paths as gallery icons, no more icons than items and no more entries than icons |
| Batch.Outcomes | app.py:46-92 | one tagged result per upload, in input order, each that upload's own attempt |
| Batch.ZipWriter.constructor | app.py:45 | a freshly opened archive has no entries and is open |
| Batch.ZipWriter.Write | app.py:83 | a write that completes appends exactly the given entry name; one that raises leaves the entries as they were and reports the failure |
| Batch.ZipWriter.Close | app.py:45 | leaving the `with` block closes the archive with its entries unchanged |
| Batch.ProcessAndPackage | app.py:33-95 | no files give an empty gallery, the single warning, no paths, no archive and no entries; otherwise the archive path is `processed_icons.zip` in the batch directory, and gallery, paths, entries and log are exactly those of processing the uploads one by one in order |
| BatchProperties.CollectLog | app.py:85-92 | every upload adds exactly one log line, at its own position: a success line naming `icon_NNN.png` with both sizes, or an error line with its 1-based index and the exception text |
| BatchProperties.CollectImages | app.py:81 | the gallery holds the icons of exactly the items that got past `save`, in input order |
| BatchProperties.CollectPaths | app.py:78-82 | the file list holds, for those same items in the same order, the path in the batch directory of the file named after the item's original 1-based position |
| BatchProperties.CollectEntries | app.py:77-83 | the archive holds, for exactly the items whose `zipf.write` completed, the name of the item's original 1-based position, in input order |
| BatchProperties.EntriesAreDistinct | app.py:77-83 | no two archive entries share a name |
| BatchProperties.PathsAreDistinct | app.py:77-82 | no two output files share a path |
| BatchProperties.NotArchived | app.py:83 | an item that did not reach the archive has no entry in it |
| BatchProperties.NotListed | app.py:82 | an item that raises before `save` completes has no path in the file list |
| BatchProperties.DroppedLeavesOnlyItsLine | app.py:46-92 | an item that raises before `save` completes gets its error line at its own position with index k+1, and appears in neither the archive nor the file list |
| BatchProperties.ArchiveFailureKeepsIcon | app.py:81-92 | an item whose `zipf.write` raises keeps its gallery icon and its path, has no archive entry, and gets an error line |
| BatchProperties.InStepWhenArchiveWrites | app.py:81-86 | when no archive write raises, gallery, file list and archive have equal lengths, and each path is the matching entry name placed in the batch directory |
| BatchProperties.OneFailureAmongSuccesses | app.py:46-92 | of N uploads where only item k fails, N-1 icons, paths and entries remain, named `icon_001.png` … with k+1 skipped |
| BatchProperties.OneFailureLog | app.py:85-92 | in that batch line k is item k's error and every other line is a success line naming that item's own file |
| BatchProperties.FailedFirstDoesNotShiftNames | app.py:77-92 | if the first of two uploads fails and the second succeeds, the log is the error for index 1 followed by the success line, and the archive's only entry is `icon_002.png` |
| BatchProperties.KeptIconIsSquare | app.py:63-74 | an item that got past fitting has a `size` by `size` icon, fully opaque when a colour was chosen |
| BatchProperties.IconsAreSquares | app.py:63-81 | every gallery image is `size` by `size`, and every one of its pixels has alpha 255 when a colour was chosen |
| BatchProperties.SmallSizeDrops | app.py:63 | with a target size below one, `thumbnail` raises, so the item fails whatever the other calls do |
| BatchProperties.NoneKept | app.py:89-92 | when every item fails, gallery, file list and archive stay empty |
| BatchProperties.NonPositiveSizeFailsAll | app.py:46-92 | with a target size below one, nothing is produced, yet the archive path is still returned (see `ProcessAndPackage`), and every upload has its own error line |

## Left out

- The Gradio interface (app.py:97-203): layout, widgets, styling, the click binding and the server launch are presentation, not logic.
- `rembg.remove` and all image encoding and decoding: `Image.open`, `convert`, the PNG round trip through `BytesIO`, and `save`. They are foreign code; each upload's `Upload` value gives their results or their exceptions.
- The logging setup, the file and console handlers, and the `logging.*` calls: they are side channels. Only the returned log is modelled.
- The exact Chinese and emoji text of log lines, and `log_output.strip()` joining the lines into one string. The log is a sequence of `LogLine` values carrying the file name, the sizes, the index and the exception text.
- The text of Pillow's exception for a target size below one: `NonPositiveSize` is a placeholder, and only the fact that the item fails is modelled.
- `tempfile.mkdtemp` is a parameter (`tempDir`), and the bytes written to disk and into the archive are left out. The archive is the list of its entry names, and the model returns that list as a fifth output that the source does not return.
- `files` being `None` rather than an empty list: the model's input is a sequence, and the empty case stands for both.
- A non-integer size coming from the slider: `size` is an integer.
- The Pillow behaviour followed is that of current releases: `getbbox()` on an RGBA image looks only at alpha (its `alpha_only` default), and `thumbnail` picks the target size with `round_aspect`. Releases whose `getbbox` counts any non-zero channel, or that size thumbnails differently, are not modelled.
- Images.Resize: Pillow's LANCZOS filter is replaced by nearest-neighbour sampling. Only the output dimensions are the source's; the pixel values of a shrunk icon are not.
- Images.ThumbnailSize: the aspect rounding is done in exact integer arithmetic rather than Python floats. The two differ only on an exact half-pixel tie between floor and ceiling, which Pillow's float comparison settles by rounding error (a 2 by 4 image thumbnailed to 3 may come out 2 by 3 in Pillow and 1 by 3 here). The model always keeps the floor on such a tie; the contracts of `RoundNearest` and `RoundByInverse` hold for either choice. The `reducing_gap` pre-reduction of `thumbnail` only changes pixel values, so it is left out.
- Images.Over: the colour channels use exact rounded division instead of Pillow's fixed-point arithmetic, so only the alpha facts (opaque stays opaque; a transparent source changes nothing) are meant to match. Pillow also clears a pixel whose composite alpha is zero; this is never reached here, because the destination is the opaque background.
- Images.Thumbnail, Images.Paste: Pillow changes `out_img` and `padded` in place. Both are modelled as functions to new values, because the images are never shared.
- Pipeline.RefitTransparentIsIdentity: it needs the shrunk image to be trimmed or blank, because resampling can turn a visible edge pixel transparent.
