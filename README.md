# Axion pixel heuristic and view state, in Dafny

This project models the logic of the Axion single-page application
(`App.js`): the pixel heuristic that scans an uploaded image and produces one
of two fixed messages, the upload view's state (chosen file, last result,
submit button), and the page selector of the application shell.

- `pixel_heuristic.dfy` (module `PixelHeuristic`): the decoded RGBA buffer
  as an `array<Byte>` (bytes 0..255, four per pixel, `4 * width * height` of
  them), the canvas as `NoContext | Rendered(width, height, data)`, the
  counting loop `CountAbnormalPixels`, the analysis `Analyze` with its
  outcome `Completion` (`Returns(verdict) | Throws`, the latter for a
  `ZeroArea` canvas) and its specification `Expected`, the specification
  functions `CountAbnormal`
  (the count over a prefix), `AbnormalPixels` (the set of abnormal pixel
  indices) and `VerdictOf` (the strict `> 1000` threshold), and lemmas about
  them.
- `file_upload.dfy` (module `Upload`): the `FileUpload` class with its three
  state fields and the two handlers.
- `app.dfy` (module `Pages`): `RenderPage`, the `App` class holding the page
  name, and the navigation buttons.

A pixel is abnormal when `|r - g|`, `|g - b|` or `|b - r|` is strictly above
50. The alpha byte is never read. The positive message is produced exactly
when more than 1000 pixels are abnormal. Without a 2D drawing context the
analysis returns the negative message before any buffer exists, so no pixel
is examined.

Three behaviours of App.js that the model keeps on purpose:
- The change handler (App.js:66-70) stores `e.target.files[0]` and sets
  `uploaded` to true unconditionally. When the dialog hands back no file,
  the submit button still appears; `HandleFileChange(None)` is that case,
  and submitting after it does nothing.
- The result is stored only from the image's load callback (App.js:77-82).
  No error callback is set, so a file that never loads as an image leaves
  the result and the submit button as they were; `HandleSubmit(None)` is
  that case.
- The canvas takes the image's width and height (App.js:29-30). For a
  zero-width or zero-height image, reading the image data back (App.js:33)
  throws, so the analysis returns nothing and the state is not updated;
  `Analyze` reports `Throws` for such a canvas.

## Model

| member | source | states |
|---|---|---|
| `PixelHeuristic.CountAbnormalPixels` | App.js:35-50 | the loop's running count equals `CountAbnormal` of the prefix scanned and never exceeds the pixels scanned; the final count is `CountAbnormal` of the whole buffer |
| `PixelHeuristic.Analyze` | App.js:22-57 | the completion is `Expected(canvas)`: no context returns `Unlikely`; a zero-width or zero-height canvas throws; otherwise `Detected` is returned iff the count is strictly above 1000 |
| `PixelHeuristic.CountAbnormal` | App.js:35-50 | the abnormal count of a buffer never exceeds its number of pixels, `length / 4` |
| `PixelHeuristic.CountPrefixStep` | App.js:38-49 | scanning the pixel at byte i adds one to the count of the prefix exactly when that pixel is abnormal |
| `PixelHeuristic.CountAppendPixel` | App.js:43-49 | one more pixel raises the count by one exactly when that pixel has a channel pair differing by more than 50 |
| `PixelHeuristic.CountIsCardinality` | App.js:38-49 | the count is the size of `AbnormalPixels`, the set of indices p of the pixels one of whose channel differences exceeds 50, so a pixel is counted iff it is abnormal |
| `PixelHeuristic.AbnormalPixelsDropLast` | App.js:38-49 | the abnormal set of a buffer is that of the buffer without its last pixel, plus that pixel's index iff it is abnormal |
| `PixelHeuristic.AlphaIgnored` | App.js:38-42 | buffers that agree on the red, green and blue bytes of every pixel have the same count, whatever their alpha bytes |
| `PixelHeuristic.GreyCountsZero` | App.js:35-56 | a buffer where every pixel has r = g = b has count 0 and gives `Unlikely`, whatever its size |
| `PixelHeuristic.EmptyIsUnlikely` | App.js:35-56 | the empty buffer has count 0 and gives `Unlikely`; this is the threshold stage taken alone, which `Analyze` never reaches on an empty buffer |
| `PixelHeuristic.EmptyCanvasThrows` | App.js:29-33 | a rendered canvas whose buffer is empty has zero area, so the analysis throws before the loop |
| `PixelHeuristic.CountAppendRepeat` | App.js:38-50 | appending n copies of one pixel adds n to the count if that pixel is abnormal and 0 otherwise |
| `PixelHeuristic.RedThenGrey` | App.js:52-56 | n pure red pixels followed by any number of grey pixels count n and give `Detected` iff n > 1000, so exactly 1000 gives `Unlikely` |
| `PixelHeuristic.TextsDiffer` | App.js:53-56 | the two result messages are different strings |
| `Upload.FileUpload.constructor` | App.js:62-64 | the view starts with no file, no result and no submit button |
| `Upload.FileUpload.HandleFileChange` | App.js:66-70 | the selected file (or none) is stored, `uploaded` becomes true so the submit button shows, the result is kept |
| `Upload.FileUpload.HandleSubmit` | App.js:72-97 | the file is kept; with no file, with an image that never loads, or when the analysis throws, result and `uploaded` are unchanged; otherwise the result becomes the analysis's verdict, `uploaded` becomes false, the submit button hides and the verdict's message shows |
| `Pages.RenderPage` | App.js:157-170 | the view is Home iff the name is none of 'upload', 'about', 'citations'; any other view is the one whose name was given |
| `Pages.RenderPageName` | App.js:157-178 | rendering the name a navigation button stores gives back that button's view |
| `Pages.App.constructor` | App.js:155 | the application opens on page 'home', which renders Home |
| `Pages.App.SetPage` | App.js:155 | any page name can be stored and renders as `RenderPage` says |
| `Pages.App.Navigate` | App.js:175-178 | a navigation button stores its view's name, and that view is rendered |

## Left out

- Canvas creation, `drawImage` and `getImageData` (App.js:23-34) are browser APIs. The model takes the canvas as a parameter: either no context, or a width, a height and a buffer of `4 * width * height` bytes in 0..255.
- Reads past the end of the buffer (`undefined` in JavaScript) cannot happen here, because the buffer always holds whole pixels.
- The FileReader and Image callbacks (App.js:74-84) are asynchronous I/O. `HandleSubmit` takes the decoded canvas of the chosen file, or none when it never loads, and performs the whole chain as one step. Which files fail to load is not modelled. Events that arrive while a read is in flight, and repeated clicks on the submit button, are not modelled.
- `Upload.FileUpload.HandleSubmit`: the source stores the message string. The model stores the `Verdict`, and the displayed message is `Verdict.Text()`. `TextsDiffer` shows the two messages are distinct, so nothing is lost. The long positive message makes any proof over its characters too costly, so the model does not prove that both messages are non-empty (the source's `result &&` test). The result paragraph is taken to show whenever a verdict is held.
- `Pages.App.SetPage` accepts any string, as `setPage` would. The source's own buttons only pass the four known names (see `Navigate`).
- JSX rendering, CSS, React's `useState` machinery and the static text of Home, About and Citations (App.js:7-18, 103-150) are presentation only.
- The medical meaning of the two messages is not modelled. They are opaque constants.
- The heuristic blocks the UI thread on large images. That is a performance matter, not behaviour.
