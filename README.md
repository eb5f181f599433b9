# NoteOCR page splitter and result writers, in Dafny

NoteOCR digitises photos of handwritten notebooks. One photo holds three
pages side by side. `ImageProcessor.detect_pages` cuts the photo into page
images, and `ImageProcessor.preprocess_image` upscales small images before
recognition. `FileHandler.save_to_txt` and `FileHandler.create_pdf` each
take a list with one entry (file name and text) per recognised page. The
shown `main.py` reaches neither of them: at `main.py:146` it calls
`process_to_markdown`, which `utils/file_handler.py` does not define, and
the resulting error is caught and logged at `main.py:150-151`.

The model has five modules:

- `Wrappers` (`wrappers.dfy`): `Option`, `Result` and `Outcome`.
- `Raster` (`raster.dfy`): an image as a rectangular grid of pixels, with the
  NumPy crop `image[y1:y2, x1:x2]`.
- `ImageProcessor` (`image_processor.dfy`):
  - the candidate filter, which needs an area of at least 15 % of the frame
    and a width/height ratio in [0.5, 1.5];
  - the 10-pixel margin, clamped to the image;
  - the stable left-to-right sort;
  - the equal-thirds fallback, used when no contour or not exactly three
    contours are kept;
  - the `ValueError` raised for a missing image;
  - the dimensions that `preprocess_image` produces.
- `PyStr` (`py_str.dfy`): Python's `str.split('\n')` and `str.strip()`,
  which the PDF writer relies on.
- `FileHandler` (`file_handler.dfy`):
  - the text file is a class whose `write` calls the file system may reject;
  - `save_to_txt` is a loop of writes over it;
  - `create_pdf` builds its story, the list of flowables: titles, spacers,
    paragraphs and page breaks.

`detect_pages` and `save_to_txt`/`create_pdf` are written as loops that
change state, so they are methods. Each method is proved against a
specification function (`DetectSpec`, `Thirds`, `TxtLayout`, `Story`).
The properties are proved as lemmas about those functions.

Facts about the code in `processors/image_processor.py` that shape the
model:

- The code hard-codes its parameters, and the model uses the same values
  as constants:
  - 3 pages;
  - an area of at least 15 %;
  - an aspect ratio in [0.5, 1.5];
  - a margin of 10 pixels;
  - a minimum side of 1000 pixels.
- `config.py:35-39` holds the same values (except the page count) as
  defaults. Neither `detect_pages` nor `preprocess_image` reads them.
- The splitter has no line detection, no perspective warp and no
  density-based fallback. Its only fallback cuts the photo into three
  strips of equal width.
- The fallback is written twice: once for "none kept" (lines 61-70) and
  once for "kept, but not 3" (lines 79-87). The model keeps both branches,
  and `FallbackPath` proves that they give the same pages.

## Model

| member | source | states |
|---|---|---|
| ImageProcessor.DetectPages | processors/image_processor.py:8-89 | A missing image gives the `InvalidImage` error and nothing else does. Otherwise exactly 3 pages come back, and they are `DetectSpec` of the image and its contours. |
| ImageProcessor.Survivors | processors/image_processor.py:31-58 | The entries collected from the first `k` contours are at most `k`. Their contour positions are below `k` and strictly increasing, so the list keeps contour order. |
| ImageProcessor.SurvivorsQualify | processors/image_processor.py:34-58 | Every collected entry comes from a contour that passes both the area test and the aspect test. The entry is that contour's margin box and crop. |
| ImageProcessor.QualifiersSurvive | processors/image_processor.py:34-58 | Every contour that passes both tests is collected, so the filter drops nothing it should keep. |
| ImageProcessor.MarginBox | processors/image_processor.py:48-53 | The box grown by 10 px lies inside the image and encloses the bounding box. Each edge is either the grown edge or the image border. |
| Raster.Crop | processors/image_processor.py:56 | The crop has the rectangle's size. Crop pixel `(y, x)` is image pixel `(y1 + y, x1 + x)`. |
| ImageProcessor.InsertByLeft | processors/image_processor.py:73 | Inserting an entry keeps every entry: the multiset grows by exactly the inserted one. |
| ImageProcessor.SortByLeft | processors/image_processor.py:73 | The sort returns a permutation of its input. |
| ImageProcessor.InsertByLeftSorted | processors/image_processor.py:73 | Inserting an entry whose contour comes before all the others keeps the list in stable left-to-right order. |
| ImageProcessor.SortByLeftSorted | processors/image_processor.py:73 | Sorting entries in contour order yields left edges non-decreasing, with ties in contour order. This is the order of Python's stable sort by `x1`. |
| ImageProcessor.SortedByLeftUnique | processors/image_processor.py:73 | Two orderings of the same entries that are both sorted this way are equal. So the model's sort agrees with every stable sort by `x1`. |
| ImageProcessor.Strip | processors/image_processor.py:63-67 | Strip `i` of the fallback lies inside the image. |
| ImageProcessor.StripsTile | processors/image_processor.py:63-67 | The three strips tile the image: the first starts at 0, each ends where the next begins, and the last ends at the width. Each spans the full height. The first two are `width // 3` wide and the last is narrower than `width // 3 + 3`. |
| ImageProcessor.Thirds | processors/image_processor.py:62-70 | The fallback gives 3 pages, each as tall as the image. |
| ImageProcessor.EqualSplit | processors/image_processor.py:63-70 | The fallback loop `for i in range(3)` returns exactly the three strip crops. |
| ImageProcessor.DetectSpec | processors/image_processor.py:60-89 | On every path, including "none kept", "kept, but not 3" and "exactly 3 kept", the result has exactly 3 pages. |
| ImageProcessor.PagesInsideImage | processors/image_processor.py:50-56 | Every returned page lies inside the image and is the crop of its region. |
| ImageProcessor.FallbackPath | processors/image_processor.py:60-70 | When the filter keeps anything but 3 contours, including none, the pages are the three strips in order. They tile the image and their widths add up to the image width. |
| ImageProcessor.KeptPath | processors/image_processor.py:72-74 | When exactly 3 contours are kept, the pages are their crops, each exactly once. They are ordered by left edge, with ties in contour order. |
| ImageProcessor.KeptPathMembership | processors/image_processor.py:34-58 | On the kept path, the entry of contour `k` (its margin box, its crop and its position `k`) is among the sorted entries if and only if the contour passes the area and aspect tests. |
| ImageProcessor.ScaledSideBounds | processors/image_processor.py:105-107 | `int(side * 1000 / m)` is the floor of the exact product. For `m <= side` it is at least 1000. It equals 1000 when `side == m`, and it is at least `side` when `m <= 1000`. |
| ImageProcessor.Upscaled | processors/image_processor.py:104-108 | Resizing a small image keeps its channels, except that a single-channel array loses its channel axis, and shrinks no side. The smaller side becomes exactly 1000, and each side is the truncated scaled side. |
| ImageProcessor.PreprocessNeverShrinks | processors/image_processor.py:94-122 | Whichever stage raises, the returned image is never smaller on either side. |
| ImageProcessor.PreprocessKeepsLargeSize | processors/image_processor.py:102-108 | An image whose sides are both at least 1000 keeps its size. |
| ImageProcessor.PreprocessUpscales | processors/image_processor.py:94-118 | When no stage is set to fail, a small non-empty image comes back with its smaller side exactly 1000, and both sides are truncations of the scaled sides. It has 3 channels when it was grayscale or had 3 or 4 channels. Otherwise the LAB conversion raises and the resized array is returned. |
| ImageProcessor.PreprocessUnenhanceable | processors/image_processor.py:98-122 | An array with neither 3 nor 4 channels, which the conversion leaves alone, always makes the enhancement raise. The result is the same whether or not the enhancement is set to fail. An array large enough to skip the resize comes back untouched. |
| ImageProcessor.PreprocessFaults | processors/image_processor.py:94-122 | A stage that raises returns the image as it stood when that stage began. A failed conversion returns the input. A failed resize returns the converted image. A failed enhancement returns the converted image, resized when it was small. |
| ImageProcessor.PreprocessEmptyImage | processors/image_processor.py:94-122 | An image with a zero-length side comes back unchanged, whatever stage is set to fail. A grayscale or 3-channel one makes the colour conversion raise. Any other reaches the scale factor and divides by zero. Both exceptions are caught. |
| PyStr.SplitLines | utils/file_handler.py:85 | `split('\n')` gives at least one piece, and no piece contains a newline. |
| PyStr.JoinSplitLines | utils/file_handler.py:85 | Joining the pieces of a split with newlines gives back the text. |
| PyStr.SplitJoinLines | utils/file_handler.py:85 | Splitting a join of newline-free pieces gives back the pieces. |
| PyStr.TrimStartSpec | utils/file_handler.py:87 | `lstrip` removes a run of leading whitespace, and nothing more: what is left is a suffix that starts with a non-space. |
| PyStr.TrimEndSpec | utils/file_handler.py:87 | `rstrip` removes a run of trailing whitespace, and nothing more: what is left is a prefix that ends with a non-space. |
| PyStr.StripEmptyIffAllSpace | utils/file_handler.py:87 | `line.strip()` is empty if and only if every character of `line` is whitespace. |
| FileHandler.Pieces | utils/file_handler.py:21-27 | An entry is written as exactly five pieces. |
| FileHandler.BlockLength | utils/file_handler.py:21-27 | A block is 115 characters longer than the file name and the text together. |
| FileHandler.TxtLayoutConcat | utils/file_handler.py:19-27 | The file for a concatenation of entry lists is the concatenation of their files. |
| FileHandler.TxtLayoutAppend | utils/file_handler.py:19-27 | One more entry appends exactly its block. |
| FileHandler.BlockInPlace | utils/file_handler.py:19-27 | Entry `i`'s block sits between the blocks of the entries before it and those after it. |
| FileHandler.TxtLayoutLength | utils/file_handler.py:19-27 | The file is `115 * n` characters plus the lengths of all file names and texts. |
| FileHandler.TextFile.Write | utils/file_handler.py:21-27 | A write either appends its string or is rejected and leaves the content unchanged. It is rejected exactly when it is the call the file system fails. |
| FileHandler.TextFile.Truncate | utils/file_handler.py:18 | Opening the file in `'w'` mode leaves it empty. |
| FileHandler.PiecesUpToGrows | utils/file_handler.py:21-27 | Writing more pieces only extends what is on file. |
| FileHandler.PartialWriteIsProperPrefix | utils/file_handler.py:19-32 | A write that fails partway through an entry leaves a proper prefix of the full file on disk. |
| FileHandler.WritePiece | utils/file_handler.py:21-27 | One write appends the next piece of the entry, or leaves the file unchanged if it is rejected. |
| FileHandler.WriteBlock | utils/file_handler.py:21-27 | The five writes of an entry append its whole block, unless one of them is rejected. If one is rejected, the pieces before it are on file and no later write is issued. |
| FileHandler.SaveToTxt | utils/file_handler.py:15-32 | It succeeds exactly when no write call is rejected, and then the file is the blocks of the entries in input order. A rejected write call `n` is raised again. The file then holds exactly the first `n // 5` blocks and the first `n % 5` pieces of the next one, a proper prefix of the full file. An empty list leaves an empty file. |
| FileHandler.NonBlankSound | utils/file_handler.py:86-89 | Every kept paragraph is a line of the input whose stripped form is not empty. |
| FileHandler.NonBlankKeeps | utils/file_handler.py:86-89 | Every line whose stripped form is not empty is kept. |
| FileHandler.ParagraphsAreNonBlankLines | utils/file_handler.py:85-89 | A line is a paragraph if and only if it is a line of the text and not all whitespace. No paragraph contains a newline. |
| FileHandler.Section | utils/file_handler.py:78-89 | An entry's section starts with the title `"Source: " + filename` and one spacer. Everything after them is a paragraph. |
| FileHandler.AddParagraphs | utils/file_handler.py:85-89 | The inner loop appends exactly the paragraphs of the text. |
| FileHandler.BuildStory | utils/file_handler.py:75-93 | The loop builds the story `Story(entries)`. The story has `max(0, n - 1)` page breaks, and its titles are the entries' sources in input order. |
| FileHandler.StoryBreaks | utils/file_handler.py:91-93 | A story of `n` entries has exactly `max(0, n - 1)` page breaks. When non-empty, it starts with a title and does not end with a page break. |
| FileHandler.SectionTitles | utils/file_handler.py:78-79 | A section has exactly one title, its source line. |
| FileHandler.StoryTitles | utils/file_handler.py:76-79 | The story's titles are `"Source: " + filename` for each entry, once each and in input order. |

## Left out

- The OpenCV steps before the filter are not modelled: grey conversion, Otsu threshold, dilation, erosion, `findContours`, `contourArea` and `boundingRect`. The model takes the contours they return as input. What `boundingRect` guarantees (a box of positive size inside the image) is a precondition of `ImageProcessor.DetectPages`.
- `ImageProcessor.DetectPages` does not model an exception raised inside OpenCV. Examples are the grey conversion of an array with neither 3 nor 4 channels, such as a 2-D grayscale one, and the conversion of an empty array.
- ImageProcessor.LargeEnough: the test `area < width * height * 0.15` is modelled in exact arithmetic. The double nearest 0.15 lies slightly below 3/20, and the product is rounded. So for an area within rounding distance of exactly 15 % of the frame, the source and the model can decide differently.
- The aspect test uses exact arithmetic. Its bounds 0.5 and 1.5 are exact binary floats, and the box sides are far below 2^53, so `w / h` compares exactly as the model's integer test does.
- The `logging` calls are not modelled.
- ImageProcessor.Preprocess models only the shape of the image: its height, width and channel axis. The pixel work of `cvtColor`, `resize` with cubic interpolation and CLAHE is opaque.
- Which library call raises in `preprocess_image` is a parameter (`fault`), because the cause lies inside OpenCV. The model derives two such failures itself: the conversion of an empty array, and the LAB conversion of an array with neither 3 nor 4 channels.
- ImageProcessor.Upscaled computes `int(width * (1000 / m))` as the exact floor of `width * 1000 / m`. The source multiplies by a rounded double. When the exact product is an integer or very close to one, the truncation can land one pixel lower. For example, with a smaller side of 19 pixels, `19 * (1000 / 19)` falls just below 1000 in double precision, so that side becomes 999. The model states the intended result, the exact floor, which makes the smaller side exactly 1000.
- Detected pages are plain crops. Python's `.copy()` makes the crops independent buffers, and this aliasing concern does not arise in a value model.
- FileHandler.Entry: each page is a record of file name and text. The `KeyError` for a dictionary missing a key is not modelled.
- FileHandler.SaveToTxt: a failing `open` is not modelled. Neither is the UTF-8 encoding of the text, or buffering: each `write` is taken to reach the file when it is called. The file is opened in text mode, so every `"\n"` written becomes the platform's line separator. `file.content`, the 115 of `BlockLength` and `TxtLayoutLength` therefore describe the file on disk only where that separator is `"\n"`. On Windows it is `"\r\n"`.
- FileHandler.BuildStory models the story that `create_pdf` hands to the renderer. It does not model these parts of `create_pdf`:
  - font registration;
  - the document template and styles;
  - ReportLab's markup interpretation of paragraph text;
  - `doc.build`;
  - the exceptions these raise, which are logged and raised again.
- The rest of the repository is not part of this model: `main.py`, `processors/ocr_processor.py`, `processors/text_processor.py` and `config.py`. These are the directory scan, the thread pool, the recognition and language-model services, and the configuration loading.
