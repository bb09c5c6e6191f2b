# HyperTextEditor: the block-splicing core

`HyperTextEditor` is an Android rich-text widget. It is a `ScrollView` that holds a
vertical `LinearLayout`, whose children are `EditText`s and image cells
(`RelativeLayout`s). Inserting an image splits the focused text around the caret.
Backspace at the start of a text joins it to the text above, or removes the image
above. Closing an image removes its cell and merges the texts that flanked it.
`buildEditData` serialises the children into a list of `HyperEditData` records.

This project models that splicing logic and proves what it does.

- `Blocks` (`blocks.dfy`) holds the values and the Java library behaviour the
  editor relies on:
  - the children are a `seq<Block>`, with `Text(tag, content)` and `Image(tag, path)`;
  - the tag is the one `createEditText` / `createImageLayout` hands out with
    `viewTagIndex++`, and it stands for the view's identity;
  - `String.trim` strips every char `<= ' '` at either end;
  - `ArrayList.remove(Object)` drops the first equal element;
  - `ViewGroup.indexOfChild` finds a view by its tag, and `addView` / `removeView`
    work at an index, where a negative index appends;
  - the `HyperEditData` records and their restoration.
- `EditorModel` (`editor_model.dfy`) holds the editor's state as a value and one
  function per Java method.
  - The state is the children, `viewTagIndex`, the tag and selection start of
    `lastFocusEdit`, `imagePaths` (a list), `disappearingImageIndex`, and the text
    of `lastFocusEdit` once `clearAllLayout` has taken it out of the layout.
  - Each function follows its Java method step by step, with the same branches
    and the same index arithmetic.
- `EditorProperties`, `RemovalProperties` and `Scenarios` prove what the steps add
  up to:
  - the exact result of every branch of `insertImage`, backspace and image removal;
  - the invariant: tags distinct and below the counter, `lastFocusEdit` a text
    child of the layout, and `imagePaths` equal as a multiset to the paths of
    the image cells. The constructor establishes it. `insertImage`,
    `onBackspacePress`, `onImageCloseClick`, `mergeEditText` and the focus
    listener keep it, and so does `addEditTextAtIndex` at any index, since past
    the last child it only spends a tag. `addImageViewAtIndex` keeps it for an
    empty path or an index within the layout. Only an image add with a path
    past the last child, and `clearAllLayout`, break it (`AddOutOfRange`,
    `ClearAllLayoutStale`);
  - worked examples on small layouts, proved as lemmas.
- `Editor` (`editor.dfy`) is the class `HyperTextEditor`.
  - Its fields are the ones the Java methods update in place.
  - Each method mutates them as the Java does and is proved to yield the
    `EditorModel` function of the old state.
  - Every method listed above as keeping the invariant is also proved to keep
    it. Only `AddImageViewAtIndex` carries a condition: the index is within the
    layout.
  - `buildEditData` is its `for` loop, proved to produce the serialisation and to
    change nothing.
- `BitmapSampling` (`bitmap.dfy`) is the sample-size expression of
  `getScaledBitmap`, in Java's 32-bit `int` arithmetic: truncating division,
  wrap-around on overflow, and an exception on a zero divisor.

Behaviour of the code a reader might not expect:

- **Caret after the last non-blank char.** The result is `[S, Image, ""]`, with
  focus on the empty text after the image.
- **Caret in mid-text.** The result is `[trim(pre), Image, "", trim(post)]`.
  Each of the three `addView` calls at `lastEditIndex + 1` pushes the earlier ones
  down.
- **Adjacent images.** Two image cells can end up next to each other: with the
  caret at the start of a text that follows an image, the new image lands right
  after the old one.
- **`imagePaths` is a list.** It may hold duplicates, and `remove` drops the first
  occurrence.
- **Image removal is one synchronous step.** While a layout transition runs it
  does nothing; the click is dropped, not queued.
- **`clearAllLayout` only removes the views.** `imagePaths`, `lastFocusEdit`, the
  tag counter and `disappearingImageIndex` keep their values, and the layout is
  left empty.
- **`insertImage` after `clearAllLayout` still runs.** It reads the detached
  `lastFocusEdit` with `indexOfChild` -1.

## Model

All source paths are `YCCustomTextLib/src/main/java/com/ns/yc/yccustomtextlib/edit/view/HyperTextEditor.java`.

| member | source | states |
|---|---|---|
| Blocks.TrimStartSpec | YCCustomTextLib/src/main/java/com/ns/yc/yccustomtextlib/edit/view/HyperTextEditor.java:407 | The leading part of `trim` removes a prefix made only of chars `<= ' '` and stops at the first char above `' '`. |
| Blocks.TrimEndSpec | YCCustomTextLib/src/main/java/com/ns/yc/yccustomtextlib/edit/view/HyperTextEditor.java:409 | The trailing part of `trim` removes a suffix made only of chars `<= ' '` and stops at the last char above `' '`. |
| Blocks.TrimIsInfix | YCCustomTextLib/src/main/java/com/ns/yc/yccustomtextlib/edit/view/HyperTextEditor.java:407-409 | `trim(s)` is the infix of `s` between a blank prefix and a blank suffix, and when non-empty it starts and ends with a non-blank char. |
| Blocks.TrimEmpty | YCCustomTextLib/src/main/java/com/ns/yc/yccustomtextlib/edit/view/HyperTextEditor.java:416 | `trim(s)` is empty exactly when every char of `s` is `<= ' '`, which is the test `editStr1.length() == 0` makes. |
| Blocks.Trim | YCCustomTextLib/src/main/java/com/ns/yc/yccustomtextlib/edit/view/HyperTextEditor.java:407-409 | `String.trim`; what it returns is stated by `TrimStartSpec`, `TrimEndSpec`, `TrimIsInfix` and `TrimEmpty`. |
| Blocks.InsertAt | YCCustomTextLib/src/main/java/com/ns/yc/yccustomtextlib/edit/view/HyperTextEditor.java:479 | `addView(child, index)` adds exactly one child. |
| Blocks.RemoveAt | YCCustomTextLib/src/main/java/com/ns/yc/yccustomtextlib/edit/view/HyperTextEditor.java:327 | `removeView` removes exactly one child. |
| Blocks.RemoveFirst | YCCustomTextLib/src/main/java/com/ns/yc/yccustomtextlib/edit/view/HyperTextEditor.java:324 | `ArrayList.remove(Object)` shortens the list by one exactly when the element is in it. `RemoveFirstCount`, `RemoveFirstAbsent` and `RemoveFirstAt` state which element goes. |
| Blocks.RemoveFirstCount | YCCustomTextLib/src/main/java/com/ns/yc/yccustomtextlib/edit/view/HyperTextEditor.java:324 | `imagePaths.remove(path)` takes exactly one occurrence of `path` out of the multiset of paths. Every other path keeps its count. |
| Blocks.RemoveFirstAbsent | YCCustomTextLib/src/main/java/com/ns/yc/yccustomtextlib/edit/view/HyperTextEditor.java:324 | Removing a path that is not in the list leaves the list unchanged. |
| Blocks.RemoveFirstAt | YCCustomTextLib/src/main/java/com/ns/yc/yccustomtextlib/edit/view/HyperTextEditor.java:324 | When the first occurrence is at `k`, exactly the element at `k` is dropped and the order of the rest is kept. |
| Blocks.IndexOf | YCCustomTextLib/src/main/java/com/ns/yc/yccustomtextlib/edit/view/HyperTextEditor.java:411 | `indexOfChild` returns -1 or an index of a child carrying the tag. |
| Blocks.IndexOfFirst | YCCustomTextLib/src/main/java/com/ns/yc/yccustomtextlib/edit/view/HyperTextEditor.java:272 | No child before the found index carries the tag, and no child at all does when -1 is returned. |
| Blocks.IndexOfIs | YCCustomTextLib/src/main/java/com/ns/yc/yccustomtextlib/edit/view/HyperTextEditor.java:272 | The first child carrying the tag is the one `indexOfChild` returns. |
| Blocks.IndexOfDistinct | YCCustomTextLib/src/main/java/com/ns/yc/yccustomtextlib/edit/view/HyperTextEditor.java:411 | With distinct tags, `indexOfChild` of the k-th child's tag is k. |
| Blocks.InsertFresh | YCCustomTextLib/src/main/java/com/ns/yc/yccustomtextlib/edit/view/HyperTextEditor.java:368 | A view tagged with the current counter value keeps tags distinct and below the incremented counter. |
| Blocks.ReplaceFresh | YCCustomTextLib/src/main/java/com/ns/yc/yccustomtextlib/edit/view/HyperTextEditor.java:428 | `setText` on a child keeps tags fresh and moves no view: `indexOfChild` of every tag is unchanged. |
| Blocks.RemoveFresh | YCCustomTextLib/src/main/java/com/ns/yc/yccustomtextlib/edit/view/HyperTextEditor.java:287 | `removeView` keeps tags distinct and below the counter. |
| Blocks.InsertKeepsDistinct | YCCustomTextLib/src/main/java/com/ns/yc/yccustomtextlib/edit/view/HyperTextEditor.java:530 | Adding a view with a tag no child carries keeps tags distinct. |
| Blocks.RemoveKeepsDistinct | YCCustomTextLib/src/main/java/com/ns/yc/yccustomtextlib/edit/view/HyperTextEditor.java:327 | Removing a view keeps tags distinct. |
| Blocks.IndexOfInsert | YCCustomTextLib/src/main/java/com/ns/yc/yccustomtextlib/edit/view/HyperTextEditor.java:530 | After `addView` at `at`, a view found at `f` is found at `f + 1` if `at <= f`, and at `f` otherwise. |
| Blocks.IndexOfRemove | YCCustomTextLib/src/main/java/com/ns/yc/yccustomtextlib/edit/view/HyperTextEditor.java:327 | After `removeView` of another child at `i`, a view found at `f` is found at `f - 1` if `i < f`, and at `f` otherwise. |
| Blocks.ImagePathsInsert | YCCustomTextLib/src/main/java/com/ns/yc/yccustomtextlib/edit/view/HyperTextEditor.java:530 | Adding a child adds its path, if it is an image cell, to the multiset of displayed paths, and nothing else. |
| Blocks.ImagePathsRemove | YCCustomTextLib/src/main/java/com/ns/yc/yccustomtextlib/edit/view/HyperTextEditor.java:327 | Removing a child takes its path, if it is an image cell, out of the multiset of displayed paths. |
| Blocks.ImagePathsReplaceText | YCCustomTextLib/src/main/java/com/ns/yc/yccustomtextlib/edit/view/HyperTextEditor.java:428 | Replacing a text child by another text leaves the displayed paths unchanged. |
| Blocks.Serialize | YCCustomTextLib/src/main/java/com/ns/yc/yccustomtextlib/edit/view/HyperTextEditor.java:649-670 | One record per child. `SerializeRestore` and `RestoreSerialize` state that the records and the children determine each other up to tags. |
| Blocks.SerializeRestore | YCCustomTextLib/src/main/java/com/ns/yc/yccustomtextlib/edit/view/HyperTextEditor.java:649-670 | Every record has exactly one field set, and the records with the tags give back the children. Only the tags are lost. |
| Blocks.RestoreSerialize | YCCustomTextLib/src/main/java/com/ns/yc/yccustomtextlib/edit/view/HyperTextEditor.java:649-670 | Every well-formed list of records is the serialisation of the children it describes. |
| EditorModel.AddEditTextAtIndex | YCCustomTextLib/src/main/java/com/ns/yc/yccustomtextlib/edit/view/HyperTextEditor.java:463-490 | One child more unless the index is past the end, where the exception leaves the state as it was but for the counter, which always advances by one. In range, focus moves to the new text with the caret at `editStr.length()`. `imagePaths`, `disappearingImageIndex` and a detached text are never touched. |
| EditorModel.AddImageViewAtIndex | YCCustomTextLib/src/main/java/com/ns/yc/yccustomtextlib/edit/view/HyperTextEditor.java:496-541 | One child more, except for an empty path or an index past the end. An empty path changes nothing at all. Any other path is appended to `imagePaths` and takes a tag, even when `addView` then throws. Focus, caret, `disappearingImageIndex` and a detached text are never touched. |
| EditorModel.SetText | YCCustomTextLib/src/main/java/com/ns/yc/yccustomtextlib/edit/view/HyperTextEditor.java:428 | `setText` keeps the number of children. |
| EditorModel.Initial | YCCustomTextLib/src/main/java/com/ns/yc/yccustomtextlib/edit/view/HyperTextEditor.java:251-258 | The constructor's state, with one empty focused text under tag 1 and the counter at 2. `InitialValid` proves the invariant holds in it. |
| EditorModel.InsertImage | YCCustomTextLib/src/main/java/com/ns/yc/yccustomtextlib/edit/view/HyperTextEditor.java:396-441 | `insertImage`'s four branches. `InsertImagePaths`, `InsertImageBranches`, `InsertImageBelow`, `InsertImageAbove`, `InsertImageSplit` and `InsertImageValid` state the result. |
| EditorModel.MergeEditText | YCCustomTextLib/src/main/java/com/ns/yc/yccustomtextlib/edit/view/HyperTextEditor.java:617-644 | At most one child fewer; `imagePaths`, the counter and a detached text are untouched. `MergeEditTextShape` and `MergeEditTextKeeps` state the merge. |
| EditorModel.OnImageCloseClick | YCCustomTextLib/src/main/java/com/ns/yc/yccustomtextlib/edit/view/HyperTextEditor.java:310-334 | Nothing while a transition runs; otherwise the cell's own path is reported. The counter and a detached text are untouched. `ImageCloseShape` and `ImageCloseValid` state the rest. |
| EditorModel.OnBackspacePress | YCCustomTextLib/src/main/java/com/ns/yc/yccustomtextlib/edit/view/HyperTextEditor.java:266-303 | Nothing with the caret past 0 or in the first child; a change to `imagePaths` comes with a reported path. `BackspaceJoinsShape`, `BackspaceJoinsText`, `BackspaceRemovesImage` and `BackspaceValid` state the rest. |
| EditorModel.OnFocusChange | YCCustomTextLib/src/main/java/com/ns/yc/yccustomtextlib/edit/view/HyperTextEditor.java:240-247 | The focus listener; `OnFocusChangeValid` states that the focused child becomes `lastFocusEdit` and the invariant is kept. |
| EditorModel.ClearAllLayout | YCCustomTextLib/src/main/java/com/ns/yc/yccustomtextlib/edit/view/HyperTextEditor.java:339-343 | `removeAllViews`; `ClearAllLayoutStale` states what is left. |
| EditorModel.GetLastIndex | YCCustomTextLib/src/main/java/com/ns/yc/yccustomtextlib/edit/view/HyperTextEditor.java:348-353 | The child count; `BuildEditData` states that it is the number of records. |
| EditorProperties.InitialValid | YCCustomTextLib/src/main/java/com/ns/yc/yccustomtextlib/edit/view/HyperTextEditor.java:251-258 | After `initFirstEditText` the layout holds one focused empty text, and the invariant holds. |
| EditorProperties.AddEditTextKeeps | YCCustomTextLib/src/main/java/com/ns/yc/yccustomtextlib/edit/view/HyperTextEditor.java:463-490 | `addEditTextAtIndex` keeps tags fresh and paths tracked, and focus lands on the new EditText at the index it was given, or at the end for a negative index. |
| EditorProperties.AddImageViewKeeps | YCCustomTextLib/src/main/java/com/ns/yc/yccustomtextlib/edit/view/HyperTextEditor.java:496-541 | `addImageViewAtIndex` keeps tags fresh and paths tracked: the path goes into `imagePaths` exactly when its cell goes into the layout. A focused text child stays a focused text child. |
| EditorProperties.AddEditTextPlaces | YCCustomTextLib/src/main/java/com/ns/yc/yccustomtextlib/edit/view/HyperTextEditor.java:463-479 | In range, `Text(tag, editStr)` under the next tag sits at the index, or at the end for a negative index. The children before it are unchanged and the rest move down by one. |
| EditorProperties.AddImageViewPlaces | YCCustomTextLib/src/main/java/com/ns/yc/yccustomtextlib/edit/view/HyperTextEditor.java:496-530 | In range, `Image(tag, path)` under the next tag sits at the index, or at the end for a negative index. The children before it are unchanged and the rest move down by one. |
| EditorProperties.AddImageViewStaysFocused | YCCustomTextLib/src/main/java/com/ns/yc/yccustomtextlib/edit/view/HyperTextEditor.java:530 | A focused text child is still a focused text child after an image cell is added in range. |
| EditorProperties.AddOutOfRange | YCCustomTextLib/src/main/java/com/ns/yc/yccustomtextlib/edit/view/HyperTextEditor.java:479-488 | An index past the end adds no child and leaves focus alone; for a text only a tag is spent, so the invariant is kept. For an image, the path is still appended, so paths are no longer tracked. |
| EditorProperties.AddImageViewFocus | YCCustomTextLib/src/main/java/com/ns/yc/yccustomtextlib/edit/view/HyperTextEditor.java:530 | The focused EditText moves down by one exactly when the image cell goes in at or above it. |
| EditorProperties.SetTextKeeps | YCCustomTextLib/src/main/java/com/ns/yc/yccustomtextlib/edit/view/HyperTextEditor.java:428 | `setText` keeps tags fresh, paths tracked, and the focused index. |
| EditorProperties.InsertImagePaths | YCCustomTextLib/src/main/java/com/ns/yc/yccustomtextlib/edit/view/HyperTextEditor.java:398-400 | An empty path changes nothing. Any other path is appended to `imagePaths` exactly once. |
| EditorProperties.InsertImageBelow | YCCustomTextLib/src/main/java/com/ns/yc/yccustomtextlib/edit/view/HyperTextEditor.java:412-424 | With an empty focused text, or only blanks after the caret, the result is `S` unchanged at i, the image at i+1 and a new empty text at i+2. Nothing else moves, and focus is on the new text with caret 0. |
| EditorProperties.InsertImageAbove | YCCustomTextLib/src/main/java/com/ns/yc/yccustomtextlib/edit/view/HyperTextEditor.java:416-420 | With only blanks before the caret of a non-empty text, the result is the image at i, a new empty text at i+1 (focused, caret 0) and `S` unchanged at i+2. |
| EditorProperties.InsertImageSplitSteps | YCCustomTextLib/src/main/java/com/ns/yc/yccustomtextlib/edit/view/HyperTextEditor.java:425-435 | With text on both sides of the caret, `insertImage` is `setText(pre)` followed by three adds at `lastEditIndex + 1`: `post`, then `""`, then the image. |
| EditorProperties.SplitComposition | YCCustomTextLib/src/main/java/com/ns/yc/yccustomtextlib/edit/view/HyperTextEditor.java:428-434 | Those four steps yield `[pre, Image, "", post]` in place of the focused text, with fresh tags and focus on the empty text. |
| EditorProperties.InsertImageBranches | YCCustomTextLib/src/main/java/com/ns/yc/yccustomtextlib/edit/view/HyperTextEditor.java:411-435 | For any focus, detached or not, `insertImage` with a non-empty path is the composition of steps its branch chooses, by the lengths of `S`, `pre` and `post`. |
| EditorProperties.InsertImageSplit | YCCustomTextLib/src/main/java/com/ns/yc/yccustomtextlib/edit/view/HyperTextEditor.java:425-435 | The mid-caret branch replaces the focused text by `trim(pre), Image, "", trim(post)`, so the child count grows by 3, with focus on the empty text and caret 0. |
| EditorProperties.TextThenImageKeeps | YCCustomTextLib/src/main/java/com/ns/yc/yccustomtextlib/edit/view/HyperTextEditor.java:413-414 | Adding a text and then an image keeps tags fresh and paths tracked. |
| EditorProperties.ImageThenTextKeeps | YCCustomTextLib/src/main/java/com/ns/yc/yccustomtextlib/edit/view/HyperTextEditor.java:418-420 | Adding an image and then a text keeps tags fresh and paths tracked. |
| EditorProperties.BelowStepsFocus | YCCustomTextLib/src/main/java/com/ns/yc/yccustomtextlib/edit/view/HyperTextEditor.java:412-415 | After the image-below steps, focus is on the new empty text directly after the new image, with caret 0. |
| EditorProperties.AboveStepsFocus | YCCustomTextLib/src/main/java/com/ns/yc/yccustomtextlib/edit/view/HyperTextEditor.java:416-420 | After the image-above steps, focus is on the new empty text directly after the new image, with caret 0. |
| EditorProperties.SplitTextsKeep | YCCustomTextLib/src/main/java/com/ns/yc/yccustomtextlib/edit/view/HyperTextEditor.java:428-432 | The three text steps of the split keep the invariant parts, and focus the empty text at i+1. |
| EditorProperties.SplitStepsFocus | YCCustomTextLib/src/main/java/com/ns/yc/yccustomtextlib/edit/view/HyperTextEditor.java:425-435 | After the split steps, focus is on the new empty text directly after the new image, and the invariant parts hold. |
| EditorProperties.BelowValid | YCCustomTextLib/src/main/java/com/ns/yc/yccustomtextlib/edit/view/HyperTextEditor.java:412-415 | The image-below branch keeps the invariant and focuses the empty text below the image. |
| EditorProperties.AboveValid | YCCustomTextLib/src/main/java/com/ns/yc/yccustomtextlib/edit/view/HyperTextEditor.java:416-420 | The image-above branch keeps the invariant and focuses the empty text below the image. |
| EditorProperties.SplitValid | YCCustomTextLib/src/main/java/com/ns/yc/yccustomtextlib/edit/view/HyperTextEditor.java:425-435 | The split branch keeps the invariant and focuses the empty text below the image. |
| EditorProperties.InsertImageValid | YCCustomTextLib/src/main/java/com/ns/yc/yccustomtextlib/edit/view/HyperTextEditor.java:396-441 | `insertImage` keeps the invariant. In every branch, focus ends on a new empty text directly after the new image, with caret 0. |
| RemovalProperties.MergeEditTextShape | YCCustomTextLib/src/main/java/com/ns/yc/yccustomtextlib/edit/view/HyperTextEditor.java:617-644 | Texts A and B at `d-1` and `d` become one text: A alone if B is empty, `A + "\n" + B` otherwise. Focus and caret go to the join at `\|A\|`; in every other case nothing changes. |
| RemovalProperties.JoinKeeps | YCCustomTextLib/src/main/java/com/ns/yc/yccustomtextlib/edit/view/HyperTextEditor.java:284-294 | Removing the text at i and rewriting the one at i-1 keeps tags fresh and paths tracked. The rewritten text is found at i-1. |
| RemovalProperties.MergeEditTextKeeps | YCCustomTextLib/src/main/java/com/ns/yc/yccustomtextlib/edit/view/HyperTextEditor.java:617-644 | `mergeEditText` keeps tags fresh and paths tracked, and when it merges, the merged text is focused at `d-1`. |
| RemovalProperties.ImageCloseSteps | YCCustomTextLib/src/main/java/com/ns/yc/yccustomtextlib/edit/view/HyperTextEditor.java:313-329 | With no transition running, the close records the index, drops the path read from `buildEditData`, removes the cell and merges. |
| RemovalProperties.ImageCloseShape | YCCustomTextLib/src/main/java/com/ns/yc/yccustomtextlib/edit/view/HyperTextEditor.java:310-334 | While a transition runs, nothing happens. Otherwise the path is reported and its first occurrence dropped, and the cell is removed; flanking texts A and B merge with a newline (A alone if B is empty), and otherwise focus and caret stay. |
| RemovalProperties.RemoveImageKeeps | YCCustomTextLib/src/main/java/com/ns/yc/yccustomtextlib/edit/view/HyperTextEditor.java:324-327 | Removing an image cell together with the first occurrence of its path keeps tags fresh and paths tracked. |
| RemovalProperties.ImageCloseValid | YCCustomTextLib/src/main/java/com/ns/yc/yccustomtextlib/edit/view/HyperTextEditor.java:310-334 | `onImageCloseClick` keeps the invariant. |
| RemovalProperties.RemoveImageFocus | YCCustomTextLib/src/main/java/com/ns/yc/yccustomtextlib/edit/view/HyperTextEditor.java:327 | Removing an image cell leaves `lastFocusEdit` in the layout with the same text and caret. Its index drops by one exactly when the image was above it. |
| RemovalProperties.BackspaceNoOp | YCCustomTextLib/src/main/java/com/ns/yc/yccustomtextlib/edit/view/HyperTextEditor.java:268-275 | With caret not at 0, or in the first child, backspace changes nothing and deletes nothing. |
| RemovalProperties.BackspaceJoinsShape | YCCustomTextLib/src/main/java/com/ns/yc/yccustomtextlib/edit/view/HyperTextEditor.java:280-295 | From any state with fresh tags and focus in the layout, even a stale `imagePaths`: the current text C after text P is removed and P becomes `P + C`, focused at index i-1 with caret `\|P\|`. Tags stay fresh, the displayed paths and `imagePaths` are unchanged, and nothing is deleted. |
| RemovalProperties.BackspaceJoinsText | YCCustomTextLib/src/main/java/com/ns/yc/yccustomtextlib/edit/view/HyperTextEditor.java:280-295 | After text P, from a valid state, joining the focused text into P keeps the invariant. |
| RemovalProperties.BackspaceRemovesImage | YCCustomTextLib/src/main/java/com/ns/yc/yccustomtextlib/edit/view/HyperTextEditor.java:277-279 | After an image, backspace removes it as its close button would, and the focused text joins the text before the image, if any. Nothing happens while a transition runs. |
| RemovalProperties.BackspaceValid | YCCustomTextLib/src/main/java/com/ns/yc/yccustomtextlib/edit/view/HyperTextEditor.java:266-303 | `onBackspacePress` keeps the invariant. |
| EditorProperties.OnFocusChangeValid | YCCustomTextLib/src/main/java/com/ns/yc/yccustomtextlib/edit/view/HyperTextEditor.java:240-247 | Focusing a text child keeps the invariant and makes it the focused index, with the given selection. |
| Scenarios.ClearAllLayoutStale | YCCustomTextLib/src/main/java/com/ns/yc/yccustomtextlib/edit/view/HyperTextEditor.java:339-343 | `clearAllLayout` leaves no child and keeps `imagePaths` and `lastFocusEdit`. Focus is then outside the layout, and paths are tracked only if `imagePaths` was empty. |
| Scenarios.SplitHelloWorld | YCCustomTextLib/src/main/java/com/ns/yc/yccustomtextlib/edit/view/HyperTextEditor.java:425-435 | "hello world" with the caret at 5 gives `[hello, Image, "", world]`. |
| Scenarios.BackspaceAbCd | YCCustomTextLib/src/main/java/com/ns/yc/yccustomtextlib/edit/view/HyperTextEditor.java:280-295 | `[ab, cd]`, with the caret at the start of `cd`, gives `[abcd]` with caret 2. |
| Scenarios.BackspaceFirstChild | YCCustomTextLib/src/main/java/com/ns/yc/yccustomtextlib/edit/view/HyperTextEditor.java:272-275 | Backspace in the only child does nothing. |
| Scenarios.AdjacentImagesPossible | YCCustomTextLib/src/main/java/com/ns/yc/yccustomtextlib/edit/view/HyperTextEditor.java:416-420 | From a valid state, inserting at the start of a text that follows an image makes two image cells adjacent. |
| Scenarios.CloseImageBetweenTexts | YCCustomTextLib/src/main/java/com/ns/yc/yccustomtextlib/edit/view/HyperTextEditor.java:310-334 | Closing the image in `[a, Image p, b]` gives `[a\nb]` with caret 1 and reports `p`. |
| Scenarios.ClearThenInsertImage | YCCustomTextLib/src/main/java/com/ns/yc/yccustomtextlib/edit/view/HyperTextEditor.java:396-424 | After `clearAllLayout`, `insertImage` reads the detached focused text, and the image and a new empty text become the only children. |
| Scenarios.DetachedCaretAtStart | YCCustomTextLib/src/main/java/com/ns/yc/yccustomtextlib/edit/view/HyperTextEditor.java:411-420 | From the first EditText holding `abc` with the caret at 0, `clearAllLayout` and an image added at 0 leave `lastFocusEdit` detached. `insertImage` then appends the image and puts the new empty text at the top. |
| BitmapSampling.Wrap | YCCustomTextLib/src/main/java/com/ns/yc/yccustomtextlib/edit/view/HyperTextEditor.java:557 | `int` wrap-around is the identity in range and congruent modulo 2^32 everywhere. |
| BitmapSampling.JavaDiv | YCCustomTextLib/src/main/java/com/ns/yc/yccustomtextlib/edit/view/HyperTextEditor.java:557 | `int` division throws exactly when the divisor is 0. |
| BitmapSampling.SampleSize | YCCustomTextLib/src/main/java/com/ns/yc/yccustomtextlib/edit/view/HyperTextEditor.java:557 | No sample size exactly when the width is 0 and the image is wider, where the division throws. An image no wider than the view is sampled by 1; `SampleSizeBounds`, `SampleSizeWraps` and `SampleSizeTruncates` state the rest. |
| BitmapSampling.SampleSizeBounds | YCCustomTextLib/src/main/java/com/ns/yc/yccustomtextlib/edit/view/HyperTextEditor.java:557 | For width > 0 the sample size is at least 1 and `outWidth <= s*width`. It is 1 when the image fits, and otherwise `(s-1)*width <= outWidth < s*width`. |
| BitmapSampling.SampleSizeWraps | YCCustomTextLib/src/main/java/com/ns/yc/yccustomtextlib/edit/view/HyperTextEditor.java:557 | `outWidth = MAX_VALUE` with width 1 overflows to `MIN_VALUE`. |
| BitmapSampling.SampleSizeZeroWidth | YCCustomTextLib/src/main/java/com/ns/yc/yccustomtextlib/edit/view/HyperTextEditor.java:557 | With width 0 the division throws exactly when `outWidth > 0`, and the sample size is 1 otherwise. |
| BitmapSampling.SampleSizeTruncates | YCCustomTextLib/src/main/java/com/ns/yc/yccustomtextlib/edit/view/HyperTextEditor.java:557 | Negative operands divide toward zero: `(-1, -3)` gives 1 and `(10, -3)` gives -2. |
| Editor.HyperTextEditor.constructor | YCCustomTextLib/src/main/java/com/ns/yc/yccustomtextlib/edit/view/HyperTextEditor.java:168-176 | The new editor is in the initial state: one empty focused text, an empty `imagePaths`, and the counter at 2. The invariant holds. |
| Editor.HyperTextEditor.TakeTag | YCCustomTextLib/src/main/java/com/ns/yc/yccustomtextlib/edit/view/HyperTextEditor.java:368 | `viewTagIndex++` returns the old value and changes nothing else. |
| Editor.HyperTextEditor.InitFirstEditText | YCCustomTextLib/src/main/java/com/ns/yc/yccustomtextlib/edit/view/HyperTextEditor.java:251-258 | Appends an empty text under the next tag and focuses it. |
| Editor.HyperTextEditor.AddEditTextAtIndex | YCCustomTextLib/src/main/java/com/ns/yc/yccustomtextlib/edit/view/HyperTextEditor.java:463-490 | The new state is `EditorModel.AddEditTextAtIndex` of the old one. The invariant is kept at every index. |
| Editor.HyperTextEditor.AddImageViewAtIndex | YCCustomTextLib/src/main/java/com/ns/yc/yccustomtextlib/edit/view/HyperTextEditor.java:496-541 | The new state is `EditorModel.AddImageViewAtIndex` of the old one. For an index within the layout the invariant is kept. |
| Editor.HyperTextEditor.InsertImage | YCCustomTextLib/src/main/java/com/ns/yc/yccustomtextlib/edit/view/HyperTextEditor.java:396-441 | The new state is `EditorModel.InsertImage` of the old one, and the invariant is kept. |
| Editor.HyperTextEditor.SplitAround | YCCustomTextLib/src/main/java/com/ns/yc/yccustomtextlib/edit/view/HyperTextEditor.java:425-435 | The new state is the four-step composition of the mid-caret branch. |
| Editor.HyperTextEditor.MergeEditText | YCCustomTextLib/src/main/java/com/ns/yc/yccustomtextlib/edit/view/HyperTextEditor.java:617-644 | The new state is `EditorModel.MergeEditText` of the old one, and the invariant is kept. |
| Editor.HyperTextEditor.OnImageCloseClick | YCCustomTextLib/src/main/java/com/ns/yc/yccustomtextlib/edit/view/HyperTextEditor.java:310-334 | The new state and the deleted path are `EditorModel.OnImageCloseClick` of the old state, and the invariant is kept. |
| Editor.HyperTextEditor.OnBackspacePress | YCCustomTextLib/src/main/java/com/ns/yc/yccustomtextlib/edit/view/HyperTextEditor.java:266-303 | The new state and the deleted path are `EditorModel.OnBackspacePress` of the old state, and the invariant is kept. |
| Editor.HyperTextEditor.OnFocusChange | YCCustomTextLib/src/main/java/com/ns/yc/yccustomtextlib/edit/view/HyperTextEditor.java:240-247 | The new state is `EditorModel.OnFocusChange` of the old one, and the invariant is kept. |
| Editor.HyperTextEditor.ClearAllLayout | YCCustomTextLib/src/main/java/com/ns/yc/yccustomtextlib/edit/view/HyperTextEditor.java:339-343 | The new state is `EditorModel.ClearAllLayout` of the old one. |
| Editor.HyperTextEditor.GetLastIndex | YCCustomTextLib/src/main/java/com/ns/yc/yccustomtextlib/edit/view/HyperTextEditor.java:348-353 | Returns the number of children. |
| Editor.HyperTextEditor.BuildEditData | YCCustomTextLib/src/main/java/com/ns/yc/yccustomtextlib/edit/view/HyperTextEditor.java:649-670 | One record per child, in order: a text's content or an image's path. There are `getLastIndex()` records, they restore to the children, and nothing is modified. |

## Left out

- **View construction and rendering** (lines 178-207 and 359-390): layout params, padding, text size and colour, hints, inflation, styled attributes, and the `setLayoutTransition` toggling. None of them changes the children or the fields modelled.
- **Instance-state save and restore, and `onDetachedFromWindow`** (lines 136-158): platform plumbing.
- **The `LayoutTransition` listener** that runs `mergeEditText` again when a `CHANGE_DISAPPEARING` animation ends (lines 581-612). It is driven by animation callbacks. Whether a transition is running is an input (`transitionRunning`), and only the synchronous merge at line 329 is modelled.
- **`hideKeyBoard`** (lines 446-452): an input-method service call.
- **Image loading and decoding** (`loadImage` at line 506, the `BitmapFactory` calls in `getScaledBitmap`): foreign library calls. Only the sample-size formula at line 557 is modelled, with `outWidth` as an input; the empty-path check and the decoding around it are not.
- **Keyword highlighting** (lines 466-470): the span changes only the style; the text content is the same.
- **Listener callbacks** (`onImageClick`, `onRtImageDelete`): external calls. The path passed to `onRtImageDelete` is the `Option` result of `OnImageCloseClick` and `OnBackspacePress`.
- **`setKeywords` and `setOnHyperListener`**: they only store a reference that the model does not use.
- **Typing into an EditText**: done by the toolkit, not by this class, so the contents and selections are taken as they are.
- **Exceptions inside try/catch.** `addView` past the last child is modelled (`AddEditTextAtIndex`, `AddImageViewAtIndex`, `AddOutOfRange`), and so is a detached `lastFocusEdit` in `insertImage`. The remaining cases become preconditions on the entry points:
  - `OnImageCloseClick` takes the index of an image cell in the layout (the clicked view is a child);
  - `OnBackspacePress` takes the key event on `lastFocusEdit` as a text child of the layout, since keys go to the focused view;
  - `OnFocusChange` takes a text child and a selection within its text;
  - `InsertImage` takes a `lastFocusEdit` that is a text child or detached, with its selection within its text (`FocusReady`): a selection beyond the text makes `substring` throw, which the catch at line 438 swallows.
- **`getLastIndex` returning -1 when `layout` is null**: this is not modelled, because the constructor always sets `layout`.
- BitmapSampling.SampleSizeBounds: it excludes `outWidth = MAX_VALUE` with width 1, where `outWidth / width + 1` wraps to `MIN_VALUE` (stated by `SampleSizeWraps`). Its bound is `outWidth <= s * width`, strict only when `outWidth > width`, because an image exactly as wide as the view gets sample size 1.
- **Text is a sequence of Unicode scalar values.** Java counts carets and lengths in UTF-16 code units, so the two agree only for text in the Basic Multilingual Plane; a caret between the halves of a surrogate pair is not modelled. `trim` is unaffected, since no surrogate is `<= ' '`.
- **Focus requests are assumed granted.** `addEditTextAtIndex` (line 483) and the backspace join (line 294) assign `lastFocusEdit` themselves. There, assuming the following `requestFocus` is granted means the new or joined EditText is the view that gets the next key event, which the precondition of `OnBackspacePress` takes for granted. `mergeEditText` only calls `requestFocus` (line 636) and relies on the focus listener (lines 243-244) to move `lastFocusEdit`; the model moves it directly, as a granted request would.
- **The tag counter is unbounded.** `viewTagIndex` is a Java `int` (line 72), so `viewTagIndex++` (lines 368 and 383) wraps after 2^31 - 1 views; the model counts with a `nat`. The tag stands for the view's identity, which in the Java is object identity and never reads the tag, so the overflow is not modelled.
