/** The state HyperTextEditor keeps, as a value, and one function per method of
    the editor that changes it. Each function follows its Java method step by
    step; the lemmas below state what the steps add up to. */
module EditorModel {
  import opened Blocks

  /** blocks: the layout's children in order; viewTagIndex: the next tag to
      hand out; lastFocus: the tag of lastFocusEdit; caret: its selection
      start; imagePaths: the list of inserted paths (duplicates allowed);
      disappearingImageIndex: the index of the image being removed;
      detachedText: the text lastFocusEdit holds once clearAllLayout has
      taken it out of the layout (while it is a child its text is in
      blocks). */
  datatype State = State(
    blocks: seq<Block>,
    viewTagIndex: nat,
    lastFocus: nat,
    caret: nat,
    imagePaths: seq<string>,
    disappearingImageIndex: int,
    detachedText: string)

  /** The constructor's state: initFirstEditText adds one empty EditText under
      tag 1 and focuses it. */
  function Initial(): State
  {
    State([Text(1, "")], 2, 1, 0, [], 0, "")
  }

  /** Every tag is distinct and below the counter, so the counter is fresh. */
  predicate TagsFresh(st: State)
  {
    TagsDistinct(st.blocks) && TagsBelow(st.blocks, st.viewTagIndex)
  }

  /** The position of lastFocusEdit among the children, or -1 when it is not
      one of them. */
  function FocusIndex(st: State): int
  {
    IndexOf(st.blocks, st.lastFocus)
  }

  /** lastFocusEdit is a text child of the layout and its caret lies in its text. */
  predicate FocusInLayout(st: State)
  {
    var i := FocusIndex(st);
    0 <= i && st.blocks[i].Text? && st.caret <= |st.blocks[i].content|
  }

  /** imagePaths holds, with multiplicity, the paths of the image children. */
  predicate PathsTracked(st: State)
  {
    multiset(st.imagePaths) == multiset(ImagePaths(st.blocks))
  }

  predicate Valid(st: State)
  {
    TagsFresh(st) && FocusInLayout(st) && PathsTracked(st)
  }

  /** lastFocusEdit.getText(), whether it is a child or detached. */
  function FocusedText(st: State): string
  {
    var i := FocusIndex(st);
    if 0 <= i && st.blocks[i].Text? then st.blocks[i].content else st.detachedText
  }

  /** What the Java types guarantee of lastFocusEdit: a child with its tag is
      an EditText, and its selection lies in its text. */
  predicate FocusReady(st: State)
  {
    var i := FocusIndex(st);
    (0 <= i ==> st.blocks[i].Text?) && st.caret <= |FocusedText(st)|
  }

  /** The focused text before the caret, with surrounding whitespace removed. */
  function Before(st: State): string
    requires FocusReady(st)
  {
    Trim(FocusedText(st)[..st.caret])
  }

  /** The focused text from the caret on, with surrounding whitespace removed. */
  function After(st: State): string
    requires FocusReady(st)
  {
    Trim(FocusedText(st)[st.caret..])
  }

  // ---------------------------------------------------------------------
  // The operations.

  /** addEditTextAtIndex: createEditText takes the next tag, addView puts the
      new EditText at index (a negative index appends), and focus moves to it
      with the caret after its text. An index past the end makes addView
      throw; the exception is caught with only the tag used up. */
  function AddEditTextAtIndex(st: State, index: int, editStr: string): (r: State)
    ensures |r.blocks| == |st.blocks| + (if index <= |st.blocks| then 1 else 0)
    ensures r.viewTagIndex == st.viewTagIndex + 1
    ensures index <= |st.blocks| ==> r.lastFocus == st.viewTagIndex && r.caret == |editStr|
    ensures index > |st.blocks| ==> r == st.(viewTagIndex := st.viewTagIndex + 1)
    ensures r.imagePaths == st.imagePaths && r.disappearingImageIndex == st.disappearingImageIndex
    ensures r.detachedText == st.detachedText
  {
    if index > |st.blocks| then st.(viewTagIndex := st.viewTagIndex + 1)
    else
      var at := if index < 0 then |st.blocks| else index;
      st.(blocks := InsertAt(st.blocks, at, Text(st.viewTagIndex, editStr)),
          viewTagIndex := st.viewTagIndex + 1,
          lastFocus := st.viewTagIndex,
          caret := |editStr|)
  }

  /** addImageViewAtIndex: an empty path does nothing; otherwise the path is
      added to imagePaths, createImageLayout takes the next tag and addView
      puts the cell at index. Focus stays where it was. An index past the end
      makes addView throw after the path and the tag were taken. */
  function AddImageViewAtIndex(st: State, index: int, imagePath: string): (r: State)
    ensures |r.blocks| == |st.blocks| + (if imagePath == "" || index > |st.blocks| then 0 else 1)
    ensures imagePath == "" ==> r == st
    ensures imagePath != "" ==> r.imagePaths == st.imagePaths + [imagePath]
    ensures imagePath != "" ==> r.viewTagIndex == st.viewTagIndex + 1
    ensures index > |st.blocks| ==> r.blocks == st.blocks
    ensures r.lastFocus == st.lastFocus && r.caret == st.caret
    ensures r.disappearingImageIndex == st.disappearingImageIndex && r.detachedText == st.detachedText
  {
    if imagePath == "" then st
    else if index > |st.blocks| then
      st.(imagePaths := st.imagePaths + [imagePath], viewTagIndex := st.viewTagIndex + 1)
    else
      var at := if index < 0 then |st.blocks| else index;
      st.(imagePaths := st.imagePaths + [imagePath],
          blocks := InsertAt(st.blocks, at, Image(st.viewTagIndex, imagePath)),
          viewTagIndex := st.viewTagIndex + 1)
  }

  /** EditText.setText on the child at i. */
  function SetText(st: State, i: nat, s: string): (r: State)
    requires i < |st.blocks| && st.blocks[i].Text?
    ensures |r.blocks| == |st.blocks|
  {
    st.(blocks := st.blocks[i := Text(st.blocks[i].tag, s)])
  }

  /** lastFocusEdit.setText: the child's text, or the detached one's. */
  function SetFocusedText(st: State, s: string): State
  {
    var i := FocusIndex(st);
    if 0 <= i && st.blocks[i].Text? then SetText(st, i, s) else st.(detachedText := s)
  }

  /** insertImage: four branches on the focused text and the trimmed text
      before and after its caret; every later index is lastEditIndex or
      lastEditIndex + 1, computed before any child is added. A detached
      lastFocusEdit has index -1. */
  function InsertImage(st: State, imagePath: string): State
    requires FocusReady(st)
  {
    if imagePath == "" then st
    else
      var lastEditIndex := FocusIndex(st);
      var lastEditStr := FocusedText(st);
      if |lastEditStr| == 0 then
        AddImageViewAtIndex(AddEditTextAtIndex(st, lastEditIndex + 1, ""), lastEditIndex + 1, imagePath)
      else if |Before(st)| == 0 then
        AddEditTextAtIndex(AddImageViewAtIndex(st, lastEditIndex, imagePath), lastEditIndex + 1, "")
      else if |After(st)| == 0 then
        AddImageViewAtIndex(AddEditTextAtIndex(st, lastEditIndex + 1, ""), lastEditIndex + 1, imagePath)
      else
        var split := SetFocusedText(st, Before(st));
        var withPost := AddEditTextAtIndex(split, lastEditIndex + 1, After(st));
        var withEmpty := AddEditTextAtIndex(withPost, lastEditIndex + 1, "");
        AddImageViewAtIndex(withEmpty, lastEditIndex + 1, imagePath)
  }

  /** mergeEditText: when the children at disappearingImageIndex - 1 and
      disappearingImageIndex are both texts, the second is removed and its
      text joined to the first (with a newline unless it was empty); focus
      moves to the first with the caret at the join. */
  function MergeEditText(st: State): (r: State)
    ensures |r.blocks| == |st.blocks| || |r.blocks| == |st.blocks| - 1
    ensures r.imagePaths == st.imagePaths && r.viewTagIndex == st.viewTagIndex
    ensures r.detachedText == st.detachedText
  {
    var d := st.disappearingImageIndex;
    if 1 <= d < |st.blocks| && st.blocks[d - 1].Text? && st.blocks[d].Text? then
      var preEdit := st.blocks[d - 1];
      var str1 := preEdit.content;
      var str2 := st.blocks[d].content;
      var mergeText := if |str2| > 0 then str1 + "\n" + str2 else str1;
      var rest := RemoveAt(st.blocks, d);
      st.(blocks := rest[d - 1 := Text(preEdit.tag, mergeText)],
          lastFocus := preEdit.tag,
          caret := |str1|)
    else st
  }

  /** onImageCloseClick on the image cell at index: nothing while a layout
      transition runs; otherwise the index is recorded, the path read from
      buildEditData is reported and its first occurrence dropped from
      imagePaths, the cell is removed and the flanking texts are merged.
      The second component is the path passed to onRtImageDelete. */
  function OnImageCloseClick(st: State, index: nat, transitionRunning: bool): (r: (State, Option<string>))
    requires index < |st.blocks| && st.blocks[index].Image?
    ensures transitionRunning ==> r == (st, None)
    ensures !transitionRunning ==> r.1 == Some(st.blocks[index].path)
    ensures r.0.viewTagIndex == st.viewTagIndex && r.0.detachedText == st.detachedText
  {
    if transitionRunning then (st, None)
    else
      var editData := Serialize(st.blocks)[index];
      var paths := match editData.imagePath
        case Some(p) => RemoveFirst(st.imagePaths, p)
        case None => st.imagePaths;
      var removed := st.(disappearingImageIndex := index,
                         imagePaths := paths,
                         blocks := RemoveAt(st.blocks, index));
      (MergeEditText(removed), editData.imagePath)
  }

  /** onBackspacePress on the focused EditText: only with the caret at 0 and a
      child before it; an image before it is removed, a text before it
      absorbs the focused text. */
  function OnBackspacePress(st: State, transitionRunning: bool): (r: (State, Option<string>))
    requires FocusInLayout(st)
    ensures st.caret != 0 || FocusIndex(st) == 0 ==> r == (st, None)
    ensures r.0.viewTagIndex == st.viewTagIndex && r.0.detachedText == st.detachedText
    ensures r.0.imagePaths != st.imagePaths ==> r.1.Some?
  {
    if st.caret != 0 then (st, None)
    else
      var editIndex := FocusIndex(st);
      if editIndex == 0 then (st, None)
      else
        match st.blocks[editIndex - 1]
        case Image(_, _) => OnImageCloseClick(st, editIndex - 1, transitionRunning)
        case Text(preTag, str2) =>
          var str1 := st.blocks[editIndex].content;
          var rest := RemoveAt(st.blocks, editIndex);
          (st.(blocks := rest[editIndex - 1 := Text(preTag, str2 + str1)],
               lastFocus := preTag,
               caret := |str2|), None)
  }

  /** The focus listener: the user focuses the text child at index and leaves
      its caret at selection. */
  function OnFocusChange(st: State, index: nat, selection: nat): State
    requires index < |st.blocks| && st.blocks[index].Text?
    requires selection <= |st.blocks[index].content|
  {
    st.(lastFocus := st.blocks[index].tag, caret := selection)
  }

  /** clearAllLayout: removeAllViews and nothing else; lastFocusEdit keeps
      its text outside the layout. */
  function ClearAllLayout(st: State): State
  {
    st.(blocks := [], detachedText := FocusedText(st))
  }

  /** getLastIndex: the number of children. */
  function GetLastIndex(st: State): nat
  {
    |st.blocks|
  }
}
