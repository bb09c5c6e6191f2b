/** What backspace, the image close button and the merge that follows them
    do to the layout, and the invariant they keep. */
module RemovalProperties {
  import opened Blocks
  import opened EditorModel

  // ---------------------------------------------------------------------
  // mergeEditText

  /** With texts A at d - 1 and B at d, the two become one text: A alone when
      B is empty, A, a newline and B otherwise; focus goes to it with the
      caret at the end of A. In every other case nothing changes. */
  lemma MergeEditTextShape(st: State)
    ensures var r, b, d := MergeEditText(st), st.blocks, st.disappearingImageIndex;
      if 1 <= d < |b| && b[d - 1].Text? && b[d].Text? then
        var a, c := b[d - 1].content, b[d].content;
        r.blocks == b[..d - 1] + [Text(b[d - 1].tag, if c == "" then a else a + "\n" + c)] + b[d + 1..]
        && |r.blocks| == |b| - 1
        && r.lastFocus == b[d - 1].tag && r.caret == |a|
        && r.viewTagIndex == st.viewTagIndex && r.imagePaths == st.imagePaths
        && r.disappearingImageIndex == d
      else r == st
  {
    var b, d := st.blocks, st.disappearingImageIndex;
    if 1 <= d < |b| && b[d - 1].Text? && b[d].Text? {
      var rest := RemoveAt(b, d);
      UpdateSplice(rest, d - 1, Text(b[d - 1].tag, MergeEditText(st).blocks[d - 1].content));
      assert rest[..d - 1] == b[..d - 1];
      assert rest[d..] == b[d + 1..];
    }
  }

  /** Removing the text at i and replacing the one at i - 1 by a text with the
      same tag keeps tags fresh and paths tracked, and the replaced one can be
      found at i - 1. */
  lemma JoinKeeps(b: seq<Block>, i: nat, x: Block, n: nat)
    requires 1 <= i < |b| && b[i].Text? && b[i - 1].Text? && x.Text? && x.tag == b[i - 1].tag
    requires TagsDistinct(b) && TagsBelow(b, n)
    ensures var r := RemoveAt(b, i)[i - 1 := x];
      TagsDistinct(r) && TagsBelow(r, n) && IndexOf(r, x.tag) == i - 1
      && ImagePaths(r) == ImagePaths(b)
  {
    var rest := RemoveAt(b, i);
    RemoveFresh(b, i, n);
    assert rest[i - 1] == b[i - 1];
    ReplaceFresh(rest, i - 1, x, n);
    IndexOfDistinct(rest[i - 1 := x], i - 1);
    ImagePathsAround(b, i);
    ImagePathsReplaceText(rest, i - 1, x);
  }

  /** mergeEditText keeps tags fresh and paths tracked; when it merges, the
      merged text has the focus, at d - 1. */
  lemma MergeEditTextKeeps(st: State)
    requires TagsFresh(st) && PathsTracked(st)
    ensures var r, b, d := MergeEditText(st), st.blocks, st.disappearingImageIndex;
      TagsFresh(r) && PathsTracked(r)
      && (1 <= d < |b| && b[d - 1].Text? && b[d].Text? ==> FocusInLayout(r) && FocusIndex(r) == d - 1)
  {
    var b, d := st.blocks, st.disappearingImageIndex;
    if 1 <= d < |b| && b[d - 1].Text? && b[d].Text? {
      var r := MergeEditText(st);
      JoinKeeps(b, d, r.blocks[d - 1], st.viewTagIndex);
    }
  }

  // ---------------------------------------------------------------------
  // onImageCloseClick

  /** With no transition running, onImageCloseClick records the index, drops
      the path read back from buildEditData, removes the cell and merges. */
  lemma ImageCloseSteps(st: State, idx: nat)
    requires idx < |st.blocks| && st.blocks[idx].Image?
    ensures var p := st.blocks[idx].path;
      OnImageCloseClick(st, idx, false)
        == (MergeEditText(st.(disappearingImageIndex := idx,
                              imagePaths := RemoveFirst(st.imagePaths, p),
                              blocks := RemoveAt(st.blocks, idx))), Some(p))
  {
    assert Serialize(st.blocks)[idx] == Record(st.blocks[idx]);
  }

  /** While a transition runs nothing happens. Otherwise the cell's path is
      reported and its first occurrence dropped from imagePaths, the cell is
      removed, and when texts A and B flanked it they become one. */
  lemma ImageCloseShape(st: State, idx: nat, running: bool)
    requires idx < |st.blocks| && st.blocks[idx].Image?
    ensures running ==> OnImageCloseClick(st, idx, running) == (st, None)
    ensures var (r, deleted) := OnImageCloseClick(st, idx, running);
      var b, p := st.blocks, st.blocks[idx].path;
      !running ==>
        deleted == Some(p) && r.imagePaths == RemoveFirst(st.imagePaths, p)
        && r.disappearingImageIndex == idx && r.viewTagIndex == st.viewTagIndex
        && if 1 <= idx && idx + 1 < |b| && b[idx - 1].Text? && b[idx + 1].Text? then
             var a, c := b[idx - 1].content, b[idx + 1].content;
             r.blocks == b[..idx - 1] + [Text(b[idx - 1].tag, if c == "" then a else a + "\n" + c)] + b[idx + 2..]
             && r.lastFocus == b[idx - 1].tag && r.caret == |a|
           else
             r.blocks == RemoveAt(b, idx) && r.lastFocus == st.lastFocus && r.caret == st.caret
  {
    if !running {
      var b := st.blocks;
      var removed := st.(disappearingImageIndex := idx,
                         imagePaths := RemoveFirst(st.imagePaths, b[idx].path),
                         blocks := RemoveAt(b, idx));
      ImageCloseSteps(st, idx);
      MergeEditTextShape(removed);
      var rest := RemoveAt(b, idx);
      if 1 <= idx && idx + 1 < |b| {
        assert rest[idx - 1] == b[idx - 1] && rest[idx] == b[idx + 1];
        assert rest[..idx - 1] == b[..idx - 1];
        assert rest[idx + 1..] == b[idx + 2..];
      } else if 1 <= idx {
        assert rest[idx - 1] == b[idx - 1];
      }
    }
  }

  /** Removing the image cell at idx from a tracked state drops its path from
      the multiset of paths exactly once. */
  lemma RemoveImageKeeps(st: State, idx: nat)
    requires TagsFresh(st) && PathsTracked(st) && idx < |st.blocks| && st.blocks[idx].Image?
    ensures var p := st.blocks[idx].path;
      var removed := st.(disappearingImageIndex := idx,
                         imagePaths := RemoveFirst(st.imagePaths, p),
                         blocks := RemoveAt(st.blocks, idx));
      TagsFresh(removed) && PathsTracked(removed)
  {
    var b, p := st.blocks, st.blocks[idx].path;
    RemoveFresh(b, idx, st.viewTagIndex);
    RemoveFirstCount(st.imagePaths, p);
    ImagePathsRemove(b, idx);
  }

  /** The image close button keeps the invariant. */
  lemma ImageCloseValid(st: State, idx: nat, running: bool)
    requires Valid(st) && idx < |st.blocks| && st.blocks[idx].Image?
    ensures Valid(OnImageCloseClick(st, idx, running).0)
  {
    if !running {
      var b, p := st.blocks, st.blocks[idx].path;
      var removed := st.(disappearingImageIndex := idx,
                         imagePaths := RemoveFirst(st.imagePaths, p),
                         blocks := RemoveAt(b, idx));
      ImageCloseSteps(st, idx);
      RemoveImageKeeps(st, idx);
      MergeEditTextKeeps(removed);
      RemoveImageFocus(st, idx);
    }
  }

  /** Removing an image cell leaves the focused text in the layout, with the
      same content. */
  lemma RemoveImageFocus(st: State, idx: nat)
    requires TagsFresh(st) && FocusInLayout(st) && idx < |st.blocks| && st.blocks[idx].Image?
    ensures var r := st.(blocks := RemoveAt(st.blocks, idx));
      FocusInLayout(r) && FocusedText(r) == FocusedText(st)
      && FocusIndex(r) == if idx < FocusIndex(st) then FocusIndex(st) - 1 else FocusIndex(st)
  {
    var b := st.blocks;
    assert b[idx].tag != b[FocusIndex(st)].tag;
    IndexOfRemove(b, idx, st.lastFocus);
    var g := IndexOf(RemoveAt(b, idx), st.lastFocus);
    RemoveAtIndex(b, idx, g);
  }

  // ---------------------------------------------------------------------
  // onBackspacePress

  /** Backspace with the caret past 0, or in the first child, does nothing. */
  lemma BackspaceNoOp(st: State, running: bool)
    requires FocusInLayout(st) && (st.caret != 0 || FocusIndex(st) == 0)
    ensures OnBackspacePress(st, running) == (st, None)
  {
  }

  /** Backspace at the start of text C right after text P removes C and makes
      P into P + C, focused with the caret at the end of P. Nothing else
      changes, even when imagePaths is stale. */
  lemma BackspaceJoinsShape(st: State, running: bool)
    requires TagsFresh(st) && FocusInLayout(st) && st.caret == 0 && FocusIndex(st) >= 1
    requires st.blocks[FocusIndex(st) - 1].Text?
    ensures var (r, deleted) := OnBackspacePress(st, running);
      var i, b := FocusIndex(st), st.blocks;
      deleted == None
      && r.blocks == b[..i - 1] + [Text(b[i - 1].tag, b[i - 1].content + b[i].content)] + b[i + 1..]
      && r.lastFocus == b[i - 1].tag && r.caret == |b[i - 1].content|
      && FocusIndex(r) == i - 1 && FocusInLayout(r) && TagsFresh(r)
      && ImagePaths(r.blocks) == ImagePaths(b)
      && r.imagePaths == st.imagePaths && r.viewTagIndex == st.viewTagIndex
  {
    var i, b := FocusIndex(st), st.blocks;
    var x := Text(b[i - 1].tag, b[i - 1].content + b[i].content);
    var rest := RemoveAt(b, i);
    JoinKeeps(b, i, x, st.viewTagIndex);
    UpdateSplice(rest, i - 1, x);
    assert rest[..i - 1] == b[..i - 1];
    assert rest[i..] == b[i + 1..];
  }

  /** From a valid state the join keeps the invariant. */
  lemma BackspaceJoinsText(st: State, running: bool)
    requires Valid(st) && st.caret == 0 && FocusIndex(st) >= 1
    requires st.blocks[FocusIndex(st) - 1].Text?
    ensures Valid(OnBackspacePress(st, running).0)
  {
    BackspaceJoinsShape(st, running);
  }

  /** Backspace at the start of a text right after an image removes the
      image as its close button would; the focused text then joins the text
      before the image, if there is one. */
  lemma BackspaceRemovesImage(st: State, running: bool)
    requires FocusInLayout(st) && st.caret == 0 && FocusIndex(st) >= 1
    requires st.blocks[FocusIndex(st) - 1].Image?
    ensures running ==> OnBackspacePress(st, running) == (st, None)
    ensures var (r, deleted) := OnBackspacePress(st, running);
      var i, b := FocusIndex(st), st.blocks;
      !running ==>
        deleted == Some(b[i - 1].path)
        && r.imagePaths == RemoveFirst(st.imagePaths, b[i - 1].path)
        && if i >= 2 && b[i - 2].Text? then
             var a, c := b[i - 2].content, b[i].content;
             r.blocks == b[..i - 2] + [Text(b[i - 2].tag, if c == "" then a else a + "\n" + c)] + b[i + 1..]
             && r.lastFocus == b[i - 2].tag && r.caret == |a|
           else
             r.blocks == RemoveAt(b, i - 1) && r.lastFocus == st.lastFocus && r.caret == 0
  {
    var i := FocusIndex(st);
    ImageCloseShape(st, i - 1, running);
  }

  /** Backspace keeps the invariant. */
  lemma BackspaceValid(st: State, running: bool)
    requires Valid(st)
    ensures Valid(OnBackspacePress(st, running).0)
  {
    var i := FocusIndex(st);
    if st.caret == 0 && i >= 1 {
      if st.blocks[i - 1].Image? {
        ImageCloseValid(st, i - 1, running);
      } else {
        BackspaceJoinsText(st, running);
      }
    }
  }
}
