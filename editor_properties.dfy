/** What the editor's operations add up to, and the invariant they keep. */
module EditorProperties {
  import opened Blocks
  import opened EditorModel

  /** The constructor's layout satisfies the invariant. */
  lemma InitialValid()
    ensures Valid(Initial()) && FocusIndex(Initial()) == 0 && GetLastIndex(Initial()) == 1
  {
    assert ImagePaths(Initial().blocks) == [] by {
      ImagePathsOne(Text(1, ""));
    }
  }

  // ---------------------------------------------------------------------
  // The steps keep the invariant.

  /** addEditTextAtIndex keeps tags fresh and paths tracked, and focuses the
      new EditText where it was put. */
  lemma AddEditTextKeeps(st: State, index: int, editStr: string)
    requires TagsFresh(st) && PathsTracked(st) && index <= |st.blocks|
    ensures var r := AddEditTextAtIndex(st, index, editStr);
      TagsFresh(r) && PathsTracked(r) && FocusInLayout(r)
      && FocusIndex(r) == (if index < 0 then |st.blocks| else index)
  {
    var at := if index < 0 then |st.blocks| else index;
    var x := Text(st.viewTagIndex, editStr);
    var r := AddEditTextAtIndex(st, index, editStr);
    assert r.blocks == InsertAt(st.blocks, at, x) && r.lastFocus == x.tag;
    InsertFresh(st.blocks, at, x, st.viewTagIndex);
    IndexOfDistinct(r.blocks, at);
    ImagePathsInsert(st.blocks, at, x);
  }

  /** addImageViewAtIndex keeps tags fresh and paths tracked. */
  lemma AddImageViewKeeps(st: State, index: int, imagePath: string)
    requires TagsFresh(st) && PathsTracked(st) && index <= |st.blocks|
    ensures var r := AddImageViewAtIndex(st, index, imagePath);
      TagsFresh(r) && PathsTracked(r) && (FocusInLayout(st) ==> FocusInLayout(r))
  {
    if imagePath != "" {
      var at := if index < 0 then |st.blocks| else index;
      var x := Image(st.viewTagIndex, imagePath);
      var r := AddImageViewAtIndex(st, index, imagePath);
      assert r.blocks == InsertAt(st.blocks, at, x);
      InsertFresh(st.blocks, at, x, st.viewTagIndex);
      ImagePathsInsert(st.blocks, at, x);
      assert TagsFresh(r) && PathsTracked(r);
      if FocusInLayout(st) {
        AddImageViewStaysFocused(st, index, imagePath);
      }
    }
  }

  /** The focused text child is found, unchanged, at its shifted index. */
  lemma AddImageViewStaysFocused(st: State, index: int, imagePath: string)
    requires TagsFresh(st) && FocusInLayout(st) && index <= |st.blocks| && imagePath != ""
    ensures FocusInLayout(AddImageViewAtIndex(st, index, imagePath))
  {
    var i, r := FocusIndex(st), AddImageViewAtIndex(st, index, imagePath);
    AddImageViewFocus(st, index, imagePath);
    assert r.blocks[FocusIndex(r)] == st.blocks[i];
  }

  /** In range, the new EditText, under the next tag and showing editStr,
      sits at the index (the end for a negative one); the children before it
      are unchanged and the ones from the index on move down by one. */
  lemma AddEditTextPlaces(st: State, index: int, editStr: string)
    requires index <= |st.blocks|
    ensures var r, at := AddEditTextAtIndex(st, index, editStr), if index < 0 then |st.blocks| else index;
      r.blocks[at] == Text(st.viewTagIndex, editStr)
      && r.blocks[..at] == st.blocks[..at] && r.blocks[at + 1..] == st.blocks[at..]
  {
  }

  /** In range and with a path, the image cell under the next tag sits at the
      index in the same way. */
  lemma AddImageViewPlaces(st: State, index: int, imagePath: string)
    requires index <= |st.blocks| && imagePath != ""
    ensures var r, at := AddImageViewAtIndex(st, index, imagePath), if index < 0 then |st.blocks| else index;
      r.blocks[at] == Image(st.viewTagIndex, imagePath)
      && r.blocks[..at] == st.blocks[..at] && r.blocks[at + 1..] == st.blocks[at..]
  {
  }

  /** An index past the last child: addView throws once the tag, and for an
      image the path, have been taken, and the exception is swallowed. No
      child is added and focus stays; for an image, imagePaths then lists a
      path that no cell shows, so paths are no longer tracked. */
  lemma AddOutOfRange(st: State, index: int, editStr: string, path: string)
    requires index > |st.blocks|
    ensures var r := AddEditTextAtIndex(st, index, editStr);
      r.blocks == st.blocks && r.lastFocus == st.lastFocus && r.caret == st.caret
      && (Valid(st) ==> Valid(r))
    ensures var r := AddImageViewAtIndex(st, index, path);
      r.blocks == st.blocks && (path != "" ==> r.imagePaths == st.imagePaths + [path])
      && (PathsTracked(st) && path != "" ==> !PathsTracked(r))
  {
    var r := AddImageViewAtIndex(st, index, path);
    if path != "" && PathsTracked(st) {
      assert |multiset(r.imagePaths)| == |multiset(st.imagePaths)| + 1;
    }
  }

  /** The focused EditText moves down exactly when the image cell goes in at
      or above it. */
  lemma AddImageViewFocus(st: State, index: int, imagePath: string)
    requires TagsFresh(st) && 0 <= FocusIndex(st) && index <= |st.blocks| && imagePath != ""
    ensures var r, at := AddImageViewAtIndex(st, index, imagePath), if index < 0 then |st.blocks| else index;
      FocusIndex(r) == if at <= FocusIndex(st) then FocusIndex(st) + 1 else FocusIndex(st)
  {
    var at := if index < 0 then |st.blocks| else index;
    IndexOfInsert(st.blocks, at, Image(st.viewTagIndex, imagePath), st.lastFocus);
  }

  /** setText on a text child keeps tags fresh, paths tracked and focus. */
  lemma SetTextKeeps(st: State, i: nat, s: string)
    requires TagsFresh(st) && PathsTracked(st) && i < |st.blocks| && st.blocks[i].Text?
    ensures var r := SetText(st, i, s);
      TagsFresh(r) && PathsTracked(r) && FocusIndex(r) == FocusIndex(st)
  {
    var x := Text(st.blocks[i].tag, s);
    ReplaceFresh(st.blocks, i, x, st.viewTagIndex);
    ImagePathsReplaceText(st.blocks, i, x);
  }

  // ---------------------------------------------------------------------
  // insertImage

  /** An empty path changes nothing; any other path is appended to
      imagePaths exactly once. */
  lemma InsertImagePaths(st: State, path: string)
    requires FocusReady(st)
    ensures path == "" ==> InsertImage(st, path) == st
    ensures path != "" ==> InsertImage(st, path).imagePaths == st.imagePaths + [path]
  {
  }

  /** An empty focused text, or a caret with only blanks after it: the image
      and then a new empty EditText go right below the focused one, which is
      left as it was. */
  lemma InsertImageBelow(st: State, path: string)
    requires FocusInLayout(st) && path != ""
    requires FocusedText(st) == "" || (Before(st) != "" && After(st) == "")
    ensures var i, n, r := FocusIndex(st), st.viewTagIndex, InsertImage(st, path);
      r.blocks == st.blocks[..i + 1] + [Image(n + 1, path), Text(n, "")] + st.blocks[i + 1..]
      && r.viewTagIndex == n + 2 && r.lastFocus == n && r.caret == 0
      && r.disappearingImageIndex == st.disappearingImageIndex
  {
    var i, n := FocusIndex(st), st.viewTagIndex;
    var b := st.blocks;
    var r1 := AddEditTextAtIndex(st, i + 1, "");
    assert r1.blocks == b[..i + 1] + [Text(n, "")] + b[i + 1..];
    var r := AddImageViewAtIndex(r1, i + 1, path);
    assert r1.blocks[..i + 1] == b[..i + 1];
    assert r1.blocks[i + 1..] == [Text(n, "")] + b[i + 1..];
  }

  /** A non-empty focused text with only blanks before the caret: the image
      takes the focused EditText's place, a new empty EditText follows it and
      the focused EditText, unchanged, comes after both. */
  lemma InsertImageAbove(st: State, path: string)
    requires FocusInLayout(st) && path != ""
    requires FocusedText(st) != "" && Before(st) == ""
    ensures var i, n, r := FocusIndex(st), st.viewTagIndex, InsertImage(st, path);
      r.blocks == st.blocks[..i] + [Image(n, path), Text(n + 1, "")] + st.blocks[i..]
      && r.viewTagIndex == n + 2 && r.lastFocus == n + 1 && r.caret == 0
      && r.disappearingImageIndex == st.disappearingImageIndex
  {
    var i, n := FocusIndex(st), st.viewTagIndex;
    var b := st.blocks;
    var r1 := AddImageViewAtIndex(st, i, path);
    assert r1.blocks == b[..i] + [Image(n, path)] + b[i..];
    assert r1.blocks[..i + 1] == b[..i] + [Image(n, path)];
    assert r1.blocks[i + 1..] == b[i..];
  }

  /** Text on both sides of the caret: the focused EditText keeps the trimmed
      text before the caret, and below it come the image, a new empty
      EditText and a new EditText with the trimmed text after the caret, in
      that order, since each child is added at the same index and pushes the
      previous ones down. */
  lemma InsertImageSplitSteps(st: State, path: string)
    requires FocusInLayout(st) && path != ""
    requires Before(st) != "" && After(st) != ""
    ensures var i := FocusIndex(st);
      InsertImage(st, path) == AddImageViewAtIndex(AddEditTextAtIndex(AddEditTextAtIndex(
        SetText(st, i, Before(st)), i + 1, After(st)), i + 1, ""), i + 1, path)
  {
    assert FocusedText(st) != "" by {
      assert FocusedText(st)[..st.caret] != "";
    }
  }

  /** The four steps of the split branch, for any text before and after. */
  lemma SplitComposition(st: State, i: nat, pre: string, post: string, path: string)
    requires i < |st.blocks| && st.blocks[i].Text? && path != ""
    ensures var n, b := st.viewTagIndex, st.blocks;
      var r := AddImageViewAtIndex(AddEditTextAtIndex(AddEditTextAtIndex(
        SetText(st, i, pre), i + 1, post), i + 1, ""), i + 1, path);
      r.blocks == b[..i] + [Text(b[i].tag, pre), Image(n + 2, path), Text(n + 1, ""), Text(n, post)] + b[i + 1..]
      && r.viewTagIndex == n + 3 && r.lastFocus == n + 1 && r.caret == 0
      && r.imagePaths == st.imagePaths + [path]
      && r.disappearingImageIndex == st.disappearingImageIndex
  {
    var n, b := st.viewTagIndex, st.blocks;
    ReplaceThenInsertThree(b, i, Text(b[i].tag, pre), Text(n, post), Text(n + 1, ""), Image(n + 2, path));
  }

  /** insertImage with a non-empty path is one of three compositions of
      the steps, chosen as the Java code chooses: by the length of the
      focused text s and of the trimmed texts pre and post around the caret. */
  lemma InsertImageBranches(st: State, path: string, i: int, s: string, pre: string, post: string)
    requires FocusReady(st) && path != ""
    requires i == FocusIndex(st) && s == FocusedText(st) && pre == Before(st) && post == After(st)
    ensures var r := InsertImage(st, path);
      (|s| == 0 || (|pre| != 0 && |post| == 0) ==>
        r == AddImageViewAtIndex(AddEditTextAtIndex(st, i + 1, ""), i + 1, path))
      && (|s| != 0 && |pre| == 0 ==>
        r == AddEditTextAtIndex(AddImageViewAtIndex(st, i, path), i + 1, ""))
      && (|pre| != 0 && |post| != 0 ==>
        r == AddImageViewAtIndex(AddEditTextAtIndex(AddEditTextAtIndex(
          SetFocusedText(st, pre), i + 1, post), i + 1, ""), i + 1, path))
  {
    if pre != "" && post != "" {
      assert s != "" by {
        assert s[..st.caret] != "";
      }
    }
  }

  lemma InsertImageSplit(st: State, path: string)
    requires FocusInLayout(st) && path != ""
    requires Before(st) != "" && After(st) != ""
    ensures var i, n, r := FocusIndex(st), st.viewTagIndex, InsertImage(st, path);
      r.blocks == st.blocks[..i]
        + [Text(st.blocks[i].tag, Before(st)), Image(n + 2, path), Text(n + 1, ""), Text(n, After(st))]
        + st.blocks[i + 1..]
      && |r.blocks| == |st.blocks| + 3
      && r.viewTagIndex == n + 3 && r.lastFocus == n + 1 && r.caret == 0
      && r.disappearingImageIndex == st.disappearingImageIndex
  {
    InsertImageSplitSteps(st, path);
    SplitComposition(st, FocusIndex(st), Before(st), After(st), path);
  }

  /** Focus rests on an empty EditText directly below an image cell showing
      path, with the caret at 0. */
  predicate FocusBelowImage(r: State, path: string)
  {
    var j := FocusIndex(r);
    1 <= j < |r.blocks| && r.blocks[j - 1].Image? && r.blocks[j - 1].path == path
    && r.blocks[j] == Text(r.lastFocus, "") && r.caret == 0
  }

  /** Two steps of insertImage: an EditText at index and then an image at
      index' keep tags fresh and paths tracked. */
  lemma TextThenImageKeeps(st: State, index: nat, index': nat, editStr: string, path: string)
    requires TagsFresh(st) && PathsTracked(st) && index <= |st.blocks| && index' <= |st.blocks| + 1
    ensures var r := AddImageViewAtIndex(AddEditTextAtIndex(st, index, editStr), index', path);
      TagsFresh(r) && PathsTracked(r)
  {
    AddEditTextKeeps(st, index, editStr);
    AddImageViewKeeps(AddEditTextAtIndex(st, index, editStr), index', path);
  }

  /** The two steps the other way round: an image, then an EditText. */
  lemma ImageThenTextKeeps(st: State, index: nat, index': nat, editStr: string, path: string)
    requires TagsFresh(st) && PathsTracked(st) && index <= |st.blocks| && index' <= |st.blocks|
    ensures var r := AddEditTextAtIndex(AddImageViewAtIndex(st, index, path), index', editStr);
      TagsFresh(r) && PathsTracked(r)
  {
    AddImageViewKeeps(st, index, path);
    AddEditTextKeeps(AddImageViewAtIndex(st, index, path), index', editStr);
  }

  /** The steps of the branch that puts the image below the focused text. */
  lemma BelowStepsFocus(st: State, path: string)
    requires TagsFresh(st) && FocusInLayout(st) && path != ""
    ensures var i := FocusIndex(st);
      var r := AddImageViewAtIndex(AddEditTextAtIndex(st, i + 1, ""), i + 1, path);
      FocusInLayout(r) && FocusBelowImage(r, path) && r.lastFocus == st.viewTagIndex
  {
    var i, n := FocusIndex(st), st.viewTagIndex;
    var r1 := AddEditTextAtIndex(st, i + 1, "");
    InsertFresh(st.blocks, i + 1, Text(n, ""), n);
    IndexOfDistinct(r1.blocks, i + 1);
    AddImageViewFocus(r1, i + 1, path);
    var r := AddImageViewAtIndex(r1, i + 1, path);
    assert r.blocks[i + 1] == Image(n + 1, path);
    assert r.blocks[i + 2] == r1.blocks[i + 1];
  }

  /** The steps of the branch that puts the image above the focused text. */
  lemma AboveStepsFocus(st: State, path: string)
    requires TagsFresh(st) && FocusInLayout(st) && path != ""
    ensures var i := FocusIndex(st);
      var r := AddEditTextAtIndex(AddImageViewAtIndex(st, i, path), i + 1, "");
      FocusInLayout(r) && FocusBelowImage(r, path) && r.lastFocus == st.viewTagIndex + 1
  {
    var i, n := FocusIndex(st), st.viewTagIndex;
    var r1 := AddImageViewAtIndex(st, i, path);
    InsertFresh(st.blocks, i, Image(n, path), n);
    var r := AddEditTextAtIndex(r1, i + 1, "");
    InsertFresh(r1.blocks, i + 1, Text(n + 1, ""), n + 1);
    IndexOfDistinct(r.blocks, i + 1);
    assert r.blocks[i] == r1.blocks[i] == Image(n, path);
  }

  /** The three steps of the split branch before the image goes in. */
  lemma SplitTextsKeep(st: State, i: nat, pre: string, post: string)
    requires TagsFresh(st) && PathsTracked(st) && i < |st.blocks| && st.blocks[i].Text?
    ensures var r := AddEditTextAtIndex(AddEditTextAtIndex(SetText(st, i, pre), i + 1, post), i + 1, "");
      TagsFresh(r) && PathsTracked(r) && FocusIndex(r) == i + 1
      && r.blocks[i + 1] == Text(r.lastFocus, "") && |r.blocks| == |st.blocks| + 2
      && r.viewTagIndex == st.viewTagIndex + 2 && r.lastFocus == st.viewTagIndex + 1
  {
    var s1 := SetText(st, i, pre);
    SetTextKeeps(st, i, pre);
    assert TagsFresh(s1) && PathsTracked(s1) && |s1.blocks| == |st.blocks|;
    var s2 := AddEditTextAtIndex(s1, i + 1, post);
    AddEditTextKeeps(s1, i + 1, post);
    assert TagsFresh(s2) && PathsTracked(s2) && |s2.blocks| == |st.blocks| + 1;
    assert s2.viewTagIndex == st.viewTagIndex + 1;
    AddEditTextKeeps(s2, i + 1, "");
    var r := AddEditTextAtIndex(s2, i + 1, "");
    assert r.blocks == InsertAt(s2.blocks, i + 1, Text(s2.viewTagIndex, ""));
  }

  /** The steps of the branch that splits the focused text. */
  lemma SplitStepsFocus(st: State, pre: string, post: string, path: string)
    requires TagsFresh(st) && PathsTracked(st) && FocusInLayout(st) && path != ""
    ensures var i := FocusIndex(st);
      var r := AddImageViewAtIndex(AddEditTextAtIndex(AddEditTextAtIndex(
        SetText(st, i, pre), i + 1, post), i + 1, ""), i + 1, path);
      TagsFresh(r) && PathsTracked(r) && FocusInLayout(r) && FocusBelowImage(r, path)
      && r.lastFocus == st.viewTagIndex + 1
  {
    var i, n := FocusIndex(st), st.viewTagIndex;
    var s3 := AddEditTextAtIndex(AddEditTextAtIndex(SetText(st, i, pre), i + 1, post), i + 1, "");
    SplitTextsKeep(st, i, pre, post);
    AddImageViewKeeps(s3, i + 1, path);
    AddImageViewFocus(s3, i + 1, path);
    var r := AddImageViewAtIndex(s3, i + 1, path);
    assert r.blocks[i + 1] == Image(n + 2, path);
    assert r.blocks[i + 2] == s3.blocks[i + 1];
  }

  /** Each branch of insertImage, as its composition of steps, keeps the
      invariant and leaves focus on the new empty EditText below the image. */
  predicate InsertedBelow(st: State, r: State, path: string)
  {
    Valid(r) && FocusBelowImage(r, path) && r.lastFocus >= st.viewTagIndex
    && r.disappearingImageIndex == st.disappearingImageIndex
  }

  lemma BelowValid(st: State, path: string)
    requires Valid(st) && path != ""
    ensures var i := FocusIndex(st);
      InsertedBelow(st, AddImageViewAtIndex(AddEditTextAtIndex(st, i + 1, ""), i + 1, path), path)
  {
    var i := FocusIndex(st);
    TextThenImageKeeps(st, i + 1, i + 1, "", path);
    BelowStepsFocus(st, path);
  }

  lemma AboveValid(st: State, path: string)
    requires Valid(st) && path != ""
    ensures var i := FocusIndex(st);
      InsertedBelow(st, AddEditTextAtIndex(AddImageViewAtIndex(st, i, path), i + 1, ""), path)
  {
    var i := FocusIndex(st);
    ImageThenTextKeeps(st, i, i + 1, "", path);
    AboveStepsFocus(st, path);
  }

  lemma SplitValid(st: State, pre: string, post: string, path: string)
    requires Valid(st) && path != ""
    ensures var i := FocusIndex(st);
      InsertedBelow(st, AddImageViewAtIndex(AddEditTextAtIndex(AddEditTextAtIndex(
        SetFocusedText(st, pre), i + 1, post), i + 1, ""), i + 1, path), path)
  {
    assert SetFocusedText(st, pre) == SetText(st, FocusIndex(st), pre);
    SplitStepsFocus(st, pre, post, path);
  }

  /** insertImage keeps the invariant and, for any non-empty path, leaves
      focus on the new empty EditText right after the new image. */
  lemma InsertImageValid(st: State, path: string)
    requires Valid(st)
    ensures var r := InsertImage(st, path);
      Valid(r) && r.disappearingImageIndex == st.disappearingImageIndex
      && (path != "" ==> FocusBelowImage(r, path) && r.lastFocus >= st.viewTagIndex)
  {
    if path != "" {
      var i, s, pre, post := FocusIndex(st), FocusedText(st), Before(st), After(st);
      var r := InsertImage(st, path);
      InsertImageBranches(st, path, i, s, pre, post);
      if |s| == 0 || (|pre| != 0 && |post| == 0) {
        BelowValid(st, path);
        assert InsertedBelow(st, r, path);
      } else if |pre| == 0 {
        AboveValid(st, path);
        assert InsertedBelow(st, r, path);
      } else {
        SplitValid(st, pre, post, path);
        assert InsertedBelow(st, r, path);
      }
    }
  }

  // ---------------------------------------------------------------------
  // The focus listener

  /** Focusing a text child keeps the invariant and puts the focus there. */
  lemma OnFocusChangeValid(st: State, index: nat, selection: nat)
    requires Valid(st) && index < |st.blocks| && st.blocks[index].Text?
    requires selection <= |st.blocks[index].content|
    ensures var r := OnFocusChange(st, index, selection);
      Valid(r) && FocusIndex(r) == index && r.caret == selection && r.blocks == st.blocks
  {
    IndexOfDistinct(st.blocks, index);
  }
}
