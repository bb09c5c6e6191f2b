/** The remaining operations, and worked examples on small layouts, proved
    as lemmas. */
module Scenarios {
  import opened Blocks
  import opened EditorModel
  import opened EditorProperties
  import opened RemovalProperties

  /** clearAllLayout empties the layout but keeps lastFocusEdit and
      imagePaths: focus is no longer in the layout, and imagePaths matches
      the (empty) layout only if it was empty already. */
  lemma ClearAllLayoutStale(st: State)
    ensures var r := ClearAllLayout(st);
      r.blocks == [] && GetLastIndex(r) == 0 && !FocusInLayout(r)
      && r.imagePaths == st.imagePaths && r.lastFocus == st.lastFocus
      && (PathsTracked(r) <==> st.imagePaths == [])
      && (FocusInLayout(st) ==> FocusReady(r) && FocusedText(r) == FocusedText(st) && r.caret == st.caret)
  {
    var r := ClearAllLayout(st);
    if PathsTracked(r) {
      assert multiset(st.imagePaths) == multiset{};
    }
  }

  /** From "hello world" with the caret after "hello", the focused text keeps
      "hello" and below it come the image, a new empty text (focused) and
      "world". */
  lemma SplitHelloWorld()
    ensures var st := State([Text(1, "hello world")], 2, 1, 5, [], 0, "");
      InsertImage(st, "p1")
        == State([Text(1, "hello"), Image(4, "p1"), Text(3, ""), Text(2, "world")], 5, 3, 0, ["p1"], 0, "")
  {
    var st := State([Text(1, "hello world")], 2, 1, 5, [], 0, "");
    assert FocusIndex(st) == 0;
    assert FocusedText(st)[..5] == "hello";
    assert FocusedText(st)[5..] == " world";
    assert Trim("hello") == "hello";
    assert TrimStart(" world") == "world";
    assert Trim(" world") == "world";
    InsertImageSplit(st, "p1");
  }

  /** Backspace at the start of "cd" after "ab" gives "abcd" with the caret
      at 2. */
  lemma BackspaceAbCd()
    ensures var st := State([Text(1, "ab"), Text(2, "cd")], 3, 2, 0, [], 0, "");
      OnBackspacePress(st, false) == (State([Text(1, "abcd")], 3, 1, 2, [], 0, ""), None)
  {
    var st := State([Text(1, "ab"), Text(2, "cd")], 3, 2, 0, [], 0, "");
    assert FocusIndex(st) == 1;
    assert RemoveAt(st.blocks, 1) == [Text(1, "ab")];
    assert "ab" + "cd" == "abcd";
    var r := OnBackspacePress(st, false);
    assert r.1 == None;
    assert r.0.blocks == [Text(1, "abcd")];
    assert r.0.lastFocus == 1;
    assert r.0.caret == 2;
  }

  /** Backspace in the only child does nothing. */
  lemma BackspaceFirstChild()
    ensures OnBackspacePress(Initial(), false) == (Initial(), None)
  {
    assert FocusIndex(Initial()) == 0;
  }

  /** With the caret at the start of a text that follows an image, the new
      image lands right after the old one: two image cells can be adjacent. */
  lemma AdjacentImagesPossible()
    ensures var st := State([Image(1, "p1"), Text(2, "abc")], 3, 2, 0, ["p1"], 0, "");
      var r := InsertImage(st, "p2");
      Valid(st) && r.blocks[0].Image? && r.blocks[1].Image?
  {
    var st := State([Image(1, "p1"), Text(2, "abc")], 3, 2, 0, ["p1"], 0, "");
    assert FocusIndex(st) == 1;
    assert ImagePaths(st.blocks) == ["p1"] by {
      assert st.blocks[1..] == [Text(2, "abc")];
      ImagePathsOne(Text(2, "abc"));
    }
    assert Trim(FocusedText(st)[..0]) == "";
    InsertImageAbove(st, "p2");
  }

  /** Removing the image between "a" and "b" joins them with a newline and
      reports the path. */
  lemma CloseImageBetweenTexts()
    ensures var st := State([Text(1, "a"), Image(3, "p"), Text(2, "b")], 4, 2, 0, ["p"], 0, "");
      OnImageCloseClick(st, 1, false) == (State([Text(1, "a\nb")], 4, 1, 1, [], 1, ""), Some("p"))
  {
    var st := State([Text(1, "a"), Image(3, "p"), Text(2, "b")], 4, 2, 0, ["p"], 0, "");
    ImageCloseShape(st, 1, false);
    assert st.blocks[..0] == [] && st.blocks[3..] == [];
    assert "a" + "\n" + "b" == "a\nb";
    assert RemoveFirst(["p"], "p") == [];
    var r := OnImageCloseClick(st, 1, false);
    assert r.1 == Some("p");
    assert r.0.blocks == [Text(1, "a\nb")];
    assert r.0.lastFocus == 1 && r.0.caret == 1;
  }

  /** After clearAllLayout, insertImage still reads the detached
      lastFocusEdit: with the caret at the end of "abc" the image and a new
      empty EditText become the only children, and the invariant holds again
      when imagePaths was empty. */
  lemma ClearThenInsertImage()
    ensures var st := State([Text(1, "abc")], 2, 1, 3, [], 0, "");
      var r := InsertImage(ClearAllLayout(st), "p");
      r == State([Image(3, "p"), Text(2, "")], 4, 2, 0, ["p"], 0, "abc") && Valid(r)
  {
    var st := State([Text(1, "abc")], 2, 1, 3, [], 0, "");
    var c := ClearAllLayout(st);
    assert FocusIndex(st) == 0;
    assert c.detachedText == "abc";
    assert FocusIndex(c) == -1;
    assert FocusedText(c)[..3] == "abc" && FocusedText(c)[3..] == "";
    assert Trim("abc") == "abc";
    var r := InsertImage(c, "p");
    assert r.blocks == [Image(3, "p"), Text(2, "")];
    IndexOfIs(r.blocks, 2, 1);
    assert ImagePaths(r.blocks) == ["p"] by {
      assert r.blocks[1..] == [Text(2, "")];
      ImagePathsOne(Text(2, ""));
    }
  }

  /** Typing "abc" into the first EditText and moving the caret to 0, then
      clearAllLayout and addImageViewAtIndex(0, "q"): lastFocusEdit is
      detached, so lastEditIndex is -1. insertImage then appends the image
      and the new empty EditText goes to the top, above both images. */
  lemma DetachedCaretAtStart()
    ensures var typed := Initial().(blocks := [Text(1, "abc")]);
      var st := AddImageViewAtIndex(ClearAllLayout(typed), 0, "q");
      FocusIndex(st) == -1
      && InsertImage(st, "p").blocks == [Text(4, ""), Image(2, "q"), Image(3, "p")]
  {
    var typed := Initial().(blocks := [Text(1, "abc")]);
    var st := AddImageViewAtIndex(ClearAllLayout(typed), 0, "q");
    assert st.blocks == [Image(2, "q")];
    assert FocusIndex(st) == -1;
    assert FocusedText(st)[..0] == "";
    assert Trim("") == "";
  }
}
