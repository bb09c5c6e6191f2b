/** The editor object: the layout's children and the fields the Java class
    updates in place. Every method that changes them is specified by the
    function of the same name in EditorModel, and keeps the invariant
    proved there. */
module Editor {
  import opened Blocks
  import opened EditorModel
  import EditorProperties
  import RemovalProperties

  class HyperTextEditor {
    /** The children of the vertical LinearLayout, in order. */
    var blocks: seq<Block>
    /** The tag the next created view gets. */
    var viewTagIndex: nat
    /** lastFocusEdit, by its tag, and its selection start. */
    var lastFocus: nat
    var caret: nat
    var imagePaths: seq<string>
    var disappearingImageIndex: int
    /** The text of lastFocusEdit while it is not a child of the layout. */
    var detachedText: string

    function Model(): State
      reads this
    {
      State(blocks, viewTagIndex, lastFocus, caret, imagePaths, disappearingImageIndex, detachedText)
    }

    /** Tags fresh, focus in the layout, paths tracked. */
    predicate Valid()
      reads this
    {
      EditorModel.Valid(Model())
    }

    /** The constructor: imagePaths starts empty, viewTagIndex at 1, and
        initFirstEditText adds the first EditText. */
    constructor ()
      ensures Model() == Initial() && Valid()
    {
      blocks := [];
      viewTagIndex := 1;
      lastFocus := 0;
      caret := 0;
      imagePaths := [];
      disappearingImageIndex := 0;
      detachedText := "";
      new;
      InitFirstEditText();
      assert Model() == Initial();
      EditorProperties.InitialValid();
    }

    /** createEditText and createImageLayout both tag the new view with
        viewTagIndex++. */
    method TakeTag() returns (tag: nat)
      modifies this
      ensures tag == old(viewTagIndex) && Model() == old(Model()).(viewTagIndex := tag + 1)
    {
      tag := viewTagIndex;
      viewTagIndex := viewTagIndex + 1;
    }

    /** initFirstEditText: an EditText is appended to the empty layout and
        becomes lastFocusEdit. */
    method InitFirstEditText()
      modifies this
      ensures Model() == old(Model()).(blocks := old(blocks) + [Text(old(viewTagIndex), "")],
                                       viewTagIndex := old(viewTagIndex) + 1,
                                       lastFocus := old(viewTagIndex), caret := 0)
    {
      var tag := TakeTag();
      blocks := blocks + [Text(tag, "")];
      lastFocus := tag;
      caret := 0;
    }

    method AddEditTextAtIndex(index: int, editStr: string)
      modifies this
      ensures Model() == EditorModel.AddEditTextAtIndex(old(Model()), index, editStr)
      ensures old(Valid()) ==> Valid()
    {
      ghost var r := EditorModel.AddEditTextAtIndex(Model(), index, editStr);
      if Valid() {
        if index <= |blocks| {
          EditorProperties.AddEditTextKeeps(Model(), index, editStr);
        } else {
          EditorProperties.AddOutOfRange(Model(), index, editStr, "");
        }
        assert EditorModel.Valid(r);
      }
      var tag := TakeTag();
      if index > |blocks| {
        return;
      }
      var at := if index < 0 then |blocks| else index;
      blocks := InsertAt(blocks, at, Text(tag, editStr));
      lastFocus := tag;
      caret := |editStr|;
      assert Model() == r;
    }

    method AddImageViewAtIndex(index: int, imagePath: string)
      modifies this
      ensures Model() == EditorModel.AddImageViewAtIndex(old(Model()), index, imagePath)
      ensures old(Valid()) && index <= old(|blocks|) ==> Valid()
    {
      if Valid() && index <= |blocks| {
        EditorProperties.AddImageViewKeeps(Model(), index, imagePath);
      }
      if imagePath == "" {
        return;
      }
      imagePaths := imagePaths + [imagePath];
      var tag := TakeTag();
      if index > |blocks| {
        return;
      }
      var at := if index < 0 then |blocks| else index;
      blocks := InsertAt(blocks, at, Image(tag, imagePath));
    }

    method InsertImage(imagePath: string)
      requires FocusReady(Model())
      modifies this
      ensures Model() == EditorModel.InsertImage(old(Model()), imagePath)
      ensures old(Valid()) ==> Valid()
    {
      ghost var st := Model();
      if Valid() {
        EditorProperties.InsertImageValid(st, imagePath);
      }
      if imagePath == "" {
        return;
      }
      var lastEditIndex := IndexOf(blocks, lastFocus);
      var lastEditStr := if 0 <= lastEditIndex then blocks[lastEditIndex].content else detachedText;
      var editStr1 := Trim(lastEditStr[..caret]);
      var editStr2 := Trim(lastEditStr[caret..]);
      EditorProperties.InsertImageBranches(st, imagePath, lastEditIndex, lastEditStr, editStr1, editStr2);
      if |lastEditStr| == 0 {
        ghost var m1 := EditorModel.AddEditTextAtIndex(st, lastEditIndex + 1, "");
        AddEditTextAtIndex(lastEditIndex + 1, "");
        assert Model() == m1;
        AddImageViewAtIndex(lastEditIndex + 1, imagePath);
      } else if |editStr1| == 0 {
        ghost var m1 := EditorModel.AddImageViewAtIndex(st, lastEditIndex, imagePath);
        AddImageViewAtIndex(lastEditIndex, imagePath);
        assert Model() == m1;
        AddEditTextAtIndex(lastEditIndex + 1, "");
      } else if |editStr2| == 0 {
        ghost var m1 := EditorModel.AddEditTextAtIndex(st, lastEditIndex + 1, "");
        AddEditTextAtIndex(lastEditIndex + 1, "");
        assert Model() == m1;
        AddImageViewAtIndex(lastEditIndex + 1, imagePath);
      } else {
        SplitAround(lastEditIndex, editStr1, editStr2, imagePath);
      }
    }

    /** The last branch of insertImage: lastFocusEdit, at i, keeps pre, a new
        EditText gets post, a new empty one goes above it and the image above
        that, each at i + 1. */
    method SplitAround(i: int, pre: string, post: string, imagePath: string)
      requires i == FocusIndex(Model()) && FocusReady(Model())
      modifies this
      ensures Model() == EditorModel.AddImageViewAtIndex(EditorModel.AddEditTextAtIndex(
        EditorModel.AddEditTextAtIndex(SetFocusedText(old(Model()), pre), i + 1, post), i + 1, ""), i + 1, imagePath)
    {
      ghost var st := Model();
      if 0 <= i {
        blocks := blocks[i := Text(blocks[i].tag, pre)];
      } else {
        detachedText := pre;
      }
      ghost var m1 := SetFocusedText(st, pre);
      assert Model() == m1;
      ghost var m2 := EditorModel.AddEditTextAtIndex(m1, i + 1, post);
      AddEditTextAtIndex(i + 1, post);
      assert Model() == m2;
      ghost var m3 := EditorModel.AddEditTextAtIndex(m2, i + 1, "");
      AddEditTextAtIndex(i + 1, "");
      assert Model() == m3;
      AddImageViewAtIndex(i + 1, imagePath);
    }

    method MergeEditText()
      modifies this
      ensures Model() == EditorModel.MergeEditText(old(Model()))
      ensures old(Valid()) ==> Valid()
    {
      if Valid() {
        RemovalProperties.MergeEditTextKeeps(Model());
      }
      var d := disappearingImageIndex;
      if 1 <= d < |blocks| && blocks[d - 1].Text? && blocks[d].Text? {
        var preEdit := blocks[d - 1];
        var str1 := preEdit.content;
        var str2 := blocks[d].content;
        var mergeText := if |str2| > 0 then str1 + "\n" + str2 else str1;
        blocks := RemoveAt(blocks, d);
        blocks := blocks[d - 1 := Text(preEdit.tag, mergeText)];
        lastFocus := preEdit.tag;
        caret := |str1|;
      }
    }

    /** The result is the path passed to onRtImageDelete, if any. */
    method OnImageCloseClick(index: nat, transitionRunning: bool) returns (deleted: Option<string>)
      requires index < |blocks| && blocks[index].Image?
      modifies this
      ensures (Model(), deleted) == EditorModel.OnImageCloseClick(old(Model()), index, transitionRunning)
      ensures old(Valid()) ==> Valid()
    {
      ghost var st := Model();
      if Valid() {
        RemovalProperties.ImageCloseValid(st, index, transitionRunning);
      }
      deleted := None;
      if transitionRunning {
        return;
      }
      RemovalProperties.ImageCloseSteps(st, index);
      disappearingImageIndex := index;
      var dataList := BuildEditData();
      var editData := dataList[index];
      assert editData == Record(st.blocks[index]);
      if editData.imagePath.Some? {
        deleted := editData.imagePath;
        imagePaths := RemoveFirst(imagePaths, editData.imagePath.value);
      }
      blocks := RemoveAt(blocks, index);
      ghost var removed := st.(disappearingImageIndex := index,
                               imagePaths := RemoveFirst(st.imagePaths, st.blocks[index].path),
                               blocks := RemoveAt(st.blocks, index));
      assert Model() == removed;
      MergeEditText();
    }

    /** The result is the path of an image the backspace removed, if any. */
    method OnBackspacePress(transitionRunning: bool) returns (deleted: Option<string>)
      requires FocusInLayout(Model())
      modifies this
      ensures (Model(), deleted) == EditorModel.OnBackspacePress(old(Model()), transitionRunning)
      ensures old(Valid()) ==> Valid()
    {
      ghost var st := Model();
      if Valid() {
        RemovalProperties.BackspaceValid(st, transitionRunning);
      }
      deleted := None;
      if caret != 0 {
        return;
      }
      var editIndex := IndexOf(blocks, lastFocus);
      if editIndex == 0 {
        return;
      }
      var preView := blocks[editIndex - 1];
      if preView.Image? {
        deleted := OnImageCloseClick(editIndex - 1, transitionRunning);
      } else {
        var str1 := blocks[editIndex].content;
        var str2 := preView.content;
        blocks := RemoveAt(blocks, editIndex);
        blocks := blocks[editIndex - 1 := Text(preView.tag, str2 + str1)];
        lastFocus := preView.tag;
        caret := |str2|;
        assert (Model(), deleted) == EditorModel.OnBackspacePress(st, transitionRunning);
      }
    }

    /** The focus listener, with the selection the user leaves. */
    method OnFocusChange(index: nat, selection: nat)
      requires index < |blocks| && blocks[index].Text? && selection <= |blocks[index].content|
      modifies this
      ensures Model() == EditorModel.OnFocusChange(old(Model()), index, selection)
      ensures old(Valid()) ==> Valid()
    {
      if Valid() {
        EditorProperties.OnFocusChangeValid(Model(), index, selection);
      }
      lastFocus := blocks[index].tag;
      caret := selection;
    }

    /** removeAllViews; the EditText that had the focus keeps its text. */
    method ClearAllLayout()
      modifies this
      ensures Model() == EditorModel.ClearAllLayout(old(Model()))
    {
      var i := IndexOf(blocks, lastFocus);
      if 0 <= i && blocks[i].Text? {
        detachedText := blocks[i].content;
      }
      blocks := [];
    }

    /** getChildCount of the layout. */
    method GetLastIndex() returns (n: nat)
      ensures n == EditorModel.GetLastIndex(Model())
    {
      n := |blocks|;
    }

    /** One record per child, in order: the text of an EditText or the path
        of an image cell. */
    method BuildEditData() returns (dataList: seq<EditData>)
      ensures dataList == Serialize(blocks) && |dataList| == EditorModel.GetLastIndex(Model())
      ensures WellFormed(dataList) && Restore(dataList, Tags(blocks)) == blocks
    {
      dataList := [];
      var num := |blocks|;
      for index := 0 to num
        invariant |dataList| == index
        invariant forall k :: 0 <= k < index ==> dataList[k] == Record(blocks[k])
      {
        var itemView := blocks[index];
        var data := EditData(None, None);
        match itemView {
          case Text(_, content) =>
            data := data.(inputStr := Some(content));
          case Image(_, path) =>
            data := data.(imagePath := Some(path));
        }
        dataList := dataList + [data];
      }
      SerializeRestore(blocks);
    }
  }
}
