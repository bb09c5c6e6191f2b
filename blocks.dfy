/** The children of the editor's vertical layout as values, and the library
    operations the editor applies to them: Java's String.trim,
    ArrayList.remove(Object), ViewGroup.indexOfChild and ViewGroup.addView /
    removeView at an index, plus the serialisation record HyperEditData. */
module Blocks {

  datatype Option<T> = None | Some(value: T)

  /** One child of the layout: an EditText (Text) or the RelativeLayout image
      cell (Image). Each carries the tag handed out when it was created. */
  datatype Block =
    | Text(tag: nat, content: string)
    | Image(tag: nat, path: string)

  /** HyperEditData: both fields start out null; buildEditData sets one. */
  datatype EditData = EditData(inputStr: Option<string>, imagePath: Option<string>)

  // ---------------------------------------------------------------------
  // String.trim: strips every leading and trailing char <= U+0020.

  function TrimStart(s: string): string
  {
    if s != [] && s[0] <= ' ' then TrimStart(s[1..]) else s
  }

  function TrimEnd(s: string): string
  {
    if s != [] && s[|s| - 1] <= ' ' then TrimEnd(s[..|s| - 1]) else s
  }

  function Trim(s: string): string
  {
    TrimEnd(TrimStart(s))
  }

  /** TrimStart drops a blank prefix and stops at the first non-blank char. */
  lemma {:induction false} TrimStartSpec(s: string)
    ensures var r := TrimStart(s);
      |r| <= |s| && r == s[|s| - |r|..]
      && (r != [] ==> r[0] > ' ')
      && forall k :: 0 <= k < |s| - |r| ==> s[k] <= ' '
  {
    if s != [] && s[0] <= ' ' {
      TrimStartSpec(s[1..]);
    }
  }

  /** TrimEnd drops a blank suffix and stops at the last non-blank char. */
  lemma {:induction false} TrimEndSpec(s: string)
    ensures var r := TrimEnd(s);
      |r| <= |s| && r == s[..|r|]
      && (r != [] ==> r[|r| - 1] > ' ')
      && forall k :: |r| <= k < |s| ==> s[k] <= ' '
  {
    if s != [] && s[|s| - 1] <= ' ' {
      TrimEndSpec(s[..|s| - 1]);
    }
  }

  /** Trim returns the infix of s between its leading and trailing blanks. */
  lemma TrimIsInfix(s: string)
    ensures exists a, b :: (0 <= a <= b <= |s| && Trim(s) == s[a..b]
      && (forall k :: 0 <= k < a ==> s[k] <= ' ')
      && (forall k :: b <= k < |s| ==> s[k] <= ' '))
    ensures Trim(s) != [] ==> Trim(s)[0] > ' ' && Trim(s)[|Trim(s)| - 1] > ' '
  {
    var t := TrimStart(s);
    TrimStartSpec(s);
    TrimEndSpec(t);
    var a := |s| - |t|;
    var b := a + |TrimEnd(t)|;
    assert Trim(s) == s[a..b];
    forall k | b <= k < |s| ensures s[k] <= ' ' {
      assert s[k] == t[k - a];
    }
    if Trim(s) != [] {
      assert Trim(s)[0] == t[0];
    }
  }

  /** The trimmed text is empty exactly when every char of s is blank. */
  lemma TrimEmpty(s: string)
    ensures Trim(s) == [] <==> forall k :: 0 <= k < |s| ==> s[k] <= ' '
  {
    var t := TrimStart(s);
    TrimStartSpec(s);
    TrimEndSpec(t);
    if t != [] {
      assert t[0] == s[|s| - |t|];
    }
  }

  // ---------------------------------------------------------------------
  // ViewGroup.addView(child, index) and removeView on the child list.

  function InsertAt<T>(s: seq<T>, i: nat, x: T): (r: seq<T>)
    requires i <= |s|
    ensures |r| == |s| + 1
  {
    s[..i] + [x] + s[i..]
  }

  function RemoveAt<T>(s: seq<T>, i: nat): (r: seq<T>)
    requires i < |s|
    ensures |r| == |s| - 1
  {
    s[..i] + s[i + 1..]
  }

  /** Adding at the seam of a + c puts x between them. */
  lemma InsertAtSeam<T>(a: seq<T>, c: seq<T>, x: T)
    ensures InsertAt(a + c, |a|, x) == a + [x] + c
  {
    assert (a + c)[..|a|] == a;
    assert (a + c)[|a|..] == c;
  }

  /** setText on a child replaces it in place. */
  lemma UpdateSplice<T>(s: seq<T>, i: nat, x: T)
    requires i < |s|
    ensures s[i := x] == s[..i] + [x] + s[i + 1..]
  {
  }

  /** Three children added at i + 1 after the child at i is replaced end up
      in the reverse of the order they were added in. */
  lemma ReplaceThenInsertThree<T>(s: seq<T>, i: nat, a: T, x: T, y: T, z: T)
    requires i < |s|
    ensures InsertAt(InsertAt(InsertAt(s[i := a], i + 1, x), i + 1, y), i + 1, z)
      == s[..i] + [a, z, y, x] + s[i + 1..]
  {
    var front, tail := s[..i] + [a], s[i + 1..];
    UpdateSplice(s, i, a);
    InsertAtSeam(front, tail, x);
    InsertAtSeam(front, [x] + tail, y);
    assert front + [y] + ([x] + tail) == front + ([y, x] + tail);
    InsertAtSeam(front, [y, x] + tail, z);
  }

  // ---------------------------------------------------------------------
  // ArrayList.remove(Object): drops the first equal element, if any.

  function RemoveFirst<T(==)>(s: seq<T>, x: T): (r: seq<T>)
    ensures |r| == if x in s then |s| - 1 else |s|
  {
    if s == [] then []
    else if s[0] == x then s[1..]
    else [s[0]] + RemoveFirst(s[1..], x)
  }

  /** Removing x keeps every other element, in order: all but one x. */
  lemma {:induction false} RemoveFirstCount<T>(s: seq<T>, x: T)
    ensures multiset(RemoveFirst(s, x)) == multiset(s) - multiset{x}
  {
    if s != [] {
      assert s == [s[0]] + s[1..];
      if s[0] != x {
        RemoveFirstCount(s[1..], x);
      }
    }
  }

  /** Without an x the list is unchanged. */
  lemma {:induction false} RemoveFirstAbsent<T>(s: seq<T>, x: T)
    requires x !in s
    ensures RemoveFirst(s, x) == s
  {
    if s != [] {
      assert s == [s[0]] + s[1..];
      RemoveFirstAbsent(s[1..], x);
    }
  }

  /** With its first x at k, exactly the element at k is dropped. */
  lemma {:induction false} RemoveFirstAt<T>(s: seq<T>, x: T, k: nat)
    requires k < |s| && s[k] == x && x !in s[..k]
    ensures RemoveFirst(s, x) == s[..k] + s[k + 1..]
  {
    if k > 0 {
      assert s[0] == s[..k][0];
      assert s[1..][..k - 1] == s[1..k];
      RemoveFirstAt(s[1..], x, k - 1);
      assert s[..k] == [s[0]] + s[1..k];
    }
  }

  // ---------------------------------------------------------------------
  // ViewGroup.indexOfChild, with a view's identity stood for by its tag.

  function IndexOf(b: seq<Block>, t: nat): (r: int)
    ensures -1 <= r < |b|
    ensures r >= 0 ==> b[r].tag == t
  {
    if b == [] then -1
    else if b[0].tag == t then 0
    else
      var r := IndexOf(b[1..], t);
      if r < 0 then -1 else r + 1
  }

  /** No child before the one found carries t, and none at all when none
      is found. */
  lemma {:induction false} IndexOfFirst(b: seq<Block>, t: nat)
    ensures var r := IndexOf(b, t);
      forall j :: 0 <= j < (if r < 0 then |b| else r) ==> b[j].tag != t
  {
    if b != [] && b[0].tag != t {
      IndexOfFirst(b[1..], t);
      var r := IndexOf(b, t);
      forall j | 1 <= j < (if r < 0 then |b| else r) ensures b[j].tag != t {
        assert b[j] == b[1..][j - 1];
      }
    }
  }

  /** The first child carrying t is at j. */
  lemma IndexOfIs(b: seq<Block>, t: nat, j: nat)
    requires j < |b| && b[j].tag == t
    requires forall m :: 0 <= m < j ==> b[m].tag != t
    ensures IndexOf(b, t) == j
  {
    IndexOfFirst(b, t);
  }

  /** No two children carry the same tag. */
  predicate TagsDistinct(b: seq<Block>)
  {
    forall j, k :: 0 <= j < k < |b| ==> b[j].tag != b[k].tag
  }

  /** Every tag is below n. */
  predicate TagsBelow(b: seq<Block>, n: nat)
  {
    forall k :: 0 <= k < |b| ==> b[k].tag < n
  }

  /** A child created under tag n joins children whose tags are distinct and
      below n: the tags stay distinct and are all below n + 1. */
  lemma InsertFresh(b: seq<Block>, at: nat, x: Block, n: nat)
    requires TagsDistinct(b) && TagsBelow(b, n) && at <= |b| && x.tag == n
    ensures TagsDistinct(InsertAt(b, at, x)) && TagsBelow(InsertAt(b, at, x), n + 1)
  {
    InsertKeepsDistinct(b, at, x);
  }

  /** Replacing a child by one with the same tag keeps the tags. */
  lemma ReplaceFresh(b: seq<Block>, i: nat, x: Block, n: nat)
    requires TagsDistinct(b) && TagsBelow(b, n) && i < |b| && x.tag == b[i].tag
    ensures TagsDistinct(b[i := x]) && TagsBelow(b[i := x], n)
    ensures forall t :: IndexOf(b[i := x], t) == IndexOf(b, t)
  {
    forall t ensures IndexOf(b[i := x], t) == IndexOf(b, t) {
      var c := b[i := x];
      var f, g := IndexOf(b, t), IndexOf(c, t);
      IndexOfFirst(b, t);
      IndexOfFirst(c, t);
      if f >= 0 {
        assert c[f].tag == t;
        IndexOfIs(c, t, f);
      } else {
        forall j | 0 <= j < |c| ensures c[j].tag != t {
          assert c[j].tag == b[j].tag;
        }
      }
    }
  }

  /** Removing a child keeps the tags distinct and below n. */
  lemma RemoveFresh(b: seq<Block>, i: nat, n: nat)
    requires TagsDistinct(b) && TagsBelow(b, n) && i < |b|
    ensures TagsDistinct(RemoveAt(b, i)) && TagsBelow(RemoveAt(b, i), n)
  {
    RemoveKeepsDistinct(b, i);
  }

  lemma IndexOfDistinct(b: seq<Block>, k: nat)
    requires TagsDistinct(b) && k < |b|
    ensures IndexOf(b, b[k].tag) == k
  {
    IndexOfIs(b, b[k].tag, k);
  }

  /** A child added under a tag nobody has keeps the tags distinct. */
  lemma InsertKeepsDistinct(b: seq<Block>, at: nat, x: Block)
    requires TagsDistinct(b) && at <= |b|
    requires forall k :: 0 <= k < |b| ==> b[k].tag != x.tag
    ensures TagsDistinct(InsertAt(b, at, x))
  {
    var r := InsertAt(b, at, x);
    forall j, k | 0 <= j < k < |r| ensures r[j].tag != r[k].tag {
      if j < at && k > at {
        assert r[k] == b[k - 1];
      } else if j > at {
        assert r[j] == b[j - 1] && r[k] == b[k - 1];
      }
    }
  }

  lemma RemoveAtIndex<T>(s: seq<T>, i: nat, m: nat)
    requires i < |s| && m < |s| - 1
    ensures RemoveAt(s, i)[m] == if m < i then s[m] else s[m + 1]
  {
  }

  /** Removing a child keeps the tags distinct. */
  lemma RemoveKeepsDistinct(b: seq<Block>, i: nat)
    requires TagsDistinct(b) && i < |b|
    ensures TagsDistinct(RemoveAt(b, i))
  {
    var r := RemoveAt(b, i);
    forall j, k | 0 <= j < k < |r| ensures r[j].tag != r[k].tag {
      if j < i && k >= i {
        assert r[k] == b[k + 1];
      } else if j >= i {
        assert r[j] == b[j + 1] && r[k] == b[k + 1];
      }
    }
  }

  /** A child added in front of a view pushes that view's index down by one;
      one added after it leaves its index alone. */
  lemma IndexOfInsert(b: seq<Block>, at: nat, x: Block, t: nat)
    requires at <= |b| && x.tag != t && IndexOf(b, t) >= 0
    ensures IndexOf(InsertAt(b, at, x), t)
      == if at <= IndexOf(b, t) then IndexOf(b, t) + 1 else IndexOf(b, t)
  {
    var i := IndexOf(b, t);
    var r := InsertAt(b, at, x);
    IndexOfFirst(b, t);
    var j := if at <= i then i + 1 else i;
    assert r[j].tag == t;
    forall m | 0 <= m < j ensures r[m].tag != t {
      if m < at {
        assert r[m] == b[m];
      } else if m > at {
        assert r[m] == b[m - 1];
      }
    }
    IndexOfIs(r, t, j);
  }

  /** Removing a child other than the view shifts the view's index by the
      removed one. */
  lemma IndexOfRemove(b: seq<Block>, i: nat, t: nat)
    requires i < |b| && b[i].tag != t && IndexOf(b, t) >= 0
    ensures IndexOf(RemoveAt(b, i), t)
      == if i < IndexOf(b, t) then IndexOf(b, t) - 1 else IndexOf(b, t)
  {
    var f := IndexOf(b, t);
    var r := RemoveAt(b, i);
    IndexOfFirst(b, t);
    var j := if i < f then f - 1 else f;
    RemoveAtIndex(b, i, j);
    forall m | 0 <= m < j ensures r[m].tag != t {
      RemoveAtIndex(b, i, m);
    }
    IndexOfIs(r, t, j);
  }

  // ---------------------------------------------------------------------
  // The image paths shown by the layout, in order.

  function ImagePaths(b: seq<Block>): seq<string>
  {
    if b == [] then [] else PathOf(b[0]) + ImagePaths(b[1..])
  }

  /** The paths one child contributes. */
  function PathOf(x: Block): seq<string>
  {
    match x
    case Image(_, p) => [p]
    case Text(_, _) => []
  }

  lemma {:induction false} ImagePathsAppend(a: seq<Block>, c: seq<Block>)
    ensures ImagePaths(a + c) == ImagePaths(a) + ImagePaths(c)
  {
    if a == [] {
      assert a + c == c;
    } else {
      assert (a + c)[1..] == a[1..] + c;
      ImagePathsAppend(a[1..], c);
    }
  }

  lemma ImagePathsSplit(b: seq<Block>, at: nat)
    requires at <= |b|
    ensures ImagePaths(b) == ImagePaths(b[..at]) + ImagePaths(b[at..])
  {
    assert b == b[..at] + b[at..];
    ImagePathsAppend(b[..at], b[at..]);
  }

  lemma ImagePathsOne(x: Block)
    ensures ImagePaths([x]) == PathOf(x)
  {
    assert [x][1..] == [];
  }

  /** Adding a child adds its path, if any, to the multiset of paths. */
  lemma ImagePathsInsert(b: seq<Block>, at: nat, x: Block)
    requires at <= |b|
    ensures multiset(ImagePaths(InsertAt(b, at, x))) == multiset(ImagePaths(b)) + multiset(PathOf(x))
  {
    var front, tail := b[..at], b[at..];
    ImagePathsAppend(front + [x], tail);
    ImagePathsAppend(front, [x]);
    ImagePathsOne(x);
    ImagePathsSplit(b, at);
  }

  lemma MultisetMiddle<T>(p: seq<T>, x: seq<T>, q: seq<T>)
    ensures multiset(p + x + q) == multiset(p + q) + multiset(x)
  {
  }

  lemma ImagePathsAround(b: seq<Block>, i: nat)
    requires i < |b|
    ensures ImagePaths(b) == ImagePaths(b[..i]) + PathOf(b[i]) + ImagePaths(b[i + 1..])
    ensures ImagePaths(RemoveAt(b, i)) == ImagePaths(b[..i]) + ImagePaths(b[i + 1..])
  {
    var front, tail := b[..i], b[i + 1..];
    ImagePathsAppend(front, tail);
    ImagePathsSplit(b, i);
    var rest := b[i..];
    assert rest[0] == b[i] && rest[1..] == tail;
    assert ImagePaths(rest) == PathOf(b[i]) + ImagePaths(tail);
  }

  /** Removing a child removes its path, if any, from the multiset of paths. */
  lemma ImagePathsRemove(b: seq<Block>, i: nat)
    requires i < |b|
    ensures multiset(ImagePaths(b)) == multiset(ImagePaths(RemoveAt(b, i))) + multiset(PathOf(b[i]))
  {
    ImagePathsAround(b, i);
    MultisetMiddle(ImagePaths(b[..i]), PathOf(b[i]), ImagePaths(b[i + 1..]));
  }

  /** Replacing a text child by a text child keeps the paths. */
  lemma ImagePathsReplaceText(b: seq<Block>, i: nat, x: Block)
    requires i < |b| && b[i].Text? && x.Text?
    ensures ImagePaths(b[i := x]) == ImagePaths(b)
  {
    ImagePathsAround(b, i);
    ImagePathsAround(b[i := x], i);
    assert b[i := x][..i] == b[..i] && b[i := x][i + 1..] == b[i + 1..];
  }

  // ---------------------------------------------------------------------
  // buildEditData: one HyperEditData per child, in order.

  function Record(x: Block): EditData
  {
    match x
    case Text(_, s) => EditData(Some(s), None)
    case Image(_, p) => EditData(None, Some(p))
  }

  function Serialize(b: seq<Block>): (r: seq<EditData>)
    ensures |r| == |b|
  {
    seq(|b|, k requires 0 <= k < |b| => Record(b[k]))
  }

  function Tags(b: seq<Block>): (r: seq<nat>)
    ensures |r| == |b|
  {
    seq(|b|, k requires 0 <= k < |b| => b[k].tag)
  }

  /** Reads one record back into a child, given the tag the record lacks. */
  function BlockOf(d: EditData, tag: nat): Block
  {
    match d.inputStr
    case Some(s) => Text(tag, s)
    case None =>
      match d.imagePath
      case Some(p) => Image(tag, p)
      case None => Text(tag, "")
  }

  function Restore(d: seq<EditData>, tags: seq<nat>): (r: seq<Block>)
    requires |tags| == |d|
    ensures |r| == |d|
  {
    seq(|d|, k requires 0 <= k < |d| => BlockOf(d[k], tags[k]))
  }

  /** Exactly one of the two fields of every record is set. */
  predicate WellFormed(d: seq<EditData>)
  {
    forall k :: 0 <= k < |d| ==> d[k].inputStr.Some? != d[k].imagePath.Some?
  }

  /** Serialisation loses only the tags: restoring gives back the children. */
  lemma SerializeRestore(b: seq<Block>)
    ensures WellFormed(Serialize(b))
    ensures Restore(Serialize(b), Tags(b)) == b
  {
  }

  /** Every well-formed list of records is the serialisation of its restoration. */
  lemma RestoreSerialize(d: seq<EditData>, tags: seq<nat>)
    requires |tags| == |d| && WellFormed(d)
    ensures Serialize(Restore(d, tags)) == d
    ensures Tags(Restore(d, tags)) == tags
  {
  }
}
