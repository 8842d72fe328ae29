/**
 * friendsConnection, the Relay-style page over a character's friends list
 * (the Human and Droid resolvers share the same code). Every friend gets an
 * edge whose cursor encodes its 1-based position; the page is the slice
 * [after, after + first) of those edges; pageInfo and totalCount look at the
 * whole list.
 */
module Connection {
  import opened Wrappers
  import opened Store
  import Cursor
  import Decimal

  datatype Edge = Edge(cursor: string, node: Option<Record>)

  datatype PageInfo = PageInfo(startCursor: Option<string>, hasNextPage: bool, endCursor: Option<string>)

  datatype Connection = Connection(edges: seq<Edge>, friends: seq<Option<Record>>, pageInfo: PageInfo, totalCount: nat)

  /** `first || friends.length`: an absent first and a first of 0 both mean the whole list. */
  function PageSize(friends: seq<string>, first: Option<int>): (f: int)
    ensures first.None? || first == Some(0) ==> f == |friends|
    ensures first.Some? && first.value != 0 ==> f == first.value
  {
    if first.None? || first.value == 0 then |friends| else first.value
  }

  /**
   * `after ? parseInt(fromCursor(after), 10) : 0`: an absent or empty cursor
   * (both falsy) is offset 0; any other cursor is read back as a number, and
   * None stands for the NaN that parseInt gives when it cannot.
   */
  function StartOffset(after: Option<string>): (r: Option<nat>)
  {
    if after.None? || after.value == "" then Some(0) else Cursor.Offset(after.value)
  }

  /** A cursor the resolver handed out reads back as the position it encodes. */
  lemma StartOffsetOfCursor(n: nat)
    ensures StartOffset(Some(Cursor.ToCursor(n))) == Some(n)
  {
    Cursor.OffsetOfCursor(n);
    assert |Cursor.ToCursor(n)| > 0 by {
      assert |Cursor.Prefix + Decimal.Show(n)| > 0;
    }
  }

  /** All edges, before slicing: friends.map((friend, i) => edge), built up from the last friend. */
  function AllEdges(db: Db, friends: seq<string>): (r: seq<Edge>)
    ensures |r| == |friends|
  {
    if friends == [] then []
    else AllEdges(db, friends[..|friends| - 1]) + [Edge(Cursor.ToCursor(|friends|), GetCharacter(db, friends[|friends| - 1]))]
  }

  /** The edge for friend i carries the cursor of position i + 1 and the character friends[i]. */
  lemma {:induction false} AllEdgesAt(db: Db, friends: seq<string>, i: nat)
    requires i < |friends|
    ensures AllEdges(db, friends)[i] == Edge(Cursor.ToCursor(i + 1), GetCharacter(db, friends[i]))
  {
    if i < |friends| - 1 {
      var init := friends[..|friends| - 1];
      AllEdgesAt(db, init, i);
      assert init[i] == friends[i];
    }
  }

  /** Where JavaScript's slice puts a bound: a negative one counts back from the end. */
  function SliceBound(x: int, len: nat): (b: nat)
    ensures b <= len
    ensures 0 <= x ==> b == Min(x, len)
  {
    if x < 0 then (if len + x < 0 then 0 else len + x)
    else if x < len then x else len
  }

  /** JavaScript's Array.prototype.slice(start, end). */
  function JsSlice<T>(s: seq<T>, start: int, end: int): (r: seq<T>)
  {
    var lo, hi := SliceBound(start, |s|), SliceBound(end, |s|);
    if lo < hi then s[lo..hi] else []
  }

  /** For 0 <= a <= e, slice(a, e) is the window of size e - a at a, clipped to the end of the list. */
  lemma SliceWindow<T>(s: seq<T>, a: nat, e: int)
    requires a <= e
    ensures |JsSlice(s, a, e)| == Min(e - a, Max(0, |s| - a))
    ensures forall j :: 0 <= j < |JsSlice(s, a, e)| ==> JsSlice(s, a, e)[j] == s[a + j]
  {
    var lo, hi := SliceBound(a, |s|), SliceBound(e, |s|);
    if lo < hi {
      assert JsSlice(s, a, e) == s[lo..hi];
    }
  }

  function Min(a: int, b: int): int { if a < b then a else b }
  function Max(a: int, b: int): int { if a < b then b else a }

  function Nodes(edges: seq<Edge>): (r: seq<Option<Record>>)
    ensures |r| == |edges| && forall i :: 0 <= i < |edges| ==> r[i] == edges[i].node
  {
    seq(|edges|, i requires 0 <= i < |edges| => edges[i].node)
  }

  /** The edges of the page of size f at offset a: slice(a, f + a) of all the edges. */
  function Window(db: Db, friends: seq<string>, f: int, a: nat): (edges: seq<Edge>)
  {
    JsSlice(AllEdges(db, friends), a, f + a)
  }

  lemma WindowLength(db: Db, friends: seq<string>, f: int, a: nat)
    requires f >= 0
    ensures |Window(db, friends, f, a)| == Min(f, Max(0, |friends| - a))
  {
    SliceWindow(AllEdges(db, friends), a, f + a);
  }

  lemma WindowEdge(db: Db, friends: seq<string>, f: int, a: nat, j: nat)
    requires f >= 0 && j < |Window(db, friends, f, a)|
    ensures a + j < |friends|
    ensures Window(db, friends, f, a)[j] == Edge(Cursor.ToCursor(a + j + 1), GetCharacter(db, friends[a + j]))
  {
    var all := AllEdges(db, friends);
    SliceWindow(all, a, f + a);
    assert Window(db, friends, f, a)[j] == all[a + j];
    AllEdgesAt(db, friends, a + j);
  }

  /**
   * For a page size f >= 0 and offset a, the edges are the window [a, a + f)
   * of the friends list in its own order: there are
   * min(f, max(0, |friends| - a)) of them and edge j carries the cursor of
   * position a + j + 1 and the character friends[a + j].
   */
  lemma WindowEdges(db: Db, friends: seq<string>, f: int, a: nat)
    requires f >= 0
    ensures |Window(db, friends, f, a)| == Min(f, Max(0, |friends| - a))
    ensures forall j :: 0 <= j < |Window(db, friends, f, a)| ==>
      Window(db, friends, f, a)[j] == Edge(Cursor.ToCursor(a + j + 1), GetCharacter(db, friends[a + j]))
  {
    WindowLength(db, friends, f, a);
    forall j | 0 <= j < |Window(db, friends, f, a)|
      ensures Window(db, friends, f, a)[j] == Edge(Cursor.ToCursor(a + j + 1), GetCharacter(db, friends[a + j]))
    {
      WindowEdge(db, friends, f, a, j);
    }
  }

  /** The connection for page size f starting at offset a. */
  function Page(db: Db, friends: seq<string>, f: int, a: nat): (c: Connection)
  {
    var edges := Window(db, friends, f, a);
    Connection(
      edges,
      Nodes(edges),
      PageInfo(
        if |edges| > 0 then Some(edges[0].cursor) else None,
        f + a < |friends|,
        if |edges| > 0 then Some(edges[|edges| - 1].cursor) else None),
      |friends|)
  }

  /**
   * The connection when the offset is NaN: slice(NaN, NaN) takes nothing,
   * and first + NaN < friends.length is false.
   */
  function NaNPage(friends: seq<string>): (c: Connection)
  {
    Connection([], [], PageInfo(None, false, None), |friends|)
  }

  /** friendsConnection(friends, first, after). */
  function FriendsConnection(db: Db, friends: seq<string>, first: Option<int>, after: Option<string>): (r: Connection)
    ensures r.totalCount == |friends|
    ensures StartOffset(after).None? ==>
      r.edges == [] && r.friends == [] && r.pageInfo == PageInfo(None, false, None)
  {
    match StartOffset(after)
    case None => NaNPage(friends)
    case Some(a) => Page(db, friends, PageSize(friends, first), a)
  }

  /**
   * Everything a page of size f at offset a promises: its edges are the
   * window [a, a + f) (see WindowEdges for what each edge holds), its friends
   * are their nodes, startCursor and endCursor are the cursors of the first
   * and last edge and null exactly when the page is empty, hasNextPage holds
   * iff f + a < |friends|, and totalCount is the length of the whole list.
   */
  lemma PageShape(db: Db, friends: seq<string>, f: int, a: nat)
    ensures var c, w := Page(db, friends, f, a), Window(db, friends, f, a);
      && c.edges == w
      && c.friends == Nodes(w)
      && (c.pageInfo.hasNextPage <==> f + a < |friends|)
      && c.pageInfo.startCursor == (if |w| > 0 then Some(w[0].cursor) else None)
      && c.pageInfo.endCursor == (if |w| > 0 then Some(w[|w| - 1].cursor) else None)
      && c.totalCount == |friends|
  {
  }

  /**
   * The cursors at the ends of a non-empty page: startCursor is the cursor
   * of position a + 1 and endCursor that of position a + |edges|.
   */
  lemma PageEndCursors(db: Db, friends: seq<string>, f: int, a: nat)
    requires f >= 0 && |Window(db, friends, f, a)| > 0
    ensures Page(db, friends, f, a).pageInfo.startCursor == Some(Cursor.ToCursor(a + 1))
    ensures Page(db, friends, f, a).pageInfo.endCursor == Some(Cursor.ToCursor(a + |Window(db, friends, f, a)|))
  {
    var w := Window(db, friends, f, a);
    var p := a + |w|;
    PageShape(db, friends, f, a);
    WindowCursor(db, friends, f, a, 0, a + 1);
    WindowCursor(db, friends, f, a, |w| - 1, p);
    assert Page(db, friends, f, a).pageInfo.endCursor == Some(Cursor.ToCursor(p));
  }

  /** Edge j of the window carries the cursor of position p = a + j + 1. */
  lemma WindowCursor(db: Db, friends: seq<string>, f: int, a: nat, j: nat, p: nat)
    requires f >= 0 && j < |Window(db, friends, f, a)| && p == a + j + 1
    ensures Window(db, friends, f, a)[j].cursor == Cursor.ToCursor(p)
  {
    WindowEdge(db, friends, f, a, j);
  }

  /** Edge j of the window is the edge of position p = a + j + 1: its cursor and the friend at index p - 1. */
  lemma WindowAt(db: Db, friends: seq<string>, f: int, a: nat, j: nat, p: nat)
    requires f >= 0 && j < |Window(db, friends, f, a)| && p == a + j + 1
    ensures p <= |friends|
    ensures Window(db, friends, f, a)[j] == Edge(Cursor.ToCursor(p), GetCharacter(db, friends[p - 1]))
  {
    WindowEdge(db, friends, f, a, j);
  }

  /**
   * friendsConnection is the page of size first || |friends| at the offset
   * the after cursor names, whenever that cursor can be read, and the empty
   * page without a next page otherwise.
   */
  lemma ConnectionIsPage(db: Db, friends: seq<string>, first: Option<int>, after: Option<string>)
    ensures StartOffset(after).Some? ==>
      FriendsConnection(db, friends, first, after)
        == Page(db, friends, PageSize(friends, first), StartOffset(after).value)
    ensures StartOffset(after).None? ==> FriendsConnection(db, friends, first, after) == NaNPage(friends)
  {
  }

  /** The window of size |friends| at offset 0 is every edge. */
  lemma WindowOfAll(db: Db, friends: seq<string>)
    ensures Window(db, friends, |friends|, 0) == AllEdges(db, friends)
  {
    var all := AllEdges(db, friends);
    SliceWindow(all, 0, |friends|);
    assert JsSlice(all, 0, |friends|) == all;
  }

  /** The nodes of all the edges are the friends field. */
  lemma NodesOfAll(db: Db, friends: seq<string>)
    ensures Nodes(AllEdges(db, friends)) == GetFriends(db, friends)
  {
    var n, g := Nodes(AllEdges(db, friends)), GetFriends(db, friends);
    assert |n| == |g|;
    forall i | 0 <= i < |n| ensures n[i] == g[i] {
      AllEdgesAt(db, friends, i);
    }
  }

  /**
   * With neither argument (or with first = 0) the connection lists every
   * friend, in order, and says there is no next page.
   */
  lemma WholeList(db: Db, friends: seq<string>, first: Option<int>)
    requires first.None? || first == Some(0)
    ensures var c := FriendsConnection(db, friends, first, None);
      && c.edges == AllEdges(db, friends)
      && c.friends == GetFriends(db, friends)
      && !c.pageInfo.hasNextPage
      && c.totalCount == |friends|
  {
    ConnectionIsPage(db, friends, first, None);
    assert FriendsConnection(db, friends, first, None) == Page(db, friends, |friends|, 0);
    WindowOfAll(db, friends);
    NodesOfAll(db, friends);
  }

  /**
   * There is a next page exactly when the page holds edges and stops before
   * the last friend: hasNextPage never claims more after the end of the
   * list, nor after an empty page.
   */
  lemma NextPageIffMore(db: Db, friends: seq<string>, first: Option<int>, after: Option<string>)
    requires first.None? || first.value >= 0
    ensures var c := FriendsConnection(db, friends, first, after);
      (c.pageInfo.hasNextPage <==>
        |c.edges| > 0 && StartOffset(after).Some? && StartOffset(after).value + |c.edges| < |friends|)
  {
    ConnectionIsPage(db, friends, first, after);
    if StartOffset(after).Some? {
      var a, f := StartOffset(after).value, PageSize(friends, first);
      PageShape(db, friends, f, a);
      WindowLength(db, friends, f, a);
    }
  }

  /**
   * Cursors are positions: the cursor of edge j reads back as after + j + 1,
   * so passing it as the next `after` starts the next page right after that
   * edge.
   */
  lemma EdgeCursorResumes(db: Db, friends: seq<string>, first: Option<int>, after: Option<string>, j: nat)
    requires first.None? || first.value >= 0
    requires j < |FriendsConnection(db, friends, first, after).edges|
    ensures StartOffset(after).Some?
    ensures StartOffset(Some(FriendsConnection(db, friends, first, after).edges[j].cursor))
      == Some(StartOffset(after).value + j + 1)
  {
    ConnectionIsPage(db, friends, first, after);
    var a, f := StartOffset(after).value, PageSize(friends, first);
    var c := Page(db, friends, f, a);
    WindowEdges(db, friends, f, a);
    assert c.edges[j].cursor == Cursor.ToCursor(a + j + 1);
    StartOffsetOfCursor(a + j + 1);
  }

  lemma PairSeq<T>(s: seq<T>)
    requires |s| == 2
    ensures s == [s[0], s[1]]
  {
  }

  /** A page of size 2 at an offset a with a + 2 <= |friends| holds the friends at a and a + 1. */
  lemma PageOfTwo(db: Db, friends: seq<string>, a: nat)
    requires a + 2 <= |friends|
    ensures var c := Page(db, friends, 2, a);
      && c.edges == [Edge(Cursor.ToCursor(a + 1), GetCharacter(db, friends[a])), Edge(Cursor.ToCursor(a + 2), GetCharacter(db, friends[a + 1]))]
      && c.friends == [GetCharacter(db, friends[a]), GetCharacter(db, friends[a + 1])]
      && c.pageInfo == PageInfo(Some(Cursor.ToCursor(a + 1)), a + 2 < |friends|, Some(Cursor.ToCursor(a + 2)))
      && c.totalCount == |friends|
  {
    var w := Window(db, friends, 2, a);
    var p1, p2 := a + 1, a + 2;
    WindowLength(db, friends, 2, a);
    PageShape(db, friends, 2, a);
    WindowAt(db, friends, 2, a, 0, p1);
    WindowAt(db, friends, 2, a, 1, p2);
    PairSeq(w);
    PairSeq(Nodes(w));
  }

  /**
   * The worked example: four friends, first = 2, after = the cursor of
   * position 1 gives the edges of the friends at indices 1 and 2 (cursors 2
   * and 3), a total of 4, and a next page because 2 + 1 < 4.
   */
  lemma FourFriendsExample(db: Db, friends: seq<string>)
    requires |friends| == 4
    ensures var c := FriendsConnection(db, friends, Some(2), Some(Cursor.ToCursor(1)));
      && c.edges == [Edge(Cursor.ToCursor(2), GetCharacter(db, friends[1])), Edge(Cursor.ToCursor(3), GetCharacter(db, friends[2]))]
      && c.friends == [GetCharacter(db, friends[1]), GetCharacter(db, friends[2])]
      && c.pageInfo == PageInfo(Some(Cursor.ToCursor(2)), true, Some(Cursor.ToCursor(3)))
      && c.totalCount == 4
  {
    StartOffsetOfCursor(1);
    ConnectionIsPage(db, friends, Some(2), Some(Cursor.ToCursor(1)));
    PageOfTwo(db, friends, 1);
  }
}
