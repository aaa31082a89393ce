/**
 * The comment tree of a forum thread flattened into rows by
 * `parse_children` in `lab2/data_exploration.py`.
 *
 * A child of the listing is a `kind` tag and a `data` record. Only `t1`
 * children (comments) produce rows; any other child, and everything below
 * it, is passed over. A comment's `replies` field holds a nested listing
 * only when it is a record; otherwise (the thread data uses an empty
 * string) the comment has no replies.
 */
module Comments {
  import opened Wrappers

  /**
   * A child of a listing. `id` and `depth` are None when the record lacks
   * the key; `replies` is Some exactly when the `replies` field is a
   * record, and then holds its listing.
   */
  datatype Node = Node(kind: string, id: Option<string>, depth: Option<int>, replies: Option<Listing>)

  /** A listing record: `data.children`, empty when either key is missing. */
  datatype Listing = Listing(children: seq<Node>)

  /** A row of the comments table: the thread, the comment, its parent and its depth. */
  datatype Comment = Comment(postId: string, commentId: Option<string>, parentId: Option<string>, depth: int)

  predicate IsComment(n: Node) { n.kind == "t1" }

  /** `d.get("depth", 0)`. */
  function DepthOf(n: Node): int {
    if n.depth.Some? then n.depth.value else 0
  }

  /** The row `parse_children` appends for comment `n` under `parentId`. */
  function RowOf(n: Node, parentId: Option<string>, postId: string): Comment {
    Comment(postId, n.id, parentId, DepthOf(n))
  }

  /**
   * `parse_children(children, parent_id)` from the `k`-th child on: the
   * rows of the comments among the children, each followed by the rows of
   * its replies, whose parent is the comment's own id.
   */
  function FlattenFrom(l: Listing, k: nat, parentId: Option<string>, postId: string): (out: seq<Comment>)
    requires k <= |l.children|
    ensures forall i :: 0 <= i < |out| ==> out[i].postId == postId
    ensures k < |l.children| && IsComment(l.children[k]) ==> out != [] && out[0] == RowOf(l.children[k], parentId, postId)
    ensures k == |l.children| ==> out == []
    decreases l, |l.children| - k
  {
    if k == |l.children| then []
    else RowsOf(l.children[k], parentId, postId) + FlattenFrom(l, k + 1, parentId, postId)
  }

  /** The rows one child adds: none unless it is a comment, else its own row and then its replies' rows. */
  function RowsOf(ch: Node, parentId: Option<string>, postId: string): (out: seq<Comment>)
    ensures forall i :: 0 <= i < |out| ==> out[i].postId == postId
    ensures IsComment(ch) <==> out != []
    ensures IsComment(ch) ==> out[0] == RowOf(ch, parentId, postId)
    decreases ch
  {
    if !IsComment(ch) then []
    else [RowOf(ch, parentId, postId)] + (if ch.replies.Some? then FlattenFrom(ch.replies.value, 0, ch.id, postId) else [])
  }

  function Flatten(l: Listing, parentId: Option<string>, postId: string): (out: seq<Comment>)
    ensures forall i :: 0 <= i < |out| ==> out[i].postId == postId
    ensures l.children != [] && IsComment(l.children[0]) ==> out != [] && out[0] == RowOf(l.children[0], parentId, postId)
  {
    FlattenFrom(l, 0, parentId, postId)
  }

  /**
   * The top-level call `parse_children(data[1]["data"]["children"], post["id"])`:
   * the post's id is the parent of the top-level comments, and so of every
   * row that does not reply to an earlier one.
   */
  function Thread(l: Listing, postId: string): (out: seq<Comment>)
    ensures |out| == CountComments(l.children)
    ensures forall i :: 0 <= i < |out| ==> out[i].postId == postId
    ensures ParentsPrecede(out, Some(postId))
    ensures l.children != [] && IsComment(l.children[0]) ==> out[0].parentId == Some(postId)
  {
    FlattenCountAll(l, Some(postId), postId);
    FlattenParentsPrecede(l, 0, Some(postId), postId);
    Flatten(l, Some(postId), postId)
  }

  /** The comments among `ns`, counted down through the replies of comments only. */
  function CountComments(ns: seq<Node>): nat
    decreases ns
  {
    if ns == [] then 0 else CountNode(ns[0]) + CountComments(ns[1..])
  }

  /** A comment and the comments below it; nothing for any other child. */
  function CountNode(n: Node): nat
    decreases n
  {
    if !IsComment(n) then 0
    else 1 + (if n.replies.Some? then CountComments(n.replies.value.children) else 0)
  }

  /** A thread gives one row per comment reachable through comments. */
  lemma FlattenCountAll(l: Listing, parentId: Option<string>, postId: string)
    ensures |Flatten(l, parentId, postId)| == CountComments(l.children)
  {
    FlattenCount(l, 0, parentId, postId);
    assert l.children[0..] == l.children;
  }

  lemma {:induction false} FlattenCount(l: Listing, k: nat, parentId: Option<string>, postId: string)
    requires k <= |l.children|
    ensures |FlattenFrom(l, k, parentId, postId)| == CountComments(l.children[k..])
    decreases l, |l.children| - k
  {
    if k < |l.children| {
      assert l.children[k..][1..] == l.children[k + 1..];
      RowsCount(l.children[k], parentId, postId);
      FlattenCount(l, k + 1, parentId, postId);
    }
  }

  lemma {:induction false} RowsCount(ch: Node, parentId: Option<string>, postId: string)
    ensures |RowsOf(ch, parentId, postId)| == CountNode(ch)
    decreases ch
  {
    if IsComment(ch) && ch.replies.Some? {
      FlattenCount(ch.replies.value, 0, ch.id, postId);
      assert ch.replies.value.children[0..] == ch.replies.value.children;
    }
  }

  /**
   * The rows a comment adds: its own row, then exactly the rows of its
   * replies' listing (none when `replies` is not a record), one per
   * comment below it, each under the comment or under a reply listed
   * earlier.
   */
  lemma RepliesRows(ch: Node, parentId: Option<string>, postId: string)
    requires IsComment(ch)
    ensures var out := RowsOf(ch, parentId, postId);
      var replies := if ch.replies.Some? then ch.replies.value.children else [];
      && out[0] == RowOf(ch, parentId, postId)
      && out[1..] == Flatten(Listing(replies), ch.id, postId)
      && |out| == 1 + CountComments(replies)
      && ParentsPrecede(out[1..], ch.id)
  {
    var replies := if ch.replies.Some? then ch.replies.value.children else [];
    RowsCount(ch, parentId, postId);
    FlattenParentsPrecede(Listing(replies), 0, ch.id, postId);
  }

  /** The loop over a listing handles its children one after the other. */
  lemma {:induction false} FlattenAppend(a: seq<Node>, b: seq<Node>, k: nat, parentId: Option<string>, postId: string)
    requires k <= |a|
    ensures FlattenFrom(Listing(a + b), k, parentId, postId)
      == FlattenFrom(Listing(a), k, parentId, postId) + Flatten(Listing(b), parentId, postId)
    decreases |a| - k
  {
    if k == |a| {
      FlattenShift(a, b, 0, parentId, postId);
    } else {
      var x := RowsOf(a[k], parentId, postId);
      assert (a + b)[k] == a[k];
      FlattenStep(Listing(a + b), k, parentId, postId);
      FlattenStep(Listing(a), k, parentId, postId);
      FlattenAppend(a, b, k + 1, parentId, postId);
      Associate(x, FlattenFrom(Listing(a), k + 1, parentId, postId), Flatten(Listing(b), parentId, postId));
    }
  }

  /** One pass of the loop over the children. */
  lemma FlattenStep(l: Listing, k: nat, parentId: Option<string>, postId: string)
    requires k < |l.children|
    ensures FlattenFrom(l, k, parentId, postId) == RowsOf(l.children[k], parentId, postId) + FlattenFrom(l, k + 1, parentId, postId)
  {
  }

  lemma Associate<T>(x: seq<T>, y: seq<T>, z: seq<T>)
    ensures x + (y + z) == (x + y) + z
  {
  }

  lemma {:induction false} FlattenShift(a: seq<Node>, b: seq<Node>, k: nat, parentId: Option<string>, postId: string)
    requires k <= |b|
    ensures FlattenFrom(Listing(a + b), |a| + k, parentId, postId) == FlattenFrom(Listing(b), k, parentId, postId)
    decreases |b| - k
  {
    if k < |b| {
      assert (a + b)[|a| + k] == b[k];
      FlattenShift(a, b, k + 1, parentId, postId);
    }
  }

  /** A child that is not a comment contributes no row, whatever lies below it. */
  lemma NonCommentsVanish(ch: Node, parentId: Option<string>, postId: string)
    requires !IsComment(ch)
    ensures Flatten(Listing([ch]), parentId, postId) == []
  {
  }

  /**
   * Every row's parent is the listing's parent or a comment whose row comes
   * earlier: a comment's row always precedes the rows of its replies.
   */
  predicate ParentsPrecede(out: seq<Comment>, parentId: Option<string>) {
    forall i :: 0 <= i < |out| ==> out[i].parentId == parentId || EarlierComment(out, i)
  }

  /** Some row before row `i` is the comment row `i` replies to. */
  predicate EarlierComment(out: seq<Comment>, i: int)
    requires 0 <= i < |out|
  {
    exists j :: 0 <= j < i && out[j].commentId == out[i].parentId
  }

  lemma {:induction false} FlattenParentsPrecede(l: Listing, k: nat, parentId: Option<string>, postId: string)
    requires k <= |l.children|
    ensures ParentsPrecede(FlattenFrom(l, k, parentId, postId), parentId)
    decreases l, |l.children| - k
  {
    if k < |l.children| {
      FlattenParentsPrecede(l, k + 1, parentId, postId);
      RowsParentsPrecede(l.children[k], parentId, postId);
      ShiftPrecede(RowsOf(l.children[k], parentId, postId), FlattenFrom(l, k + 1, parentId, postId), parentId);
    }
  }

  lemma {:induction false} RowsParentsPrecede(ch: Node, parentId: Option<string>, postId: string)
    ensures ParentsPrecede(RowsOf(ch, parentId, postId), parentId)
    decreases ch
  {
    if IsComment(ch) {
      var sub := if ch.replies.Some? then FlattenFrom(ch.replies.value, 0, ch.id, postId) else [];
      if ch.replies.Some? {
        FlattenParentsPrecede(ch.replies.value, 0, ch.id, postId);
      }
      HeadPrecedes(RowOf(ch, parentId, postId), sub, parentId);
    }
  }

  /** A comment row followed by the rows of its replies. */
  lemma HeadPrecedes(row: Comment, sub: seq<Comment>, parentId: Option<string>)
    requires row.parentId == parentId
    requires ParentsPrecede(sub, row.commentId)
    ensures ParentsPrecede([row] + sub, parentId)
  {
    var out := [row] + sub;
    forall i | 1 <= i < |out| && out[i].parentId != parentId
      ensures EarlierComment(out, i)
    {
      assert out[i] == sub[i - 1];
      if sub[i - 1].parentId == row.commentId {
        assert out[0].commentId == out[i].parentId;
      } else {
        var j :| 0 <= j < i - 1 && sub[j].commentId == sub[i - 1].parentId;
        assert out[j + 1] == sub[j];
      }
    }
  }

  /** Rows that precede properly keep doing so after rows that precede properly. */
  lemma ShiftPrecede(a: seq<Comment>, b: seq<Comment>, parentId: Option<string>)
    requires ParentsPrecede(a, parentId) && ParentsPrecede(b, parentId)
    ensures ParentsPrecede(a + b, parentId)
  {
    var out := a + b;
    forall i | 0 <= i < |out| && out[i].parentId != parentId
      ensures EarlierComment(out, i)
    {
      if i < |a| {
        assert out[i] == a[i];
        var j :| 0 <= j < i && a[j].commentId == a[i].parentId;
        assert out[j] == a[j];
      } else {
        assert out[i] == b[i - |a|];
        var j :| 0 <= j < i - |a| && b[j].commentId == b[i - |a|].parentId;
        assert out[j + |a|] == b[j];
      }
    }
  }
}
