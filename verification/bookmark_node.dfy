/** The entities of the bookmark hierarchy, and the flat view of a tree as
    the rows of the bookmark table: one row per node, with a folder listing
    its children by id in sibling order. */
module BookmarkNode {
  import Multisets

  /** A node of the bookmark hierarchy: a folder that owns an ordered
      sequence of children, or a bookmark of a URL. A node's position among
      its siblings is its index in the parent's `children`, so the positions
      of a folder's children are always 0..n-1, without gaps or repeats.
      URLs are opaque strings. */
  datatype Node =
    | Folder(id: int, name: string, children: seq<Node>)
    | Bookmark(id: int, name: string, url: string)

  /** The fields of one node, as they appear in its row of the bookmark
      table; a folder's row lists the ids of its children in order. */
  datatype Entry =
    | FolderEntry(id: int, name: string, childIds: seq<int>)
    | BookmarkEntry(id: int, name: string, url: string)

  /** The ids of `cs`, in sibling order. */
  function ChildIds(cs: seq<Node>): seq<int>
  {
    seq(|cs|, i requires 0 <= i < |cs| => cs[i].id)
  }

  /** The row of `n` alone, without its descendants. */
  function EntryOf(n: Node): Entry
  {
    match n
    case Folder(id, name, cs) => FolderEntry(id, name, ChildIds(cs))
    case Bookmark(id, name, url) => BookmarkEntry(id, name, url)
  }

  /** The rows of every node of the tree rooted at `t`, `t` included. */
  function Entries(t: Node): multiset<Entry>
  {
    multiset{EntryOf(t)} + (if t.Folder? then ForestEntries(t.children) else multiset{})
  }

  /** The rows of every node below the sibling sequence `cs`. */
  function ForestEntries(cs: seq<Node>): multiset<Entry>
  {
    if cs == [] then multiset{} else Entries(cs[0]) + ForestEntries(cs[1..])
  }

  /** The ids of every node of the tree rooted at `t`, with repetitions. */
  function Ids(t: Node): multiset<int>
  {
    multiset{t.id} + (if t.Folder? then ForestIds(t.children) else multiset{})
  }

  /** The ids of every node below the sibling sequence `cs`. */
  function ForestIds(cs: seq<Node>): multiset<int>
  {
    if cs == [] then multiset{} else Ids(cs[0]) + ForestIds(cs[1..])
  }

  /** No id occurs twice. */
  ghost predicate Distinct(ids: multiset<int>)
  {
    forall x :: ids[x] <= 1
  }

  /** Some row of `es` is a bookmark of `url`. */
  ghost predicate UrlIn(es: multiset<Entry>, url: string)
  {
    exists e :: e in es && e.BookmarkEntry? && e.url == url
  }

  /** Some row of `es` is a folder with id `id`. */
  ghost predicate FolderIn(es: multiset<Entry>, id: int)
  {
    exists e :: e in es && e.FolderEntry? && e.id == id
  }

  /** `s` with `x` placed at index `k`; the elements before index `k` keep
      their index, those from `k` on move up by one. */
  function Insert<T>(s: seq<T>, k: nat, x: T): seq<T>
    requires k <= |s|
  {
    s[..k] + [x] + s[k..]
  }

  /** `s` without its element at index `k`; the elements after it move down
      by one. */
  function Without<T>(s: seq<T>, k: nat): seq<T>
    requires k < |s|
  {
    s[..k] + s[k + 1..]
  }

  /** Inserting at `k` and then taking index `k` out again gives back the
      original sequence, and the inserted element sits at index `k`. */
  lemma InsertThenWithout<T>(s: seq<T>, k: nat, x: T)
    requires k <= |s|
    ensures |Insert(s, k, x)| == |s| + 1
    ensures Insert(s, k, x)[k] == x
    ensures Without(Insert(s, k, x), k) == s
  {
    var t := Insert(s, k, x);
    assert t[..k] == s[..k];
    assert t[k + 1..] == s[k..];
  }

  /** Inserting at the end appends. */
  lemma InsertAtEnd<T>(s: seq<T>, x: T)
    ensures Insert(s, |s|, x) == s + [x]
  {
    assert s[..|s|] == s;
  }

  /** Taking index `k` out and putting the same element back at `k` gives
      back the original sequence. */
  lemma WithoutThenInsert<T>(s: seq<T>, k: nat)
    requires k < |s|
    ensures Insert(Without(s, k), k, s[k]) == s
  {
    var w := Without(s, k);
    assert w[..k] == s[..k];
    assert w[k..] == s[k + 1..];
  }

  lemma {:induction false} ForestConcat(a: seq<Node>, b: seq<Node>)
    ensures ForestEntries(a + b) == ForestEntries(a) + ForestEntries(b)
    ensures ForestIds(a + b) == ForestIds(a) + ForestIds(b)
  {
    if a == [] {
      assert a + b == b;
    } else {
      assert (a + b)[0] == a[0];
      assert (a + b)[1..] == a[1..] + b;
      ForestConcat(a[1..], b);
    }
  }

  /** The rows below a sibling sequence are those before index `i`, those of
      the subtree at `i`, and those after it. */
  lemma {:induction false} ForestSplit(cs: seq<Node>, i: nat)
    requires i < |cs|
    ensures ForestEntries(cs) == ForestEntries(cs[..i]) + Entries(cs[i]) + ForestEntries(cs[i + 1..])
    ensures ForestIds(cs) == ForestIds(cs[..i]) + Ids(cs[i]) + ForestIds(cs[i + 1..])
  {
    var tail := [cs[i]] + cs[i + 1..];
    assert cs == cs[..i] + tail;
    ForestConcat(cs[..i], tail);
    assert tail[0] == cs[i];
    assert tail[1..] == cs[i + 1..];
    assert ForestEntries(tail) == Entries(cs[i]) + ForestEntries(cs[i + 1..]);
    assert ForestIds(tail) == Ids(cs[i]) + ForestIds(cs[i + 1..]);
  }

  /** Two different subtrees of one sibling sequence contribute their ids
      separately: an id occurs below the sequence at least as often as in
      the two subtrees together. */
  lemma {:induction false} ForestTwo(cs: seq<Node>, i: nat, j: nat, z: int)
    requires i < j < |cs|
    ensures Ids(cs[i])[z] + Ids(cs[j])[z] <= ForestIds(cs)[z]
  {
    ForestSplit(cs, j);
    ForestSplit(cs[..j], i);
    assert cs[..j][i] == cs[i];
    assert ForestIds(cs)[z] == ForestIds(cs[..j])[z] + Ids(cs[j])[z] + ForestIds(cs[j + 1..])[z];
    assert ForestIds(cs[..j])[z]
        == ForestIds(cs[..j][..i])[z] + Ids(cs[i])[z] + ForestIds(cs[..j][i + 1..])[z];
  }

  /** Inserting a subtree into a sibling sequence adds exactly its rows and
      ids. */
  lemma {:induction false} ForestInsert(cs: seq<Node>, k: nat, x: Node)
    requires k <= |cs|
    ensures ForestEntries(Insert(cs, k, x)) == ForestEntries(cs) + Entries(x)
    ensures ForestIds(Insert(cs, k, x)) == ForestIds(cs) + Ids(x)
  {
    var a, b := cs[..k], cs[k..];
    var s := Insert(cs, k, x);
    assert cs == a + b;
    assert s == (a + [x]) + b;
    ForestConcat(a + [x], b);
    ForestConcat(a, [x]);
    ForestConcat(a, b);
    ForestSingle(x);
    Multisets.Insertion(ForestEntries(s), ForestEntries(cs), ForestEntries(a), ForestEntries(b), Entries(x));
    Multisets.Insertion(ForestIds(s), ForestIds(cs), ForestIds(a), ForestIds(b), Ids(x));
  }

  lemma ForestSingle(x: Node)
    ensures ForestEntries([x]) == Entries(x)
    ensures ForestIds([x]) == Ids(x)
  {
    assert [x][1..] == [];
  }

  lemma ChildIdsInsert(cs: seq<Node>, k: nat, x: Node)
    requires k <= |cs|
    ensures ChildIds(Insert(cs, k, x)) == Insert(ChildIds(cs), k, x.id)
  {
    var a, b := ChildIds(Insert(cs, k, x)), Insert(ChildIds(cs), k, x.id);
    assert |a| == |b|;
    forall i | 0 <= i < |a|
      ensures a[i] == b[i]
    {
      if i < k {
      } else if i == k {
      } else {
        assert Insert(cs, k, x)[i] == cs[i - 1];
      }
    }
  }

  /** Taking a subtree out of a sibling sequence removes exactly its rows and
      ids, and takes its id out of the list of child ids. */
  lemma {:induction false} ForestWithout(cs: seq<Node>, k: nat)
    requires k < |cs|
    ensures ForestEntries(Without(cs, k)) + Entries(cs[k]) == ForestEntries(cs)
    ensures ForestIds(Without(cs, k)) + Ids(cs[k]) == ForestIds(cs)
    ensures ChildIds(Without(cs, k)) == Without(ChildIds(cs), k)
  {
    ForestConcat(cs[..k], cs[k + 1..]);
    ForestSplit(cs, k);
    ChildIdsWithout(cs, k);
  }

  lemma ChildIdsWithout(cs: seq<Node>, k: nat)
    requires k < |cs|
    ensures ChildIds(Without(cs, k)) == Without(ChildIds(cs), k)
  {
    var a, b := ChildIds(Without(cs, k)), Without(ChildIds(cs), k);
    assert |a| == |b|;
    forall i | 0 <= i < |a|
      ensures a[i] == b[i]
    {
      if i >= k {
        assert Without(cs, k)[i] == cs[i + 1];
      }
    }
  }

  /** Replacing one subtree of a sibling sequence trades its rows and ids for
      those of the replacement. */
  lemma {:induction false} ForestUpdate(cs: seq<Node>, k: nat, x: Node)
    requires k < |cs|
    ensures ForestEntries(cs[k := x]) + Entries(cs[k]) == ForestEntries(cs) + Entries(x)
    ensures ForestIds(cs[k := x]) + Ids(cs[k]) == ForestIds(cs) + Ids(x)
  {
    var u := cs[k := x];
    ForestSplit(cs, k);
    ForestSplit(u, k);
    assert u[..k] == cs[..k];
    assert u[k + 1..] == cs[k + 1..];
    assert u[k] == x;
    Multisets.Exchange(ForestEntries(u), ForestEntries(cs), ForestEntries(cs[..k]), ForestEntries(cs[k + 1..]),
      Entries(cs[k]), Entries(x));
    Multisets.Exchange(ForestIds(u), ForestIds(cs), ForestIds(cs[..k]), ForestIds(cs[k + 1..]),
      Ids(cs[k]), Ids(x));
  }

  /** Replacing a child by one with the same id keeps the list of child ids. */
  lemma ChildIdsUpdate(cs: seq<Node>, k: nat, x: Node)
    requires k < |cs| && x.id == cs[k].id
    ensures ChildIds(cs[k := x]) == ChildIds(cs)
  {
  }

  /** A row below a sibling sequence is a row of one of its subtrees. */
  lemma {:induction false} ForestMember(cs: seq<Node>, e: Entry) returns (i: nat)
    requires e in ForestEntries(cs)
    ensures i < |cs| && e in Entries(cs[i])
  {
    if e in Entries(cs[0]) {
      i := 0;
    } else {
      var j := ForestMember(cs[1..], e);
      i := j + 1;
      assert cs[1..][j] == cs[i];
    }
  }

  /** Every row of a tree carries the id of a node of that tree. */
  lemma {:induction false} EntryIdIn(t: Node, e: Entry)
    requires e in Entries(t)
    ensures e.id in Ids(t)
    decreases t
  {
    if e != EntryOf(t) {
      var i := ForestMember(t.children, e);
      EntryIdIn(t.children[i], e);
      ForestSplit(t.children, i);
    }
  }
}
