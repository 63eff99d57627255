/** An example session, replayed on the model: a folder "Work" is added
    under the root, a bookmark is added into it,
    the bookmark is moved to the front of the root folder (the folder moves
    to position 1), and the folder is removed while the bookmark stays. */
module BookmarkScenario {
  import opened Wrappers
  import opened BookmarkNode
  import opened BookmarkTree
  import opened BookmarkManager
  import BookmarkLaws

  /** Adding "Work" to an empty collection gives it id 1, as the only child
      of the root. */
  lemma AddWork()
    ensures AddFolder(Empty("Bookmarks"), "Work", RootId, true)
      == Outcome(Manager(Folder(0, "Bookmarks", [Folder(1, "Work", [])]), 2), Success(Folder(1, "Work", [])))
  {
    assert Insert([], 0, Folder(1, "Work", [])) == [Folder(1, "Work", [])];
  }

  /** Adding a bookmark into "Work" with the default position makes it the
      folder's first child, with id 2. */
  lemma AddSite(url: string)
    requires Valid(Manager(Folder(0, "Bookmarks", [Folder(1, "Work", [])]), 2))
    ensures AddBookmark(Manager(Folder(0, "Bookmarks", [Folder(1, "Work", [])]), 2), "Site", url, Some(1), -1, true)
      == Outcome(Manager(Folder(0, "Bookmarks", [Folder(1, "Work", [Bookmark(2, "Site", url)])]), 3),
                 Success(Bookmark(2, "Site", url)))
  {
    var t := Folder(0, "Bookmarks", [Folder(1, "Work", [])]);
    assert [0] + [] == [0];
    assert Locate(t, 1) == Some([0]);
    assert Insert([], 0, Bookmark(2, "Site", url)) == [Bookmark(2, "Site", url)];
    assert AddChild(t, [0], Bookmark(2, "Site", url), 0)
        == Folder(0, "Bookmarks", [Folder(1, "Work", [Bookmark(2, "Site", url)])]);
  }

  /** Moving the bookmark to position 0 of the root puts it before "Work". */
  lemma MoveSite(url: string)
    requires Valid(Manager(Folder(0, "Bookmarks", [Folder(1, "Work", [Bookmark(2, "Site", url)])]), 3))
    ensures SetBookmarkPosition(Manager(Folder(0, "Bookmarks", [Folder(1, "Work", [Bookmark(2, "Site", url)])]), 3),
                                2, 0, 0, true)
      == Outcome(Manager(Folder(0, "Bookmarks", [Bookmark(2, "Site", url), Folder(1, "Work", [])]), 3),
                 Success(Bookmark(2, "Site", url)))
  {
    var t := Folder(0, "Bookmarks", [Folder(1, "Work", [Bookmark(2, "Site", url)])]);
    var w := t.children[0];
    assert [0] + [] == [0];
    assert [0] + [0] == [0, 0];
    assert Locate(w.children[0], 2) == Some([]);
    assert LocateAmong(w.children, 2, 0) == Some([0]);
    assert Locate(w, 2) == Some([0]);
    assert LocateAmong(t.children, 2, 0) == Some([0, 0]);
    assert Locate(t, 2) == Some([0, 0]);
    assert Without([Bookmark(2, "Site", url)], 0) == [];
    assert DetachChild(t, [0, 0]) == Folder(0, "Bookmarks", [Folder(1, "Work", [])]);
    assert Insert([Folder(1, "Work", [])], 0, Bookmark(2, "Site", url))
        == [Bookmark(2, "Site", url), Folder(1, "Work", [])];
  }

  /** Removing "Work" leaves the bookmark as the root's only child. */
  lemma RemoveWork(url: string)
    requires Valid(Manager(Folder(0, "Bookmarks", [Bookmark(2, "Site", url), Folder(1, "Work", [])]), 3))
    ensures RemoveFolder(Manager(Folder(0, "Bookmarks", [Bookmark(2, "Site", url), Folder(1, "Work", [])]), 3), 1, true)
      == Outcome(Manager(Folder(0, "Bookmarks", [Bookmark(2, "Site", url)]), 3), Success(Folder(1, "Work", [])))
  {
    var t := Folder(0, "Bookmarks", [Bookmark(2, "Site", url), Folder(1, "Work", [])]);
    assert [1] + [] == [1];
    assert Locate(t.children[0], 1) == None;
    assert Locate(t.children[1], 1) == Some([]);
    assert LocateAmong(t.children, 1, 1) == Some([1]);
    assert LocateAmong(t.children, 1, 0) == Some([1]);
    assert Locate(t, 1) == Some([1]);
    assert Without([Bookmark(2, "Site", url), Folder(1, "Work", [])], 1) == [Bookmark(2, "Site", url)];
  }

  /** The whole example: each step succeeds with the tree shown, and the URL
      is bookmarked after the add and still after the folder is removed. */
  lemma WorkScenario(url: string)
    ensures var a := AddFolder(Empty("Bookmarks"), "Work", RootId, true);
      var b := AddBookmark(a.state, "Site", url, Some(1), -1, true);
      var c := SetBookmarkPosition(b.state, 2, RootId, 0, true);
      var d := RemoveFolder(c.state, 1, true);
      && a.result == Success(Folder(1, "Work", []))
      && a.state.root.children == [Folder(1, "Work", [])]
      && b.result == Success(Bookmark(2, "Site", url))
      && b.state.root.children == [Folder(1, "Work", [Bookmark(2, "Site", url)])]
      && IsBookmarked(b.state, url)
      && c.result == Success(Bookmark(2, "Site", url))
      && c.state.root.children == [Bookmark(2, "Site", url), Folder(1, "Work", [])]
      && d.result == Success(Folder(1, "Work", []))
      && d.state.root.children == [Bookmark(2, "Site", url)]
      && IsBookmarked(d.state, url)
  {
    var a := AddFolder(Empty("Bookmarks"), "Work", RootId, true);
    AddWork();
    var b := AddBookmark(a.state, "Site", url, Some(1), -1, true);
    AddSite(url);
    BookmarkLaws.BookmarkedAfterAdd(a.state, "Site", url, Some(1), -1);
    var c := SetBookmarkPosition(b.state, 2, RootId, 0, true);
    MoveSite(url);
    var d := RemoveFolder(c.state, 1, true);
    RemoveWork(url);
    BookmarkLaws.BookmarkedAfterMove(b.state, 2, RootId, 0);
    BookmarkLaws.BookmarkedAfterRemoveFolder(c.state, 1);
    assert Entries(Folder(1, "Work", [])) == multiset{EntryOf(Folder(1, "Work", []))};
    BookmarkLaws.UrlInOne(EntryOf(Folder(1, "Work", [])), url);
  }
}
