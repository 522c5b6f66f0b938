/**
 * The three example trees of the application, built node by node and
 * numbered from the default start, with the ids each node ends up holding.
 */
module Samples {
  import opened TreeIds

  /** A node without children, numbered from `start`, gets `start` and moves the counter to `start + 1`. */
  method NumberLeaf(name: string, info: seq<InfoEntry>, start: int) returns (leaf: Node, next: int)
    ensures leaf.Valid() && leaf.name == name && leaf.info == info && leaf.children == []
    ensures leaf.id == Some(start)
    ensures next == start + 1
  {
    leaf := new Node(name, info, []);
    assert leaf.PreOrder() == [leaf];
    leaf.PreOrderCovers();
    next := leaf.AssignIds(start);
  }

  /** Builds "Root", holding "Folder 1" (which holds "Subfolder 1-1") and "Folder 2", each with its files; no node has an id yet. */
  method BuildTree1() returns (root: Node, folder1: Node, sub: Node, folder2: Node)
    ensures fresh(root) && fresh(folder1) && fresh(sub) && fresh(folder2)
    ensures root.Valid() && root.repr == {root, folder1, sub, folder2}
    ensures root.PreOrder() == [root, folder1, sub, folder2]
    ensures root.name == "Root" && root.info == [] && root.children == [folder1, folder2]
    ensures folder1.name == "Folder 1" && folder1.children == [sub]
    ensures folder1.info == [InfoEntry("File 1-1", "/destination1-1"), InfoEntry("File 1-2", "/destination1-2")]
    ensures sub.name == "Subfolder 1-1" && sub.children == []
    ensures sub.info == [InfoEntry("File 1-1-1", "/destination1-1-1")]
    ensures folder2.name == "Folder 2" && folder2.children == []
    ensures folder2.info == [InfoEntry("File 2-1", "/destination2-1")]
    ensures root.id == None && folder1.id == None && sub.id == None && folder2.id == None
  {
    sub := new Node("Subfolder 1-1", [InfoEntry("File 1-1-1", "/destination1-1-1")], []);
    folder1 := new Node("Folder 1",
      [InfoEntry("File 1-1", "/destination1-1"), InfoEntry("File 1-2", "/destination1-2")], [sub]);
    folder2 := new Node("Folder 2", [InfoEntry("File 2-1", "/destination2-1")], []);
    root := new Node("Root", [], [folder1, folder2]);
    ThreeLevels(root, folder1, sub, folder2);
  }

  /** Numbering the first example tree from the default start gives its four folders 0, 1, 2 and 3 and returns 4. */
  method NumberTree1() returns (root: Node, folder1: Node, sub: Node, folder2: Node, next: int)
    ensures root.Valid() && root.children == [folder1, folder2] && folder1.children == [sub]
    ensures root.name == "Root" && root.id == Some(0)
    ensures folder1.name == "Folder 1" && folder1.id == Some(1)
    ensures sub.name == "Subfolder 1-1" && sub.id == Some(2)
    ensures folder2.name == "Folder 2" && folder2.id == Some(3)
    ensures next == 4
  {
    root, folder1, sub, folder2 := BuildTree1();
    next := root.AssignIds();
    ThreeLevelsIds(root, folder1, sub, folder2, DefaultStartId);
  }

  /** Builds "Home", holding "Documents" (which holds "Work") and "Pictures", each with its files; no node has an id yet. */
  method BuildTree2() returns (root: Node, documents: Node, work: Node, pictures: Node)
    ensures fresh(root) && fresh(documents) && fresh(work) && fresh(pictures)
    ensures root.Valid() && root.repr == {root, documents, work, pictures}
    ensures root.PreOrder() == [root, documents, work, pictures]
    ensures root.name == "Home" && root.info == [] && root.children == [documents, pictures]
    ensures documents.name == "Documents" && documents.children == [work]
    ensures documents.info == [InfoEntry("Doc1", "/doc1")]
    ensures work.name == "Work" && work.children == [] && work.info == [InfoEntry("Report", "/report")]
    ensures pictures.name == "Pictures" && pictures.children == [] && pictures.info == [InfoEntry("Pic1", "/pic1")]
    ensures root.id == None && documents.id == None && work.id == None && pictures.id == None
  {
    work := new Node("Work", [InfoEntry("Report", "/report")], []);
    documents := new Node("Documents", [InfoEntry("Doc1", "/doc1")], [work]);
    pictures := new Node("Pictures", [InfoEntry("Pic1", "/pic1")], []);
    root := new Node("Home", [], [documents, pictures]);
    ThreeLevels(root, documents, work, pictures);
  }

  /** Numbering the second example tree from the default start gives its four folders 0, 1, 2 and 3 and returns 4. */
  method NumberTree2() returns (root: Node, documents: Node, work: Node, pictures: Node, next: int)
    ensures root.Valid() && root.children == [documents, pictures] && documents.children == [work]
    ensures root.name == "Home" && root.id == Some(0)
    ensures documents.name == "Documents" && documents.id == Some(1)
    ensures work.name == "Work" && work.id == Some(2)
    ensures pictures.name == "Pictures" && pictures.id == Some(3)
    ensures next == 4
  {
    root, documents, work, pictures := BuildTree2();
    next := root.AssignIds();
    ThreeLevelsIds(root, documents, work, pictures, DefaultStartId);
  }

  /** Builds "Media", holding "Music" and "Videos", each with its files; no node has an id yet. */
  method BuildTree3() returns (root: Node, music: Node, videos: Node)
    ensures fresh(root) && fresh(music) && fresh(videos)
    ensures root.Valid() && root.repr == {root, music, videos}
    ensures root.PreOrder() == [root, music, videos]
    ensures root.name == "Media" && root.info == [] && root.children == [music, videos]
    ensures music.name == "Music" && music.children == []
    ensures music.info == [InfoEntry("Song1", "/song1"), InfoEntry("Song2", "/song2")]
    ensures videos.name == "Videos" && videos.children == [] && videos.info == [InfoEntry("Video1", "/video1")]
    ensures root.id == None && music.id == None && videos.id == None
  {
    music := new Node("Music", [InfoEntry("Song1", "/song1"), InfoEntry("Song2", "/song2")], []);
    videos := new Node("Videos", [InfoEntry("Video1", "/video1")], []);
    root := new Node("Media", [], [music, videos]);
    TwoLeaves(root, music, videos);
  }

  /** Numbering the third example tree from the default start gives its three folders 0, 1 and 2 and returns 3. */
  method NumberTree3() returns (root: Node, music: Node, videos: Node, next: int)
    ensures root.Valid() && root.children == [music, videos]
    ensures root.name == "Media" && root.id == Some(0)
    ensures music.name == "Music" && music.id == Some(1)
    ensures videos.name == "Videos" && videos.id == Some(2)
    ensures next == 3
  {
    root, music, videos := BuildTree3();
    next := root.AssignIds();
    TwoLeavesIds(root, music, videos, DefaultStartId);
  }

  /** The pre-order listing and the node set of a root whose first child has one leaf child and whose second child is a leaf. */
  lemma ThreeLevels(root: Node, first: Node, grandchild: Node, second: Node)
    requires root.Valid() && first.Valid() && grandchild.Valid() && second.Valid()
    requires root.children == [first, second]
    requires first.children == [grandchild] && grandchild.children == [] && second.children == []
    ensures root.PreOrder() == [root, first, grandchild, second]
    ensures root.repr == {root, first, grandchild, second}
  {
    assert grandchild.PreOrder() == [grandchild];
    assert first.Prefix(1) == first.Prefix(0) + grandchild.PreOrder();
    assert first.PreOrder() == [first, grandchild];
    assert second.PreOrder() == [second];
    assert root.Prefix(1) == root.Prefix(0) + first.PreOrder();
    assert root.Prefix(2) == root.Prefix(1) + second.PreOrder();
    root.PreOrderCovers();
    root.PreOrderInRepr();
  }

  /** Numbered from `start`, the four nodes of `ThreeLevels` hold `start` .. `start + 3` in pre-order. */
  lemma ThreeLevelsIds(root: Node, first: Node, grandchild: Node, second: Node, start: int)
    requires root.Valid() && root.PreOrder() == [root, first, grandchild, second]
    requires root.NumberedFrom(start)
    ensures root.id == Some(start) && first.id == Some(start + 1)
    ensures grandchild.id == Some(start + 2) && second.id == Some(start + 3)
  {
    var order := root.PreOrder();
    assert order[0] == root && order[1] == first && order[2] == grandchild && order[3] == second;
  }

  /** Numbered from `start`, the three nodes of `TwoLeaves` hold `start` .. `start + 2` in pre-order. */
  lemma TwoLeavesIds(root: Node, first: Node, second: Node, start: int)
    requires root.Valid() && root.PreOrder() == [root, first, second]
    requires root.NumberedFrom(start)
    ensures root.id == Some(start) && first.id == Some(start + 1) && second.id == Some(start + 2)
  {
    var order := root.PreOrder();
    assert order[0] == root && order[1] == first && order[2] == second;
  }

  /** The pre-order listing of a root with two leaf children. */
  lemma TwoLeaves(root: Node, first: Node, second: Node)
    requires root.Valid() && first.Valid() && second.Valid()
    requires root.children == [first, second]
    requires first.children == [] && second.children == []
    ensures root.PreOrder() == [root, first, second]
    ensures root.repr == {root, first, second}
  {
    assert first.PreOrder() == [first];
    assert second.PreOrder() == [second];
    assert root.Prefix(1) == root.Prefix(0) + first.PreOrder();
    assert root.Prefix(2) == root.Prefix(1) + second.PreOrder();
    root.PreOrderCovers();
    root.PreOrderInRepr();
  }
}
