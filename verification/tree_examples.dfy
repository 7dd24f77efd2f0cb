/** The trees the builder's own unit tests describe, proved for any names:
    a path three folders deep creates the whole chain, and two paths that
    share a parent create that parent once with both children under it. */
module TreeExamples {
  import opened Types
  import opened Text
  import opened TreeBuilder

  // ---------------------------------------------------------------------------
  // Unfolding the builder one step at a time
  // ---------------------------------------------------------------------------

  /** Below a node with one child, adding a child happens inside that child. */
  lemma AddChildSingle(n: FolderNode, parent: string, child: FolderNode)
    requires n.path != parent && |n.children| == 1
    ensures AddChild(n, parent, child) == n.(children := [AddChild(n.children[0], parent, child)])
  {
    var r := AddChildAll(n.children, parent, child);
    assert r == [AddChild(n.children[0], parent, child)];
  }

  /** Below a node with one child, adding an image happens inside that child. */
  lemma AddImageSingle(n: FolderNode, p: string, img: ImageFile)
    requires n.path != p && |n.children| == 1
    ensures AddImage(n, p, img) == n.(children := [AddImage(n.children[0], p, img)])
  {
    var r := AddImageAll(n.children, p, img);
    assert r == [AddImage(n.children[0], p, img)];
  }

  /** A missing folder with a non-empty name is created under `current`. */
  lemma WalkStepCreates(t: FolderNode, parts: seq<string>, i: nat, current: string)
    requires 1 <= i < |parts| && parts[i] != "" && !Contains(t, PrefixPath(parts, i))
    ensures WalkStep(t, parts, i, current) ==
      (AddChild(t, current, NewFolder(PrefixPath(parts, i), parts[i])), PrefixPath(parts, i))
  {
  }

  /** The loop over a path of three parts is its two iterations in turn. */
  lemma WalkThree(t0: FolderNode, t1: FolderNode, t2: FolderNode, parts: seq<string>, c0: string, c1: string, c2: string)
    requires |parts| == 3
    requires WalkStep(t0, parts, 1, c0) == (t1, c1) && WalkStep(t1, parts, 2, c1) == (t2, c2)
    ensures Walk(t0, parts, 1, c0) == (t2, c2)
  {
    assert Walk(t2, parts, 3, c2) == (t2, c2);
    assert Walk(t1, parts, 2, c1) == Walk(t2, parts, 3, c2);
  }

  /** The loop over a path of four parts is its three iterations in turn. */
  lemma WalkFour(t0: FolderNode, t1: FolderNode, t2: FolderNode, t3: FolderNode, parts: seq<string>,
                 c0: string, c1: string, c2: string, c3: string)
    requires |parts| == 4
    requires WalkStep(t0, parts, 1, c0) == (t1, c1) && WalkStep(t1, parts, 2, c1) == (t2, c2)
    requires WalkStep(t2, parts, 3, c2) == (t3, c3)
    ensures Walk(t0, parts, 1, c0) == (t3, c3)
  {
    assert Walk(t3, parts, 4, c3) == (t3, c3);
    assert Walk(t2, parts, 3, c2) == Walk(t3, parts, 4, c3);
    assert Walk(t1, parts, 2, c1) == Walk(t2, parts, 3, c2);
  }

  /** A folder not in the tree yet is reached by walking its path from the root. */
  lemma GetOrCreateMissing(t: FolderNode, folderPath: string, parts: seq<string>)
    requires !Contains(t, folderPath) && Split(folderPath, '/') == parts
    ensures GetOrCreateFolder(t, folderPath) == Walk(t, parts, 1, t.path)
  {
  }

  /** A single image is placed into the fresh root. */
  lemma BuildOne(img: ImageFile, root: string)
    ensures BuildFolderTree([img], root) ==
      AddImage(GetOrCreateFolder(RootNode(root), img.folderPath).0, GetOrCreateFolder(RootNode(root), img.folderPath).1, img)
  {
    assert [img][..0] == [];
  }

  /** No images and no root name: a bare, expanded "Root" holding nothing. */
  lemma EmptyInputTree()
    ensures var t := BuildFolderTree([]);
      && t.path == "Root" && t.name == "Root" && t.isExpanded
      && t.children == [] && t.images == [] && CountImagesInSubtree(t) == 0
  {
  }

  // ---------------------------------------------------------------------------
  // Two folders under one parent
  // ---------------------------------------------------------------------------

  /** Names for two folders that share a parent under the root. */
  predicate SiblingNames(root: string, parent: string, x: string, y: string) {
    && parent != "" && x != "" && y != "" && x != y
    && '/' !in root && '/' !in parent && '/' !in x && '/' !in y
  }

  lemma ThreeSplit(root: string, parent: string, x: string)
    requires '/' !in root && '/' !in parent && '/' !in x
    ensures Split(root + "/" + parent + "/" + x, '/') == [root, parent, x]
  {
    var parts := [root, parent, x];
    assert parts[1..] == [parent, x] && parts[1..][1..] == [x];
    assert Join(parts, '/') == root + "/" + parent + "/" + x;
    SplitJoin(parts, '/');
  }

  lemma ThreePrefixes(root: string, parent: string, x: string)
    ensures Join([root, parent, x][..2], '/') == root + "/" + parent
    ensures Join([root, parent, x][..3], '/') == root + "/" + parent + "/" + x
  {
    var parts := [root, parent, x];
    assert parts[..2] == [root, parent] && parts[..2][1..] == [parent];
    assert parts[..3] == parts && parts[1..] == [parent, x] && parts[1..][1..] == [x];
  }

  lemma SiblingPathsDiffer(root: string, parent: string, x: string, y: string)
    requires SiblingNames(root, parent, x, y)
    ensures var pp := root + "/" + parent;
      && root != pp && root != pp + "/" + x && root != pp + "/" + y
      && pp != pp + "/" + x && pp != pp + "/" + y && pp + "/" + x != pp + "/" + y
  {
    var pp := root + "/" + parent;
    assert (pp + "/" + x)[|pp| + 1..] == x;
    assert (pp + "/" + y)[|pp| + 1..] == y;
  }

  lemma SiblingStep1(t0: FolderNode, pa: FolderNode, root: string, parent: string, x: string)
    requires parent != ""
    requires t0 == RootNode(root) && pa == NewFolder(root + "/" + parent, parent)
    ensures WalkStep(t0, [root, parent, x], 1, root) == (t0.(children := [pa]), root + "/" + parent)
  {
    var parts := [root, parent, x];
    var pp := root + "/" + parent;
    ThreePrefixes(root, parent, x);
    assert PrefixPath(parts, 1) == pp;
    assert PathBag(t0) == multiset{root};
    assert |root| < |pp|;
    assert !Contains(t0, pp);
    WalkStepCreates(t0, parts, 1, root);
    assert AddChild(t0, root, pa) == t0.(children := [pa]);
  }

  lemma SiblingStep2(t1: FolderNode, pa: FolderNode, c: FolderNode, root: string, parent: string, x: string)
    requires parent != "" && x != ""
    requires pa == NewFolder(root + "/" + parent, parent) && c == NewFolder(root + "/" + parent + "/" + x, x)
    requires t1 == RootNode(root).(children := [pa])
    ensures WalkStep(t1, [root, parent, x], 2, root + "/" + parent) ==
      (RootNode(root).(children := [pa.(children := [c])]), root + "/" + parent + "/" + x)
  {
    var parts := [root, parent, x];
    var pp := root + "/" + parent;
    var q := pp + "/" + x;
    ThreePrefixes(root, parent, x);
    assert PrefixPath(parts, 2) == q;
    assert PathBagAll([pa]) == PathBag(pa) == multiset{pp};
    assert PathBag(t1) == multiset{root} + multiset{pp};
    assert |root| < |pp| < |q|;
    assert !Contains(t1, q);
    WalkStepCreates(t1, parts, 2, pp);
    assert |t1.children| == 1 && t1.path != pp && t1.children[0] == pa;
    AddChildSingle(t1, pp, c);
    assert AddChild(pa, pp, c) == pa.(children := [c]);
  }

  /** The first image creates the parent and its first child. */
  lemma SiblingFirstWalk(pa: FolderNode, c: FolderNode, root: string, parent: string, x: string)
    requires parent != "" && x != "" && '/' !in root && '/' !in parent && '/' !in x
    requires pa == NewFolder(root + "/" + parent, parent) && c == NewFolder(root + "/" + parent + "/" + x, x)
    ensures GetOrCreateFolder(RootNode(root), root + "/" + parent + "/" + x) ==
      (RootNode(root).(children := [pa.(children := [c])]), root + "/" + parent + "/" + x)
  {
    var pp := root + "/" + parent;
    var q := pp + "/" + x;
    var parts := [root, parent, x];
    var t0 := RootNode(root);
    var t1 := t0.(children := [pa]);
    var t2 := t0.(children := [pa.(children := [c])]);
    SiblingStep1(t0, pa, root, parent, x);
    SiblingStep2(t1, pa, c, root, parent, x);
    WalkThree(t0, t1, t2, parts, root, pp, q);
    ThreeSplit(root, parent, x);
    assert PathBag(t0) == multiset{root};
    assert |root| < |q|;
    GetOrCreateMissing(t0, q, parts);
  }

  lemma SiblingFirstImage(pa: FolderNode, c: FolderNode, img1: ImageFile, root: string, parent: string, x: string)
    requires parent != "" && x != ""
    requires pa.path == root + "/" + parent && c.path == root + "/" + parent + "/" + x && c.images == []
    ensures AddImage(RootNode(root).(children := [pa.(children := [c])]), root + "/" + parent + "/" + x, img1) ==
      RootNode(root).(children := [pa.(children := [c.(images := [img1])])])
  {
    var pp := root + "/" + parent;
    var q := pp + "/" + x;
    var pa2 := pa.(children := [c]);
    var t2 := RootNode(root).(children := [pa2]);
    assert |root| < |pp| < |q|;
    assert AddImage(c, q, img1) == c.(images := [img1]);
    AddImageSingle(pa2, q, img1);
    AddImageSingle(t2, q, img1);
    assert t2.children[0] == pa2 && pa2.children[0] == c;
  }

  lemma SiblingFirst(img1: ImageFile, root: string, parent: string, x: string, y: string)
    requires SiblingNames(root, parent, x, y)
    requires img1.folderPath == root + "/" + parent + "/" + x
    ensures BuildFolderTree([img1], root) ==
      RootNode(root).(children := [NewFolder(root + "/" + parent, parent).(children :=
        [NewFolder(root + "/" + parent + "/" + x, x).(images := [img1])])])
  {
    var pp := root + "/" + parent;
    var q := pp + "/" + x;
    var pa, c := NewFolder(pp, parent), NewFolder(q, x);
    SiblingFirstWalk(pa, c, root, parent, x);
    BuildOne(img1, root);
    SiblingFirstImage(pa, c, img1, root, parent, x);
  }

  lemma SiblingSecondStep1(tA: FolderNode, pa1: FolderNode, root: string, parent: string, y: string)
    requires parent != "" && pa1.path == root + "/" + parent
    requires tA == RootNode(root).(children := [pa1])
    ensures WalkStep(tA, [root, parent, y], 1, root) == (tA, root + "/" + parent)
  {
    ThreePrefixes(root, parent, y);
    assert PathBagAll([pa1]) == PathBag(pa1);
    assert PathBag(tA) == multiset{root} + PathBag(pa1);
  }

  lemma SiblingSecondStep2(tA: FolderNode, c1: FolderNode, c2: FolderNode, root: string, parent: string, x: string, y: string)
    requires SiblingNames(root, parent, x, y)
    requires c1.path == root + "/" + parent + "/" + x && c1.children == []
    requires c2 == NewFolder(root + "/" + parent + "/" + y, y)
    requires tA == RootNode(root).(children := [NewFolder(root + "/" + parent, parent).(children := [c1])])
    ensures WalkStep(tA, [root, parent, y], 2, root + "/" + parent) ==
      (RootNode(root).(children := [NewFolder(root + "/" + parent, parent).(children := [c1, c2])]),
       root + "/" + parent + "/" + y)
  {
    var parts := [root, parent, y];
    var pp := root + "/" + parent;
    var q := pp + "/" + y;
    var pa1 := NewFolder(pp, parent).(children := [c1]);
    ThreePrefixes(root, parent, y);
    assert PrefixPath(parts, 2) == q;
    SiblingSecondMissing(tA, c1, root, parent, x, y);
    WalkStepCreates(tA, parts, 2, pp);
    assert |root| < |pp|;
    assert |tA.children| == 1 && tA.path != pp && tA.children[0] == pa1;
    AddChildSingle(tA, pp, c2);
    assert AddChild(pa1, pp, c2) == pa1.(children := [c1, c2]);
  }

  /** The second image finds the parent and adds its second child after the first. */
  lemma SiblingSecondWalk(tA: FolderNode, c1: FolderNode, root: string, parent: string, x: string, y: string)
    requires SiblingNames(root, parent, x, y)
    requires c1.path == root + "/" + parent + "/" + x && c1.children == []
    requires tA == RootNode(root).(children := [NewFolder(root + "/" + parent, parent).(children := [c1])])
    ensures GetOrCreateFolder(tA, root + "/" + parent + "/" + y) ==
      (RootNode(root).(children := [NewFolder(root + "/" + parent, parent).(children := [c1, NewFolder(root + "/" + parent + "/" + y, y)])]),
       root + "/" + parent + "/" + y)
  {
    var pp := root + "/" + parent;
    var q := pp + "/" + y;
    var parts := [root, parent, y];
    var c2 := NewFolder(q, y);
    var tB := RootNode(root).(children := [NewFolder(pp, parent).(children := [c1, c2])]);
    SiblingSecondStep1(tA, NewFolder(pp, parent).(children := [c1]), root, parent, y);
    SiblingSecondStep2(tA, c1, c2, root, parent, x, y);
    WalkThree(tA, tA, tB, parts, root, pp, q);
    SiblingSecondMissing(tA, c1, root, parent, x, y);
    ThreeSplit(root, parent, y);
    GetOrCreateMissing(tA, q, parts);
  }

  lemma SiblingSecondMissing(tA: FolderNode, c1: FolderNode, root: string, parent: string, x: string, y: string)
    requires SiblingNames(root, parent, x, y)
    requires c1.path == root + "/" + parent + "/" + x && c1.children == []
    requires tA == RootNode(root).(children := [NewFolder(root + "/" + parent, parent).(children := [c1])])
    ensures !Contains(tA, root + "/" + parent + "/" + y)
  {
    var pa1 := NewFolder(root + "/" + parent, parent).(children := [c1]);
    SiblingPathsDiffer(root, parent, x, y);
    assert PathBagAll([c1]) == PathBag(c1) == multiset{c1.path};
    assert PathBagAll([pa1]) == PathBag(pa1);
    assert PathBag(tA) == multiset{root} + PathBag(pa1);
  }

  /** Two images in sibling folders give the root one child, the parent,
      holding both folders in input order. */
  lemma SharedParentFolder(img1: ImageFile, img2: ImageFile, root: string, parent: string, x: string, y: string)
    requires SiblingNames(root, parent, x, y)
    requires img1.folderPath == root + "/" + parent + "/" + x
    requires img2.folderPath == root + "/" + parent + "/" + y
    ensures var t := BuildFolderTree([img1, img2], root);
      && |t.children| == 1 && t.children[0].name == parent
      && |t.children[0].children| == 2
      && t.children[0].children[0].name == x && t.children[0].children[1].name == y
  {
    var pp := root + "/" + parent;
    var c1 := NewFolder(pp + "/" + x, x).(images := [img1]);
    var tA := RootNode(root).(children := [NewFolder(pp, parent).(children := [c1])]);
    SiblingFirst(img1, root, parent, x, y);
    assert [img1, img2][..1] == [img1];
    assert BuildFolderTree([img1, img2], root) == PlaceImage(tA, img2);
    SiblingSecondWalk(tA, c1, root, parent, x, y);
    var tB := RootNode(root).(children := [NewFolder(pp, parent).(children := [c1, NewFolder(pp + "/" + y, y)])]);
    assert |root| < |pp + "/" + y|;
    var r := AddImage(tB, pp + "/" + y, img2);
    assert r.children == AddImageAll(tB.children, pp + "/" + y, img2);
    assert r.children[0] == AddImage(tB.children[0], pp + "/" + y, img2);
    var pB := tB.children[0];
    assert |pp| < |pp + "/" + y|;
    assert r.children[0].children == AddImageAll(pB.children, pp + "/" + y, img2);
  }

  // ---------------------------------------------------------------------------
  // A chain three folders deep
  // ---------------------------------------------------------------------------

  /** Names for a chain of three folders under the root. */
  predicate DeepNames(root: string, a: string, b: string, c: string) {
    && a != "" && b != "" && c != ""
    && '/' !in root && '/' !in a && '/' !in b && '/' !in c
  }

  lemma FourSplit(root: string, a: string, b: string, c: string)
    requires DeepNames(root, a, b, c)
    ensures Split(root + "/" + a + "/" + b + "/" + c, '/') == [root, a, b, c]
  {
    var parts := [root, a, b, c];
    FourPrefixes(root, a, b, c);
    assert parts[..4] == parts;
    SplitJoin(parts, '/');
  }

  lemma FourPrefixes(root: string, a: string, b: string, c: string)
    ensures PrefixPath([root, a, b, c], 1) == root + "/" + a
    ensures PrefixPath([root, a, b, c], 2) == root + "/" + a + "/" + b
    ensures PrefixPath([root, a, b, c], 3) == root + "/" + a + "/" + b + "/" + c
  {
    var parts := [root, a, b, c];
    assert parts[..2] == [root, a] && parts[..2][1..] == [a];
    assert parts[..3] == [root, a, b] && parts[..3][1..] == [a, b] && [a, b][1..] == [b];
    assert parts[..4] == parts && parts[1..] == [a, b, c] && [a, b, c][1..] == [b, c] && [b, c][1..] == [c];
    assert Join([a, b], '/') == a + "/" + b;
    assert Join([root, a, b], '/') == root + "/" + (a + "/" + b);
    assert root + "/" + (a + "/" + b) == root + "/" + a + "/" + b;
    assert Join([b, c], '/') == b + "/" + c;
    assert Join([a, b, c], '/') == a + "/" + (b + "/" + c);
    assert Join(parts, '/') == root + "/" + (a + "/" + (b + "/" + c));
    assert root + "/" + (a + "/" + (b + "/" + c)) == root + "/" + a + "/" + b + "/" + c;
  }

  lemma DeepStep1(root: string, a: string, b: string, c: string, na: FolderNode)
    requires DeepNames(root, a, b, c)
    requires na == NewFolder(root + "/" + a, a)
    ensures WalkStep(RootNode(root), [root, a, b, c], 1, root) ==
      (RootNode(root).(children := [na]), root + "/" + a)
  {
    var parts := [root, a, b, c];
    var t0 := RootNode(root);
    var p1 := root + "/" + a;
    FourPrefixes(root, a, b, c);
    assert PathBag(t0) == multiset{root};
    assert |root| < |p1|;
    assert !Contains(t0, p1);
    WalkStepCreates(t0, parts, 1, root);
    assert AddChild(t0, root, na) == t0.(children := [na]);
  }

  lemma DeepStep2(root: string, a: string, b: string, c: string, na: FolderNode, nb: FolderNode)
    requires DeepNames(root, a, b, c)
    requires na == NewFolder(root + "/" + a, a) && nb == NewFolder(root + "/" + a + "/" + b, b)
    ensures WalkStep(RootNode(root).(children := [na]), [root, a, b, c], 2, root + "/" + a) ==
      (RootNode(root).(children := [na.(children := [nb])]), root + "/" + a + "/" + b)
  {
    var parts := [root, a, b, c];
    var t1 := RootNode(root).(children := [na]);
    var p1 := root + "/" + a;
    var p2 := p1 + "/" + b;
    FourPrefixes(root, a, b, c);
    assert PathBagAll([na]) == PathBag(na) == multiset{p1};
    assert PathBag(t1) == multiset{root} + multiset{p1};
    assert |root| < |p1| < |p2|;
    assert !Contains(t1, p2);
    WalkStepCreates(t1, parts, 2, p1);
    assert t1.children[0] == na;
    AddChildSingle(t1, p1, nb);
    assert AddChild(na, p1, nb) == na.(children := [nb]);
  }

  lemma DeepStep3(root: string, a: string, b: string, c: string, na: FolderNode, nb: FolderNode, nc: FolderNode)
    requires DeepNames(root, a, b, c)
    requires na == NewFolder(root + "/" + a, a) && nb == NewFolder(root + "/" + a + "/" + b, b)
    requires nc == NewFolder(root + "/" + a + "/" + b + "/" + c, c)
    ensures WalkStep(RootNode(root).(children := [na.(children := [nb])]), [root, a, b, c], 3, root + "/" + a + "/" + b) ==
      (RootNode(root).(children := [na.(children := [nb.(children := [nc])])]), root + "/" + a + "/" + b + "/" + c)
  {
    var parts := [root, a, b, c];
    var na2 := na.(children := [nb]);
    var t2 := RootNode(root).(children := [na2]);
    var p1 := root + "/" + a;
    var p2 := p1 + "/" + b;
    var p3 := p2 + "/" + c;
    FourPrefixes(root, a, b, c);
    assert PathBagAll([nb]) == PathBag(nb) == multiset{p2};
    assert PathBagAll([na2]) == PathBag(na2) == multiset{p1} + multiset{p2};
    assert PathBag(t2) == multiset{root} + PathBag(na2);
    assert |root| < |p1| < |p2| < |p3|;
    assert !Contains(t2, p3);
    WalkStepCreates(t2, parts, 3, p2);
    assert t2.children[0] == na2 && na2.children[0] == nb;
    AddChildSingle(t2, p2, nc);
    AddChildSingle(na2, p2, nc);
    assert AddChild(nb, p2, nc) == nb.(children := [nc]);
  }

  lemma DeepWalk(root: string, a: string, b: string, c: string, na: FolderNode, nb: FolderNode, nc: FolderNode)
    requires DeepNames(root, a, b, c)
    requires na == NewFolder(root + "/" + a, a) && nb == NewFolder(root + "/" + a + "/" + b, b)
    requires nc == NewFolder(root + "/" + a + "/" + b + "/" + c, c)
    ensures GetOrCreateFolder(RootNode(root), root + "/" + a + "/" + b + "/" + c) ==
      (RootNode(root).(children := [na.(children := [nb.(children := [nc])])]), root + "/" + a + "/" + b + "/" + c)
  {
    var parts := [root, a, b, c];
    var t0 := RootNode(root);
    var p1 := root + "/" + a;
    var p2 := p1 + "/" + b;
    var p3 := p2 + "/" + c;
    DeepStep1(root, a, b, c, na);
    DeepStep2(root, a, b, c, na, nb);
    DeepStep3(root, a, b, c, na, nb, nc);
    WalkFour(t0, t0.(children := [na]), t0.(children := [na.(children := [nb])]),
      t0.(children := [na.(children := [nb.(children := [nc])])]), parts, root, p1, p2, p3);
    FourSplit(root, a, b, c);
    assert PathBag(t0) == multiset{root};
    assert |root| < |p3|;
    GetOrCreateMissing(t0, p3, parts);
  }

  lemma DeepImage(root: string, a: string, b: string, c: string, na: FolderNode, nb: FolderNode, nc: FolderNode, img: ImageFile)
    requires DeepNames(root, a, b, c)
    requires na.path == root + "/" + a && nb.path == root + "/" + a + "/" + b
    requires nc.path == root + "/" + a + "/" + b + "/" + c && nc.images == []
    ensures AddImage(RootNode(root).(children := [na.(children := [nb.(children := [nc])])]), root + "/" + a + "/" + b + "/" + c, img) ==
      RootNode(root).(children := [na.(children := [nb.(children := [nc.(images := [img])])])])
  {
    var p3 := root + "/" + a + "/" + b + "/" + c;
    var nb3 := nb.(children := [nc]);
    var na3 := na.(children := [nb3]);
    var t3 := RootNode(root).(children := [na3]);
    assert |root| < |na.path| < |nb.path| < |p3|;
    assert AddImage(nc, p3, img) == nc.(images := [img]);
    AddImageSingle(nb3, p3, img);
    AddImageSingle(na3, p3, img);
    AddImageSingle(t3, p3, img);
    assert t3.children[0] == na3 && na3.children[0] == nb3 && nb3.children[0] == nc;
  }

  /** An image three folders below the root creates the whole chain and
      lands in the deepest folder. */
  lemma DeeplyNestedFolders(img: ImageFile, root: string, a: string, b: string, c: string)
    requires DeepNames(root, a, b, c)
    requires img.folderPath == root + "/" + a + "/" + b + "/" + c
    ensures var t := BuildFolderTree([img], root);
      && |t.children| == 1 && t.children[0].name == a
      && |t.children[0].children| == 1 && t.children[0].children[0].name == b
      && |t.children[0].children[0].children| == 1 && t.children[0].children[0].children[0].name == c
      && t.children[0].children[0].children[0].images == [img]
  {
    var p1 := root + "/" + a;
    var p2 := p1 + "/" + b;
    var p3 := p2 + "/" + c;
    var na, nb, nc := NewFolder(p1, a), NewFolder(p2, b), NewFolder(p3, c);
    DeepWalk(root, a, b, c, na, nb, nc);
    BuildOne(img, root);
    DeepImage(root, a, b, c, na, nb, nc, img);
  }
}
