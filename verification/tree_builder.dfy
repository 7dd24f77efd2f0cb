/** The folder tree built from the flat image list (src/utils/treeBuilder.ts).

    The source builds the tree by mutating node objects that it also keeps in
    a `Map` from path to node. Here the tree is an immutable value, and the map
    is replaced by a search of the tree by path: every node the map holds is in
    the tree under its own path, and no path is held twice (`UniquePaths`), so a
    lookup in the map and a search of the tree find the same node. Updating
    "the node object" becomes rebuilding the tree with the node at that path
    changed. */
module TreeBuilder {
  import opened Types
  import opened Text
  import opened FileFilters

  /** `FolderNode`: one folder, its sub-folders and the images directly in it. */
  datatype FolderNode = FolderNode(
    id: string,
    name: string,
    path: string,
    children: seq<FolderNode>,
    images: seq<ImageFile>,
    isExpanded: bool
  )

  // ---------------------------------------------------------------------------
  // Paths held by a tree
  // ---------------------------------------------------------------------------

  /** The paths of every node in the subtree, with multiplicity. */
  function PathBag(n: FolderNode): multiset<string>
    decreases n, 1
  {
    multiset{n.path} + PathBagAll(n.children)
  }

  function PathBagAll(ns: seq<FolderNode>): multiset<string>
    decreases ns, 0
  {
    if ns == [] then multiset{}
    else PathBagAll(ns[..|ns| - 1]) + PathBag(ns[|ns| - 1])
  }

  /** `folderMap.has(p)`: some node of the tree has path `p`. */
  predicate Contains(t: FolderNode, p: string) {
    p in PathBag(t)
  }

  /** No two nodes share a path, so the tree is a faithful `folderMap`. */
  predicate UniquePaths(t: FolderNode) {
    forall p :: p in PathBag(t) ==> PathBag(t)[p] == 1
  }

  // ---------------------------------------------------------------------------
  // Updating the node at a path
  // ---------------------------------------------------------------------------

  /** `current.children.push(child)` for the node whose path is `parent`. */
  function AddChild(n: FolderNode, parent: string, child: FolderNode): (r: FolderNode)
    decreases n, 1
    ensures r.id == n.id && r.name == n.name && r.path == n.path
    ensures r.images == n.images && r.isExpanded == n.isExpanded
  {
    if n.path == parent then n.(children := n.children + [child])
    else n.(children := AddChildAll(n.children, parent, child))
  }

  function AddChildAll(ns: seq<FolderNode>, parent: string, child: FolderNode): (r: seq<FolderNode>)
    decreases ns, 0
    ensures |r| == |ns|
    ensures forall i :: 0 <= i < |ns| ==> r[i] == AddChild(ns[i], parent, child)
  {
    if ns == [] then []
    else AddChildAll(ns[..|ns| - 1], parent, child) + [AddChild(ns[|ns| - 1], parent, child)]
  }

  /** `folderNode.images.push(image)` for the node whose path is `p`. */
  function AddImage(n: FolderNode, p: string, img: ImageFile): (r: FolderNode)
    decreases n, 1
    ensures r.id == n.id && r.name == n.name && r.path == n.path && r.isExpanded == n.isExpanded
    ensures |r.children| == |n.children|
  {
    if n.path == p then n.(images := n.images + [img])
    else n.(children := AddImageAll(n.children, p, img))
  }

  function AddImageAll(ns: seq<FolderNode>, p: string, img: ImageFile): (r: seq<FolderNode>)
    decreases ns, 0
    ensures |r| == |ns|
    ensures forall i :: 0 <= i < |ns| ==> r[i] == AddImage(ns[i], p, img)
  {
    if ns == [] then []
    else AddImageAll(ns[..|ns| - 1], p, img) + [AddImage(ns[|ns| - 1], p, img)]
  }

  // ---------------------------------------------------------------------------
  // countImagesInSubtree / collectAllImages
  // ---------------------------------------------------------------------------

  /** `countImagesInSubtree(node)`. */
  function CountImagesInSubtree(n: FolderNode): (count: nat)
    decreases n, 1
    ensures count >= |n.images|
  {
    |n.images| + CountAll(n.children)
  }

  function CountAll(ns: seq<FolderNode>): nat
    decreases ns, 0
  {
    if ns == [] then 0
    else CountAll(ns[..|ns| - 1]) + CountImagesInSubtree(ns[|ns| - 1])
  }

  /** `collectAllImages(node)`: the node's own images, then each child's
      collection in child order. */
  function CollectAllImages(n: FolderNode): (r: seq<ImageFile>)
    decreases n, 1
    ensures |n.images| <= |r| && r[..|n.images|] == n.images
  {
    n.images + CollectAll(n.children)
  }

  function CollectAll(ns: seq<FolderNode>): seq<ImageFile>
    decreases ns, 0
  {
    if ns == [] then []
    else CollectAll(ns[..|ns| - 1]) + CollectAllImages(ns[|ns| - 1])
  }

  /** The images held by nodes with path `p`, in tree order. */
  function ImagesAt(n: FolderNode, p: string): seq<ImageFile>
    decreases n, 1
  {
    (if n.path == p then n.images else []) + ImagesAtAll(n.children, p)
  }

  function ImagesAtAll(ns: seq<FolderNode>, p: string): seq<ImageFile>
    decreases ns, 0
  {
    if ns == [] then []
    else ImagesAtAll(ns[..|ns| - 1], p) + ImagesAt(ns[|ns| - 1], p)
  }

  // ---------------------------------------------------------------------------
  // getOrCreateFolder / buildFolderTree
  // ---------------------------------------------------------------------------

  /** The node `getOrCreateFolder` creates for `partialPath`: collapsed, empty. */
  function NewFolder(partialPath: string, partName: string): (n: FolderNode)
    ensures n.path == partialPath && n.name == partName
    ensures n.children == [] && n.images == [] && !n.isExpanded
  {
    FolderNode(GenerateId(partialPath), partName, partialPath, [], [], false)
  }

  /** The loop of `getOrCreateFolder` from index `i` on, with `current` given by
      its path. Returns the updated tree and the path of the final `current`. */
  function Walk(t: FolderNode, parts: seq<string>, i: nat, current: string): (res: (FolderNode, string))
    requires 1 <= i <= |parts|
    decreases |parts| - i
    ensures res.0.path == t.path
  {
    if i == |parts| then (t, current)
    else
      var next := WalkStep(t, parts, i, current);
      Walk(next.0, parts, i + 1, next.1)
  }

  /** One iteration of that loop: look up `parts[..i+1]`, create it under
      `current` when it is missing and its last part is not empty, and move
      `current` to it when there is one. */
  function WalkStep(t: FolderNode, parts: seq<string>, i: nat, current: string): (res: (FolderNode, string))
    requires 1 <= i < |parts|
    ensures res.0.path == t.path
  {
    var partialPath := Join(parts[..i + 1], '/');
    var partName := parts[i];
    if Contains(t, partialPath) then (t, partialPath)
    else if partName != "" then (AddChild(t, current, NewFolder(partialPath, partName)), partialPath)
    else (t, current)
  }

  /** `getOrCreateFolder(folderMap, folderPath, root)`: the tree with any missing
      folders on the way created, and the path of the folder to use. */
  function GetOrCreateFolder(t: FolderNode, folderPath: string): (res: (FolderNode, string))
    ensures res.0.path == t.path
    ensures Contains(t, folderPath) ==> res == (t, folderPath)
  {
    if Contains(t, folderPath) then (t, folderPath)
    else
      var parts := Split(folderPath, '/');
      Walk(t, parts, 1, t.path)
  }

  /** The root `buildFolderTree` starts from. */
  function RootNode(rootName: string): (n: FolderNode)
    ensures n.path == rootName && n.name == rootName && n.isExpanded
    ensures n.children == [] && n.images == []
  {
    FolderNode(GenerateId(rootName), rootName, rootName, [], [], true)
  }

  /** The root name `buildFolderTree` uses when none is given. */
  const DefaultRootName: string := "Root"

  /** `buildFolderTree(images, rootName = 'Root')`: each image in input order is
      pushed onto the folder `getOrCreateFolder` returns for its `folderPath`. */
  function BuildFolderTree(images: seq<ImageFile>, rootName: string := DefaultRootName): (t: FolderNode)
    ensures images == [] ==> t == RootNode(rootName)
    ensures t.path == rootName
  {
    if images == [] then RootNode(rootName)
    else
      PlaceImage(BuildFolderTree(images[..|images| - 1], rootName), images[|images| - 1])
  }

  /** One iteration of `buildFolderTree`'s loop. */
  function PlaceImage(t: FolderNode, img: ImageFile): (r: FolderNode)
    ensures r.path == t.path
  {
    var (t1, folder) := GetOrCreateFolder(t, img.folderPath);
    AddImage(t1, folder, img)
  }

  // ---------------------------------------------------------------------------
  // Where an image lands, and what every node looks like
  // ---------------------------------------------------------------------------

  /** Where the loop of `getOrCreateFolder` moves `current`, read off the parts
      alone: to each prefix whose last part is not empty, and to a prefix with
      an empty last part only when that prefix is the root. */
  function Landing(parts: seq<string>, i: nat, current: string, rootName: string): (d: string)
    requires 1 <= i <= |parts|
    decreases |parts| - i
    ensures i < |parts| && parts[|parts| - 1] != "" ==> d == Join(parts, '/')
  {
    if i == |parts| then current
    else
      var partialPath := Join(parts[..i + 1], '/');
      assert i + 1 == |parts| ==> parts[..i + 1] == parts;
      if parts[i] != "" || partialPath == rootName then Landing(parts, i + 1, partialPath, rootName)
      else Landing(parts, i + 1, current, rootName)
  }

  /** The folder an image with this `folderPath` ends up in. It depends only
      on the path and the root name, never on the folders built so far: a
      path with no '/' goes to the root, a path whose last part is not empty
      to the folder of that path, and any other path to where the loop over
      its parts stops. */
  function Dest(folderPath: string, rootName: string): (d: string)
    ensures '/' !in folderPath ==> d == rootName
    ensures WellPlaced(folderPath) && '/' in folderPath ==> d == folderPath
  {
    if folderPath == rootName then rootName
    else
      JoinSplit(folderPath, '/');
      Landing(Split(folderPath, '/'), 1, rootName, rootName)
  }

  /** An empty last part that does not name the root changes nothing. */
  lemma {:induction false} LandingDropsEmptyLast(parts: seq<string>, i: nat, current: string, rootName: string)
    requires 1 <= i <= |parts|
    requires Join(parts + [""], '/') != rootName
    decreases |parts| - i
    ensures Landing(parts + [""], i, current, rootName) == Landing(parts, i, current, rootName)
  {
    var longer := parts + [""];
    if i == |parts| {
      assert longer[..i + 1] == longer;
      assert Landing(longer, i, current, rootName) == Landing(longer, i + 1, current, rootName);
    } else {
      assert longer[..i + 1] == parts[..i + 1];
      assert longer[i] == parts[i];
      var partialPath := Join(parts[..i + 1], '/');
      var next := if parts[i] != "" || partialPath == rootName then partialPath else current;
      assert Landing(longer, i, current, rootName) == Landing(longer, i + 1, next, rootName);
      assert Landing(parts, i, current, rootName) == Landing(parts, i + 1, next, rootName);
      LandingDropsEmptyLast(parts, i + 1, next, rootName);
    }
  }

  /** A trailing '/' does not move an image: "a/b/" lands where "a/b" does,
      for any root name without '/'. */
  lemma DestIgnoresTrailingSlash(folderPath: string, rootName: string)
    requires '/' !in rootName
    ensures Dest(folderPath + "/", rootName) == Dest(folderPath, rootName)
  {
    var parts := Split(folderPath, '/');
    var longer := folderPath + "/";
    assert longer[|longer| - 1] == '/';
    JoinSplit(folderPath, '/');
    JoinSnoc(parts, "", '/');
    assert Join(parts + [""], '/') == longer;
    SplitJoin(parts + [""], '/');
    LandingDropsEmptyLast(parts, 1, rootName, rootName);
    if folderPath == rootName {
      SplitNoSep(rootName, '/');
    }
  }

  /** Paths with no '/' or whose last component is not empty. */
  predicate WellPlaced(folderPath: string) {
    var parts := Split(folderPath, '/');
    '/' !in folderPath || parts[|parts| - 1] != ""
  }

  /** `s` ends with `suffix`. */
  predicate EndsWith(s: string, suffix: string) {
    |suffix| <= |s| && s[|s| - |suffix|..] == suffix
  }

  /** The shape of a created folder: a non-empty name without '/', a path
      ending in '/' and that name, and collapsed. */
  predicate FolderShaped(n: FolderNode) {
    && n.name != "" && '/' !in n.name
    && EndsWith(n.path, ['/'] + n.name)
    && !n.isExpanded
  }

  /** What holds of each node of a built tree (its own fields only). */
  predicate Good(n: FolderNode, rootName: string) {
    && n.id == GenerateId(n.path)
    && (n.path == rootName ==> n.name == rootName && n.isExpanded)
    && (n.path != rootName ==> FolderShaped(n))
    && (forall k :: 0 <= k < |n.images| ==>
          n.path == Dest(n.images[k].folderPath, rootName))
  }

  /** Every node of the subtree is `Good`. */
  predicate AllGood(n: FolderNode, rootName: string)
    decreases n
  {
    Good(n, rootName) && forall i :: 0 <= i < |n.children| ==> AllGood(n.children[i], rootName)
  }

  /** The invariant of `buildFolderTree`'s loop. */
  predicate Inv(t: FolderNode, rootName: string) {
    t.path == rootName && UniquePaths(t) && AllGood(t, rootName)
  }

  // ---------------------------------------------------------------------------
  // countImagesInSubtree agrees with collectAllImages
  // ---------------------------------------------------------------------------

  /** Counting the images of a subtree gives the length of their collection. */
  lemma {:induction false} CountIsCollectLength(n: FolderNode)
    decreases n, 1
    ensures CountImagesInSubtree(n) == |CollectAllImages(n)|
  {
    CountAllIsCollectLength(n.children);
  }

  lemma {:induction false} CountAllIsCollectLength(ns: seq<FolderNode>)
    decreases ns, 0
    ensures CountAll(ns) == |CollectAll(ns)|
  {
    if ns != [] {
      CountAllIsCollectLength(ns[..|ns| - 1]);
      CountIsCollectLength(ns[|ns| - 1]);
    }
  }

  // ---------------------------------------------------------------------------
  // Effects of adding a child folder
  // ---------------------------------------------------------------------------

  lemma PathBagAllSnoc(ns: seq<FolderNode>, c: FolderNode)
    ensures PathBagAll(ns + [c]) == PathBagAll(ns) + PathBag(c)
  {
    assert (ns + [c])[..|ns|] == ns;
  }

  /** With the parent's path held at most once, adding a child adds exactly the
      child's paths when the parent is in the tree, and nothing otherwise. */
  lemma {:induction false} AddChildPaths(n: FolderNode, parent: string, c: FolderNode)
    requires PathBag(n)[parent] <= 1
    decreases n, 1
    ensures PathBag(AddChild(n, parent, c)) ==
      PathBag(n) + (if parent in PathBag(n) then PathBag(c) else multiset{})
  {
    if n.path == parent {
      PathBagAllSnoc(n.children, c);
    } else {
      AddChildAllPaths(n.children, parent, c);
    }
  }

  lemma {:induction false} AddChildAllPaths(ns: seq<FolderNode>, parent: string, c: FolderNode)
    requires PathBagAll(ns)[parent] <= 1
    decreases ns, 0
    ensures PathBagAll(AddChildAll(ns, parent, c)) ==
      PathBagAll(ns) + (if parent in PathBagAll(ns) then PathBag(c) else multiset{})
  {
    if ns != [] {
      var front, last := ns[..|ns| - 1], ns[|ns| - 1];
      var r := AddChildAll(ns, parent, c);
      assert r == AddChildAll(front, parent, c) + [AddChild(last, parent, c)];
      var rf, rl := AddChildAll(front, parent, c), AddChild(last, parent, c);
      assert r[..|ns| - 1] == rf && r[|ns| - 1] == rl;
      assert PathBagAll(r) == PathBagAll(rf) + PathBag(rl);
      assert PathBagAll(ns) == PathBagAll(front) + PathBag(last);
      AddChildAllPaths(front, parent, c);
      AddChildPaths(last, parent, c);
      BagExtraSplits(PathBagAll(front), PathBag(last), parent, PathBag(c));
      BagSum(PathBagAll(rf), PathBag(rl), PathBagAll(front), PathBag(last),
        if parent in PathBagAll(front) then PathBag(c) else multiset{},
        if parent in PathBag(last) then PathBag(c) else multiset{});
    }
  }

  lemma BagExtraSplits(a: multiset<string>, b: multiset<string>, q: string, e: multiset<string>)
    requires (a + b)[q] <= 1
    ensures (if q in a + b then e else multiset{}) ==
      (if q in a then e else multiset{}) + (if q in b then e else multiset{})
  {
  }

  lemma BagSum(a: multiset<string>, b: multiset<string>, a0: multiset<string>, b0: multiset<string>,
                ea: multiset<string>, eb: multiset<string>)
    requires a == a0 + ea && b == b0 + eb
    ensures a + b == (a0 + b0) + (ea + eb)
  {
  }

  lemma CollectAllSnoc(ns: seq<FolderNode>, c: FolderNode)
    ensures CollectAll(ns + [c]) == CollectAll(ns) + CollectAllImages(c)
  {
    assert (ns + [c])[..|ns|] == ns;
  }

  /** Adding an empty child leaves the collected images unchanged. */
  lemma {:induction false} AddChildCollect(n: FolderNode, parent: string, c: FolderNode)
    requires c.children == [] && c.images == []
    decreases n, 1
    ensures CollectAllImages(AddChild(n, parent, c)) == CollectAllImages(n)
  {
    if n.path == parent {
      CollectAllSnoc(n.children, c);
    } else {
      AddChildAllCollect(n.children, parent, c);
    }
  }

  lemma {:induction false} AddChildAllCollect(ns: seq<FolderNode>, parent: string, c: FolderNode)
    requires c.children == [] && c.images == []
    decreases ns, 0
    ensures CollectAll(AddChildAll(ns, parent, c)) == CollectAll(ns)
  {
    if ns != [] {
      var front, last := ns[..|ns| - 1], ns[|ns| - 1];
      var r := AddChildAll(ns, parent, c);
      assert r[..|ns| - 1] == AddChildAll(front, parent, c);
      AddChildAllCollect(front, parent, c);
      AddChildCollect(last, parent, c);
    }
  }

  lemma ImagesAtAllSnoc(ns: seq<FolderNode>, c: FolderNode, p: string)
    ensures ImagesAtAll(ns + [c], p) == ImagesAtAll(ns, p) + ImagesAt(c, p)
  {
    assert (ns + [c])[..|ns|] == ns;
  }

  /** Adding an empty child leaves the images at every path unchanged. */
  lemma {:induction false} AddChildImagesAt(n: FolderNode, parent: string, c: FolderNode, p: string)
    requires c.children == [] && c.images == []
    decreases n, 1
    ensures ImagesAt(AddChild(n, parent, c), p) == ImagesAt(n, p)
  {
    if n.path == parent {
      ImagesAtAllSnoc(n.children, c, p);
    } else {
      AddChildAllImagesAt(n.children, parent, c, p);
    }
  }

  lemma {:induction false} AddChildAllImagesAt(ns: seq<FolderNode>, parent: string, c: FolderNode, p: string)
    requires c.children == [] && c.images == []
    decreases ns, 0
    ensures ImagesAtAll(AddChildAll(ns, parent, c), p) == ImagesAtAll(ns, p)
  {
    if ns != [] {
      var front, last := ns[..|ns| - 1], ns[|ns| - 1];
      var r := AddChildAll(ns, parent, c);
      assert r[..|ns| - 1] == AddChildAll(front, parent, c);
      AddChildAllImagesAt(front, parent, c, p);
      AddChildImagesAt(last, parent, c, p);
    }
  }

  /** Adding a child whose nodes are all `Good` keeps every node `Good`. */
  lemma {:induction false} AddChildGood(n: FolderNode, parent: string, c: FolderNode, rootName: string)
    requires AllGood(n, rootName) && AllGood(c, rootName)
    decreases n
    ensures AllGood(AddChild(n, parent, c), rootName)
  {
    var r := AddChild(n, parent, c);
    forall i | 0 <= i < |r.children| ensures AllGood(r.children[i], rootName) {
      if n.path != parent {
        AddChildGood(n.children[i], parent, c, rootName);
      } else if i < |n.children| {
        assert r.children[i] == n.children[i];
      }
    }
    GoodOfParts(n, r, rootName);
  }

  /** A node whose own fields are those of a `Good` node and whose children are
      all `AllGood` is `AllGood`. */
  lemma GoodOfParts(n: FolderNode, r: FolderNode, rootName: string)
    requires Good(n, rootName)
    requires r == n.(children := r.children) || r == n.(children := r.children, images := r.images)
    requires forall k :: 0 <= k < |r.images| ==>
      r.path == Dest(r.images[k].folderPath, rootName)
    requires forall i :: 0 <= i < |r.children| ==> AllGood(r.children[i], rootName)
    ensures AllGood(r, rootName)
  {
  }

  // ---------------------------------------------------------------------------
  // Effects of adding an image
  // ---------------------------------------------------------------------------

  /** Adding an image does not change the folders. */
  lemma {:induction false} AddImagePaths(n: FolderNode, q: string, img: ImageFile)
    decreases n, 1
    ensures PathBag(AddImage(n, q, img)) == PathBag(n)
    ensures AddImage(n, q, img).path == n.path
  {
    if n.path != q {
      AddImageAllPaths(n.children, q, img);
    }
  }

  lemma {:induction false} AddImageAllPaths(ns: seq<FolderNode>, q: string, img: ImageFile)
    decreases ns, 0
    ensures PathBagAll(AddImageAll(ns, q, img)) == PathBagAll(ns)
  {
    if ns != [] {
      var front, last := ns[..|ns| - 1], ns[|ns| - 1];
      var r := AddImageAll(ns, q, img);
      assert r[..|ns| - 1] == AddImageAll(front, q, img);
      AddImageAllPaths(front, q, img);
      AddImagePaths(last, q, img);
    }
  }

  /** With the target path held at most once, adding an image adds it once to
      the collection when the target folder exists, and not at all otherwise. */
  lemma {:induction false} AddImageCollect(n: FolderNode, q: string, img: ImageFile)
    requires PathBag(n)[q] <= 1
    decreases n, 1
    ensures multiset(CollectAllImages(AddImage(n, q, img))) ==
      multiset(CollectAllImages(n)) + (if q in PathBag(n) then multiset{img} else multiset{})
  {
    if n.path != q {
      AddImageAllCollect(n.children, q, img);
    }
  }

  lemma {:induction false} AddImageAllCollect(ns: seq<FolderNode>, q: string, img: ImageFile)
    requires PathBagAll(ns)[q] <= 1
    decreases ns, 0
    ensures multiset(CollectAll(AddImageAll(ns, q, img))) ==
      multiset(CollectAll(ns)) + (if q in PathBagAll(ns) then multiset{img} else multiset{})
  {
    if ns != [] {
      var front, last := ns[..|ns| - 1], ns[|ns| - 1];
      var r := AddImageAll(ns, q, img);
      var rf, rl := AddImageAll(front, q, img), AddImage(last, q, img);
      assert r[..|ns| - 1] == rf && r[|ns| - 1] == rl;
      assert PathBagAll(ns) == PathBagAll(front) + PathBag(last);
      AddImageAllCollect(front, q, img);
      AddImageCollect(last, q, img);
      ExtraSplits(PathBagAll(front), PathBag(last), q, true, img);
      SumOfParts(CollectAll(rf), CollectAllImages(rl), CollectAll(front), CollectAllImages(last),
        if q in PathBagAll(front) then multiset{img} else multiset{},
        if q in PathBag(last) then multiset{img} else multiset{});
    }
  }

  /** With the target path held at most once, adding an image adds it once to
      the images at that path and changes no other path's images. */
  lemma {:induction false} AddImageImagesAt(n: FolderNode, q: string, img: ImageFile, p: string)
    requires PathBag(n)[q] <= 1
    decreases n, 1
    ensures multiset(ImagesAt(AddImage(n, q, img), p)) ==
      multiset(ImagesAt(n, p)) + (if q == p && q in PathBag(n) then multiset{img} else multiset{})
  {
    var r := AddImage(n, q, img);
    if n.path != q {
      AddImageAllImagesAt(n.children, q, img, p);
      assert ImagesAt(r, p) == (if n.path == p then n.images else []) + ImagesAtAll(r.children, p);
      assert q in PathBag(n) <==> q in PathBagAll(n.children);
    } else if q == p {
      assert ImagesAt(r, p) == (n.images + [img]) + ImagesAtAll(n.children, p);
    } else {
      assert ImagesAt(r, p) == ImagesAt(n, p);
    }
  }

  lemma {:induction false} AddImageAllImagesAt(ns: seq<FolderNode>, q: string, img: ImageFile, p: string)
    requires PathBagAll(ns)[q] <= 1
    decreases ns, 0
    ensures multiset(ImagesAtAll(AddImageAll(ns, q, img), p)) ==
      multiset(ImagesAtAll(ns, p)) + (if q == p && q in PathBagAll(ns) then multiset{img} else multiset{})
  {
    if ns != [] {
      var front, last := ns[..|ns| - 1], ns[|ns| - 1];
      var r := AddImageAll(ns, q, img);
      var rf, rl := AddImageAll(front, q, img), AddImage(last, q, img);
      assert r[..|ns| - 1] == rf && r[|ns| - 1] == rl;
      assert PathBagAll(ns) == PathBagAll(front) + PathBag(last);
      AddImageAllImagesAt(front, q, img, p);
      AddImageImagesAt(last, q, img, p);
      ExtraSplits(PathBagAll(front), PathBag(last), q, q == p, img);
      SumOfParts(ImagesAtAll(rf, p), ImagesAt(rl, p), ImagesAtAll(front, p), ImagesAt(last, p),
        if q == p && q in PathBagAll(front) then multiset{img} else multiset{},
        if q == p && q in PathBag(last) then multiset{img} else multiset{});
    }
  }

  lemma SumOfParts(a: seq<ImageFile>, b: seq<ImageFile>, a0: seq<ImageFile>, b0: seq<ImageFile>,
                   ea: multiset<ImageFile>, eb: multiset<ImageFile>)
    requires multiset(a) == multiset(a0) + ea && multiset(b) == multiset(b0) + eb
    ensures multiset(a + b) == multiset(a0 + b0) + (ea + eb)
  {
  }

  lemma ExtraSplits(a: multiset<string>, b: multiset<string>, q: string, cond: bool, img: ImageFile)
    requires (a + b)[q] <= 1
    ensures (if cond && q in a + b then multiset{img} else multiset{}) ==
      (if cond && q in a then multiset{img} else multiset{}) + (if cond && q in b then multiset{img} else multiset{})
  {
  }

  /** Adding an image to the folder it belongs in keeps every node `Good`. */
  lemma {:induction false} AddImageGood(n: FolderNode, q: string, img: ImageFile, rootName: string)
    requires AllGood(n, rootName)
    requires q == Dest(img.folderPath, rootName)
    decreases n
    ensures AllGood(AddImage(n, q, img), rootName)
  {
    var r := AddImage(n, q, img);
    forall i | 0 <= i < |r.children| ensures AllGood(r.children[i], rootName) {
      if n.path != q {
        AddImageGood(n.children[i], q, img, rootName);
      }
    }
    forall k | 0 <= k < |r.images|
      ensures r.path == Dest(r.images[k].folderPath, rootName)
    {
      if k < |n.images| {
        assert r.images[k] == n.images[k];
      }
    }
    GoodOfParts(n, r, rootName);
  }

  // ---------------------------------------------------------------------------
  // Reading facts off a tree whose nodes are all Good
  // ---------------------------------------------------------------------------

  /** Every folder other than the root has a '/' in its path. */
  lemma {:induction false} GoodPathHasSlash(n: FolderNode, rootName: string, p: string)
    requires AllGood(n, rootName)
    requires p in PathBag(n) && p != rootName
    decreases n, 1
    ensures '/' in p
  {
    if p == n.path {
      var k := |n.path| - |n.name| - 1;
      assert n.path[k..][0] == '/';
    } else {
      GoodAllPathHasSlash(n.children, rootName, p);
    }
  }

  lemma {:induction false} GoodAllPathHasSlash(ns: seq<FolderNode>, rootName: string, p: string)
    requires forall i :: 0 <= i < |ns| ==> AllGood(ns[i], rootName)
    requires p in PathBagAll(ns) && p != rootName
    decreases ns, 0
    ensures '/' in p
  {
    var front, last := ns[..|ns| - 1], ns[|ns| - 1];
    if p in PathBag(last) {
      GoodPathHasSlash(last, rootName, p);
    } else {
      GoodAllPathHasSlash(front, rootName, p);
    }
  }

  /** No folder other than the root has a path ending in '/': a created
      folder's path ends in its non-empty, '/'-free name. */
  lemma {:induction false} GoodNoSlashEnd(n: FolderNode, rootName: string, p: string)
    requires AllGood(n, rootName)
    requires p in PathBag(n) && p != rootName
    decreases n, 1
    ensures |p| > 0 && p[|p| - 1] != '/'
  {
    if p == n.path {
      assert n.path[|n.path| - 1] == n.name[|n.name| - 1];
    } else {
      GoodAllNoSlashEnd(n.children, rootName, p);
    }
  }

  lemma {:induction false} GoodAllNoSlashEnd(ns: seq<FolderNode>, rootName: string, p: string)
    requires forall i :: 0 <= i < |ns| ==> AllGood(ns[i], rootName)
    requires p in PathBagAll(ns) && p != rootName
    decreases ns, 0
    ensures |p| > 0 && p[|p| - 1] != '/'
  {
    var front, last := ns[..|ns| - 1], ns[|ns| - 1];
    if p in PathBag(last) {
      GoodNoSlashEnd(last, rootName, p);
    } else {
      GoodAllNoSlashEnd(front, rootName, p);
    }
  }

  /** An image is only ever held by the folder `Dest` names. */
  lemma {:induction false} GoodImagesAt(n: FolderNode, rootName: string, p: string, x: ImageFile)
    requires AllGood(n, rootName)
    requires x in ImagesAt(n, p)
    decreases n, 1
    ensures p == Dest(x.folderPath, rootName)
  {
    if n.path == p && x in n.images {
      var k :| 0 <= k < |n.images| && n.images[k] == x;
    } else {
      GoodAllImagesAt(n.children, rootName, p, x);
    }
  }

  lemma {:induction false} GoodAllImagesAt(ns: seq<FolderNode>, rootName: string, p: string, x: ImageFile)
    requires forall i :: 0 <= i < |ns| ==> AllGood(ns[i], rootName)
    requires x in ImagesAtAll(ns, p)
    decreases ns, 0
    ensures p == Dest(x.folderPath, rootName)
  {
    var front, last := ns[..|ns| - 1], ns[|ns| - 1];
    if x in ImagesAt(last, p) {
      GoodImagesAt(last, rootName, p, x);
    } else {
      GoodAllImagesAt(front, rootName, p, x);
    }
  }

  // ---------------------------------------------------------------------------
  // getOrCreateFolder
  // ---------------------------------------------------------------------------

  /** What one `Walk` leaves behind: the invariant, the images untouched, no
      folder lost, and the final `current` a folder of the tree. */
  ghost predicate WalkOutcome(t: FolderNode, t1: FolderNode, current: string, rootName: string) {
    && Inv(t1, rootName)
    && Contains(t1, current)
    && CollectAllImages(t1) == CollectAllImages(t)
    && (forall p :: ImagesAt(t1, p) == ImagesAt(t, p))
    && PathBag(t) <= PathBag(t1)
  }

  /** The folder created for `parts[..i+1]` is `Good`: a non-root path ending
      in '/' and its non-empty name. */
  lemma NewFolderGood(parts: seq<string>, i: nat, rootName: string)
    requires 1 <= i < |parts| && parts[i] != ""
    requires forall j :: 0 <= j < |parts| ==> '/' !in parts[j]
    requires Join(parts[..i + 1], '/') != rootName
    ensures AllGood(NewFolder(Join(parts[..i + 1], '/'), parts[i]), rootName)
  {
    var partialPath := Join(parts[..i + 1], '/');
    assert parts[..i + 1] == parts[..i] + [parts[i]];
    JoinSnoc(parts[..i], parts[i], '/');
    assert partialPath[|partialPath| - |parts[i]| - 1..] == ['/'] + parts[i];
  }

  /** Adding a child under a present parent, with a path not yet in the tree,
      keeps every path unique. */
  lemma AddFreshChildUnique(t: FolderNode, current: string, c: FolderNode)
    requires UniquePaths(t) && Contains(t, current)
    requires c.children == [] && !Contains(t, c.path)
    ensures UniquePaths(AddChild(t, current, c))
    ensures Contains(AddChild(t, current, c), c.path)
    ensures PathBag(t) <= PathBag(AddChild(t, current, c))
  {
    var t1 := AddChild(t, current, c);
    AddChildPaths(t, current, c);
    assert PathBag(c) == multiset{c.path};
    forall p | p in PathBag(t1) ensures PathBag(t1)[p] == 1 {
      if p == c.path {
        assert PathBag(t)[p] == 0;
      } else {
        assert p in PathBag(t);
      }
    }
  }

  /** Creating the folder for `parts[..i+1]` under `current` keeps the
      invariant and adds exactly that folder. */
  lemma CreateFolderFacts(t: FolderNode, parts: seq<string>, i: nat, current: string, rootName: string)
    requires Inv(t, rootName) && Contains(t, current)
    requires 1 <= i < |parts| && parts[i] != ""
    requires forall j :: 0 <= j < |parts| ==> '/' !in parts[j]
    requires !Contains(t, Join(parts[..i + 1], '/'))
    ensures var partialPath := Join(parts[..i + 1], '/');
      WalkOutcome(t, AddChild(t, current, NewFolder(partialPath, parts[i])), partialPath, rootName)
  {
    var partialPath := Join(parts[..i + 1], '/');
    var c := NewFolder(partialPath, parts[i]);
    var t1 := AddChild(t, current, c);
    assert rootName in PathBag(t);
    NewFolderGood(parts, i, rootName);
    AddFreshChildUnique(t, current, c);
    AddChildGood(t, current, c, rootName);
    AddChildCollect(t, current, c);
    forall p ensures ImagesAt(t1, p) == ImagesAt(t, p) {
      AddChildImagesAt(t, current, c, p);
    }
  }

  lemma WalkOutcomeTrans(t: FolderNode, t1: FolderNode, t2: FolderNode, c1: string, c2: string, rootName: string)
    requires WalkOutcome(t, t1, c1, rootName) && WalkOutcome(t1, t2, c2, rootName)
    ensures WalkOutcome(t, t2, c2, rootName)
  {
  }

  /** The loop of `getOrCreateFolder` keeps the invariant, creates folders
      without moving any image, and ends on a folder of the tree. */
  lemma {:induction false} WalkFacts(t: FolderNode, parts: seq<string>, i: nat, current: string, rootName: string)
    requires Inv(t, rootName) && Contains(t, current)
    requires 1 <= i <= |parts|
    requires forall j :: 0 <= j < |parts| ==> '/' !in parts[j]
    decreases |parts| - i
    ensures WalkOutcome(t, Walk(t, parts, i, current).0, Walk(t, parts, i, current).1, rootName)
  {
    if i < |parts| {
      var next := WalkStep(t, parts, i, current);
      var res := Walk(next.0, parts, i + 1, next.1);
      assert Walk(t, parts, i, current) == res;
      WalkStepFacts(t, parts, i, current, rootName);
      WalkFacts(next.0, parts, i + 1, next.1, rootName);
      WalkOutcomeTrans(t, next.0, res.0, next.1, res.1, rootName);
    }
  }

  /** When the last component is not empty, the loop ends on the folder of the whole path. */
  lemma {:induction false} WalkEndsAtPath(t: FolderNode, parts: seq<string>, i: nat, current: string)
    requires 1 <= i < |parts|
    requires parts[|parts| - 1] != ""
    decreases |parts| - i
    ensures Walk(t, parts, i, current).1 == Join(parts, '/')
  {
    var next := WalkStep(t, parts, i, current);
    WalkUnfold(t, parts, i, current);
    if i + 1 < |parts| {
      WalkEndsAtPath(next.0, parts, i + 1, next.1);
    } else {
      assert parts[..i + 1] == parts;
    }
  }

  /** A prefix with an empty last part ends in '/'. */
  lemma EmptyPartEndsInSlash(parts: seq<string>, i: nat)
    requires 1 <= i < |parts| && parts[i] == ""
    ensures var partialPath := Join(parts[..i + 1], '/');
      |partialPath| > 0 && partialPath[|partialPath| - 1] == '/'
  {
    assert parts[..i + 1] == parts[..i] + [parts[i]];
    JoinSnoc(parts[..i], parts[i], '/');
  }

  /** One iteration moves `current` as `Landing` says, whatever the tree holds. */
  lemma WalkStepLands(t: FolderNode, parts: seq<string>, i: nat, current: string, rootName: string)
    requires Inv(t, rootName)
    requires 1 <= i < |parts|
    ensures var partialPath := Join(parts[..i + 1], '/');
      WalkStep(t, parts, i, current).1 ==
        if parts[i] != "" || partialPath == rootName then partialPath else current
  {
    var partialPath := Join(parts[..i + 1], '/');
    if parts[i] == "" && partialPath != rootName {
      EmptyPartEndsInSlash(parts, i);
      if Contains(t, partialPath) {
        GoodNoSlashEnd(t, rootName, partialPath);
      }
    } else if parts[i] == "" {
      assert Contains(t, rootName);
    }
  }

  /** The loop is one iteration followed by the rest of the loop. */
  lemma WalkUnfold(t: FolderNode, parts: seq<string>, i: nat, current: string)
    requires 1 <= i < |parts|
    ensures Walk(t, parts, i, current) ==
      Walk(WalkStep(t, parts, i, current).0, parts, i + 1, WalkStep(t, parts, i, current).1)
  {
  }

  /** The loop ends where `Landing` says: the folders already built make no difference. */
  lemma {:induction false} WalkLands(t: FolderNode, parts: seq<string>, i: nat, current: string, rootName: string)
    requires Inv(t, rootName) && Contains(t, current)
    requires 1 <= i <= |parts|
    requires forall j :: 0 <= j < |parts| ==> '/' !in parts[j]
    decreases |parts| - i
    ensures Walk(t, parts, i, current).1 == Landing(parts, i, current, rootName)
  {
    if i < |parts| {
      var next := WalkStep(t, parts, i, current);
      WalkUnfold(t, parts, i, current);
      WalkStepFacts(t, parts, i, current, rootName);
      WalkStepLands(t, parts, i, current, rootName);
      WalkLands(next.0, parts, i + 1, next.1, rootName);
    }
  }

  /** One iteration keeps the invariant. */
  lemma WalkStepFacts(t: FolderNode, parts: seq<string>, i: nat, current: string, rootName: string)
    requires Inv(t, rootName) && Contains(t, current)
    requires 1 <= i < |parts|
    requires forall j :: 0 <= j < |parts| ==> '/' !in parts[j]
    ensures WalkOutcome(t, WalkStep(t, parts, i, current).0, WalkStep(t, parts, i, current).1, rootName)
  {
    var partialPath := Join(parts[..i + 1], '/');
    if !Contains(t, partialPath) && parts[i] != "" {
      CreateFolderFacts(t, parts, i, current, rootName);
    }
  }

  /** `getOrCreateFolder` keeps the invariant, creates folders without moving
      any image, returns an existing folder's path as is, and always returns
      the folder `Dest` names, whatever folders the tree already holds. */
  lemma GetOrCreateFolderFacts(t: FolderNode, folderPath: string, rootName: string)
    requires Inv(t, rootName)
    ensures WalkOutcome(t, GetOrCreateFolder(t, folderPath).0, GetOrCreateFolder(t, folderPath).1, rootName)
    ensures Contains(t, folderPath) ==> GetOrCreateFolder(t, folderPath) == (t, folderPath)
    ensures GetOrCreateFolder(t, folderPath).1 == Dest(folderPath, rootName)
  {
    if Contains(t, folderPath) {
      ExistingFolder(t, folderPath, rootName);
    } else {
      MissingFolder(t, folderPath, rootName);
    }
  }

  /** A folder already in the tree is returned as it is. */
  lemma ExistingFolder(t: FolderNode, folderPath: string, rootName: string)
    requires Inv(t, rootName) && Contains(t, folderPath)
    ensures WalkOutcome(t, t, folderPath, rootName)
    ensures folderPath == Dest(folderPath, rootName)
  {
    if folderPath != rootName {
      GoodPathHasSlash(t, rootName, folderPath);
      GoodNoSlashEnd(t, rootName, folderPath);
      SplitLastPart(folderPath, '/');
    }
  }

  /** A folder not yet in the tree is reached by the loop over its parts. */
  lemma MissingFolder(t: FolderNode, folderPath: string, rootName: string)
    requires Inv(t, rootName) && !Contains(t, folderPath)
    ensures WalkOutcome(t, GetOrCreateFolder(t, folderPath).0, GetOrCreateFolder(t, folderPath).1, rootName)
    ensures GetOrCreateFolder(t, folderPath).1 == Dest(folderPath, rootName)
  {
    var parts := Split(folderPath, '/');
    assert GetOrCreateFolder(t, folderPath) == Walk(t, parts, 1, t.path);
    assert Contains(t, t.path);
    WalkFacts(t, parts, 1, t.path, rootName);
    WalkLands(t, parts, 1, t.path, rootName);
  }

  // ---------------------------------------------------------------------------
  // buildFolderTree
  // ---------------------------------------------------------------------------

  /** One iteration keeps the invariant, adds the image to the tree once,
      moves no image already placed, and puts the image in the folder `Dest`
      names. */
  lemma PlaceImageFacts(t: FolderNode, img: ImageFile, rootName: string)
    requires Inv(t, rootName)
    ensures Inv(PlaceImage(t, img), rootName)
    ensures multiset(CollectAllImages(PlaceImage(t, img))) == multiset(CollectAllImages(t)) + multiset{img}
    ensures forall p, x :: x in ImagesAt(t, p) ==> x in ImagesAt(PlaceImage(t, img), p)
    ensures img in ImagesAt(PlaceImage(t, img), Dest(img.folderPath, rootName))
  {
    var res := GetOrCreateFolder(t, img.folderPath);
    GetOrCreateFolderFacts(t, img.folderPath, rootName);
    PlaceInFolder(t, res.0, res.1, img, rootName);
    assert PlaceImage(t, img) == AddImage(res.0, res.1, img);
  }

  lemma PlaceInFolder(t: FolderNode, t1: FolderNode, folder: string, img: ImageFile, rootName: string)
    requires WalkOutcome(t, t1, folder, rootName)
    requires folder == Dest(img.folderPath, rootName)
    ensures var t2 := AddImage(t1, folder, img);
      && Inv(t2, rootName)
      && multiset(CollectAllImages(t2)) == multiset(CollectAllImages(t)) + multiset{img}
      && (forall p, x :: x in ImagesAt(t, p) ==> x in ImagesAt(t2, p))
      && img in ImagesAt(t2, Dest(img.folderPath, rootName))
  {
    PlaceInFolderInv(t1, folder, img, rootName);
    PlaceInFolderCollect(t1, folder, img, rootName);
    var t2 := AddImage(t1, folder, img);
    assert PathBag(t1)[folder] == 1;
    forall p, x | x in ImagesAt(t, p) ensures x in ImagesAt(t2, p) {
      assert ImagesAt(t1, p) == ImagesAt(t, p);
      PlaceInFolderKeeps(t1, folder, img, p, x);
    }
    PlaceInFolderAdds(t1, folder, img);
  }

  lemma PlaceInFolderAdds(t1: FolderNode, folder: string, img: ImageFile)
    requires PathBag(t1)[folder] == 1
    ensures img in ImagesAt(AddImage(t1, folder, img), folder)
  {
    var after := ImagesAt(AddImage(t1, folder, img), folder);
    AddImageImagesAt(t1, folder, img, folder);
    assert img in multiset(after);
  }

  lemma PlaceInFolderInv(t1: FolderNode, folder: string, img: ImageFile, rootName: string)
    requires Inv(t1, rootName)
    requires folder == Dest(img.folderPath, rootName)
    ensures Inv(AddImage(t1, folder, img), rootName)
  {
    AddImagePaths(t1, folder, img);
    AddImageGood(t1, folder, img, rootName);
  }

  lemma PlaceInFolderCollect(t1: FolderNode, folder: string, img: ImageFile, rootName: string)
    requires Inv(t1, rootName) && Contains(t1, folder)
    ensures multiset(CollectAllImages(AddImage(t1, folder, img))) == multiset(CollectAllImages(t1)) + multiset{img}
  {
    AddImageCollect(t1, folder, img);
  }

  lemma PlaceInFolderKeeps(t1: FolderNode, folder: string, img: ImageFile, p: string, x: ImageFile)
    requires PathBag(t1)[folder] <= 1
    requires x in ImagesAt(t1, p)
    ensures x in ImagesAt(AddImage(t1, folder, img), p)
  {
    var before, after := ImagesAt(t1, p), ImagesAt(AddImage(t1, folder, img), p);
    AddImageImagesAt(t1, folder, img, p);
    assert x in multiset(before);
    assert multiset(before) <= multiset(after);
    assert x in multiset(after);
  }

  /** The loop invariant of `buildFolderTree`: the tree is valid, holds every
      image read so far once, and each in its `Dest` folder. */
  lemma {:induction false} BuildFacts(images: seq<ImageFile>, rootName: string)
    decreases |images|
    ensures BuildOk(images, BuildFolderTree(images, rootName), rootName)
  {
    if images == [] {
      RootNodeInv(rootName);
    } else {
      BuildFacts(images[..|images| - 1], rootName);
      BuildStep(images, rootName);
    }
  }

  /** What holds after the loop has read `images`. */
  ghost predicate BuildOk(images: seq<ImageFile>, t: FolderNode, rootName: string) {
    && Inv(t, rootName)
    && multiset(CollectAllImages(t)) == multiset(images)
    && (forall k :: 0 <= k < |images| ==>
          images[k] in ImagesAt(t, Dest(images[k].folderPath, rootName)))
  }

  lemma BuildStep(images: seq<ImageFile>, rootName: string)
    requires |images| > 0
    requires BuildOk(images[..|images| - 1], BuildFolderTree(images[..|images| - 1], rootName), rootName)
    ensures BuildOk(images, BuildFolderTree(images, rootName), rootName)
  {
    var front, img := images[..|images| - 1], images[|images| - 1];
    var t := BuildFolderTree(front, rootName);
    assert BuildFolderTree(images, rootName) == PlaceImage(t, img);
    PlaceImageFacts(t, img, rootName);
    SnocBag(images);
    BuildKeepsPlaced(images, t, PlaceImage(t, img), rootName);
  }

  lemma SnocBag(images: seq<ImageFile>)
    requires |images| > 0
    ensures multiset(images) == multiset(images[..|images| - 1]) + multiset{images[|images| - 1]}
  {
    assert images == images[..|images| - 1] + [images[|images| - 1]];
  }

  lemma RootNodeInv(rootName: string)
    ensures BuildOk([], RootNode(rootName), rootName)
  {
    assert PathBag(RootNode(rootName)) == multiset{rootName};
  }

  lemma BuildKeepsPlaced(images: seq<ImageFile>, t: FolderNode, t2: FolderNode, rootName: string)
    requires |images| > 0
    requires forall k :: 0 <= k < |images| - 1 ==>
      images[..|images| - 1][k] in ImagesAt(t, Dest(images[k].folderPath, rootName))
    requires forall p, x :: x in ImagesAt(t, p) ==> x in ImagesAt(t2, p)
    requires images[|images| - 1] in ImagesAt(t2, Dest(images[|images| - 1].folderPath, rootName))
    ensures forall k :: 0 <= k < |images| ==>
      images[k] in ImagesAt(t2, Dest(images[k].folderPath, rootName))
  {
    forall k | 0 <= k < |images| - 1
      ensures images[k] in ImagesAt(t2, Dest(images[k].folderPath, rootName))
    {
      assert images[..|images| - 1][k] == images[k];
    }
  }

  /** The root of a built tree is the expanded folder named `rootName`. */
  lemma BuildFolderTreeRoot(images: seq<ImageFile>, rootName: string)
    ensures BuildFolderTree(images, rootName).id == GenerateId(rootName)
    ensures BuildFolderTree(images, rootName).name == rootName
    ensures BuildFolderTree(images, rootName).path == rootName
    ensures BuildFolderTree(images, rootName).isExpanded
  {
    BuildFacts(images, rootName);
  }

  /** Every image given is in the tree exactly as often as it was given, so
      counting and collecting the root's subtree both see all of them. */
  lemma BuildFolderTreeKeepsEveryImage(images: seq<ImageFile>, rootName: string)
    ensures multiset(CollectAllImages(BuildFolderTree(images, rootName))) == multiset(images)
    ensures CountImagesInSubtree(BuildFolderTree(images, rootName)) == |images|
  {
    var t := BuildFolderTree(images, rootName);
    BuildFacts(images, rootName);
    CountIsCollectLength(t);
    assert |CollectAllImages(t)| == |multiset(CollectAllImages(t))|;
  }

  /** Each folder is created once: no two nodes of the tree share a path, and
      every node other than the root is a collapsed folder whose name is the
      last component of its path and whose id is the hash of its path. */
  lemma BuildFolderTreeFolders(images: seq<ImageFile>, rootName: string)
    ensures UniquePaths(BuildFolderTree(images, rootName))
    ensures AllGood(BuildFolderTree(images, rootName), rootName)
  {
    BuildFacts(images, rootName);
  }

  /** Every image sits in the folder `Dest` names for its `folderPath`, and no
      folder holds it anywhere else. So a path with no '/' goes to the root, a
      path with a non-empty last part to the folder with exactly that path, and
      a path such as "a/b/" to where "a/b" goes. */
  lemma BuildFolderTreePlacesImages(images: seq<ImageFile>, rootName: string)
    ensures forall k :: 0 <= k < |images| ==>
      images[k] in ImagesAt(BuildFolderTree(images, rootName), Dest(images[k].folderPath, rootName))
    ensures forall p, x :: x in ImagesAt(BuildFolderTree(images, rootName), p) ==>
      p == Dest(x.folderPath, rootName)
  {
    var t := BuildFolderTree(images, rootName);
    BuildFacts(images, rootName);
    forall p, x | x in ImagesAt(t, p)
      ensures p == Dest(x.folderPath, rootName)
    {
      GoodImagesAt(t, rootName, p, x);
    }
  }

  // ---------------------------------------------------------------------------
  // How folders nest
  // ---------------------------------------------------------------------------

  /** Each child's path is its parent's path, a '/', and the child's name, and
      that name holds no '/': folders nest exactly as their paths say. */
  predicate Nested(n: FolderNode)
    decreases n
  {
    forall i :: 0 <= i < |n.children| ==>
      && n.children[i].path == n.path + ['/'] + n.children[i].name
      && '/' !in n.children[i].name
      && Nested(n.children[i])
  }

  /** Some node of the subtree with path `p` has a child with path `q`. */
  predicate HasChild(n: FolderNode, p: string, q: string)
    decreases n
  {
    || (n.path == p && exists i :: 0 <= i < |n.children| && n.children[i].path == q)
    || (exists i :: 0 <= i < |n.children| && HasChild(n.children[i], p, q))
  }

  /** No folder has two children with the same name, at any depth. */
  predicate DistinctSiblingNames(n: FolderNode)
    decreases n
  {
    && (forall i, j :: 0 <= i < j < |n.children| ==> n.children[i].name != n.children[j].name)
    && (forall i :: 0 <= i < |n.children| ==> DistinctSiblingNames(n.children[i]))
  }

  /** The path up to its last '/'. */
  function ParentPath(q: string): string {
    var k := LastIndexOf(q, '/');
    if k < 0 then q else q[..k]
  }

  /** A `folderPath` made of the root's name and then non-empty components,
      such as "Root", "Root/a" or "Root/a/b", as the directory scan produces. */
  predicate WellFormedPath(folderPath: string, rootName: string) {
    var parts := Split(folderPath, '/');
    parts[0] == rootName && forall j :: 1 <= j < |parts| ==> parts[j] != ""
  }

  /** The paths the loop of `getOrCreateFolder` visits for `parts`: the first
      two components joined, the first three, and so on up to all of them. */
  function PartPrefixes(parts: seq<string>): set<string> {
    set i | 1 <= i < |parts| :: PrefixPath(parts, i)
  }

  /** The path made of the first `i + 1` components. */
  function PrefixPath(parts: seq<string>, i: nat): string
    requires i < |parts|
  {
    Join(parts[..i + 1], '/')
  }

  /** The folders `getOrCreateFolder(folderMap, folderPath, root)` may create. */
  function Prefixes(folderPath: string): set<string> {
    PartPrefixes(Split(folderPath, '/'))
  }

  lemma JoinPrefixStep(parts: seq<string>, i: nat)
    requires 1 <= i < |parts|
    ensures Join(parts[..i + 1], '/') == Join(parts[..i], '/') + ['/'] + parts[i]
  {
    assert parts[..i + 1] == parts[..i] + [parts[i]];
    JoinSnoc(parts[..i], parts[i], '/');
  }

  /** The parent of `p/name` is `p` when the name holds no '/'. */
  lemma ParentOfChildPath(p: string, name: string)
    requires '/' !in name
    ensures ParentPath(p + ['/'] + name) == p
  {
    var q := p + ['/'] + name;
    var k := LastIndexOf(q, '/');
    assert q[|p|] == '/';
    assert q[|p|] in q;
    assert forall j :: |p| < j < |q| ==> q[j] != '/' by {
      forall j | |p| < j < |q| ensures q[j] != '/' {
        assert q[j] == name[j - |p| - 1];
      }
    }
    assert forall j :: k < j < |q| ==> q[j] != '/' by {
      forall j | k < j < |q| ensures q[j] != '/' {
        assert q[j] == q[k + 1..][j - k - 1];
      }
    }
    assert k == |p|;
    assert q[..k] == p;
  }

  // Nesting is kept by every update

  /** Adding a child whose path extends the parent's path by its name keeps
      the nesting. */
  lemma {:induction false} AddChildNested(n: FolderNode, parent: string, c: FolderNode)
    requires Nested(n) && Nested(c)
    requires c.path == parent + ['/'] + c.name && '/' !in c.name
    decreases n
    ensures Nested(AddChild(n, parent, c))
  {
    var r := AddChild(n, parent, c);
    if n.path != parent {
      forall i | 0 <= i < |r.children|
        ensures && r.children[i].path == r.path + ['/'] + r.children[i].name
                && '/' !in r.children[i].name
                && Nested(r.children[i])
      {
        AddChildNested(n.children[i], parent, c);
      }
    } else {
      assert r.children == n.children + [c];
    }
  }

  /** Adding an image changes no folder, so it keeps the nesting. */
  lemma {:induction false} AddImageNested(n: FolderNode, q: string, img: ImageFile)
    requires Nested(n)
    decreases n
    ensures Nested(AddImage(n, q, img))
  {
    var r := AddImage(n, q, img);
    if n.path != q {
      forall i | 0 <= i < |r.children|
        ensures && r.children[i].path == r.path + ['/'] + r.children[i].name
                && '/' !in r.children[i].name
                && Nested(r.children[i])
      {
        AddImageNested(n.children[i], q, img);
      }
    }
  }

  /** On a well-formed path, `current` is always the folder of the components
      read so far, so each folder is created under its parent. */
  lemma {:induction false} WalkNested(t: FolderNode, parts: seq<string>, i: nat, current: string)
    requires Nested(t)
    requires 1 <= i <= |parts|
    requires current == Join(parts[..i], '/')
    requires forall j :: 0 <= j < |parts| ==> '/' !in parts[j]
    requires forall j :: 1 <= j < |parts| ==> parts[j] != ""
    decreases |parts| - i
    ensures Nested(Walk(t, parts, i, current).0)
  {
    if i < |parts| {
      var next := WalkStep(t, parts, i, current);
      WalkUnfold(t, parts, i, current);
      WalkNestedStep(t, parts, i, current);
      WalkNested(next.0, parts, i + 1, next.1);
    }
  }

  /** One iteration on a well-formed path creates the next folder under its
      parent and moves `current` to it. */
  lemma WalkNestedStep(t: FolderNode, parts: seq<string>, i: nat, current: string)
    requires Nested(t)
    requires 1 <= i < |parts|
    requires current == Join(parts[..i], '/')
    requires '/' !in parts[i] && parts[i] != ""
    ensures Nested(WalkStep(t, parts, i, current).0)
    ensures WalkStep(t, parts, i, current).1 == Join(parts[..i + 1], '/')
  {
    JoinPrefixStep(parts, i);
    var partialPath := Join(parts[..i + 1], '/');
    if !Contains(t, partialPath) {
      AddChildNested(t, current, NewFolder(partialPath, parts[i]));
    }
  }

  lemma GetOrCreateFolderNested(t: FolderNode, folderPath: string)
    requires Nested(t) && WellFormedPath(folderPath, t.path)
    ensures Nested(GetOrCreateFolder(t, folderPath).0)
  {
    if !Contains(t, folderPath) {
      var parts := Split(folderPath, '/');
      assert parts[..1] == [parts[0]];
      WalkNested(t, parts, 1, t.path);
    }
  }

  lemma PlaceImageNested(t: FolderNode, img: ImageFile)
    requires Nested(t) && WellFormedPath(img.folderPath, t.path)
    ensures Nested(PlaceImage(t, img))
  {
    var res := GetOrCreateFolder(t, img.folderPath);
    GetOrCreateFolderNested(t, img.folderPath);
    AddImageNested(res.0, res.1, img);
  }

  lemma {:induction false} BuildNested(images: seq<ImageFile>, rootName: string)
    requires forall k :: 0 <= k < |images| ==> WellFormedPath(images[k].folderPath, rootName)
    decreases |images|
    ensures Nested(BuildFolderTree(images, rootName))
  {
    if images != [] {
      var front := images[..|images| - 1];
      assert forall k :: 0 <= k < |front| ==> front[k] == images[k];
      BuildNested(front, rootName);
      PlaceImageNested(BuildFolderTree(front, rootName), images[|images| - 1]);
    }
  }

  // Reading the hierarchy off a nested tree

  lemma {:induction false} PathBagAllHas(ns: seq<FolderNode>, i: nat)
    requires i < |ns|
    decreases |ns|
    ensures PathBag(ns[i]) <= PathBagAll(ns)
  {
    if i < |ns| - 1 {
      PathBagAllHas(ns[..|ns| - 1], i);
    }
  }

  lemma PathBagAllHasTwo(ns: seq<FolderNode>, i: nat, j: nat)
    requires i < j < |ns|
    ensures PathBag(ns[i]) + PathBag(ns[j]) <= PathBagAll(ns)
  {
    if j == |ns| - 1 {
      PathBagAllHas(ns[..|ns| - 1], i);
    } else {
      PathBagAllHasTwo(ns[..|ns| - 1], i, j);
    }
  }

  lemma {:induction false} InPathBagAll(ns: seq<FolderNode>, q: string) returns (i: nat)
    requires q in PathBagAll(ns)
    decreases |ns|
    ensures i < |ns| && q in PathBag(ns[i])
  {
    if q in PathBag(ns[|ns| - 1]) {
      i := |ns| - 1;
    } else {
      i := InPathBagAll(ns[..|ns| - 1], q);
    }
  }

  /** A subtree of a tree without repeated paths has none either. */
  lemma UniqueSub(c: FolderNode, n: FolderNode)
    requires PathBag(c) <= PathBag(n) && UniquePaths(n)
    ensures UniquePaths(c)
  {
    forall p | p in PathBag(c) ensures PathBag(c)[p] == 1 {
      assert p in PathBag(n);
    }
  }

  /** With paths unique and folders nested, two children of one folder have
      different paths and therefore different names. */
  lemma {:induction false} NestedUniqueSiblings(n: FolderNode)
    requires Nested(n) && UniquePaths(n)
    decreases n
    ensures DistinctSiblingNames(n)
  {
    forall i, j | 0 <= i < j < |n.children|
      ensures n.children[i].name != n.children[j].name
    {
      var a, b := n.children[i], n.children[j];
      PathBagAllHasTwo(n.children, i, j);
      assert multiset{a.path} + multiset{b.path} <= PathBag(n);
      assert PathBag(n)[a.path] == 1;
      assert a.path != b.path;
    }
    forall i | 0 <= i < |n.children| ensures DistinctSiblingNames(n.children[i]) {
      PathBagAllHas(n.children, i);
      UniqueSub(n.children[i], n);
      NestedUniqueSiblings(n.children[i]);
    }
  }

  /** In a nested tree every folder other than the root hangs under the
      folder whose path is its own up to the last '/'. */
  lemma {:induction false} NestedParent(n: FolderNode, q: string)
    requires Nested(n) && q in PathBag(n) && q != n.path
    decreases n
    ensures HasChild(n, ParentPath(q), q)
  {
    var i := InPathBagAll(n.children, q);
    var c := n.children[i];
    if q == c.path {
      ParentOfChildPath(n.path, c.name);
    } else {
      NestedParent(c, q);
    }
  }

  /** Both ends of a parent-child link are folders of the tree. */
  lemma {:induction false} HasChildContains(n: FolderNode, p: string, q: string)
    requires HasChild(n, p, q)
    decreases n
    ensures Contains(n, p) && Contains(n, q)
  {
    if n.path == p && exists i :: 0 <= i < |n.children| && n.children[i].path == q {
      var i :| 0 <= i < |n.children| && n.children[i].path == q;
      PathBagAllHas(n.children, i);
    } else {
      var i :| 0 <= i < |n.children| && HasChild(n.children[i], p, q);
      HasChildContains(n.children[i], p, q);
      PathBagAllHas(n.children, i);
    }
  }

  /** In a nested tree rooted at `parts[0]`, the folder for the first `i + 1`
      components hangs under the folder for the first `i`. */
  lemma ChainStep(t: FolderNode, parts: seq<string>, i: nat)
    requires 1 <= i < |parts|
    requires Nested(t) && t.path == parts[0]
    requires forall j :: 0 <= j < |parts| ==> '/' !in parts[j]
    requires Contains(t, PrefixPath(parts, i))
    ensures HasChild(t, PrefixPath(parts, i - 1), PrefixPath(parts, i))
    ensures Contains(t, PrefixPath(parts, i - 1))
  {
    var p, q := PrefixPath(parts, i - 1), PrefixPath(parts, i);
    JoinPrefixStep(parts, i);
    assert q == p + ['/'] + parts[i];
    ParentOfChildPath(p, parts[i]);
    assert q[|p|] == '/';
    assert q != t.path by {
      assert '/' in q;
    }
    NestedParent(t, q);
    HasChildContains(t, p, q);
  }

  /** Repeating that step: the folder for the first `i + 1` components hangs
      from a chain of folders for the shorter prefixes, up to the root. */
  lemma {:induction false} ChainUp(t: FolderNode, parts: seq<string>, i: nat)
    requires 1 <= i < |parts|
    requires Nested(t) && t.path == parts[0]
    requires forall j :: 0 <= j < |parts| ==> '/' !in parts[j]
    requires Contains(t, PrefixPath(parts, i))
    decreases i
    ensures forall m :: 1 <= m <= i ==> HasChild(t, PrefixPath(parts, m - 1), PrefixPath(parts, m))
  {
    ChainStep(t, parts, i);
    if i > 1 {
      ChainUp(t, parts, i - 1);
    }
  }

  lemma {:induction false} ImagesAtContains(n: FolderNode, p: string, x: ImageFile)
    requires x in ImagesAt(n, p)
    decreases n, 1
    ensures Contains(n, p)
  {
    if n.path != p {
      ImagesAtAllContains(n.children, p, x);
    }
  }

  lemma {:induction false} ImagesAtAllContains(ns: seq<FolderNode>, p: string, x: ImageFile)
    requires x in ImagesAtAll(ns, p)
    decreases ns, 0
    ensures p in PathBagAll(ns)
  {
    var front, last := ns[..|ns| - 1], ns[|ns| - 1];
    if x in ImagesAt(last, p) {
      ImagesAtContains(last, p, x);
    } else {
      ImagesAtAllContains(front, p, x);
    }
  }

  /** The folder of a well-formed path that holds an image sits at the end of
      the chain of folders of the path's prefixes. */
  lemma ImageChain(t: FolderNode, img: ImageFile, rootName: string)
    requires Nested(t) && t.path == rootName
    requires WellFormedPath(img.folderPath, rootName)
    requires img in ImagesAt(t, Dest(img.folderPath, rootName))
    ensures var parts := Split(img.folderPath, '/');
      forall m :: 1 <= m < |parts| ==> HasChild(t, PrefixPath(parts, m - 1), PrefixPath(parts, m))
  {
    var parts := Split(img.folderPath, '/');
    if |parts| > 1 {
      ImagesAtContains(t, Dest(img.folderPath, rootName), img);
      JoinSplit(img.folderPath, '/');
      assert parts[..|parts|] == parts;
      assert PrefixPath(parts, |parts| - 1) == img.folderPath;
      ChainUp(t, parts, |parts| - 1);
    }
  }

  // ---------------------------------------------------------------------------
  // Which folders are created
  // ---------------------------------------------------------------------------

  /** Adding a child adds no path other than the child's own. */
  lemma {:induction false} AddChildPathsWithin(n: FolderNode, parent: string, c: FolderNode, p: string)
    requires p in PathBag(AddChild(n, parent, c))
    decreases n, 1
    ensures p in PathBag(n) || p in PathBag(c)
  {
    if n.path == parent {
      PathBagAllSnoc(n.children, c);
    } else if p != n.path {
      AddChildAllPathsWithin(n.children, parent, c, p);
    }
  }

  lemma {:induction false} AddChildAllPathsWithin(ns: seq<FolderNode>, parent: string, c: FolderNode, p: string)
    requires p in PathBagAll(AddChildAll(ns, parent, c))
    decreases ns, 0
    ensures p in PathBagAll(ns) || p in PathBag(c)
  {
    var front, last := ns[..|ns| - 1], ns[|ns| - 1];
    var r := AddChildAll(ns, parent, c);
    var rf, rl := AddChildAll(front, parent, c), AddChild(last, parent, c);
    assert r[..|ns| - 1] == rf && r[|ns| - 1] == rl;
    assert PathBagAll(ns) == PathBagAll(front) + PathBag(last);
    if p in PathBagAll(rf) {
      AddChildAllPathsWithin(front, parent, c, p);
    } else {
      AddChildPathsWithin(last, parent, c, p);
    }
  }

  /** One iteration creates at most the folder for `parts[..i+1]`. */
  lemma WalkStepWithin(t: FolderNode, parts: seq<string>, i: nat, current: string, p: string)
    requires 1 <= i < |parts|
    requires p in PathBag(WalkStep(t, parts, i, current).0)
    ensures p in PathBag(t) || p == PrefixPath(parts, i)
  {
    var partialPath := PrefixPath(parts, i);
    if !Contains(t, partialPath) && parts[i] != "" {
      AddChildPathsWithin(t, current, NewFolder(partialPath, parts[i]), p);
    }
  }

  lemma PrefixInParts(parts: seq<string>, i: nat)
    requires 1 <= i < |parts|
    ensures PrefixPath(parts, i) in PartPrefixes(parts)
  {
  }

  /** The loop creates only folders for prefixes of the path it walks. */
  lemma {:induction false} WalkWithin(t: FolderNode, parts: seq<string>, i: nat, current: string, p: string)
    requires 1 <= i <= |parts|
    requires p in PathBag(Walk(t, parts, i, current).0)
    decreases |parts| - i
    ensures p in PathBag(t) || p in PartPrefixes(parts)
  {
    if i < |parts| {
      var next := WalkStep(t, parts, i, current);
      WalkUnfold(t, parts, i, current);
      WalkWithin(next.0, parts, i + 1, next.1, p);
      WalkWithinStep(t, parts, i, current, p);
    }
  }

  /** What the rest of the loop may add, plus what one iteration adds, is still
      a prefix of the path. */
  lemma WalkWithinStep(t: FolderNode, parts: seq<string>, i: nat, current: string, p: string)
    requires 1 <= i < |parts|
    requires p in PathBag(WalkStep(t, parts, i, current).0) || p in PartPrefixes(parts)
    ensures p in PathBag(t) || p in PartPrefixes(parts)
  {
    if p in PathBag(WalkStep(t, parts, i, current).0) {
      WalkStepWithin(t, parts, i, current, p);
      PrefixInParts(parts, i);
    }
  }

  /** `getOrCreateFolder` adds no folder other than prefixes of `folderPath`. */
  lemma GetOrCreateFolderCreatesPrefixes(t: FolderNode, folderPath: string)
    ensures forall p :: p in PathBag(GetOrCreateFolder(t, folderPath).0) ==>
      p in PathBag(t) || p in Prefixes(folderPath)
  {
    forall p | p in PathBag(GetOrCreateFolder(t, folderPath).0)
      ensures p in PathBag(t) || p in Prefixes(folderPath)
    {
      if !Contains(t, folderPath) {
        WalkWithin(t, Split(folderPath, '/'), 1, t.path, p);
      }
    }
  }

  lemma {:induction false} BuildPathsWithin(images: seq<ImageFile>, rootName: string, p: string)
    requires p in PathBag(BuildFolderTree(images, rootName))
    decreases |images|
    ensures p == rootName || exists k :: 0 <= k < |images| && p in Prefixes(images[k].folderPath)
  {
    if images == [] {
      assert PathBag(RootNode(rootName)) == multiset{rootName};
    } else {
      var front, img := images[..|images| - 1], images[|images| - 1];
      var t := BuildFolderTree(front, rootName);
      var res := GetOrCreateFolder(t, img.folderPath);
      assert BuildFolderTree(images, rootName) == AddImage(res.0, res.1, img);
      AddImagePaths(res.0, res.1, img);
      GetOrCreateFolderCreatesPrefixes(t, img.folderPath);
      if p in PathBag(t) {
        BuildPathsWithin(front, rootName, p);
        if p != rootName {
          var k :| 0 <= k < |front| && p in Prefixes(front[k].folderPath);
          assert front[k] == images[k];
        }
      } else {
        assert p in Prefixes(images[|images| - 1].folderPath);
      }
    }
  }

  /** Every folder of a built tree is the root or a prefix of some image's
      `folderPath`; with well-formed paths, every such prefix is a folder. */
  lemma BuildFolderTreeFolderSet(images: seq<ImageFile>, rootName: string)
    ensures forall p :: Contains(BuildFolderTree(images, rootName), p) ==>
      p == rootName || exists k :: 0 <= k < |images| && p in Prefixes(images[k].folderPath)
    ensures (forall k :: 0 <= k < |images| ==> WellFormedPath(images[k].folderPath, rootName)) ==>
      forall k, p :: 0 <= k < |images| && p in Prefixes(images[k].folderPath) ==>
        Contains(BuildFolderTree(images, rootName), p)
  {
    var t := BuildFolderTree(images, rootName);
    forall p | Contains(t, p)
      ensures p == rootName || exists k :: 0 <= k < |images| && p in Prefixes(images[k].folderPath)
    {
      BuildPathsWithin(images, rootName, p);
    }
    if forall k :: 0 <= k < |images| ==> WellFormedPath(images[k].folderPath, rootName) {
      BuildFolderTreeChains(images, rootName);
      forall k, p | 0 <= k < |images| && p in Prefixes(images[k].folderPath)
        ensures Contains(t, p)
      {
        var parts := Split(images[k].folderPath, '/');
        var m :| 1 <= m < |parts| && p == PrefixPath(parts, m);
        HasChildContains(t, PrefixPath(parts, m - 1), p);
      }
    }
  }

  /** With every `folderPath` well formed, each image's path is a chain of
      folders from the root down: for "Root/a/b/c", "Root" has the child
      "Root/a", which has "Root/a/b", which has "Root/a/b/c". */
  lemma BuildFolderTreeChains(images: seq<ImageFile>, rootName: string)
    requires forall k :: 0 <= k < |images| ==> WellFormedPath(images[k].folderPath, rootName)
    ensures forall k, m :: 0 <= k < |images| && 1 <= m < |Split(images[k].folderPath, '/')| ==>
      HasChild(BuildFolderTree(images, rootName),
               PrefixPath(Split(images[k].folderPath, '/'), m - 1),
               PrefixPath(Split(images[k].folderPath, '/'), m))
  {
    var t := BuildFolderTree(images, rootName);
    BuildNested(images, rootName);
    BuildFolderTreePlacesImages(images, rootName);
    forall k | 0 <= k < |images|
      ensures var parts := Split(images[k].folderPath, '/');
        forall m :: 1 <= m < |parts| ==> HasChild(t, PrefixPath(parts, m - 1), PrefixPath(parts, m))
    {
      var parts := Split(images[k].folderPath, '/');
      assert WellPlaced(images[k].folderPath);
      ImageChain(t, images[k], rootName);
    }
  }

  /** With every `folderPath` well formed, folders nest as their paths say and
      no folder has two children with the same name. */
  lemma BuildFolderTreeNests(images: seq<ImageFile>, rootName: string)
    requires forall k :: 0 <= k < |images| ==> WellFormedPath(images[k].folderPath, rootName)
    ensures Nested(BuildFolderTree(images, rootName))
    ensures DistinctSiblingNames(BuildFolderTree(images, rootName))
  {
    BuildNested(images, rootName);
    BuildFolderTreeFolders(images, rootName);
    NestedUniqueSiblings(BuildFolderTree(images, rootName));
  }
}
