# Photo viewer core, modelled in Dafny

This project models the logic of a browser photo viewer. The viewer reads a
local directory, shows its images as a folder tree and a thumbnail grid, and
opens one image at a time in a full-screen viewer. The model covers the six
pieces of logic under the UI:

- **File filters** (`file_filters.dfy`):
  - `getFileExtension` and `isImageFile` over the eleven allow-listed extensions.
  - `generateId`: a 32-bit string hash over UTF-16 code units, printed in base 36 after `id_`.
- **Folder tree** (`tree_builder.dfy`):
  - `buildFolderTree`, `getOrCreateFolder`, `countImagesInSubtree` and `collectAllImages`.
  - The source's path-to-node `Map` is replaced by a search of an immutable tree by path. The invariant that no path occurs twice makes the two agree.
  - `tree_examples.dfy` proves the shapes the builder's unit tests check, for any folder names.
- **Load queue** (`load_queue.dfy`): `createLoadQueue` and `thumbnailQueue` as a state machine. A task is enqueued, or a running task settles (fulfilled or rejected).
- **Image cache** (`image_cache.dfy`): the LRU object-URL cache of `useImageCache`.
  - The JavaScript `Map` is an insertion-ordered sequence of pairs.
  - `Date.now()` is a logical clock.
  - Revocations are a log of the URLs handed to `URL.revokeObjectURL`.
- **Image helpers** (`image_loader.dfy`): `sortImages` on a stable sort (`sorting.dfy`), and `revokeImageUrl`.
- **Viewer** (`photo_viewer.dfy`): `PhotoViewer` as a state machine. It covers index navigation, the load effect that re-runs when the current image changes, the per-request `revoked` flag that drops late results, and the unmount cleanup.

Three files hold shared definitions:

- `types.dfy`: `Option` and the `ImageFile` record.
- `text.dfy`: the JavaScript string operations the code uses: `split` and `join` on one character, `lastIndexOf`, ASCII `toLowerCase` and `startsWith`.
- `sorting.dfy`: the stable insertion sort that stands in for `Array.prototype.sort`.

## Model

| member | source | states |
|---|---|---|
| Text.LastIndexOf | src/utils/fileFilters.ts:9-10 | The result is -1 exactly when the character is absent. Otherwise it is a position holding the character, with no later occurrence. |
| Text.ToLower | src/utils/fileFilters.ts:11 | Lower-casing keeps the length and folds only the ASCII capitals A-Z, each to its small letter. Every other character is kept. |
| Text.ToLowerIdempotent | src/utils/fileFilters.ts:11 | Lower-casing an already lower-cased string changes nothing. |
| Text.StartsWithIsPrefix | src/utils/imageLoader.ts:81 | A string starts with a prefix exactly when it is that prefix followed by the rest of the string. |
| Text.Split | src/utils/treeBuilder.ts:49 | Splitting on a separator gives at least one part, and no part contains the separator. There is exactly one part iff the separator does not occur. |
| Text.JoinSplit | src/utils/treeBuilder.ts:49-53 | Joining the parts of a split with the same separator gives back the string. |
| Text.SplitJoin | src/utils/treeBuilder.ts:49-53 | Splitting a join of separator-free parts gives back the parts. |
| Text.JoinSnoc | src/utils/treeBuilder.ts:53 | Joining one more part appends the separator and that part, so each prefix path extends the previous one. |
| FileFilters.GetFileExtension | src/utils/fileFilters.ts:8-12 | The extension is empty exactly when the name has no '.'. Otherwise it is the lower-cased suffix from the last '.', so it starts with '.' and holds no other '.'. |
| FileFilters.IsImageFileIffAllowedSuffix | src/utils/fileFilters.ts:19-22 | A name is an image file iff it ends, ignoring ASCII case, with one of the allow-listed extensions. |
| FileFilters.AllowListShaped | src/types/index.ts:46-58 | Each allow-listed extension is a '.' followed by at least one character and no other '.'. |
| FileFilters.ExtensionIgnoresCase | src/utils/fileFilters.ts:8-22 | Lower-casing a file name changes neither its extension nor whether it counts as an image. |
| FileFilters.ExtensionAt | src/utils/fileFilters.ts:8-12 | A name whose last '.' is at position i has the lower-cased suffix from i as its extension. |
| FileFilters.NoDotNoImage | src/utils/fileFilters.ts:10 | A name without a '.' has the empty extension and is never an image file. |
| FileFilters.IsImageFileEdgeCases | src/utils/fileFilters.test.ts:69-71 | The empty name is rejected; ".jpg" is accepted. |
| FileFilters.IsImageFileRejectsReadme | src/utils/fileFilters.test.ts:64-66 | "README", which has no extension, is rejected. |
| FileFilters.IsImageFileInFolder | src/utils/fileFilters.test.ts:72 | A name containing a folder part, "folder/photo.jpg", is accepted. |
| FileFilters.IsImageFileUpperCase | src/utils/fileFilters.test.ts:40 | "photo.JPG" is accepted. |
| FileFilters.ExtensionOfDottedName | src/utils/fileFilters.test.ts:15-17 | The extension of "my.photo.jpg" is ".jpg", taken from the last '.'. |
| FileFilters.IsImageFileRejectsPdf | src/utils/fileFilters.test.ts:56 | "doc.pdf" is rejected. |
| FileFilters.ToInt32 | src/utils/fileFilters.ts:48 | `hash \|= 0` gives a signed 32-bit integer congruent to its input modulo 2^32. |
| FileFilters.ToInt32Congruent | src/utils/fileFilters.ts:48 | Numbers congruent modulo 2^32 wrap to the same signed 32-bit integer. |
| FileFilters.CodeUnits | src/utils/fileFilters.ts:46 | A character gives one or two UTF-16 code units, each below 2^16. |
| FileFilters.Utf16 | src/utils/fileFilters.ts:45-46 | A string has at least as many code units as characters and at most twice as many, each below 2^16. |
| FileFilters.HashStep | src/utils/fileFilters.ts:47-48 | One step of the loop yields a signed 32-bit integer. |
| FileFilters.Hash | src/utils/fileFilters.ts:44-49 | The folded hash is a signed 32-bit integer. |
| FileFilters.Poly31Snoc | src/utils/fileFilters.ts:47 | Appending a code unit multiplies the unwrapped polynomial by 31 and adds the unit. |
| FileFilters.HashIsWrappedPolynomial | src/utils/fileFilters.ts:44-49 | Wrapping after every step gives the same hash as summing code unit × 31^(distance from the end) exactly and wrapping once. |
| FileFilters.HashStepIsWrappedPolynomial | src/utils/fileFilters.ts:47-48 | One step of the shift-subtract-or loop equals 31·hash + code unit, wrapped to a signed 32-bit integer. |
| FileFilters.HashPath | src/utils/fileFilters.ts:44-49 | The loop over the path's UTF-16 code units computes the polynomial hash: the sum of each code unit times 31 to the number of units after it, wrapped to a signed 32-bit integer. |
| FileFilters.ToBase36 | src/utils/fileFilters.ts:50 | The base-36 rendering is non-empty, uses only the digits 0-9 and a-z, and has no leading zero. |
| FileFilters.Base36RoundTrip | src/utils/fileFilters.ts:50 | Reading the base-36 rendering back gives the number. |
| FileFilters.GenerateId | src/utils/fileFilters.ts:43-51 | The id is "id_" followed by a non-empty numeral of base-36 digits with no leading zero. That numeral's value is the absolute value of the path's 32-bit hash, which is at most 2^31. |
| Sorting.SortBySorted | src/utils/imageLoader.ts:112-121 | Under a total preorder, the stable sort's output is ordered. |
| Sorting.SortByStable | src/utils/imageLoader.ts:112-121 | The stable sort keeps the input order among elements whose keys tie. |
| Sorting.FilterComplete | src/hooks/useImageCache.ts:59-61 | Filtering keeps every element that satisfies the test. Together with `Filter`'s own contract, the filter is exactly those elements. |
| ImageLoader.SortImages | src/utils/imageLoader.ts:108-124 | The result is a permutation of the input: the same length and multiset. An empty list sorts to an empty list. The field defaults to name and the direction to ascending, as in the source. |
| ImageLoader.AscendingIsSorted | src/utils/imageLoader.ts:112-122 | Ascending output is ordered by the chosen comparator. For names, this assumes `localeCompare` orders all strings consistently. |
| ImageLoader.SortAscendingByKey | src/utils/imageLoader.ts:116-119 | Sorting ascending by date or size gives non-decreasing `lastModified` or `size`. |
| ImageLoader.SortAscendingByName | src/utils/imageLoader.ts:114-115 | Sorting ascending by name gives each pair in an order `localeCompare` accepts. |
| ImageLoader.DefaultSortIsAscendingByName | src/utils/imageLoader.ts:108-116 | Called with only the images, the sort orders them by name, ascending. |
| ImageLoader.SortDescendingReversesAscending | src/utils/imageLoader.ts:123 | The descending result is the ascending one read backwards, so it is ordered the other way round. |
| ImageLoader.SortAscendingIsStable | src/utils/imageLoader.ts:112-122 | Images with equal sort keys keep their input order. |
| ImageLoader.RevokeImageUrl | src/utils/imageLoader.ts:80-84 | A URL is logged as revoked exactly when it starts with "blob:"; otherwise the log is unchanged. |
| ImageLoader.RevokeAll | src/utils/imageLoader.ts:80-84 | Revoking URLs one by one only appends to the log: the earlier entries stay, and at most one entry is added per URL. |
| ImageLoader.RevokeAllLogsBlobUrls | src/utils/imageLoader.ts:80-84 | Revoking a list of URLs one by one logs exactly its blob URLs, in order. |
| LoadQueue.CreateLoadQueue | src/utils/loadQueue.ts:21-25 | A new queue keeps the concurrency it was given, 4 when none is given. It has nothing running, waiting, started or settled, and no ids handed out. |
| LoadQueue.ThumbnailQueue | src/utils/loadQueue.ts:55 | The shared thumbnail queue allows 6 concurrent tasks and starts empty. |
| LoadQueue.RunNext | src/utils/loadQueue.ts:27-42 | With the limit reached or an empty queue, nothing changes. Otherwise the oldest waiting task leaves the queue and starts, and the counter goes up by one. |
| LoadQueue.Enqueue | src/utils/loadQueue.ts:44-49 | The task gets the next id, and the limit and recorded outcomes stay. When a slot is free and nothing waits, it starts at once and joins the running set. With the limit reached, it joins the back of the queue and nothing else starts. |
| LoadQueue.Finish | src/utils/loadQueue.ts:34-41 | A settled task leaves the running set, its outcome is recorded, and the counter goes down. If a slot opens and a task waits, the oldest waiting task starts. |
| LoadQueue.Step | src/utils/loadQueue.ts:27-49 | One event keeps the limit. An enqueue hands out one id and records no outcome. A settlement of a running task records its outcome. A settlement of a task that is not running changes nothing. |
| LoadQueue.Run | src/utils/loadQueue.ts:21-52 | A sequence of events keeps the limit, and the ids handed out grow by the number of enqueues in it. |
| LoadQueue.CreateValid | src/utils/loadQueue.ts:21-25 | A new queue satisfies the invariant: counter = running tasks ≤ limit, nothing waits while a slot is free, and tasks start in enqueue order. |
| LoadQueue.EnqueuePreservesValid | src/utils/loadQueue.ts:44-49 | Enqueueing keeps that invariant. |
| LoadQueue.FinishPreservesValid | src/utils/loadQueue.ts:34-41 | A task settling, by success or failure, keeps that invariant, and the settled task is no longer running. |
| LoadQueue.RunPreservesValid | src/utils/loadQueue.ts:21-52 | After any sequence of enqueues and settlements, the invariant holds. In particular, the running count never exceeds the concurrency. |
| LoadQueue.FailureOnlyAffectsItsOwnTask | src/utils/loadQueue.ts:36-41 | A rejected task frees its slot exactly as a fulfilled one does. Only its own recorded outcome differs. |
| LoadQueue.FinishStartsOldestWaiting | src/utils/loadQueue.ts:38-41 | When a task settles while others wait, the oldest waiting task starts at once. |
| LoadQueue.SingleSlotIsSequential | src/utils/loadQueue.test.ts:62-72 | With concurrency 1, at most one task runs, and every task started before the latest has already settled. |
| LoadQueue.TwoSlotsFourTasks | src/utils/loadQueue.test.ts:27-42 | Four tasks on a two-slot queue: two run (0 and 1) and two wait (2 and 3). |
| LoadQueue.DefaultQueueFiveTasks | src/utils/loadQueue.ts:21-49 | Five tasks on a queue created without a limit: four run (0 to 3) and the fifth waits. |
| ImageCache.MapGet | src/hooks/useImageCache.ts:41 | `Map.get` finds nothing exactly when the key is absent. Otherwise it returns the entry stored under that key. |
| ImageCache.MapSet | src/hooks/useImageCache.ts:51 | `Map.set` keeps keys unique. It overwrites a present key in place or appends a new one, and leaves every other key's entry alone. |
| ImageCache.MapDelete | src/hooks/useImageCache.ts:36 | `Map.delete` removes exactly that key and leaves every other key's entry alone. |
| ImageCache.GetCachedUrl | src/hooks/useImageCache.ts:40-47 | A miss exactly when the id is absent, and a miss changes nothing. A hit returns the stored URL and refreshes only that entry's access time. |
| ImageCache.GetCachedUrlKeepsValid | src/hooks/useImageCache.ts:40-47 | Reading keeps the cache invariant: unique keys, at most 200 entries, access times before the clock. |
| ImageCache.EmptyCache | src/hooks/useImageCache.ts:22 | The cache starts as an empty map that satisfies the cache invariant. |
| ImageCache.Victims | src/hooks/useImageCache.ts:29-33 | Over capacity, the entries chosen for eviction number exactly size − 200. |
| ImageCache.EvictOldest | src/hooks/useImageCache.ts:25-27 | At or below capacity, eviction changes nothing. |
| ImageCache.EvictOldestEvictsLeastRecentlyUsed | src/hooks/useImageCache.ts:25-38 | Over capacity, eviction leaves exactly 200 entries. It deletes size − 200 entries, none used more recently than any kept one. The kept entries are unchanged, and the victims' blob URLs are logged in order. |
| ImageCache.SetCachedUrl | src/hooks/useImageCache.ts:49-56 | After a store, keys stay unique and there are at most 200 entries. |
| ImageCache.SetCachedUrlKeepsEntry | src/hooks/useImageCache.ts:49-56 | A store keeps the invariant, and the entry just stored survives eviction: reading it back gives the URL. |
| ImageCache.SetCachedUrlOverwrite | src/hooks/useImageCache.ts:51-52 | Storing under a present id replaces its URL and access time. It evicts nothing and revokes nothing, not even the replaced URL. |
| ImageCache.SetCachedUrlBelowCapacity | src/hooks/useImageCache.ts:49-56 | Below capacity, a new id is added and nothing is evicted or revoked. |
| ImageCache.SetCachedUrlAtCapacity | src/hooks/useImageCache.ts:25-56 | At capacity, a new id evicts exactly one entry, one used no more recently than any other. That entry's URL goes through `revokeImageUrl`. |
| ImageCache.ClearCache | src/hooks/useImageCache.ts:58-64 | Clearing empties the map and logs every cached blob URL, in map order. |
| ImageCache.ClearCacheKeepsValid | src/hooks/useImageCache.ts:58-64 | Clearing leaves a valid, empty cache. |
| ImageCache.UnmountCleanup | src/hooks/useImageCache.ts:67-73 | The unmount cleanup logs every cached blob URL in map order, so no cached blob URL stays unrevoked. |
| TreeBuilder.RootNode | src/utils/treeBuilder.ts:14-21 | The root has the root name as name and path, no children or images, and is expanded. |
| TreeBuilder.NewFolder | src/utils/treeBuilder.ts:58-65 | A created folder has the partial path and part name, no children or images, and is collapsed. |
| TreeBuilder.CountImagesInSubtree | src/utils/treeBuilder.ts:80-86 | The count of a subtree is at least the number of the node's own images. |
| TreeBuilder.CollectAllImages | src/utils/treeBuilder.ts:93-99 | The collection starts with the node's own images. |
| TreeBuilder.CountIsCollectLength | src/utils/treeBuilder.ts:80-99 | `countImagesInSubtree` equals the length of `collectAllImages` on every subtree. |
| TreeBuilder.AddChildPaths | src/utils/treeBuilder.ts:66-67 | Pushing a child under a folder held once adds exactly the child's paths, and adds nothing if the parent is absent. |
| TreeBuilder.AddImageCollect | src/utils/treeBuilder.ts:28 | Pushing an image onto a folder held once adds exactly that image to the collection, and nothing if the folder is absent. |
| TreeBuilder.GetOrCreateFolder | src/utils/treeBuilder.ts:41-47 | The root stays the root. A path that is already a folder returns that folder and leaves the tree alone. |
| TreeBuilder.GetOrCreateFolderFacts | src/utils/treeBuilder.ts:41-73 | An existing folder is returned unchanged. Otherwise every old folder is kept, no path is doubled, the tree's invariant is kept, no image moves, and the returned folder is in the tree. The returned folder is always the one `Dest` names, whatever folders the tree already holds. For a path without '/', that is the root; for a path with a non-empty last part, it is the folder with exactly that path. |
| TreeBuilder.GetOrCreateFolderCreatesPrefixes | src/utils/treeBuilder.ts:49-68 | The only folders it adds are prefixes `parts[..i+1].join('/')` of the requested path, for i ≥ 1. |
| TreeBuilder.WalkWithin | src/utils/treeBuilder.ts:52-70 | The loop from any index on adds only prefix folders of the parts it walks. |
| TreeBuilder.AddChildPathsWithin | src/utils/treeBuilder.ts:66 | Pushing a child adds no folder other than those in the child's subtree. |
| TreeBuilder.PlaceImage | src/utils/treeBuilder.ts:26-28 | One loop iteration keeps the root. |
| TreeBuilder.PlaceImageFacts | src/utils/treeBuilder.ts:26-29 | One loop iteration keeps the invariant, adds exactly this image to the collection, leaves placed images where they were, and puts the image in the folder `Dest` names for its path. |
| TreeBuilder.BuildFolderTree | src/utils/treeBuilder.ts:10-32 | No images give the bare root, and the built tree's root always has the root name as path. The root name defaults to "Root". |
| TreeBuilder.BuildFolderTreeRoot | src/utils/treeBuilder.ts:14-31 | The built tree's root has the hashed root name as id, the root name as name and path, and is expanded. |
| TreeBuilder.BuildFolderTreeKeepsEveryImage | src/utils/treeBuilder.ts:10-32 | Every input image is in the tree as often as it was given, and counting the root's subtree gives the number of input images. |
| TreeBuilder.BuildFolderTreeFolders | src/utils/treeBuilder.ts:41-73 | No two folders share a path, so the tree agrees with the path-to-folder map. Every non-root folder is collapsed, its path ends in '/' and its name, the name is a non-empty part with no '/', and its id is the hash of its path. |
| TreeBuilder.BuildFolderTreePlacesImages | src/utils/treeBuilder.ts:26-29 | Every image sits in the folder `Dest` names for its folder path, and no folder holds it anywhere else. For a path with no '/', that folder is the root. For a path with a non-empty last part, it is the folder with exactly that path. |
| TreeBuilder.Landing | src/utils/treeBuilder.ts:52-69 | The loop's final `current`, computed from the parts and the root name alone. When the last part is not empty, it is the whole path joined back. |
| TreeBuilder.WalkLands | src/utils/treeBuilder.ts:52-72 | Whatever folders the tree already holds, the loop ends on the folder `Landing` names: a found or created prefix with a non-empty last part becomes `current`, and a prefix ending in '/' can only be the root. |
| TreeBuilder.DestIgnoresTrailingSlash | src/utils/treeBuilder.ts:46-72 | For a root name without '/', a folder path with a trailing '/' lands in the same folder as the path without it. |
| TreeBuilder.AddChildNested | src/utils/treeBuilder.ts:58-66 | Pushing a child whose path is the parent's path, '/', and its '/'-free name keeps every folder's children at their parent's path plus '/' plus their name. |
| TreeBuilder.WalkNested | src/utils/treeBuilder.ts:50-70 | On a path with no empty part after the first, `current` is always the folder of the parts read so far. So every folder is created under the folder of its parent path, and the nesting is kept. |
| TreeBuilder.BuildFolderTreeNests | src/utils/treeBuilder.ts:10-73 | With every folder path starting with the root name and having no empty part after it, each child's path is its parent's path, '/', and its name. No folder has two children with the same name. |
| TreeBuilder.NestedUniqueSiblings | src/utils/treeBuilder.ts:56-67 | In a nested tree without repeated paths, the children of one folder have different names. |
| TreeBuilder.NestedParent | src/utils/treeBuilder.ts:53-66 | In a nested tree, every folder other than the root is a child of the folder whose path is its own path up to the last '/'. |
| TreeBuilder.ChainUp | src/utils/treeBuilder.ts:52-70 | In a nested tree rooted at the first part, a folder for the first i + 1 parts hangs from a chain of folders for every shorter prefix, up to the root. |
| TreeBuilder.ImageChain | src/utils/treeBuilder.ts:26-28 | When an image on a well-formed path sits in its folder, the folders for its path's prefixes form a chain of parent and child from the root down to that folder. |
| TreeBuilder.BuildFolderTreeChains | src/utils/treeBuilder.ts:10-73 | With well-formed folder paths, for every image and every i ≥ 1, the folder `parts[..i+1].join('/')` is a child of the folder `parts[..i].join('/')`. |
| TreeBuilder.BuildFolderTreeFolderSet | src/utils/treeBuilder.ts:10-73 | Every folder of the built tree is the root or a prefix `parts[..i+1].join('/')`, i ≥ 1, of some image's folder path. With well-formed paths, every such prefix is a folder. |
| TreeExamples.EmptyInputTree | src/utils/treeBuilder.test.ts:67-72 | Called with no images and no root name, the tree is a bare, expanded "Root" with no children and no images, and it counts 0 images. |
| TreeExamples.DeeplyNestedFolders | src/utils/treeBuilder.test.ts:46-57 | One image on root/a/b/c, with '/'-free names and a, b, c non-empty, gives the root one child a, with one child b, with one child c, which holds exactly that image. |
| TreeExamples.SharedParentFolder | src/utils/treeBuilder.test.ts:74-85 | Two images on root/parent/x and root/parent/y, with x ≠ y, give the root one child, parent. It has two children, x then y. |
| PhotoViewer.NextIndex | src/components/PhotoViewer.tsx:28-30 | Next moves forward by one unless already at the last image. |
| PhotoViewer.PrevIndex | src/components/PhotoViewer.tsx:32-34 | Previous moves back by one unless already at the first image. |
| PhotoViewer.NextPrevInverse | src/components/PhotoViewer.tsx:28-34 | Next then previous returns to the start, unless next was blocked at the end, and the other way round. |
| PhotoViewer.MovesStayInRange | src/components/PhotoViewer.tsx:28-34 | From a valid index, any sequence of moves stays within the list, and each move changes the index by at most one. |
| PhotoViewer.NextsReachLast | src/components/PhotoViewer.tsx:28-30 | Enough next moves reach the last image and stay there. |
| PhotoViewer.CurrentImage | src/components/PhotoViewer.tsx:26 | There is a current image exactly when the index is within the list. |
| PhotoViewer.RunLoadEffect | src/components/PhotoViewer.tsx:44-48 | Every run marks the previous request stale. With a current image, it turns the spinner on and starts a request; with none, it does nothing else. |
| PhotoViewer.Mount | src/components/PhotoViewer.tsx:22-48 | The viewer opens at the initial index with no URL and the spinner on. A request is pending exactly when the index shows an image. |
| PhotoViewer.Navigate | src/components/PhotoViewer.tsx:28-69 | The index moves. The load effect re-runs exactly when the current image changed. |
| PhotoViewer.LoadSucceeded | src/components/PhotoViewer.tsx:50-61 | A live result becomes the shown URL and stops the spinner, and the previous non-empty URL goes through `revokeImageUrl`. A stale result is revoked and never shown. |
| PhotoViewer.LoadFailed | src/components/PhotoViewer.tsx:62-64 | A live failure stops the spinner and keeps the URL; a stale failure changes nothing. |
| PhotoViewer.UnmountAsWritten | src/components/PhotoViewer.tsx:72-77 | As written, unmounting marks the pending request stale and revokes nothing, because the cleanup sees the first render's null URL. |
| PhotoViewer.Unmount | src/components/PhotoViewer.tsx:72-77 | As intended, unmounting also revokes the URL on screen. |
| PhotoViewer.MountValid | src/components/PhotoViewer.tsx:22-48 | A freshly opened viewer satisfies the viewer invariant. |
| PhotoViewer.StepKeepsValid | src/components/PhotoViewer.tsx:44-77 | With the corrected close listed under Findings, navigation, a load result, a load failure and closing each keep the viewer invariant. |
| PhotoViewer.RunKeepsValid | src/components/PhotoViewer.tsx:44-77 | With the corrected close, any sequence of those events keeps the viewer invariant. |
| PhotoViewer.NoBlobUrlLeaks | src/components/PhotoViewer.tsx:44-77 | With the corrected close, whatever happens after opening, while open every loaded blob URL is on screen or revoked. Once closed, every one of them is revoked. |
| PhotoViewer.StepAsWritten | src/components/PhotoViewer.tsx:44-77 | The component as written differs from the corrected one only on close, which runs the as-written cleanup. |
| PhotoViewer.StepAsWrittenKeepsValid | src/components/PhotoViewer.tsx:44-77 | As written, every event keeps the request bookkeeping and the account of delivered blob URLs. |
| PhotoViewer.RunAsWrittenKeepsValid | src/components/PhotoViewer.tsx:44-77 | As written, any sequence of events keeps that invariant. |
| PhotoViewer.AsWrittenLeaksOnlyScreenUrl | src/components/PhotoViewer.tsx:44-77 | As written, every delivered blob URL that is not revoked is the one on screen, before and after the close. So the cleanup leaks at most that one URL. |
| PhotoViewer.StaleResultNeverShown | src/components/PhotoViewer.tsx:52-60 | In the one step where it arrives, a result for a request that is no longer live leaves the shown URL as it was and is revoked. |
| PhotoViewer.UnmountAsWrittenLeaks | src/components/PhotoViewer.tsx:72-77 | Open on one image, load "blob:a", close: as written, "blob:a" was delivered and never revoked. |

## Left out

- Rendering, React state scheduling, keyboard handling and the components around the core are not modelled. Only the state each handler changes is.
- `loadImageFromHandle`, `getImageDimensions` and the File System Access API are browser I/O. A load is an event that carries its result URL or a failure.
- `formatFileSize` uses floating-point logarithms and is only used for display.
- The load queue's tasks, promises and timing are not modelled, only the order of the events "enqueue" and "a running task settles". A settlement and its `finally` handler form one event, and the resolve and reject callbacks the caller sees are not modelled.
- LoadQueue.RunPreservesValid: a task must return a promise without throwing. `runNext` increments `running` (src/utils/loadQueue.ts:33) before calling `item.task()` (line 35). A task that throws synchronously escapes before the `finally` at lines 38-41 is attached. Its slot is then never released, and enough such tasks stall the queue. Every caller here passes an `async` function (src/utils/imageLoader.ts:39), which cannot throw synchronously, so the model has no event for it.
- LoadQueue.RunPreservesValid: `concurrency` is an integer. A fractional limit such as 2.5, which the source accepts, is not modelled, and a limit of 0 or less bounds the running count by 0.
- ImageCache.GetCachedUrl: `Date.now()` is a logical clock that ticks on every read. A repeated millisecond changes nothing that is proved: the sort at src/hooks/useImageCache.ts:29-31 is stable and a new key comes last in map order, so it is not the victim. A clock that runs backwards is not modelled, and it does matter. After a backward jump, the stamp `setCachedUrl` gives a new entry (line 51) can be the smallest in the map. At 201 entries that entry is then the victim: its URL is revoked and it is deleted (lines 35-36).
- ImageCache.SetCachedUrlKeepsEntry: holds only while `Date.now()` never decreases. With a backward clock the entry just stored can be evicted at once, and a following `getCachedUrl` of its id returns undefined.
- ImageCache.SetCachedUrlAtCapacity: "the evicted entry was used no more recently than any other" is stated for the logical clock. It holds for real time only while `Date.now()` never decreases.
- ImageCache.SetCachedUrlOverwrite: overwriting an id does not revoke the URL it replaces. This follows the code, although the hook's doc comment (src/hooks/useImageCache.ts:17-20) promises to revoke old object URLs automatically.
- FileFilters.Utf16: a Dafny `char` is a Unicode scalar value, so a string holding a lone surrogate cannot be hashed, although `charCodeAt` would read it. The paths come from directory handle names, which are USV strings and never hold one.
- Text.ToLower: only ASCII letters are folded. JavaScript's full Unicode lower-casing is not modelled, and no allow-listed extension depends on it.
- ImageLoader.SortImages: `localeCompare` is a parameter. Proofs that order names assume it orders all strings consistently (total and transitive). The sort is a stable insertion sort, as ECMAScript requires of `Array.prototype.sort`.
- PhotoViewer.Navigate: the effect dependency `currentImage` is compared by value, while React compares object identity. The two agree only when distinct entries of the list differ as values, for example by path or handle. Two equal records at different indexes would re-run the effect in React but not in the model.
- FileFilters.GenerateId: ids are not unique; two paths can hash alike. The model states what the id encodes, not uniqueness.
- TreeBuilder.BuildFolderTreeNests: nesting and the chains are claimed only for paths that start with the root name and have no empty part after it. As written, "Root//b" hangs "Root//b" directly under the root, and a root name containing '/' breaks the chain.
- The unit tests' trees (`TreeExamples`) are proved for any '/'-free names and not separately for the literal strings "Root", "a", "b", "c", "parent", "child1" and "child2". Those strings meet the lemmas' requirements.
- The folder tree's shape depends on the order of the input images: the order of children follows first appearance. No order-independence is claimed.

## Findings

| source | as written | input that shows it | evidently intended | confidence | as-written member | corrected member |
|---|---|---|---|---|---|---|
| src/components/PhotoViewer.tsx:72-77 | The unmount cleanup captures `imageUrl` from the first render, which is always null, so it never revokes anything. | Open on one image, the load delivers "blob:a", close the viewer: "blob:a" is never revoked. | On close, revoke the URL currently on screen. | not executed | PhotoViewer.UnmountAsWrittenLeaks | PhotoViewer.NoBlobUrlLeaks |
