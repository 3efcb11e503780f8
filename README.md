# DupSnap core, modelled in Dafny

DupSnap finds duplicate and near-duplicate photos and videos in a folder.
This project models its core and proves properties of that model:

- **The scan worker** (`ScanWorker.run`).
  - It walks the folder and keeps image and video files.
  - It measures each file through a SQLite cache.
  - It groups files whose SHA-256 digests are equal into exact-duplicate groups ("重複").
  - It gives every remaining item a perceptual hash and files it in a bucket by the hash's first four characters.
  - Within a bucket it greedily groups items whose Hamming distance is at most the threshold into near-duplicate groups ("類似").
  - In every group, the item with the largest (pixels, size) is the one to keep; every other member gets similarity 1.0.
  - It reports progress as it goes.
- **The command-line blur pass** (`main.py`). It:
  - checks its arguments;
  - gathers and sorts the image paths;
  - decides "blurry", "keep" or "low_texture" for each image;
  - counts the decisions;
  - picks a free destination name for each blurry image it moves.
- **The helpers:**
  - the standalone scanner and greedy group builder;
  - the keep/delete rule engine and the quality score with its best-of-group choice;
  - the blur and noise verdicts and the Laplacian blur detector;
  - the SQLite hash cache and the pickle cache;
  - the result records;
  - path classification by extension and byte-count formatting.

The model is built as follows:

- **Pure code** is written as functions and lemmas.
- **Loops** become methods with `while` loops. Each method's `ensures` ties its result to a specification function, and lemmas prove the properties of that function.
- **The two caches** are classes whose methods update their fields.
- **Work outside the program is an input:**
  - file-system walks, `os.stat`, decoding, hashing, OpenCV/NumPy metrics and the threshold percentiles are given as parameters;
  - a walk is a sequence of (directory, file names);
  - a scanned file is a `Probe` holding what the cache or the decoders gave for it.
- **Python's `str.lower`** is modelled for ASCII, U+212A and U+0130. The other characters are kept as they are. Their lower-case forms are never ASCII, so they cannot change any membership test or comparison here. They do show in error messages that quote the lowered text (see "## Left out").
- **The greedy grouping of a bucket** (`ScanWorker.Greedy` and the lemmas about it) takes the distance as a parameter `dist`, as `GroupBuilder` does. The worker's methods and `ScanWorker.BucketRefs` pass `Hamming.Distance`, so every statement about the worker's groups is about `hamming` itself.
- **`os.path.splitext`** is the POSIX one, including its rule that leading dots are not an extension.
- **`os.path.join`** is the POSIX one.

The files are:

| file | contents |
|---|---|
| `wrappers.dfy` | `Option` and `Result` |
| `text.dfy` | `PathText`: lower-casing, extensions, joining, decimal rendering |
| `media_paths.dfy` | `MediaPaths`: image and video extensions, `format_bytes` |
| `hamming.dfy` | `Hamming`: the hex-digit Hamming distance |
| `models.dfy` | `Models`: `ResultItem`, `ResultGroup` |
| `ordered_groups.dfy` | `OrderedGroups`: insertion-ordered dictionaries of lists |
| `scan_worker.dfy` | `ScanWorker`: the worker's phases, as methods and functions |
| `scan_facts.dfy` | `ScanFacts`: what the worker's groups satisfy |
| `scanner.dfy` | `Scanner`: `scan_directory` |
| `group_builder.dfy` | `GroupBuilder`: `build_groups` |
| `rule_engine.dfy` | `RuleEngine`: `apply_rules` |
| `image_quality.dfy` | `ImageQuality`: the quality score and the best image of a group |
| `blur.dfy` | `Blur`: `is_blurry` |
| `blur_detector.dfy` | `BlurDetector`: `calculate_blur_score` |
| `noise.dfy` | `Noise`: `is_noisy` |
| `cache_db.dfy` | `CacheDb`: the SQLite `HashCache` |
| `image_cache.dfy` | `ImageCache`: the pickle `Cache` |
| `path_order.dfy` | `PathOrder`: the sort of `gather_images`, comparing paths component by component as `pathlib` does |
| `cli.dfy` | `Cli`: `main.py` |

## Model

| member | source | states |
|---|---|---|
| `ScanWorker.Run` | app/workers.py:20-159 | The groups and the progress values that `run` emits are exactly those of the specification `Scan`, phase by phase. |
| `ScanWorker.CollectItems` | app/workers.py:40-78 | Returns:<br>• one item for each file that could be measured, in walk order;<br>• the SHA-256 dictionary `setdefault` builds from those items;<br>• the progress reported every 50 files. |
| `ScanWorker.ItemOf` | app/workers.py:71-72 | The item carries the file's path, size, width, height and digest. It has no perceptual hash and no similarity yet. |
| `ScanWorker.Items` | app/workers.py:43-73 | The item list has one entry per measured file, in order, and each entry is that file's item. |
| `ScanWorker.KeepPos` | app/workers.py:84 | `max` picks the position whose (pixels, size) key no other key exceeds; every earlier key is strictly smaller, so ties go to the first. |
| `ScanWorker.Mark` | app/workers.py:85-86 | Only the group's members change. Every member except the kept one gets similarity 1.0, and the kept one gets `None`. |
| `ScanWorker.MarkGroup` | app/workers.py:84-86 | The loop marks exactly as `Mark` with the `max` choice. |
| `ScanWorker.AddGroup` | app/workers.py:84-87 | Appending a marked group extends the groups by one, and the items become those marked by every group in turn. |
| `ScanWorker.ExactPhase` | app/workers.py:80-87 | Builds one exact group per dictionary entry that has a non-empty key and more than one item, in dictionary order, and marks each group's members. |
| `ScanWorker.ExactRefsFrom` | app/workers.py:80-87 | Every exact group is the group of one dictionary entry that has a non-empty key and at least two items. |
| `ScanWorker.UniqueIds` | app/workers.py:89 | `unique_items` is increasing and stays inside the items considered. |
| `ScanWorker.AssignPhashes` | app/workers.py:89-109 | Every unique item receives the hash its probe gives, and progress is reported every 50 items over `max(1, len(unique_items))`. |
| `ScanWorker.BucketPairs` | app/workers.py:111-115 | Only unique items are filed, and they are filed in item order. |
| `ScanWorker.BucketItems` | app/workers.py:111-115 | The bucket loop builds the `defaultdict(list)` obtained by filing each hashed unique item under its first four characters. |
| `ScanWorker.CollectCandidates` | app/workers.py:128-133 | The candidate loop of a pivot gives exactly `Collect`'s group and visited set. |
| `ScanWorker.CollectFacts` | app/workers.py:128-133 | The pivot stays first and positions increase. Every later member has a hash within the threshold of the pivot's and is marked visited. From the loop's start on, a position joins and is marked visited if and only if it has a hash within the threshold, whether or not it was visited before. |
| `ScanWorker.JoinersFromMembers` | app/workers.py:128-133 | The joiners of a pivot from `j` on are exactly the positions from `j` on that have a hash within the threshold of the pivot's, in increasing order. |
| `ScanWorker.CollectIs` | app/workers.py:128-133 | The candidate loop appends exactly the joiners to the group and adds exactly them to `visited`. |
| `ScanWorker.GreedyFacts` | app/workers.py:123-138 | Across the pivot loop:<br>• every emitted group has at least two members;<br>• pivots increase;<br>• no pivot is a visited member of an earlier group. |
| `ScanWorker.GreedyGroupsEmitted` | app/workers.py:123-138 | The groups of a bucket:<br>• satisfy `Emitted`: well-formed groups, increasing pivots, and no pivot visited by an earlier group;<br>• after its pivot, a group holds a later position if and only if that position has a hash within the threshold of the pivot's;<br>• a position is a pivot if and only if it has a hash, is no later member of a group with an earlier pivot, and some later position joins it. |
| `ScanWorker.GreedyIsPivotGroups` | app/workers.py:123-138 | The pivot loop, started in the state `PivotGroups` describes at any position, ends with `PivotGroups` of the whole bucket. `PivotGroups` is a definition without a loop: a position with a hash, not covered by an earlier group and with a later joiner, starts a group of itself and all its later joiners. |
| `ScanWorker.PivotGroupsMembers` | app/workers.py:128-133 | After its pivot, a group of `PivotGroups` holds exactly the positions that join the pivot. |
| `ScanWorker.PivotGroupsPivotAt` | app/workers.py:124-138 | A position is a pivot of `PivotGroups` if and only if it has a hash, is no later member of a group with an earlier pivot, and some later position joins it. |
| `ScanWorker.GreedyGroupsExactly` | app/workers.py:123-138 | The greedy groups have two or more members each. After its pivot, a group holds exactly the later positions that join the pivot. A position is a pivot if and only if it has a hash, is no later member of a group with an earlier pivot, and has a later joiner. |
| `ScanWorker.PivotStep` | app/workers.py:124-138 | One turn of the pivot loop keeps its invariant: the groups so far are the greedy ones, and the items are marked by them. |
| `ScanWorker.PivotPass` | app/workers.py:123-138 | The pivot loop over every position ends with its invariant at the end of the bucket. |
| `ScanWorker.GreedyBucket` | app/workers.py:119-138 | The groups of one bucket of two or more items are `BucketRefs`, and the items are marked by them in order. |
| `ScanWorker.BucketRefs` | app/workers.py:119-138 | A bucket contributes only groups whose members lie inside the item list. |
| `ScanWorker.NearRefs` | app/workers.py:117-141 | The near groups of all buckets lie inside the item list. |
| `ScanWorker.NearPhase` | app/workers.py:117-141 | The bucket loop yields the near groups of every bucket in bucket order and the items marked by them. Progress is reported every 20 buckets. |
| `ScanWorker.FinalPhase` | app/workers.py:143-150 | The last loop reports 95 once for every 20 groups. |
| `ScanWorker.Percent` | app/workers.py:78 | `base + int(k/total*span)` lies in [base, base+span] while k ≤ total. |
| `ScanWorker.PercentMonotone` | app/workers.py:78 | A later step never reports a smaller share. |
| `ScanWorker.MarkAllKeepsFields` | app/workers.py:85-86 | Marking changes nothing but the similarity field. |
| `ScanWorker.Materialize` | app/workers.py:83-138 | Every emitted group holds the final (shared) items that its indices name, with its kind, title and score. |
| `ScanFacts.ShaClassMembers` | app/workers.py:74 | A SHA class holds exactly the items with that key, in increasing order. |
| `ScanFacts.ExactRefsHas` | app/workers.py:81-87 | Every entry with a non-empty key and more than one item yields its group. |
| `ScanFacts.ExactRefsOrdered` | app/workers.py:80-87 | Exact groups have at least two members and come in the order of their first members. |
| `ScanFacts.ExactGroupsAreClasses` | app/workers.py:80-87 | Each exact group lists every item that shares one non-empty digest, and there are at least two of them. |
| `ScanFacts.ExactGroupsComplete` | app/workers.py:80-87 | Every non-empty digest that two or more items share has its group. |
| `ScanFacts.ExactGroupsInOrder` | app/workers.py:80-87 | Exact groups come in the order of their first items. |
| `ScanFacts.EmptyShaNeverExact` | app/workers.py:82 | An item with an empty digest is never in an exact group. |
| `ScanFacts.UniqueIdsMembers` | app/workers.py:89 | `unique_items` holds exactly the items that `==` finds in no group (both directions). |
| `ScanFacts.InSomeGroupByIndex` | app/workers.py:89 | When paths are distinct, finding an item by `==` is the same as finding its index. |
| `ScanFacts.GroupedExactly` | app/workers.py:80-89 | An item is in an exact group if and only if its digest is non-empty and shared. |
| `ScanFacts.UniqueExactly` | app/workers.py:89 | With distinct paths, the near-duplicate candidates are exactly the items whose digest is empty or unshared. |
| `ScanFacts.BucketPairsMembers` | app/workers.py:113-115 | A pair is filed if and only if its item is unique, has a non-empty hash, and its key is the hash's first four characters. |
| `ScanFacts.BucketsOfIdsMembers` | app/workers.py:111-115 | Under each key stand exactly the items filed under it. |
| `ScanFacts.BucketsOfIdsKeys` | app/workers.py:111-115 | Every filed item finds its key in the dictionary. |
| `ScanFacts.CandidateFiled` | app/workers.py:97-115 | After the hash loop, an item is filed under a key if and only if it is unique and its measured hash is non-empty and starts with that key. |
| `ScanFacts.BucketsExactly` | app/workers.py:111-115 | The bucket keys are distinct. Each bucket is increasing and holds exactly its candidates, and every candidate's key is present. |
| `ScanFacts.NearRefOk` | app/workers.py:124-138 | A greedy group becomes a near group of at least two bucket items, each within the threshold of the pivot. |
| `ScanFacts.NearGroupsShape` | app/workers.py:119-138 | Within a bucket:<br>• every near group is well formed and carries the bucket's title;<br>• pivots increase;<br>• no later pivot is a visited member of an earlier group;<br>• after its pivot, a group holds a later item of the bucket if and only if that item has a perceptual hash within the threshold of the pivot's;<br>• an item is a pivot if and only if it has a perceptual hash, is no later member of a group with an earlier pivot, and some later item of the bucket is within the threshold of it. |
| `ScanFacts.NearGroupsExactly` | app/workers.py:123-138 | The two completeness facts above, stated over the items of the bucket. |
| `ScanFacts.NearMemberAt` | app/workers.py:128-133 | An item after a group's pivot is in the group if and only if its perceptual hash is present and within the threshold of the pivot's. |
| `ScanFacts.ThreeHashes` | app/workers.py:123-138 | When hash 0 is far from hash 1 but both are close to hash 2, the pass emits [[0,2],[1,2]]. |
| `ScanFacts.NearGroupsMayOverlap` | app/workers.py:124-133 | Visited positions still join later groups: with threshold 1, the hashes "0", "3", "1" give two groups that share position 2. |
| `ScanFacts.LastGroupOf` | app/workers.py:136-137 | Finds the last group that holds an item, or -1 when none does. |
| `ScanFacts.KeepOfIgnoresMarks` | app/workers.py:84 | Earlier similarity marks never change which item `max` keeps. |
| `ScanFacts.MarkAllSimilarity` | app/workers.py:85-86 | An item's final similarity is the mark of the last group holding it, or its original value when no group does. |
| `ScanFacts.SingleGroupMark` | app/workers.py:85-86 | An item in exactly one group ends with `None` if it is kept there, and 1.0 otherwise. |
| `ScanFacts.CollectProgressBand` | app/workers.py:76-78 | The first loop reports values in [0, 20] that never decrease. |
| `ScanFacts.PhashProgressBand` | app/workers.py:107-109 | The hash loop reports values in [20, 55] that never decrease. |
| `ScanFacts.NearProgressBand` | app/workers.py:139-141 | The bucket loop reports values in [55, 90] that never decrease. |
| `ScanFacts.FinalProgressBand` | app/workers.py:149-150 | The last loop reports only 95. |
| `ScanFacts.ScanProgress` | app/workers.py:76-153 | Every progress value of a scan lies in [0, 100] and none is smaller than the one before. A non-empty scan ends at 100. |
| `Hamming.HexValue` | app/workers.py:161 | A digit value exists exactly for '0'-'9' and 'a'-'f'. |
| `Hamming.Bits4` | app/workers.py:161 | `format(i, '04b')` has four digits. |
| `Hamming.Bits4RoundTrip` | app/workers.py:161 | Reading the four binary digits back gives the value. |
| `Hamming.NibbleBits` | app/workers.py:166 | `HEX_TO_BITS.get(c, "0000")` always has four digits. |
| `Hamming.Expand` | app/workers.py:166-167 | The joined bit string is four times the length of the hash. |
| `Hamming.CountDiff` | app/workers.py:168 | The count of differing positions is bounded by both lengths (zip truncates). |
| `Hamming.Distance` | app/workers.py:163-168 | An empty argument gives 64. Otherwise the distance is at most four times either lower-cased length. |
| `Hamming.CountDiffSymmetric` | app/workers.py:168 | Counting differences is symmetric. |
| `Hamming.CountDiffPrefix` | app/workers.py:168 | A bit string differs nowhere from any extension of itself. |
| `Hamming.CountDiffZero` | app/workers.py:168 | Equal lengths with no differing position means equal strings. |
| `Hamming.CountDiffFour` | app/workers.py:168 | For four-digit strings, the count is the sum of the four per-position differences. |
| `Hamming.DistanceSymmetric` | app/workers.py:163-168 | `hamming` is symmetric. |
| `Hamming.DistanceToSelf` | app/workers.py:163-168 | A non-empty hash is at distance 0 from itself, and the empty hash is at distance 64. |
| `Hamming.ExpandAppend` | app/workers.py:166 | Expansion distributes over concatenation. |
| `Hamming.DistanceToExtension` | app/workers.py:163-168 | Only the overlap counts: a hash is at distance 0 from any longer hash that it begins. |
| `Hamming.DistanceIgnoresCase` | app/workers.py:166-167 | Lower-casing an argument first changes nothing. |
| `Hamming.NonHexReadsAsZero` | app/workers.py:166 | A non-hex character reads as "0000": "G" and "0" are at distance 0. |
| `Hamming.NibbleBitsInjective` | app/workers.py:161 | Different hex digits have different bit patterns. |
| `Hamming.ExpandInjective` | app/workers.py:161-167 | Equally long lower-case hex strings with equal expansions are equal. |
| `Hamming.LowerOfLowerHex` | app/workers.py:166-167 | Lower-casing leaves a lower-case hex string unchanged. |
| `Hamming.ZeroDistanceMeansEqual` | app/workers.py:163-168 | Two well-formed, equally long fingerprints at distance 0 are equal. |
| `Hamming.DigitBits` | app/workers.py:161 | A decimal digit expands to the four binary digits of its value. |
| `Hamming.SampleDistances` | app/workers.py:163-168 | The distance from "0" to "3" is 2, from "0" to "1" is 1, and from "3" to "1" is 1. |
| `OrderedGroups.InsertKeys` | app/workers.py:74 | `setdefault` appends a new key at the end and leaves the keys alone for an existing key. |
| `OrderedGroups.InsertFind` | app/workers.py:74 | `append` adds the index to the key's list only. |
| `OrderedGroups.FindAt` | app/workers.py:74 | With distinct keys, an entry's list is the one that looking up its key finds. |
| `OrderedGroups.DistinctFacts` | app/workers.py:81 | Order-preserving deduplication has no repeats and keeps every element. |
| `OrderedGroups.GroupByKeys` | app/workers.py:81 | The dictionary's keys are the distinct keys in order of first insertion. |
| `OrderedGroups.GroupByFind` | app/workers.py:74 | The list under a key is the indices filed under it, in order. |
| `OrderedGroups.SelectMembers` | app/workers.py:74 | An index is selected under a key if and only if some pair carries them, and a key selects something if and only if it occurs. |
| `OrderedGroups.SelectHas` | app/workers.py:74 | A selected index was filed under the key at some position. |
| `OrderedGroups.SelectGets` | app/workers.py:74 | An index filed under the key is selected. |
| `OrderedGroups.GroupByContents` | app/workers.py:74-81 | The keys are distinct and are exactly the keys that occur, in first-insertion order. Each list is the indices filed under its key. |
| `OrderedGroups.InsertShape` | app/workers.py:74 | A new key adds a one-element entry at the end, and an existing key's entry grows in place. |
| `OrderedGroups.InsertOrdered` | app/workers.py:74 | Appending an index above all present indices keeps the lists increasing and keeps them in the order of their first members. |
| `OrderedGroups.GroupByOrder` | app/workers.py:74-81 | With increasing indices, the dictionary's lists are increasing, in first-member order, and drawn from the indices filed. |
| `OrderedGroups.GroupByAppend` | app/workers.py:74 | One more pair is one more `setdefault(...).append`. |
| `OrderedGroups.SelectIncreasing` | app/workers.py:74 | Over increasing indices, each key's list is increasing. |
| `Models.NewResultItem` | app/models.py:4-15 | A new item has the given path, size and dimensions, and every optional field is `None`. |
| `Models.Pixels` | app/models.py:17-19 | Gives width × height, or 0 when a side is missing or zero. It is non-negative for non-negative sides. |
| `Models.NewResultGroup` | app/models.py:21-26 | A new group has its kind and title, an empty item list and no score. |
| `MediaPaths.KindOf` | app/workers.py:44 | "img" if and only if the path is an image, "vid" if and only if it is a video, "other" if and only if neither. |
| `MediaPaths.ImageVideoDisjoint` | app/video_utils.py:9-12 | No path is both an image and a video. |
| `MediaPaths.ExtsDisjoint` | app/image_utils.py:8 | `IMG_EXTS` and `VIDEO_EXTS` share no member. |
| `MediaPaths.NoExtensionNoMedia` | app/image_utils.py:10-12 | A path without an extension is neither an image nor a video. |
| `MediaPaths.BasenameOfName` | app/image_utils.py:11 | A '/'-free ending appended to a path stays in its last component. |
| `MediaPaths.ExtOfName` | app/image_utils.py:11 | A name whose base has a non-dot character and that ends in a dot-led, dot-free ending has that ending as its extension. |
| `MediaPaths.IsImageByEnding` | app/image_utils.py:10-12 | Being an image or a video depends only on the lower-cased ending, so ".JPG" counts as ".jpg". |
| `MediaPaths.UnitForFacts` | app/image_utils.py:60-65 | The loop stops at the first unit where the quotient is below 1024, or at "PB". The quotient is at least 1 once it has divided. |
| `MediaPaths.UnitForQuotient` | app/image_utils.py:60-65 | The quotient times 1024 per unit passed gives the original count back. |
| `MediaPaths.FormatBytesUnit` | app/image_utils.py:60-65 | Below 1024 the count is shown as the integer with "B". Otherwise the first unit with a quotient in [1, 1024) is used, or "PB". |
| `MediaPaths.FormatBytesLoop` | app/image_utils.py:60-65 | The loop's result is `FormatBytes`. |
| `PathText.LowerChar` | app/image_utils.py:11 | One character lower-cases to one character, except U+0130, which gives two. |
| `PathText.Lower` | app/image_utils.py:11 | `lower()` never shortens a string. |
| `PathText.LowerAppend` | app/image_utils.py:11 | Lower-casing distributes over concatenation. |
| `PathText.LowerLength` | app/image_utils.py:11 | Without U+0130, lower-casing keeps the length. |
| `PathText.LowerIdempotent` | app/image_utils.py:11 | Lower-casing twice is lower-casing once. |
| `PathText.RFind` | app/image_utils.py:11 | Gives the last occurrence of the character, or -1. |
| `PathText.Basename` | app/image_utils.py:11 | The last component is a '/'-free suffix of the path. |
| `PathText.Ext` | app/image_utils.py:11 | The extension is empty or a dot-led, dot-free, '/'-free suffix of the path. |
| `PathText.ExtOfChild` | app/workers.py:27-28 | Joining a directory does not change a name's extension: dots in directory names do not count. |
| `PathText.LeadingDotIsNoExtension` | app/image_utils.py:11 | A name made of one leading dot and no other dot has no extension. |
| `PathText.Join` | app/workers.py:27 | The joined path ends with the name. |
| `PathText.NatToString` | main.py:122 | Decimal digits only, with more than one digit if and only if n ≥ 10. |
| `PathText.IntToString` | app/image_utils.py:63 | The rendering starts with '-' if and only if n is negative. |
| `PathText.NatToStringInjective` | main.py:122 | Different numbers are rendered differently. |
| `Scanner.Contribution` | core/scanner.py:48-51 | A file adds at most one path. |
| `Scanner.KeptBy` | core/scanner.py:47-51 | A directory yields at most one path per file. |
| `Scanner.Counting` | core/scanner.py:53-54 | The callback receives 1, 2, …, n. |
| `Scanner.ScanFiles` | core/scanner.py:47-54 | The inner loop appends the kept paths of one directory, in order. With a callback, it reports the running count after each. |
| `Scanner.ScanWith` | core/scanner.py:46-54 | The outer loop returns the kept paths of the whole walk, with counting reports exactly when there is a callback. |
| `Scanner.ScanDirectory` | core/scanner.py:28-56 | `scan_directory` returns `Accepted(walk)`. With a callback, it reports 1, …, n; otherwise it reports nothing. |
| `Scanner.KeptAppend` | core/scanner.py:47-51 | File order is kept across a split of a directory's files. |
| `Scanner.FoundAppend` | core/scanner.py:46-51 | Walk order is kept across a split of the walk. |
| `Scanner.AcceptedAppend` | core/scanner.py:46-51 | Scanning two walks, or two halves of a directory, gives the concatenated results. |
| `Scanner.SingleFile` | core/scanner.py:48-51 | A single file yields its joined path if and only if its extension is supported. |
| `Scanner.KeptFromFile` | core/scanner.py:47-51 | Every kept path comes from some file of the directory. |
| `Scanner.FileToKept` | core/scanner.py:47-51 | Every file that is kept appears in the result. |
| `Scanner.FoundFromWalk` | core/scanner.py:46-51 | Every found path comes from some walked file. |
| `Scanner.WalkToFound` | core/scanner.py:46-51 | Every walked file that is kept appears in the result. |
| `Scanner.AcceptedMembers` | core/scanner.py:46-51 | A path is returned if and only if some walked file with a supported extension joins to it. |
| `GroupBuilder.ValidFrom` | core/group_builder.py:22-23 | Every pair kept comes from an input pair with a hash. |
| `GroupBuilder.InnerGrows` | core/group_builder.py:34-44 | The candidate loop keeps the pivot first and increases positions. It adds only unvisited paths within the threshold and records them as visited. |
| `GroupBuilder.InnerExact` | core/group_builder.py:34-44 | From `j` on, a position joins if and only if it is within the threshold, its path was not visited at the start, and no earlier joiner has its path. `visited` gains exactly the joiners' paths. |
| `GroupBuilder.InnerGrowsPast` | core/group_builder.py:34-47 | A one-member group grows if and only if some later position is within the threshold and has an unvisited path. |
| `GroupBuilder.InnerExtends` | core/group_builder.py:34-44 | The candidate loop only extends the group, and only with later positions. |
| `GroupBuilder.DoneEmit` | core/group_builder.py:46-47 | Emitting a group keeps the groups apart and keeps their paths recorded as visited. |
| `GroupBuilder.OuterFacts` | core/group_builder.py:25-47 | The pivot loop ends with groups that are well formed and pairwise apart. |
| `GroupBuilder.BuildShaped` | core/group_builder.py:19-49 | The position groups are well formed and lie inside `valid_hashes`. They hold exactly the positions `BuildExactly` describes. |
| `GroupBuilder.OuterReached` | core/group_builder.py:25-47 | The pivot loop, started in the state `Reached` gives for any position, ends with the groups of the whole input. |
| `GroupBuilder.ReachedSeen` | core/group_builder.py:25-47 | When the pivot loop reaches a position, the visited paths are exactly the paths of the earlier positions and of the members of the groups emitted so far. |
| `GroupBuilder.ReachedMembers` | core/group_builder.py:34-44 | After its pivot, a group holds a later position if and only if it is within the threshold of the pivot, its path is neither the pivot's nor yet seen, and no earlier member has its path. |
| `GroupBuilder.ReachedPivot` | core/group_builder.py:25-47 | A position is a pivot if and only if its path is not yet seen and some later position within the threshold has a path that is neither the pivot's nor yet seen. |
| `GroupBuilder.BuildExactly` | core/group_builder.py:19-49 | The two facts above, for the groups of `valid_hashes`: which later positions join a pivot, and which positions are pivots. |
| `GroupBuilder.BuildPaths` | core/group_builder.py:6-49 | Each group:<br>• has two or more paths;<br>• has no repeated path;<br>• shares no path with another group;<br>• takes each path from an input pair with a hash. |
| `GroupBuilder.ThreePairs` | core/group_builder.py:25-47 | When the first pair is far from the second but close to the third, the result is [[0,2]]. |
| `GroupBuilder.BuildThree` | core/group_builder.py:25-47 | The same three pairs, as paths. |
| `GroupBuilder.BuilderKeepsGroupsApart` | core/group_builder.py:34-44 | Visited candidates are skipped: with threshold 1 the hashes "0", "3", "1" give only [["a","c"]]. This differs from the worker's overlapping groups. |
| `GroupBuilder.BuildGroups` | core/group_builder.py:6-49 | The method returns `Build`, the greedy grouping. |
| `RuleEngine.MetaOf` | core/rule_engine.py:27-52 | A record carries its path. An unreadable file ranks (0, 0, 0), and resolution is width × height. |
| `RuleEngine.Insert` | core/rule_engine.py:64 | Insertion adds one element and is a permutation. |
| `RuleEngine.SortDesc` | core/rule_engine.py:64 | The sort is a permutation. |
| `RuleEngine.InsertDescending` | core/rule_engine.py:64 | Insertion keeps the order descending. |
| `RuleEngine.SortDescending` | core/rule_engine.py:57-64 | The sorted records are in descending key order. |
| `RuleEngine.FirstBestIsFirstMax` | core/rule_engine.py:57-67 | The chosen record has a maximal key and every earlier key is strictly smaller. |
| `RuleEngine.SortHead` | core/rule_engine.py:64-67 | `sorted_items[0]` is the first record with a maximal key (the sort is stable). |
| `RuleEngine.DecisionsFacts` | core/rule_engine.py:69-74 | The keys are exactly the record paths, and a path maps to keep if and only if it is the best path. |
| `RuleEngine.GatherMetadata` | core/rule_engine.py:26-52 | The loop builds one record per path, in group order. |
| `RuleEngine.Decide` | core/rule_engine.py:69-74 | The result loop maps every path, and only the best one to keep. |
| `RuleEngine.ApplyRules` | core/rule_engine.py:8-76 | The result is:<br>• {} for an empty group;<br>• a single keep for one path;<br>• otherwise, one entry per path, with keep exactly for the first best path. |
| `ImageQuality.ResolutionScore` | core/image_quality.py:22-24 | The resolution component lies in [0, 30]. |
| `ImageQuality.BlurQuality` | core/image_quality.py:26-30 | The component is at most 30, is 15 without a blur score, and is non-negative for a non-negative score. |
| `ImageQuality.BrightnessScore` | core/image_quality.py:32-37 | The component lies in [0, 20] and equals 20 if and only if the brightness is 128. |
| `ImageQuality.SizeScore` | core/image_quality.py:39-43 | The size component lies in [0, 20]. |
| `ImageQuality.QualityScore` | core/image_quality.py:10-52 | The score is at most 100, is 0 on failure, and is non-negative when the blur score is. |
| `ImageQuality.BestFacts` | core/image_quality.py:61-72 | The best score is the maximum of -1 and all scores. The chosen image is the first to reach it. There is none if and only if no score exceeds -1. |
| `ImageQuality.BestStep` | core/image_quality.py:68-70 | A score is taken only when it is strictly greater. |
| `ImageQuality.BestImageInGroup` | core/image_quality.py:54-72 | The loop returns the best path and score of `Best`. |
| `ImageQuality.NonEmptyGroupHasBest` | core/image_quality.py:61-72 | With non-negative blur scores, a non-empty group always yields a path. |
| `BlurDetector.BlurScore` | core/blur_detector.py:6-31 | Every read or decode failure scores 0.0. |
| `BlurDetector.BlurryMonotone` | core/blur_detector.py:33-35 | A lower score is at least as blurry. |
| `BlurDetector.FailureIsBlurry` | core/blur_detector.py:21-35 | A failed image is blurry under every positive threshold, the default 50 included. |
| `Blur.IsBlurry` | utils/blur.py:104-127 | It fails (`ValueError`) if and only if the lower-cased method, with `None` read as "", is not "vol", "hfr" or "vol+hfr". |
| `Blur.BlurredFor` | utils/blur.py:116-127 | It fails if and only if the method is unknown. |
| `Blur.BlurVerdicts` | utils/blur.py:120-127 | "vol" and "hfr" each compare one score strictly below its threshold, where a missing score is +inf and a missing threshold is 0. "vol+hfr" holds if and only if both do. |
| `Blur.SingleVerdict` | utils/blur.py:120-123 | "vol" and "hfr" each compare only their own score against its threshold. |
| `Blur.BothVerdict` | utils/blur.py:124-127 | "vol+hfr" is the conjunction of both. |
| `Blur.MethodCaseInsensitive` | utils/blur.py:116 | The method name is case-insensitive. |
| `Blur.MissingScoreNeverBlurry` | utils/blur.py:121-126 | A missing score never gives blurry, whatever the thresholds. |
| `Blur.ResizeLongSide` | utils/blur.py:16-29 | It raises exactly for a missing, empty or zero-sided image, and leaves the image unchanged if and only if its long side is at most the target. |
| `Blur.ZeroSideIsEmpty` | utils/blur.py:18-22 | The zero-dimension guard is unreachable: such an image is already refused as empty. |
| `Noise.IsNoisy` | utils/noise.py:114-135 | It fails if and only if the lower-cased method is not one of the four. |
| `Noise.NoisyFor` | utils/noise.py:116-135 | It fails if and only if the method is unknown. |
| `Noise.SingleMetric` | utils/noise.py:121-133 | A single-metric method is noisy if and only if its score and threshold are both present and the score is strictly greater. |
| `Noise.FlatOrBlock` | utils/noise.py:134-135 | "flat+block" is "var_flat" or "jpeg_block". |
| `Noise.OwnMetricOnly` | utils/noise.py:121-133 | A single-metric verdict depends only on that metric's score and threshold. |
| `Noise.NoWaveletNeverNoisy` | utils/noise.py:121-131 | Without a wavelet variance, "wavelet_var" is never noisy. |
| `Noise.MethodCaseInsensitive` | utils/noise.py:116 | The method name is case-insensitive. |
| `CacheDb.HashCache.constructor` | app/cache_db.py:6-28 | Opening sees the stored table, fully committed. |
| `CacheDb.HashCache.Get` | app/cache_db.py:30-35 | A row is returned if and only if path, size and mtime all match, and it holds that row's five columns. |
| `CacheDb.HashCache.Upsert` | app/cache_db.py:37-52 | The path's row is replaced wholesale. Every other row, and the committed table, stay as they were. |
| `CacheDb.HashCache.Commit` | app/cache_db.py:54-55 | The committed table becomes the connection's table. |
| `CacheDb.HashCache.Close` | app/cache_db.py:57-61 | Commits, then closes. |
| `CacheDb.UpsertThenGet` | app/cache_db.py:30-52 | After an upsert, the same path, size and mtime return the columns written. |
| `CacheDb.UpsertThenStaleGet` | app/cache_db.py:30-52 | After an upsert, another size or mtime misses. |
| `CacheDb.UpsertKeepsOthers` | app/cache_db.py:37-52 | Other paths answer as before. |
| `CacheDb.UpsertOverwrites` | app/cache_db.py:37-52 | The last write wins, and upserting the same row twice is idempotent. |
| `ImageCache.Loaded` | core/cache.py:10-22 | A missing or unreadable file loads as empty. |
| `ImageCache.Saved` | core/cache.py:24-32 | A successful save loads back the data. A failure to open the file leaves it alone. A failure while pickling leaves a file that loads as empty. |
| `ImageCache.Cache.constructor` | core/cache.py:6-8 | A new cache is empty. |
| `ImageCache.Cache.Load` | core/cache.py:10-22 | `data` becomes what the file holds, or empty. |
| `ImageCache.Cache.Save` | core/cache.py:24-32 | Writes `data` when nothing fails. When `open` fails the file stays as it was; when `pickle.dump` fails it is left truncated and unreadable. |
| `ImageCache.Cache.Get` | core/cache.py:34-40 | An entry is returned if and only if the path is present with exactly that mtime. |
| `ImageCache.Cache.Set` | core/cache.py:42-48 | The entry is replaced wholesale, and all other entries stay. |
| `ImageCache.SetThenGet` | core/cache.py:34-48 | A get after a set returns the entry for the same mtime and misses for another. |
| `ImageCache.SetKeepsOthers` | core/cache.py:34-48 | Other paths answer as before. |
| `ImageCache.SaveThenLoad` | core/cache.py:10-32 | Save then load is the identity. After a save that failed while pickling, and for a missing or unreadable file, the cache serves nothing. |
| `PathOrder.Parts` | main.py:71 | A path splits into at least one component, and no component contains '/'. |
| `PathOrder.JoinPartsRoundTrip` | main.py:71 | Joining the components with '/' gives the path back. |
| `PathOrder.PartsInjective` | main.py:71 | Different paths have different components, so two distinct paths never compare equal. |
| `PathOrder.PathLeTotal` | main.py:71 | The order is total. |
| `PathOrder.PathLeAntisymmetric` | main.py:71 | The order is antisymmetric. |
| `PathOrder.PathLeTransitive` | main.py:71 | The order is transitive. |
| `PathOrder.PathLeReflexive` | main.py:71 | The order is reflexive. |
| `PathOrder.Insert` | main.py:71 | Insertion adds one element and is a permutation. |
| `PathOrder.InsertSorted` | main.py:71 | Insertion keeps a sequence sorted. |
| `PathOrder.SortPaths` | main.py:71 | `sort()` is a permutation. |
| `PathOrder.SortPathsSorted` | main.py:71 | `sort()` gives a sorted sequence. |
| `PathOrder.SortedUnique` | main.py:71 | A sorted permutation is unique, so the result does not depend on walk order. |
| `PathOrder.SeparatorSortsFirst` | main.py:71 | Paths are compared component by component: "d/a/b" comes before "d/a-b", whereas plain string comparison puts it after. |
| `Cli.Decide` | main.py:128-138 | The label's name is `decide_for_image`'s decision. |
| `Cli.DecisionCases` | main.py:128-138 | The decision is:<br>• "low_texture" if and only if the data set is low-texture, whatever the flag;<br>• "blurry" if and only if the data set is not low-texture and the flag is set, with the method as reason;<br>• "keep" otherwise. |
| `Cli.SuffixDot` | main.py:119-120 | The suffix dot is absent, or strictly inside the name and not last. |
| `Cli.StemSuffix` | main.py:119-120 | Stem + suffix = name, and a suffix starts with '.' after a non-empty stem. |
| `Cli.JoinInjective` | main.py:116-122 | Joining one directory with different relative names gives different paths. |
| `Cli.NumberedNameInjective` | main.py:121-122 | Different attempts try different names. |
| `Cli.CandidateInjective` | main.py:121-124 | Different attempts try different paths. |
| `Cli.UniqueDestination` | main.py:114-125 | It returns a free path:<br>• the plain name when that is free;<br>• otherwise `stem_idx.suffix` for the first free idx, after every earlier attempt was found taken.<br>It always terminates, so the `RuntimeError` is never raised. |
| `Cli.GatherImages` | main.py:62-72 | A file root gives itself if it is an image, and [] otherwise. A directory gives the sorted image paths of the walk. The result is `Gathered`. |
| `Cli.GatheredPaths` | main.py:62-72 | The gathered paths are sorted and are exactly the walked files that are images. |
| `Cli.ParseChoice` | main.py:39-44 | Only the exact choice names are accepted. |
| `Cli.ParseChoiceName` | main.py:39-44 | Every choice is accepted under its own name. |
| `Cli.MoveTarget` | main.py:217 | The move directory is in effect if and only if it is given and non-empty. |
| `Cli.CheckArgs` | main.py:145-152 | The arguments pass if and only if the method is a valid choice, the percentile is in [5, 50], the sample limit is positive, and the input exists. A missing input is reported under its resolved path. |
| `Cli.ChoiceAccepted` | main.py:39-44 | `is_blurry` never raises for a choice argparse accepted. |
| `Cli.BlurFlag` | main.py:211-213 | The flag is set if and only if the data set is not low-texture and `is_blurry` says true. |
| `Cli.Verdict` | main.py:193-214 | An image gets no decision if and only if it failed to load or score. "low_texture" is given to every scored image and only under low texture. |
| `Cli.DecideImage` | main.py:211-214 | The decision for a scored image is its `Verdict`. |
| `Cli.HandleImage` | main.py:193-221 | One loop pass updates the counters and the move count as `Step` says. It moves to a fresh, previously free path. |
| `Cli.ProcessImages` | main.py:187-233 | The counters are `Tally` of the verdicts. The destinations number `moved`, were free before, and are pairwise distinct. |
| `Cli.TallyTotal` | main.py:188-215 | Every image increments exactly one counter. |
| `Cli.TallyErrors` | main.py:193-210 | "error" counts exactly the images that failed to load or score. |
| `Cli.TallyMoves` | main.py:217-220 | With a move directory every blurry image is moved; without one, none is. |
| `Cli.TallyNoLowTexture` | main.py:162-215 | With no "low_texture" decision, that counter stays 0. |
| `Cli.TallyAllLowTexture` | main.py:162-215 | Under low texture nothing is blurry or kept, and "low_texture" plus errors covers every image. |
| `Cli.RunMain` | main.py:141-242 | A run:<br>• aborts exactly on the first failing guard;<br>• ends with no images if and only if the guards pass and the resolved input gathers nothing;<br>• otherwise ends with the counters and moves of `Tally` over the verdicts of the gathered images, one count per image;<br>• under low texture marks nothing blurry or kept and moves nothing;<br>• moves every blurry image when a move directory is in effect, and none otherwise. |

## Left out

- Everything that touches the outside world is an input: the file-system walk, `os.stat`, decoding images and videos, SHA-256 and perceptual hashing, OpenCV/NumPy metrics (Laplacian, Sobel, FFT, wavelets), EXIF, and the threshold percentiles and median of `compute_thresholds` (main.py:86-111).
- The CSV output, logging, `print`, Qt signals and the `QThread` itself are left out. Progress values are kept as a sequence.
- The worker's `except Exception` path (`sig_error`) is left out. So is its use of `st` from an earlier iteration when `os.stat` fails in the hash loop (app/workers.py:92-105).
- The final loop's `it.blur = laplacian_variance(...)` assignment (app/workers.py:143-148) is left out. `ResultItem` declares no `blur` field, and only the progress values of that loop are modelled.
- `ScanWorker.Percent`: `int(i/total*k)` is taken as the exact floor of `i*k/total`. Floating-point rounding of `i/total` is not modelled.
- `MediaPaths.FormatBytesLoop`: the quotient is an exact real. The `.1f` rendering and float division are not modelled.
- `ImageQuality.QualityScore`: arithmetic is on exact reals rather than floats.
- `PathOrder.Parts`: a path is split as `str.split('/')` splits it, so the root is an empty first component rather than pathlib's separate root part. All the compared paths share one root, so both give the same order.
- `Cli.RunMain`:
  - `Path(args.input).expanduser().resolve()` is an input, `resolved`, with whether it exists, whether it is a file, and its walk;
  - `--drop-blurry` only logs (main.py:240-241) and is not modelled;
  - `shutil.move` appears only as the chosen destination becoming taken.
- `CacheDb.HashCache`: SQLite's `REAL` comparison of `mtime` is exact equality on reals. The `PRAGMA` settings and directory creation are left out.
- `ImageCache.Cache`: the pickled dictionary's shape is trusted. A pickle holding something other than the expected dictionary is not modelled.
- `Scanner.ScanDirectory`: the callback is called with one argument, as the code does, although its annotation names two. EXIF reading (`get_exif_data`) is I/O and is left out.
- `Blur.ResizeLongSide`: the scaled dimensions (rounding of `w * scale`) are not modelled, only the guards and whether the image is kept unchanged. `_to_gray` and `blur_scores` are metrics and are inputs.
- `Noise.IsNoisy`: utils/noise.py imports `preprocess_gray` from utils/blur.py, which does not define it. The metric functions are inputs here, so only `is_noisy` is modelled.
- `Models.ResultItem.similarity` is declared `Optional[int]` but assigned `1.0`. The model uses an optional real.
- `PathText.Lower` maps ASCII, U+212A and U+0130 only.
- `ScanWorker.GreedyFacts`: holds from any state of the pivot loop, so it states only soundness. Completeness is stated for the pass from its start by `ScanWorker.GreedyGroupsExactly` and `ScanWorker.GreedyGroupsEmitted`.
- `GroupBuilder.InnerGrows`: states only what the added positions satisfy. Which positions are added is `GroupBuilder.InnerExact`.
- `GroupBuilder.OuterFacts`: holds from any state of the pivot loop, so it states only soundness. Completeness is stated for the pass from its start by `GroupBuilder.BuildExactly` and `GroupBuilder.BuildShaped`.
- `GroupBuilder.BuildPaths`: states soundness of the path groups. Which positions join and which become pivots is stated on positions by `GroupBuilder.BuildShaped`, because a path repeated in the input differs only by position.
- `Blur.IsBlurry` and `Noise.IsNoisy`: the `Unknown ... method` error text quotes the method as `PathText.Lower` gives it, so for a name with other upper-case characters ("VÖL" gives "völ" in Python) the message differs from Python's. Whether the call fails, and every verdict, are unaffected.
- Video helpers (`video_meta`, `frame_iter`, `video_phash_hex`) and image helpers (`get_image_meta`, `phash_hex`, `laplacian_variance`, `noise_metric`) are I/O and metrics. What they return is part of each `Probe`.
