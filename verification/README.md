# hwloc: verified models of its tree, bitmap, distance, PCI and XML code

hwloc describes a machine as a tree of objects, each with a set of CPUs. This project models the code
that works on that tree and on the data around it, in place where the source works in place, and proves
what the code achieves over whole runs.

- **The topology tree** (`src/topology.c`). Objects are linked through `firstChild` and `nextSibling`.
  `Insertion.dfy` is the insertion by CPU set, `Discovery.dfy` runs of insertions, `TreeOrder.dfy` says which
  objects they put above which, and `TreeChecks.dfy` what the library checks of the result. `Collapse.dfy` and
  `Restrict.dfy` are the loops that delete under their own iterator, `MergeOutcome.dfy` and
  `RestrictOutcome.dfy` say which objects are left. `Levels.dfy` and `LevelBuilder.dfy` build the levels,
  `LevelTypes.dfy` is about what a level has of its type, `Symmetry.dfy` about symmetric subtrees.
  `Synthetic.dfy` (`src/topology-synthetic.c`) generates objects in post-order and `LargestObjects.dfy`
  (`src/traversal.c`) covers a CPU set with objects.
- **Bitmaps** (`src/cpuset.c`). `Bitmap.dfy` is the growable array of 64-bit words with its `infinite`
  flag, as a class that refines sets of naturals. `BitmapQueries.dfy` and `BitmapOrder.dfy` hold the
  queries, `BitmapText.dfy`, `BitmapList.dfy` and `BitmapTaskset.dfy` the three textual forms with
  their parsers, over the bounded output of `TextBuffer.dfy`. `HexMeaning.dfy`, `ListMeaning.dfy` and
  `TasksetMeaning.dfy` say what texts mean that others have written, from the table of digits in
  `DigitMeaning.dfy`, and `TextForms.dfy` which of them are printed.
- **Distances** (`src/distances.c`). `MatrixCompaction.dfy` removes rows and columns of a flattened matrix
  with overlapping moves. `GroupSearch.dfy` is the search for groups, `GroupAccuracy.dfy` tells what an
  accuracy lets pass, `GroupClasses.dfy` and `GroupClosure.dfy` say what the groups are, `GroupPath.dfy` has a
  matrix where an object is missed, `GroupLevels.dfy` averages the matrix and `GroupHierarchy.dfy` recurses.
- **PCI** (`src/topology-libpci.c`). `PciTree.dfy` works on doubly linked sibling lists, `PciFamily.dfy`
  says which tree must come out, `PciDiscovery.dfy` adds all devices and splits them over host bridges, and
  `PciHostBuses.dfy` is about the buses that these announce.
- **XML without libxml** (`src/topology-xml.c`). `XmlWriter.dfy` prints into a bounded buffer and
  `XmlReader.dfy` reads destructively in the buffer what `XmlParser.dfy` says. `XmlNodes.dfy` has documents as
  trees of tags, whoever wrote them, `XmlMeaning.dfy` and `XmlNames.dfy` tell what they mean, and
  `XmlRoundTrip.dfy` and `XmlSaveAndLoad.dfy` put writer and reader together.

Each method is proved against a specification function or predicate, and the promises of the source are
proved about that specification. Every module declares only the fields of an object that its code touches.
Ghost maps and trees say what is linked where; a `Kids` map gives every object its children in order.

## Model

| member | source | states |
|---|---|---|
| Hierarchy.TreeUnique | src/topology.c:583-761 | a family of pairwise compatible objects has only one tree with siblings in order of first CPU |
| TreeChecks.ChildPlaced | src/topology.c:2922-2935 | every child, an only one too, is not empty, inside its parent, and in no other place of the tree |
| TreeChecks.SiblingsApart | src/topology.c:2922-2938 | siblings are disjoint and in order of first CPU |
| TreeChecks.ChecksExactly | src/topology.c:2922-2944 | the children of an object pass the library's check of their sets if and only if together they have all CPUs of the object |
| Hierarchy.TreeAfterInsert | src/topology.c:701-758 | moving the contained children below the new object, at its place, turns the tree of a family into the tree of the family with it |
| Insertion.Scan | src/topology.c:597-693 | the first loop finds the child to descend into, or that the object crosses or equals something, or that it belongs here |
| Insertion.SplitChildren | src/topology.c:701-758 | the second loop splits the linked children exactly into those contained in the new object and the others with it, both in order |
| Insertion.InsertBelow | src/topology.c:585-761 | the insertion succeeds exactly when nothing crosses or equals the object and it fits in the root; then the links are those of the larger family, otherwise no link changes; TreeOrder says which object is above which |
| Discovery.Topology.Insert | src/topology.c:765-778 | the same from the root, over the set of all objects |
| Discovery.RunKeepsFamily | src/topology.c:765-778 | over any run the objects form a family, and every object turned away conflicts with what is there at the end |
| Discovery.InsertAll | src/topology.c:765-778 | a whole run of insertions accepts exactly the objects that were compatible on arrival, and the links are their tree, with one object above another as TreeOrder says |
| Discovery.OrderIndependence | src/topology.c:583-761 | the trees of two orders of the same compatible objects are equal, siblings included |
| Discovery.InsertTwice | src/topology.c:583-761 | two real runs in two orders, the second over the links left by the first, end with the same children everywhere |
| TreeOrder.CompatibleMeans | src/topology.c:498-559 | two objects fit in one tree exactly when one contains the other, or they have no CPU in common; with equal sets the one of higher type, of larger depth or of later name contains the other |
| TreeOrder.AdmitsMeans | src/topology.c:583-761 | so an insertion accepts exactly the objects that fit in the root and fit together with all objects there |
| TreeOrder.AboveMeansContains | src/topology.c:583-761 | in the linked tree of a family an object is above another if and only if it contains it |
| TreeOrder.DeeperCacheIsAbove | src/topology.c:451-483 | of two caches, or two groups, with the same CPUs the one of larger depth is above |
| TreeOrder.TypesAreNested | src/topology.c:386-448 | objects of different types with the same CPUs are above one another in the order System, Machine, Group, NUMA node, Socket, Cache, Core, PU, Misc |
| TreeOrder.PrivateCaches | src/topology.c:583-761 | a real run with the L1 and then the L2 of one core links the L1 below the L2 |
| Synthetic.Look | src/topology-synthetic.c:233-338 | the next object of a level takes the next index and the next run of CPUs, with everything below it, and leaves earlier objects alone |
| Synthetic.LookSynthetic | src/topology-synthetic.c:341-364 | the k-th object of a level has id k and the k-th block of CPUs; the insertions build exactly the complete tree if and only if every only child is of a deeper kind than its parent |
| Synthetic.BranchingDescends | src/topology-synthetic.c:341-364 | which holds when every arity below the root is at least 2 |
| Synthetic.CompleteDescends | src/topology-synthetic.c:335-358 | in a complete tree, an only child with the CPUs of its parent is of a deeper kind |
| Synthetic.BlocksNest | src/topology-synthetic.c:272-287 | two aligned blocks of CPUs are nested or disjoint, according to their indexes |
| Synthetic.BlockMeans | src/topology-synthetic.c:272-287 | CPU x is in block x / width |
| LargestObjects.LargestInside | src/traversal.c:117-157 | the recursion emits the first `max` of the maximal objects and accounts for the room left |
| LargestObjects.GetLargestInside | src/traversal.c:160-172 | a set that is not inside the root gives -1; otherwise the first `max` of the maximal objects are returned |
| LargestObjects.FoundAreLargest | src/traversal.c:117-157 | the objects found are exactly the included objects with no other included object above them |
| LargestObjects.FoundDisjoint | src/traversal.c:117-157 | they do not overlap |
| LargestObjects.FoundCover | src/traversal.c:117-157 | together they are exactly the set that was asked for |
| LargestObjects.FoundFewest | src/traversal.c:117-157 | no smaller collection of objects covers the set exactly |
| LargestObjects.FoundInOrder | src/traversal.c:117-157 | they are found in the order in which a depth-first walk meets them |
| Trees.UnlinkSingle | src/topology.c:1302-1316 | the children of the object take its place in the sibling list |
| Collapse.RemoveIgnored | src/topology.c:1320-1333 | exactly the objects of ignored types other than the root are gone, although the loop deletes under its iterator, and it ends |
| Collapse.IgnoredRemovedInOrder | src/topology.c:1320-1333 | all others keep their preorder and their ancestry |
| Collapse.MergeUselessChild | src/topology.c:1445-1472 | the links after merging in place are those of the merged tree |
| Collapse.MergedIsStructured | src/topology.c:1445-1472 | no object with an only child is left where either could have been merged |
| Collapse.MergedInOrder | src/topology.c:1445-1472 | only objects of keep-structure types go, and all others keep their preorder and ancestry |
| Collapse.MergedIsPruned | src/topology.c:1445-1472 | merging removes whole objects from the tree and nothing else |
| Collapse.SpansKept | src/topology.c:1445-1472 | the family of PU sets spanned by objects is the same as before |
| MergeOutcome.MergedGoes | src/topology.c:1445-1472 | exactly those objects of keep-structure types go that have an only child, or that are reached through only-child links from an object of another type |
| MergeOutcome.ParentsGo | src/topology.c:1457-1465 | an object with an only child, of a keep-structure type, goes in favour of the child, whatever that is |
| MergeOutcome.SocketStays | src/topology.c:1445-1472 | a real run on a NUMA node with one socket, both of such types, keeps the socket |
| Restrict.RestrictObject | src/topology.c:1379-1417 | the in-place recursion leaves the links and the sets of the restricted tree |
| RestrictOutcome.AllRestrictedIsLeft | src/topology.c:1379-1417 | although unmodified subtrees are skipped and some children looked at twice, what is left is what it is without that, Misc and I/O objects included |
| RestrictOutcome.GoesExactly | src/topology.c:1396-1402 | an ordinary object goes if and only if it loses all its CPUs; a Misc or an I/O object if and only if its parent goes and the flag for such objects is not given |
| RestrictOutcome.LeftIsPruned | src/topology.c:1379-1417 | what is left is the tree with those objects taken out and the CPU sets and complete sets of the others cut |
| RestrictOutcome.OthersStay | src/topology.c:1379-1417 | the others keep their preorder and are above one another as before |
| RestrictOutcome.RestrictionComposes | src/topology.c:1379-1417 | restricting to A and then to B is restricting to their intersection, when that meets the root, for any flags |
| RestrictOutcome.RestrictTopology | src/topology.c:2850-2879 | a set that does not meet the root is refused and nothing changes; otherwise the linked tree is what is left |
| Levels.LevelSplits | src/topology.c:1661-1688 | taking a level out of the list loses nothing and keeps the depth-first order of both parts |
| LevelBuilder.FilterObject | src/topology.c:1694-1718 | an object is counted, and copied when there is room, as what goes in levels in its place, without touching the rest of the array |
| LevelBuilder.FilterObjects | src/topology.c:1726-1758 | I/O objects are dropped and Misc objects replaced by what is below; the array is kept when there is nothing to filter |
| LevelBuilder.FindSameType | src/topology.c:1642-1654 | whether there is an object of the same type in the subtree |
| LevelBuilder.TakeObjects | src/topology.c:1661-1688 | the arrays of taken and remaining objects are filled exactly |
| LevelBuilder.BuildLevel | src/topology.c:1849-1941 | one round: the objects of the top type get depth, index and cousins, and the next list follows |
| LevelBuilder.ConnectLevels | src/topology.c:1793-1954 | the loop ends, and every object of every level knows its depth, its place and its cousins |
| LevelBuilder.TopologyInLevels | src/topology.c:1849-1941 | every object that is not I/O or Misc is in exactly one level |
| LevelBuilder.LevelsAreSorted | src/topology.c:1849-1941 | every level has one type and is in depth-first order |
| LevelBuilder.AncestorsAreHigher | src/topology.c:1849-1941 | an object is deeper than all objects above it |
| LevelBuilder.PusAreLast | src/topology.c:1849-1941 | all PUs, when nothing that goes in levels is below them, are in the last level |
| LevelTypes.TopIsTopmost | src/topology.c:1863-1872 | when objects of one type have the same types below them, no object of the list is above one of the type that is taken |
| LevelTypes.TopIsFirst | src/topology.c:1852-1872 | the first object that is not a PU is taken unless something in the list is above its type |
| LevelTypes.TypesHaveOneLevel | src/topology.c:1849-1941 | then every type has one level |
| LevelTypes.CachesInTwoLevels | src/topology.c:1863-1872 | without that, a socket above a cache is passed over and two caches of one depth end up in different levels |
| Symmetry.WalkCompares | src/topology.c:1574-1592 | for children that are symmetric, comparing first-child chains compares all objects of every level |
| Symmetry.Propagate | src/topology.c:1552-1598 | every flag is set exactly when all objects at the same distance below have the same depth and arity |
| MatrixCompaction.DropRowAndColumn | src/distances.c:369-393 | the overlapping moves leave the matrix without one row and one column, every other cell kept |
| MatrixCompaction.OsDistances.FinalizeOs | src/distances.c:355-413 | indexes, objects and matrix are the original restricted, in order, to the objects that exist, and the loop ends although its index wraps below 0 |
| MatrixCompaction.ExistingRows | src/distances.c:364-413 | the rows that stay are exactly those whose index names an existing object, in increasing order |
| GroupSearch.ExactComparison | src/distances.c:667-672 | without an accuracy, distances compare as numbers |
| GroupSearch.AccuracyIsOneSided | src/distances.c:667-672 | two distances are equal one way round only, if and only if their difference is between the margins that each of them gives |
| GroupAccuracy.CountsAsMinimal | src/distances.c:667-672 | for an accuracy below 1, a distance counts as minimal if and only if taking that part of itself off brings it below the smallest one |
| GroupAccuracy.NearMeans | src/distances.c:679-713 | the same for the pairs of objects that a search takes as closest |
| GroupAccuracy.UsableMeans | src/distances.c:764-786 | for positive distances, the check passes if and only if for every distance x above the diagonal the one back is within the margin of x, and the distance of its row to itself at most x less the margin |
| GroupAccuracy.ExactlyUsable | src/distances.c:764-786 | without an accuracy: the matrix is symmetric and every object is closest to itself |
| GroupAccuracy.FirstThatGroups | src/distances.c:821-834 | the groups are those of the first accuracy for which the check passes and something is grouped |
| GroupAccuracy.GroupPairs | src/distances.c:679-760 | a real run at accuracy 0.1 on pairs at distances 1.0 and 1.105 gives the ids 1, 1, 2, 2 |
| GroupSearch.FindLeast | src/distances.c:694-702 | the smallest distance between two different objects |
| GroupSearch.CloseGroup | src/distances.c:717-740 | the scans over the matrix grow a group as the specification of the search does, and say whether it grew |
| GroupSearch.FindGroups | src/distances.c:679-760 | the group ids written are those of the specified search at minimal distance, as GroupAccuracy tells it, and a single group of all objects counts as none |
| GroupClasses.NumberingIsContiguous | src/distances.c:679-760 | for any matrix, ids are contiguous, every group has two members and there are at most half as many groups as objects |
| GroupClasses.GroupsAreClasses | src/distances.c:679-760 | two objects share a group exactly when they are at minimal distance, if and only if that relation is symmetric and transitive |
| GroupClosure.ScanIsRound | src/distances.c:723-737 | one scan finds exactly what is near to the objects reached by paths of increasing index, and returns the first object found |
| GroupClosure.CloseIsReached | src/distances.c:717-740 | a group grows to what the rounds on sets reach |
| GroupClosure.GroupsClosedExactly | src/distances.c:674-760 | for a symmetric relation the groups are exactly its components, if and only if the first object of every component reaches all of it in such rounds |
| GroupClosure.MatrixGroups | src/distances.c:674-760 | the same for what is found in a symmetric matrix |
| GroupClosure.OneRoundIsEnough | src/distances.c:717-740 | the groups are the components when every object is near one that is climbed to from the first object of its component |
| GroupClosure.AscendingGroups | src/distances.c:717-740 | in particular when every object but the first of its component is near a smaller one |
| GroupClosure.PathIsNoComponent | src/distances.c:724-738 | on the path 0, 3, 2, 1 the groups are not the components |
| GroupPath.MatrixIsPath | src/distances.c:679-786 | a matrix of four objects that grouping accepts, symmetric, whose smallest distances make that path |
| GroupPath.MatrixGroupsMissed | src/distances.c:679-760 | the groups of that matrix are not its components |
| GroupPath.MissedInMatrix | src/distances.c:679-786 | a real run of the check and the search on that matrix leaves object 1 out |
| GroupClasses.PathIsMissed | src/distances.c:724-738 | there the search ends with 0, 2 and 3 in a group and 1 left out |
| GroupLevels.Factorize | src/distances.c:843-899 | sizes and averages of the grouped matrix |
| GroupLevels.AveragesConserve | src/distances.c:843-899 | averages weighted by group sizes add up to the distances between grouped objects |
| GroupLevels.AverageOfFour | src/distances.c:869-885 | for two groups of two, the average of the four distances from the first to the second |
| GroupHierarchy.CheckMatrix | src/distances.c:764-786 | the matrix is accepted exactly when it is symmetric within the accuracy and smallest on the diagonal |
| GroupHierarchy.TryAccuracies | src/distances.c:821-834 | the first accuracy that gives groups is used |
| GroupHierarchy.GroupsByDistances | src/distances.c:792-918 | the recursion ends and yields the groups of every level |
| GroupHierarchy.GenerateMatrix | src/distances.c:199-219 | the x*y*z generator writes three distances by shared ancestors, or refuses |
| GroupHierarchy.EightObjects | src/distances.c:199-219 | for two groups of two groups of two objects, two rows of distances as numbers |
| GroupHierarchy.HierarchyRecovered | src/distances.c:792-918 | from an x*y*z matrix, x, y and z at least 2, the recursion finds x*y runs of z and then x runs of y, and nothing more |
| PciFamily.CompareMeans | src/topology-libpci.c:378-415 | the comparison is inclusion in the bridge range, or else order by domain, bus, device and function |
| PciFamily.PrecedesIsNumeric | src/topology-libpci.c:378-415 | that order is the order of the numbers made of domain, 8 bits of bus, 5 of device and 3 of function |
| PciFamily.TreeUnique | src/topology-libpci.c:476-503 | a family of devices and nested bridges has only one tree with sorted siblings |
| PciTree.AddChildBefore | src/topology-libpci.c:418-433 | the object is linked, both ways, at the given place |
| PciTree.RemoveChild | src/topology-libpci.c:436-448 | the object is unlinked and the list closes around it |
| PciTree.TryInsertSiblings | src/topology-libpci.c:453-473 | exactly the later siblings inside the new bridge move below it, in order |
| PciTree.AddObject | src/topology-libpci.c:476-503 | the tree of a family becomes the tree of the family with the object, and no assertion fails |
| PciDiscovery.AddDevices | src/topology-libpci.c:476-503 | from any order of devices, every object ends up directly below the smallest bridge range that has its bus, siblings sorted |
| PciDiscovery.FillHostbridge | src/topology-libpci.c:795-825 | the objects of one bus move to a host bridge, which announces the buses behind them |
| PciDiscovery.MakeHostbridges | src/topology-libpci.c:783-828 | exactly one host bridge for every upstream domain and bus, in order, and the rest of the tree stays |
| PciHostBuses.EveryDeviceHosted | src/topology-libpci.c:783-828 | every device is below a host bridge that announces its bus, and no two host bridges start at the same bus |
| PciHostBuses.AnnouncedOnceExactly | src/topology-libpci.c:783-828 | every bus of a device is announced by one host bridge only, if and only if no object at the top is on a bus strictly between that of a bridge at the top and those behind it |
| PciHostBuses.BusAnnouncedTwice | src/topology-libpci.c:783-828 | a real run with bridges to buses 1 and 3 and a device on bus 2, which two host bridges announce |
| Bitmap.Bitmap.constructor | src/cpuset.c:76-98 | a new bitmap is empty |
| Bitmap.Bitmap.Realloc | src/cpuset.c:141-157 | growing never changes the set |
| Bitmap.Bitmap.Or | src/cpuset.c:922-937 | exact union, whichever operands are the result itself |
| Bitmap.Bitmap.And | src/cpuset.c:939-954 | exact intersection, for any aliasing |
| Bitmap.Bitmap.AndNot | src/cpuset.c:956-971 | exact difference, for any aliasing |
| Bitmap.Bitmap.Xor | src/cpuset.c:973-988 | exact symmetric difference, for any aliasing |
| Bitmap.Bitmap.Not | src/cpuset.c:990-1003 | exact complement, also of itself |
| Bitmap.Bitmap.Zero | src/cpuset.c:644-650 | the empty set |
| Bitmap.Bitmap.Fill | src/cpuset.c:660-666 | every number |
| Bitmap.Bitmap.Only | src/cpuset.c:704-713 | one member |
| Bitmap.Bitmap.AllBut | src/cpuset.c:715-724 | every number but one |
| Bitmap.Bitmap.SetBit | src/cpuset.c:726-738 | adds one member |
| Bitmap.Bitmap.Clr | src/cpuset.c:784-796 | removes one member |
| Bitmap.Bitmap.SetRange | src/cpuset.c:740-774 | a bounded range is added exactly; one to infinity adds everything from the smaller of its start and the end of the words |
| Bitmap.Bitmap.ClrRange | src/cpuset.c:798-832 | the same for removing |
| Bitmap.SetRangeToInfinityExact | src/cpuset.c:748-758 | adding to infinity is exact if and only if the range starts within the words or the set was infinite |
| Bitmap.ClrRangeToInfinityExact | src/cpuset.c:806-816 | removing to infinity is exact if and only if the range starts within the words or the set was finite |
| Bitmap.SetRangeSetsMore | src/cpuset.c:748-758 | a range from 100 on in one empty word also sets 80 |
| Bitmap.ClrRangeClearsMore | src/cpuset.c:806-816 | removing from 100 on from the full set in one word also removes 80 |
| BitmapQueries.Next | src/cpuset.c:1043-1073 | the least member after a number, or -1, for infinite sets past the words too |
| BitmapQueries.First | src/cpuset.c:1005-1022 | the least member, or -1 |
| BitmapQueries.Last | src/cpuset.c:1024-1041 | the greatest member of a finite set, or -1 |
| BitmapQueries.Singlify | src/cpuset.c:1075-1107 | exactly the least member stays |
| BitmapQueries.IsSet | src/cpuset.c:834-841 | membership |
| BitmapQueries.IsZero | src/cpuset.c:843-855 | emptiness |
| BitmapQueries.IsEqual | src/cpuset.c:871-886 | equality of the sets, whatever the word counts |
| BitmapQueries.Intersects | src/cpuset.c:888-903 | whether the sets meet within the stored words |
| BitmapQueries.IntersectsExact | src/cpuset.c:888-903 | that is whether they meet, unless both are infinite: then they always meet |
| BitmapQueries.IntersectsGuard | src/cpuset.c:899-902 | for given flags and word counts the answer is right for all bitmaps if and only if not both are infinite |
| BitmapQueries.IsIncluded | src/cpuset.c:905-920 | inclusion as seen in the words of the subset and the two flags |
| BitmapQueries.IsIncludedExact | src/cpuset.c:905-920 | that is inclusion, unless both are infinite and the subset has fewer words |
| BitmapQueries.IsIncludedGuard | src/cpuset.c:912-917 | for given flags and word counts the answer is right for all bitmaps if and only if that is not the case |
| BitmapQueries.IsIncludedMissesHole | src/cpuset.c:912-917 | all CPUs in one word are said to be included in all CPUs but 64 to 127 |
| BitmapQueries.IntersectsMissesTail | src/cpuset.c:899-902 | all CPUs from 64 on are said not to meet themselves |
| BitmapOrder.Compare | src/cpuset.c:1134-1154 | zero exactly for equal sets, otherwise decided by the highest number in which they differ, infinite sets above finite ones |
| BitmapOrder.LessTransitive | src/cpuset.c:1134-1154 | with the previous row, a total order on sets |
| BitmapOrder.CompareFirst | src/cpuset.c:1109-1132 | which set starts first, an empty one counting as last, unless nothing is stored and one set is infinite |
| BitmapOrder.OnlyTailIsWrong | src/cpuset.c:1127-1130 | in that case the answer is the wrong one |
| BitmapOrder.TailComesLast | src/cpuset.c:1127-1130 | all CPUs from 64 on start before the empty set, and are said to come after it |
| BitmapOrder.Weight | src/cpuset.c:1156-1169 | the number of members of a finite set, or -1 |
| TextBuffer.Output.Put | src/cpuset.c:239-312 | for every buffer size, the full length is counted and exactly the fitting prefix is written, with its end |
| BitmapText.Snprintf | src/cpuset.c:222-299 | prints the hexadecimal text of the set |
| BitmapText.Asprintf | src/cpuset.c:301-312 | the second pass has room for the whole text |
| BitmapText.Sscanf | src/cpuset.c:314-373 | the bitmap is what the text means by HexMeaning, or empty on an error |
| DigitMeaning.DigitMeans | src/cpuset.c:341-349 | the digits are the sixteen of the table, in either case, each with the bits of its place in it |
| HexMeaning.HexMeans | src/cpuset.c:314-373 | groups of digits of either case, any of them short, empty or with a prefix, are read, and member i is the bit of the text; past the words of the groups there is nothing, or everything after `0xf...f` |
| HexMeaning.ShortGroups | src/cpuset.c:314-373 | with at most 8 digits in every group, bit i of the text is bit i % 4 of digit i % 32 / 4 from the right in group i / 32 from the right |
| HexMeaning.OnlyHexIsRead | src/cpuset.c:314-373 | nothing else is read, but for what follows `0xf...f` without a comma |
| TextForms.HexForm | src/cpuset.c:222-299 | what is printed has eight lower-case digits after `0x` in every group that is not zero, nothing in a zero group but `0x0` in the last, and no zero group in front of a finite set |
| BitmapText.RoundTrip | src/cpuset.c:222-373 | the hexadecimal parser undoes the printer for every set, finite or infinite, zero groups skipped or not |
| BitmapList.RunsAreMembers | src/cpuset.c:375-430 | the runs printed hold exactly the members |
| BitmapList.RunsApart | src/cpuset.c:375-430 | they are not empty, in order, and never touch |
| BitmapList.ListSnprintf | src/cpuset.c:375-430 | prints the list of the runs |
| BitmapList.ListSscanf | src/cpuset.c:445-496 | the bitmap is what the list means, or empty on an error |
| ListMeaning.ListMeans | src/cpuset.c:445-496 | a list of decimal, octal and hexadecimal numbers and ranges, with any more commas between them, is read as the numbers in it; a last range without end starts at its number or at the end of the words that the rest needs |
| ListMeaning.NumeralRead | src/cpuset.c:459-489 | a prefix makes a number hexadecimal and a zero in front octal; its value is that of its digits |
| TextForms.ListForm | src/cpuset.c:375-430 | how single numbers, ranges and an open end are printed |
| BitmapList.ListRoundTrip | src/cpuset.c:375-496 | the list parser undoes the printer for every finite set, and for an infinite one if and only if its last run starts within the words that the parser has by then |
| BitmapList.ListLosesGap | src/cpuset.c:445-496 | the list of CPU 0 and all CPUs from 128 on reads back with more |
| BitmapTaskset.TasksetSnprintf | src/cpuset.c:498-553 | prints the taskset form |
| BitmapTaskset.TasksetSscanf | src/cpuset.c:568-634 | the bitmap is what the text means by TasksetMeaning, or empty on an error |
| TasksetMeaning.TasksetMeans | src/cpuset.c:568-634 | for any number of digits of either case, with or without a prefix, member i is bit i % 4 of digit i / 4 from the right; past the words of the digits there is nothing, or everything after `0xf...f` |
| TasksetMeaning.OnlyDigitsAreRead | src/cpuset.c:568-634 | what is read has only digits and the marks of prefixes |
| TextForms.TasksetForm | src/cpuset.c:498-553 | what is printed is in lower case, without zeros in front for a finite set and with all digits of the words for an infinite one |
| BitmapTaskset.TasksetRoundTrip | src/cpuset.c:498-634 | the taskset parser undoes the printer for every set |
| XmlObjects.EscapedIsSafe | src/topology-xml.c:1080-1120 | an escaped string has no quote and no angle bracket and at most six times the length |
| XmlWriter.EscapeString | src/topology-xml.c:1080-1120 | the buffer of 6n+1 bytes is never exceeded; nothing is allocated when there is nothing to escape |
| XmlWriter.DecodeEscape | src/topology-xml.c:1080-1120 | decoding by sections 4.1 and 4.6 of XML 1.0 (Fifth Edition) gives every string back |
| XmlWriter.XmlOutput.NewProp | src/topology-xml.c:1123-1137 | writes one attribute, escaped |
| XmlWriter.XmlOutput.ExportObject | src/topology-xml.c:1174-1337 | writes the text of a whole subtree, tags closed and indentation restored |
| XmlWriter.PrepareExport | src/topology-xml.c:1376-1397 | for every buffer size, the length of the whole document is reported |
| XmlWriter.Export | src/topology-xml.c:1400-1416 | the buffer after the second pass holds the whole document and its end |
| XmlReader.NextAttribute | src/topology-xml.c:464-553 | an attribute is read and ended in the buffer, and the cursor moves past it |
| XmlReader.FindChild | src/topology-xml.c:556-637 | a child tag is found and marked in the buffer, or there is none, or the text is malformed |
| XmlReader.CloseTag | src/topology-xml.c:641-676 | the closing tag of the right name is consumed, otherwise an error |
| XmlReader.CloseChild | src/topology-xml.c:679-690 | the cursor goes back to the parent |
| XmlReader.ImportInfo | src/topology-xml.c:693-716 | an info tag read in the buffer agrees with the parser on text |
| XmlReader.ImportObject | src/topology-xml.c:828-880 | an object and everything below it, read destructively, agree with the parser on text, and the cursor ends right after them; XmlMeaning.ObjectRead says what that is |
| XmlReader.Import | src/topology-xml.c:931-1028 | reading a document in the buffer agrees with the parser on text; XmlMeaning.DocumentMeans says what that is |
| XmlNodes.FirstAttr | src/topology-xml.c:502-552 | an attribute is read if and only if its name has only small letters and underscores and its value no `&` |
| XmlMeaning.AttrsMean | src/topology-xml.c:153-435 | the attributes of an object are refused if and only if a type is unknown; otherwise every field is what the last attribute of its name says, and attributes of all other names say nothing |
| XmlMeaning.TypeIsNotNeeded | src/topology-xml.c:841-843 | an object without a type is not refused, whatever attributes it has |
| XmlMeaning.ObjectRead | src/topology-xml.c:828-880 | a tag with any attributes, blanks, infos and objects in it is read as the object that it means, or refused if and only if something in it is not accepted |
| XmlMeaning.DocumentMeans | src/topology-xml.c:963-1028 | the same for a whole document with any header lines |
| XmlMeaning.OthersIgnored | src/topology-xml.c:433-434 | two documents that differ in attributes of other names, anywhere in their tags, and in blanks are read as the same |
| XmlMeaning.CacheSizeIsOther | src/topology-xml.c:188-193 | the size of a cache is such an attribute |
| XmlMeaning.OldNameEndsTag | src/topology-xml.c:505 | `memory_kB` ends the reading of its tag |
| XmlNames.TypeIsNamed | src/traversal.c:195-212 | a name stands for a type if and only if it is in a table of names, but for the case of its letters |
| XmlRoundTrip.DocumentRoundTrip | src/topology-xml.c:463-1337 | every document written can be read, and the same tree comes back if and only if no name, info name or info value has an escaped character |
| XmlRoundTrip.EscapedNameIsLost | src/topology-xml.c:514-545 | a machine called `a<b` comes back without a name |
| XmlRoundTrip.WrittenWithOthers | src/topology-xml.c:188-434 | adding attributes of other names anywhere in the tags of a written document changes nothing of what is read |
| XmlSaveAndLoad.SaveAndLoad | src/topology-xml.c:931-1416 | exporting to a buffer and importing from it gives the same tree if and only if no string of it was escaped |
| XmlSaveAndLoad.ImportTags | src/topology-xml.c:931-1028 | the real reader on a buffer with any such document returns what its tags mean, or the error |
| XmlSaveAndLoad.ImportTwice | src/topology-xml.c:931-1028 | two real runs on documents that differ in other attributes and blanks return the same |

## Findings

Where the code does not do what its documentation or the obvious statement says, the model follows the
code. Each row names the lemma with a concrete input and the one with the exact condition.

| source | as written | input | intended |
|---|---|---|---|
| src/distances.c:674-740 | groups are said to be transitive graphs of minimal distances, but a scan restarts at the first object found, not at the smallest | the matrix of `GroupPath.MatrixIsPath`, in `GroupPath.MatrixGroupsMissed` | met exactly under the condition of GroupClosure.GroupsClosedExactly, which tells the search on sets; what a caller can read off the matrix beforehand, GroupClosure.OneRoundIsEnough and GroupClosure.AscendingGroups, is sufficient and not necessary |
| src/cpuset.c:899-902 | two infinite sets that meet only past their words are said not to meet | `BitmapQueries.IntersectsMissesTail` | met exactly under the condition of BitmapQueries.IntersectsGuard |
| src/cpuset.c:912-917 | only the words of the subset are looked at | `BitmapQueries.IsIncludedMissesHole` | met exactly under the condition of BitmapQueries.IsIncludedGuard |
| src/cpuset.c:748-758 | a range to infinity that starts past the words adds more than itself | `Bitmap.SetRangeSetsMore` | met exactly under the condition of Bitmap.SetRangeToInfinityExact |
| src/cpuset.c:806-816 | the same for removing | `Bitmap.ClrRangeClearsMore` | met exactly under the condition of Bitmap.ClrRangeToInfinityExact |
| src/cpuset.c:1127-1130 | an infinite set of which nothing is stored counts as after an empty one | `BitmapOrder.TailComesLast` | met exactly under the condition of BitmapOrder.CompareFirst, with BitmapOrder.OnlyTailIsWrong |
| src/cpuset.c:445-496 | an open-ended list is read with a range to infinity, and may lose a gap | `BitmapList.ListLosesGap` | met exactly under the condition of BitmapList.ListRoundTrip |
| src/topology-libpci.c:804-820 | the range of a host bridge goes up to the last bus behind it, over the buses of other host bridges in between | `PciHostBuses.BusAnnouncedTwice` | met exactly under the condition of PciHostBuses.AnnouncedOnceExactly |
| src/topology.c:1863-1869 | an object above one of the type of the top object is said to be above the top object, which may choose a top that is not topmost | `LevelTypes.CachesInTwoLevels` | met when objects of one type are alike, by LevelTypes.TopIsTopmost; that is sufficient and not necessary |
| src/topology-xml.c:514-545 | unescaping compares with the rest of the buffer, and always fails | `XmlRoundTrip.EscapedNameIsLost` | met exactly under the condition of XmlRoundTrip.DocumentRoundTrip |
| src/topology-xml.c:374-411 | attributes of files from version 0.9 are to be read, but `memory_kB` and `huge_page_size_kB` have a letter at which line 505 ends the name, and with it the reading of the tag | `memory_kB` before a `name`, a case of `XmlMeaning.OldNameEndsTag` | an attribute is read exactly under the condition of XmlNodes.FirstAttr |
| src/topology-xml.c:841-843 | the type of an object is to come before its other attributes, but a new object has the sentinel type of src/topology-xml.c:861 and not the -1 that is looked for | a tag with an `os_index` and no type, a case of `XmlMeaning.TypeIsNotNeeded` | attributes are refused exactly under the condition of XmlMeaning.AttrsMean |

## Left out

- Objects: merging of attributes when an equal object is inserted (src/topology.c:612-669); only the refusal and the unchanged links are modelled.
- Objects with an empty CPU set, node sets, and I/O or Misc objects in the insertion; the update of the root's complete set and the freeing of objects that were turned away.
- Insertion by parent, `remove_empty`, `hwloc_connect_children` and `hwloc_get_closest_objs`: simple list work beside the operations above.
- Discovery.Topology.Insert: an equal object is refused, without the merging of its attributes, and the root's complete set is not updated.
- Synthetic.Look: the attributes and node sets of the objects are not part of this model.
- Restrict.RestrictObject: cuts the CPU set and the complete set only.
- LevelBuilder.FilterObject: the I/O lists and the depth of Misc objects are not part of this model.
- PciDiscovery.MakeHostbridges: where host bridges are attached in the topology is not part of this model.
- XmlReader.Import: imported distances and tags other than objects and infos are not part of this model.
- RestrictOutcome.RestrictTopology: clears no distances and cuts no online, allowed or node sets; the set to restrict to is a test on CPU numbers, and an object that the source gives no CPU set has an empty one.
- Collapse.RemoveIgnored: a slot pointer is modelled as a returned head; the freeing of removed objects is not part of this model.
- LevelBuilder.ConnectLevels: the I/O lists, `type_depth` and the depth of Misc objects are not part of this model, and the children arrays are values.
- Symmetry.Propagate: the children arrays are values and the depths are fixed.
- LargestObjects.LargestInside: looks at a tree of values with finite sets; the output pointer is a sequence that grows.
- LevelTypes.TypesHaveOneLevel: a sufficient condition, since the exact one depends on the order in which the objects are looked at.
- Synthetic.LookSynthetic: starts from the parsed arities; the types of the levels and the update of the root's type are not part of this model.
- MatrixCompaction.OsDistances.FinalizeOs: the lookup of an object by its OS index is a function that is passed in; freeing is not part of this model.
- GroupHierarchy.GroupsByDistances: yields the groups only, without the Group objects that are inserted for them; floats are reals.
- GroupClosure.GroupsClosedExactly: speaks of symmetric relations, since a component has no meaning for others.
- PciTree.AddObject: the reading of the configuration space, the place of host bridges among the other objects and their ids are not part of this model.
- Bitmap.Bitmap.SetRange: requires that the number of stored bits fits an unsigned int, as the source computes it in one; the same holds for the other range.
- Bitmap: words have 64 bits, and `isfull`, `dup`, `copy` and the conversions from and to words are not part of this model.
- BitmapText.Sscanf: `strtoul` skips no blanks and signs here; an empty text makes the source read past its end and a text that starts with a comma trips its assertion, so both are excluded; nothing is promised of a text that ends with a comma, which leaves stale words.
- BitmapTaskset.TasksetSscanf: the same for blanks and signs.
- BitmapList.ListSscanf: the same for blanks and signs, and texts with a number that does not fit an int, which the source converts to some other number, are excluded.
- XmlWriter.XmlOutput.ExportObject: writes type, OS index, the four CPU sets, name, infos and children; node sets, `os_level`, distances, page types and the attributes of single types are not part of this model.
- XmlReader.NextAttribute: the dead bytes that the failing unescape writes after the place where reading ends are not part of this model, and an opening quote at the very end of a tag, which makes the source read past it, is reported apart and excluded.
- XmlReader.ImportObject: attributes for fields that are not part of this model are passed over, and an OS index is a number of any size; CPU sets are values, read with the hexadecimal parser; objects are values and not linked in a tree.
- XmlSaveAndLoad.SaveAndLoad: every object has a type, every set at least one word, and no string holds a NUL, as the source guarantees.
- Operating system back ends, libxml paths, XML files, environment variables, failing allocations and user interfaces.
