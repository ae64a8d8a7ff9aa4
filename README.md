# FolderHash in Dafny

FolderHash walks a folder recursively and does one of two things:

- In listing mode it sorts the paths it found and writes each path, with the folder prefix taken off, on its own line.
- In hashing mode it computes each file's MD5 digest. A `Distributor` deals the file list round-robin to a fixed number of worker `Calculator`s. Each worker fills its own `Dictionary` from path to lower-case hex digest. `run` then joins the workers one at a time. After joining a worker, it adds that worker's dictionary into one `SortedDictionary`. Finally it writes `relative path -> digest` lines in key order.

This project models that pipeline and proves what it guarantees.

Modules, one per part of the program:

- `Paths`: paths as strings and the folder-prefix strip (`Substring(folder.Length)`). Also the ordinal string order, with proofs that it is a strict total order.
- `Sorting`: `List.Sort` as a function. It is proved to produce the unique ascending permutation of its input.
- `HexEncoding`: the `"x2"` rendering of digest bytes. It is proved invertible.
- `Distribution`: the `Distributor` class, whose array holds one list per worker. Lemmas show that its lists form a disjoint, covering and order-preserving partition.
- `Calculation`: the `Calculator` class, holding the worker loop and the hex loop of `md5`.
- `SortedDict`: `SortedDictionary<string, string>` as a strictly key-ordered sequence of entries. `Add` fails on a key that is already present.
- `Aggregation`: the nested merge loop of `run`.
- `Enumeration`: `listAllFiles` over an abstract directory tree.
- `FolderHash`: the `Program` class. It covers the thread-count rule, the two report formats, the loops of `run`, and `run` itself.

A throw from `Dictionary.Add` or `SortedDictionary.Add` is modelled as `None` (or `false`).

## Model

| member | source | states |
|---|---|---|
| FolderHash.ResolveThreadCount | FolderHash/Program.cs:78 | a requested count of at least 1 is kept; one below 1 becomes the processor count; the result is at least 1 whenever the processor count is |
| FolderHash.Program.constructor | FolderHash/Program.cs:75-81 | keeps folder, output file and mode; the thread count is the resolved one and at least 1; the file list, which the source leaves null until `run` fills it, starts out empty |
| Distribution.Distributor.constructor | FolderHash/Program.cs:199-212 | allocates exactly `threads` lists, each empty at first (loop invariant); afterwards list k is share k of the files (`Valid`) |
| Distribution.Distributor.GetDistribution | FolderHash/Program.cs:214-217 | returns list i, which is share i of the files |
| Distribution.Buckets | FolderHash/Program.cs:203-207 | there are exactly as many shares as workers |
| Distribution.BucketShape | FolderHash/Program.cs:208-211 | element j of share k is `files[j * n + k]`, and the share has one element per such index below the file count |
| Distribution.BucketIndex | FolderHash/Program.cs:208-211 | file i is element i / n of share i % n |
| Distribution.BucketMembers | FolderHash/Program.cs:208-211 | a path is in share k if and only if it sits at some index i with i % n == k |
| Distribution.RoundRobinRestores | FolderHash/Program.cs:208-211 | reading the shares round-robin (position i from share i % n at place i / n) gives back the file list exactly |
| Distribution.PartitionCovers | FolderHash/Program.cs:208-211 | the shares together hold every file exactly as often as the list does, so their lengths add up to the file count |
| Distribution.BucketsDisjoint | FolderHash/Program.cs:208-211 | for a duplicate-free list, two different shares have no path in common |
| Distribution.BucketNoDup | FolderHash/Program.cs:208-211 | for a duplicate-free list, no share repeats a path |
| Distribution.SharesDistinctIff | FolderHash/Program.cs:208-211 | every share is duplicate-free and the shares are pairwise disjoint if and only if the file list is duplicate-free |
| Distribution.MoreWorkersThanFiles | FolderHash/Program.cs:208-211 | with more workers than files, share k is `[files[k]]` for k below the file count and empty otherwise |
| HexEncoding.ByteHex | FolderHash/Program.cs:186 | one byte becomes two lower-case hex digits whose values, high nibble first, give the byte back |
| HexEncoding.Hex | FolderHash/Program.cs:183-188 | the digits of n bytes are 2n characters, each in 0-9a-f |
| HexEncoding.HexAt | FolderHash/Program.cs:183-188 | characters 2j and 2j+1 are the high and low nibble of byte j |
| HexEncoding.DigestHexLength | FolderHash/Program.cs:181-188 | a 16-byte MD5 digest prints as 32 characters |
| HexEncoding.UnhexHex | FolderHash/Program.cs:183-188 | reading the printed digits back gives the original bytes |
| HexEncoding.HexInjective | FolderHash/Program.cs:183-188 | different byte strings never print the same |
| Calculation.Calculator.constructor | FolderHash/Program.cs:160-163 | keeps the worker's file list; the dictionary, which the source leaves null until `calculate` creates it, starts out empty |
| Calculation.Calculator.Md5 | FolderHash/Program.cs:175-190 | the text is the hex rendering of the file's digest, 32 characters long |
| Calculation.Calculator.Calculate | FolderHash/Program.cs:165-173 | succeeds if and only if the list has no repeated path; then the dictionary's keys are exactly the listed paths, each mapped to its hex digest |
| Sorting.SortPaths | FolderHash/Program.cs:90 | the sorted list is in ascending order and is a permutation of the input |
| Sorting.SortedUnique | FolderHash/Program.cs:90 | two ascending permutations of the same list are equal, so the sorted order does not depend on the enumeration order |
| Sorting.SortDistinctIsStrict | FolderHash/Program.cs:90 | sorting a duplicate-free list gives a strictly ascending one |
| Sorting.StrictlySortedUnique | FolderHash/Program.cs:122 | two strictly ascending lists with the same elements are equal |
| Paths.LessTotal | FolderHash/Program.cs:90 | any two different paths are ordered one way or the other |
| Paths.LessTransitive | FolderHash/Program.cs:90 | the path order is transitive |
| Paths.LessIrreflexive | FolderHash/Program.cs:90 | no path is below itself |
| Paths.Relative | FolderHash/Program.cs:95 | the stripped path is as long as the path minus the folder, and the folder followed by it is the path exactly when the path starts with the folder |
| Paths.RelativeOfJoin | FolderHash/Program.cs:124 | stripping the folder from folder + rel gives rel |
| Paths.RelativeKeepsOrder | FolderHash/Program.cs:122-124 | stripping a common folder prefix keeps two paths' order |
| SortedDict.Add | FolderHash/Program.cs:115 | a successful Add is one entry longer, holds the new entry and keeps every old one; when it throws and what it yields otherwise are in `SortedDict.AddSpec` |
| SortedDict.AddFailsIffPresent | FolderHash/Program.cs:115 | `SortedDictionary.Add` throws exactly when the key is already present |
| SortedDict.AddKeepsOrder | FolderHash/Program.cs:115 | a successful Add keeps the keys strictly ordered, adds one entry and adds the key to the key set |
| SortedDict.AddUpdatesMap | FolderHash/Program.cs:115 | a successful Add maps the new key to the new value and leaves every other key as it was |
| SortedDict.AddSpec | FolderHash/Program.cs:115 | both halves of Add's contract: when it throws, and what it yields otherwise |
| SortedDict.AsMapKeys | FolderHash/Program.cs:122 | the dictionary's keys are those of its entries |
| SortedDict.AsMapLookup | FolderHash/Program.cs:124 | looking up an enumerated key (`results[key]`) gives that entry's value |
| SortedDict.OrderedSize | FolderHash/Program.cs:110-117 | an ordered dictionary has one key per entry |
| Aggregation.UnionKeys | FolderHash/Program.cs:110-117 | a path is in the merged dictionary if and only if some worker's dictionary has it |
| Aggregation.UnionLookup | FolderHash/Program.cs:110-117 | with disjoint workers, a path gets its own worker's digest |
| Aggregation.UnionSize | FolderHash/Program.cs:110-117 | with disjoint workers, the merged dictionary has as many entries as all workers together |
| Aggregation.OverlapBreaksDisjoint | FolderHash/Program.cs:113-115 | a path that an earlier worker already had means the workers are not disjoint |
| Aggregation.AddWorkerResult | FolderHash/Program.cs:113-116 | adding one worker's dictionary fails if and only if it shares a key with what is there; otherwise the result is ordered and holds both |
| Aggregation.MergedSize | FolderHash/Program.cs:110-117 | a merged dictionary of disjoint workers has one entry per worker entry |
| Aggregation.MergeResults | FolderHash/Program.cs:110-117 | the merge fails if and only if two workers share a path; otherwise it is ordered, equals the union of the workers' dictionaries and has one entry per worker entry |
| Enumeration.ListAllFiles | FolderHash/Program.cs:140-152 | lists the direct files first, then each subdirectory's listing in turn (`Enumerate`) |
| Enumeration.EnumerateUnder | FolderHash/Program.cs:140-152 | every listed path starts with the folder and a separator |
| Enumeration.EnumerateShift | FolderHash/Program.cs:140-152 | the listing of a folder is the listing below an empty root with the folder put in front of each entry |
| Enumeration.EnumerateNoDup | FolderHash/Program.cs:140-152 | in a well-formed tree no file is listed twice |
| Enumeration.CombineInjective | FolderHash/Program.cs:143 | two names in the same folder give the same path only when they are equal |
| FolderHash.ListingLines | FolderHash/Program.cs:93-96 | one line per path; the folder followed by the line is the path |
| FolderHash.WriteListing | FolderHash/Program.cs:93-96 | the write loop produces the listing lines of the sorted files, in order |
| FolderHash.HashLines | FolderHash/Program.cs:124 | one line per path; each line's parts are stated in `FolderHash.HashLineParts` |
| FolderHash.HashLineParts | FolderHash/Program.cs:124 | a hashing line is the listing line of its path, then " -> ", then 32 hex digits that read back as the file's digest |
| FolderHash.EnumerateAllUnder | FolderHash/Program.cs:87-95 | every enumerated path, sorted or not, starts with the folder, so stripping it is defined |
| FolderHash.RunWorkers | FolderHash/Program.cs:104-112 | all workers succeed if and only if no share repeats a path; worker k's dictionary maps share k's paths to their hex digests |
| FolderHash.DisjointIffSharesDisjoint | FolderHash/Program.cs:110-117 | the workers' dictionaries are pairwise disjoint if and only if the shares are |
| FolderHash.MergedDigests | FolderHash/Program.cs:110-117 | merging disjoint workers' dictionaries gives exactly the digests of all files |
| FolderHash.MergedInOrder | FolderHash/Program.cs:122-124 | the merged dictionary enumerates the files in sorted order, each with its own digest |
| FolderHash.MergedKeys | FolderHash/Program.cs:122 | the merged dictionary's keys, in enumeration order, are the sorted file list |
| FolderHash.MergedReport | FolderHash/Program.cs:110-124 | a successful merge holds every file once, in sorted order, with its digest |
| FolderHash.WriteHashes | FolderHash/Program.cs:122-124 | writes one line per entry, in key order: the key with the folder stripped, " -> ", and the entry's value |
| FolderHash.WrittenHashLines | FolderHash/Program.cs:122-124 | the lines written for a merged dictionary holding the sorted files with their digests are the hash lines of the sorted file list |
| FolderHash.HashAll | FolderHash/Program.cs:100-124 | hashing succeeds if and only if the file list has no repeated path; the report is then the hash lines of the sorted file list, every one of whose paths starts with the folder |
| FolderHash.ListingAscending | FolderHash/Program.cs:90-96 | for a well-formed tree the listing lines are strictly ascending |
| FolderHash.ListingIndependentOfFolder | FolderHash/Program.cs:87-96 | the listing is the sorted listing of the tree below an empty root, whatever the folder is |
| FolderHash.Program.Run | FolderHash/Program.cs:83-138 | listing mode reports the stripped sorted listing; hashing mode succeeds if and only if no path is listed twice (always, for a well-formed tree), and then reports "path -> digest" lines in sorted order |

## Left out

- MD5 itself (RFC 1321) and opening the file are not modelled. The digest of a path is a parameter `hasher: Path -> Digest` returning 16 bytes, and a file that cannot be opened is not modelled.
- Threads are not modelled. `Thread.Start` and `Join` are replaced by running the workers one after another, which is faithful because the workers share no mutable state and `run` reads each dictionary only after joining that worker.
- The file system is not modelled. `Directory.GetFiles` and `GetDirectories` become an abstract tree (`Enumeration.Tree`) whose order of files and subdirectories is the order they are returned in, and the `Directory.Exists` check of the command line is not modelled.
- Command-line parsing, help text and `Main` are not modelled.
- Output is not modelled as I/O. `StreamWriter`, `Console`, the "Written to" message and the `Stopwatch` timing line are left out. The report is returned as a sequence of lines, and `outputFile` only chooses where those lines would go.
- Listing mode with no output file (a `StreamWriter` opened on a null path) is a runtime exception path and is not modelled; the listing is reported as if written.
- `List.Sort` and `SortedDictionary` use the culture-aware default string comparer. The model orders strings by ordinal comparison of character codes instead.
- Paths use `/` as the only separator, and the folder is given without a trailing separator. Paths are not normalised.
- Exceptions are not modelled as such. A throw from `Dictionary.Add` or `SortedDictionary.Add` becomes `None`/`false` for the whole operation. What was written before the throw, and the process ending, are not modelled.
- FolderHash.HashAll: runs every worker to completion (`FolderHash.RunWorkers`) before merging any dictionary (`Aggregation.MergeResults`). The source instead alternates `Join` on worker i with merging worker i's dictionary. No report shows the difference, because any failure means no report is produced.
- Calculation.Calculator.constructor: `Result` is null in the source until `calculate` creates it; the model starts it as an empty dictionary, which nothing reads before `Calculate` replaces it.
- FolderHash.Program.constructor: the file list is null in the source until `run` assigns it; the model starts it as an empty list, which nothing reads before `Run` replaces it.
- Calculation.Calculator.Calculate: on failure, the contract does not state which entries the dictionary already held when `Add` threw.
- Aggregation.AddWorkerResult: the order in which a `Dictionary` yields its keys is unspecified in the model (any order is allowed), which does not affect the merged result.
- Distribution.Distributor.constructor: requires at least one worker. The only caller passes the resolved thread count, which is at least 1; with 0 workers the source would divide by zero on the first file.
- FolderHash.Program.constructor: takes `Environment.ProcessorCount` as a parameter of at least 1 instead of reading it from the host.
- FolderHash.Program.Run: requires the thread count to be at least 1, which the constructor guarantees.
- Paths.Relative: requires the path to be at least as long as the folder, as `Substring` does. Every path it is applied to starts with the folder (`FolderHash.EnumerateAllUnder`).
