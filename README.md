# dataMiner file tools, modelled in Dafny

The repository holds five Python 2 command-line scripts that manage piles of
files:

- **removeDups.py** walks one or more roots. It identifies every file by
  (SHA-1 of its content, size) and deletes each file whose identity it has
  already seen.
- **checkSumGetter.py** writes a `checkSum.txt` manifest into a folder, with
  one `name, md5hex` line per regular file.
- **compareSums.py** reads that manifest back, recomputes each MD5 and counts
  the matches.
- **dataMiner.py** copies the files of chosen types and minimum size from a
  source tree into a target. It can spread them over numbered buckets
  `dir_001`, `dir_002`, … of a fixed size.
- **fileSorter.py** groups a source tree by extension. It copies or moves
  each group into buckets `target/<ext>/<ext>_NNN` of at most 100 files.

The model treats each script as a function of its inputs:

- the filesystem is a value: files with their bytes, directories, and the
  files the OS refuses to remove;
- walk, listing and dictionary orders are sequences;
- hash algorithms are function parameters.

Every loop of the scripts is an imperative method. Each such method is
proved equal to a recursive specification function over prefixes of its
input. The properties are lemmas about those functions.

Modules, one per file:

| file | module | what it holds |
|---|---|---|
| common.dfy | `Common` | bytes, paths, `str(n).zfill(3)` |
| hashing.dfy | `Hashing` | the hash object, chunked reads, `hexdigest()` |
| filesystem.dfy | `FileSystems` | the filesystem, and `os.remove`, `os.mkdir`, `shutil.copy`, `shutil.move` |
| folder.dfy | `Folders` | the single folder the checksum scripts work in |
| text.dfy | `Text` | line splitting, `split(", ")`, `strip()` |
| extensions.dfy | `Extensions` | `os.path.splitext(f)[1].replace('.', '')` |
| wordwrap.dfy | `TextWrap` | the `wordWrap` console formatter that every script carries |
| remove_dups.dfy | `RemoveDups` | removeDups.py |
| checksum_getter.dfy | `CheckSumGetter` | checkSumGetter.py |
| compare_sums.dfy | `CompareSums` | compareSums.py |
| data_miner.dfy | `DataMiner` | dataMiner.py |
| file_sorter.dfy | `FileSorter` | fileSorter.py |

## Model

| member | source | states |
|---|---|---|
| Common.PaddedInjective | dataMiner.py:128 | `str(n).zfill(3)` keeps bucket numbers apart: equal padded names mean equal numbers |
| Hashing.HashObject.Update | removeDups.py:68 | `update()` appends the chunk to everything the object has consumed |
| Hashing.ReadChunks | removeDups.py:45-52 | the chunks concatenate to the whole file; none is empty or longer than the chunk size; all but the last are full; a zero chunk size reads nothing |
| Hashing.ReadExtends | removeDups.py:49 | one `read(n)` continues the bytes read so far and comes up short only at end of file |
| Hashing.DigestInChunks | removeDups.py:66-69 | feeding a file chunk by chunk into a fresh hash object gives the digest of the whole content |
| Hashing.HexShape | checkSumGetter.py:64 | `hexdigest()` has two lower-case hex digits per digest byte |
| Hashing.HexInjective | checkSumGetter.py:64 | different digests give different hex strings, so comparing hexdigests compares digests |
| Hashing.MdfiveSum | checkSumGetter.py:57-64 | `mdfiveSum` is the MD5 hexdigest of the file's bytes, read in 4096-byte chunks |
| Folders.Lookup | compareSums.py:133-134 | opening `targetPath/name` for a name directly in the folder yields that regular file's bytes; any other such name except checkSum.txt fails |
| Text.SplitLines | compareSums.py:130-131 | the lines of the manifest are non-empty and concatenate back to its text |
| Text.SplitLinesCons | compareSums.py:131 | a break-free body ending in `\n` is read as one whole line |
| Text.StripBom | compareSums.py:130 | `utf_8_sig` drops exactly one leading byte order mark, if present |
| Text.FindSeparator | compareSums.py:133 | the index found is the first `", "` in the line |
| Text.Fields | compareSums.py:133 | `split(', ')` gives at least one piece, and two or more exactly when the line holds a separator |
| Text.FieldsOfPair | compareSums.py:133-135 | a `name, sum` line with separator-free parts splits into exactly those two parts |
| Text.StripLeft | compareSums.py:135 | the result is a suffix of the input that does not start with whitespace |
| Text.StripRight | compareSums.py:135 | the result is a prefix of the input that does not end with whitespace |
| Text.StripWordNewline | compareSums.py:135 | stripping a recorded sum followed by its newline gives the sum back |
| Extensions.LastDot | dataMiner.py:167 | the index is that of the last `.` in the name, or -1 |
| Extensions.Ext | dataMiner.py:167-168 | the type holds no dot and is the tail after the last dot, preceded by something other than dots |
| Extensions.ExtEmpty | fileSorter.py:117-118 | the type is empty exactly for names without a dot, ending in a dot, or with only dots before the last one |
| Extensions.ExtOfStem | fileSorter.py:117-118 | `stem.e`, where e has no dot and stem is not all dots, has type e |
| TextWrap.IndexOf | dataMiner.py:70 | the index is that of the first occurrence |
| TextWrap.Split | dataMiner.py:77 | `text.split(" ")` has at least one word |
| TextWrap.RFind | dataMiner.py:71 | `rfind` returns -1 or an index holding the character |
| TextWrap.RFindIsLast | dataMiner.py:71 | no occurrence follows the index `rfind` reports |
| TextWrap.FirstLineLength | dataMiner.py:70 | the length of the next word's first line, up to the first space or newline |
| TextWrap.SplitHead | dataMiner.py:77 | the first word is space-free; after it come either the end of the text or a space and the split of the rest |
| TextWrap.ExtendWrap | dataMiner.py:69-76 | joining the next word with `func` extends a correctly wrapped prefix by that word |
| TextWrap.ProgressStep | dataMiner.py:78-79 | one join keeps the loop state: the first element is the wrapped text so far and the rest are the remaining words |
| TextWrap.PopJoin | dataMiner.py:79 | `text[0] = func(text.pop(0), text[0])` keeps the loop state and shortens the list by one |
| TextWrap.WordWrap | dataMiner.py:64-80 | the result keeps every non-space character, turns each space into a newline exactly when the current line plus the next word reaches the width, and keeps it otherwise |
| TextWrap.WrapsToKeepsText | dataMiner.py:64-80 | wrapping changes only spaces, and each one only into a newline; text without spaces comes back unchanged |
| TextWrap.WrapUnique | dataMiner.py:64-80 | at most one string satisfies the wrapping rule, so `wordWrap` computes exactly that string |
| RemoveDups.Summary | removeDups.py:83-86 | the closing message is "No duplicate files found." exactly when the count is zero |
| RemoveDups.CheckForDuplicates | removeDups.py:55-86 | the nested walk loops compute the scan over all roots in order; a report is printed only when no open fails |
| RemoveDups.ScanStep | removeDups.py:63-81 | scanning one more existing file is one visit: count and remove a known identity, or record a new one |
| RemoveDups.ScanAbortSticks | removeDups.py:67 | once opening a file raises, the rest of the walk has no effect |
| RemoveDups.ScanFinished | removeDups.py:62-81 | a finished scan only removes files; directories, contents and refused files are untouched; duplicates plus index entries equal the files visited |
| RemoveDups.ScanIndex | removeDups.py:70-81 | the index holds exactly the identities seen, each mapped to the first path seen with it |
| RemoveDups.ScanIndexGrows | removeDups.py:80-81 | an index entry is never replaced |
| RemoveDups.ScanRemoved | removeDups.py:71-79 | a file whose identity appeared earlier is gone unless the OS refused; a gone file had an identity that appeared earlier |
| RemoveDups.Survivors | removeDups.py:55-81 | with every file walked once and nothing refused, the files left are exactly the first of each identity |
| RemoveDups.RescanRemoves | removeDups.py:70-79 | scanning again files whose identities are recorded deletes them all and counts each as a duplicate |
| RemoveDups.ScanFirstPassKeepsAll | removeDups.py:62-81 | without repeated identities nothing is removed and nothing is counted |
| RemoveDups.RootTwiceEmptiesIt | removeDups.py:62-81 | a root of distinct files passed twice loses every one of its files in the second pass |
| RemoveDups.Relisted | removeDups.py:62-64 | the second walk of a root lists exactly the entries of the first walk whose files still exist |
| RemoveDups.RelistedNoDups | removeDups.py:62-64 | a walk listing each path once relists each surviving path once |
| RemoveDups.RootTwiceRemovesSurvivors | removeDups.py:62-81 | a root passed twice: the second pass walks the first pass's survivors, finishes, deletes every one of them and adds their number to the duplicate count, so none of the root's files is left |
| CheckSumGetter.WriteToLog | checkSumGetter.py:94-111 | the manifest is created or appended with `msg\n` for an ASCII message; a non-ASCII message crashes after the open; a directory named checkSum.txt blocks the write; no other file changes |
| CheckSumGetter.ListFiles | checkSumGetter.py:125 | the listed regular files are exactly the listing's names that are regular files, without repeats |
| CheckSumGetter.Emit | checkSumGetter.py:127-129 | the loop that writes one line per file changes no file other than the manifest |
| CheckSumGetter.SumUp | checkSumGetter.py:114-133 | the method computes `sumUp` over the folder and listing order |
| CheckSumGetter.WriteEntry | checkSumGetter.py:128-129 | one loop turn extends the manifest by that file's line |
| CheckSumGetter.EmitStep | checkSumGetter.py:127-129 | writing one more file is one `writeToLog` of its line |
| CheckSumGetter.EmitCrashSticks | checkSumGetter.py:127-129 | once a write has crashed, no later file is processed |
| CheckSumGetter.EmitWrites | checkSumGetter.py:127-129 | with ASCII names and nothing in the way, the manifest holds one `name, md5hex` line per file in order, or is absent when there is no file |
| CheckSumGetter.EmitBlocked | checkSumGetter.py:97-109 | a directory named checkSum.txt: nothing is written and the run completes |
| CheckSumGetter.EmitStopsAtNonAscii | checkSumGetter.py:106-109 | the first non-ASCII name crashes the run; the manifest then holds the lines before it |
| CheckSumGetter.SumUpWrites | checkSumGetter.py:114-133 | the manifest is never listed, every regular file is listed, and an ASCII folder gets one line per file |
| CompareSums.Compare | compareSums.py:114-147 | the method computes `compare`: no manifest, a run stopped by an exception, or the tally of all lines |
| CompareSums.CheckSum | compareSums.py:133-141 | one line gives the verdict of the line-checking rule and the name before its first `", "` |
| CompareSums.TallyAdvance | compareSums.py:131-141 | one more line counts once, as a match, a mismatch or the line that raises |
| CompareSums.LineRaises | compareSums.py:133-135 | a line raises when its file does not open or it has no `", "` |
| CompareSums.SumsCompared | compareSums.py:134-141 | a line with an openable file and an ASCII sum matches exactly when the hexdigest equals the stripped second field |
| CompareSums.TallyStopSticks | compareSums.py:131-141 | after a line raises, no later line is read |
| CompareSums.TallyCounts | compareSums.py:131-143 | every line read is counted once, as a match or a mismatch, except the one that raised |
| CompareSums.StopsAtFirstRaise | compareSums.py:131-141 | the run stops exactly when some line raises, and then at the first such line |
| CompareSums.OnlyListedFilesMatter | compareSums.py:129-141 | only the files the manifest names affect the result |
| CompareSums.CheckEntryLine | compareSums.py:133-141 | a line written for a file still present matches exactly when its MD5 is unchanged |
| CompareSums.CheckMissingLine | compareSums.py:134 | a line written for a file since deleted raises |
| CompareSums.SplitEntryLines | compareSums.py:130-131 | the written manifest reads back as exactly the lines that were written |
| CompareSums.CompareWritten | compareSums.py:114-147 | comparing against a written manifest reports exactly the files whose MD5 changed, in manifest order, and matches the rest |
| CompareSums.RoundTrip | checkSumGetter.py:114-133 | comparing right after `sumUp` matches every listed file |
| CompareSums.OneChangedFile | compareSums.py:138-141 | rewriting one listed file reports exactly that file and matches all others |
| CompareSums.DeletedFileStops | compareSums.py:134 | deleting a listed file makes `compare` raise |
| DataMiner.MultiplierIsPowerOf1024 | dataMiner.py:143-150 | each unit is 1024 times the previous one |
| DataMiner.SizeTest | dataMiner.py:172 | `int(size) >= int(ms)` admits a size exactly when it exceeds ms - 1 |
| DataMiner.WholeThreshold | dataMiner.py:143-150 | a whole number of units gives a threshold of that many unit factors |
| DataMiner.WordLength | dataMiner.py:217 | the length of the first run of non-space characters |
| DataMiner.SplitWordsAreWords | dataMiner.py:217 | `str.split()` returns non-empty pieces without spaces |
| DataMiner.SplitJoinWords | dataMiner.py:217 | splitting words joined by single spaces gives the words back |
| DataMiner.FileTypesShape | dataMiner.py:214-217 | the listed types are non-empty, space-free and lower-case |
| DataMiner.NeverSelectedTypes | dataMiner.py:167-169 | a file without an extension, or with a capital in it, is never selected |
| DataMiner.BucketInjective | dataMiner.py:128 | distinct bucket numbers name distinct directories |
| DataMiner.Dig | dataMiner.py:114-183 | the method computes `dig` over the walk: the filesystem it leaves and its closing counts, or the exception that escaped |
| DataMiner.SwitchBucket | dataMiner.py:155-162 | the top of the loop body moves to the next bucket when the current one is full |
| DataMiner.Sift | dataMiner.py:165-176 | the rest of the loop body applies the type test, the size test and the copy |
| DataMiner.RunStep | dataMiner.py:153-176 | one more walked file is one loop turn |
| DataMiner.RunAbortSticks | dataMiner.py:153-176 | after an exception, the rest of the walk is not processed |
| DataMiner.TestModeChangesNothing | dataMiner.py:126-176 | test mode leaves the filesystem unchanged, and raises only for a file that is gone |
| DataMiner.CopyStaysWithin | dataMiner.py:176 | a copy into the target tree changes nothing outside it |
| DataMiner.StepKeepsOutside | dataMiner.py:155-176 | one file changes nothing outside the target, and curDir stays in it |
| DataMiner.RunKeepsOutside | dataMiner.py:114-183 | dig writes only under the target directory |
| DataMiner.StepCounts | dataMiner.py:169-176 | a file adds to totalFiles and gets a destination exactly when it is selected |
| DataMiner.TotalsCountSelected | dataMiner.py:169-180 | totalFiles is exactly the number of selected files, each with one destination |
| DataMiner.SingleDestination | dataMiner.py:126-134 | without the bucket switch every selected file goes to one place: the target, or dir_001 for targetDirs "0" |
| DataMiner.FillingSwitch | dataMiner.py:155-162 | a switch opens a bucket that has received nothing yet |
| DataMiner.FillingConsider | dataMiner.py:169-176 | a selected file goes into a bucket with room left |
| DataMiner.BucketCapacity | dataMiner.py:126-176 | with targetDirs n >= 1 and no dir_001 before the run, no bucket receives more than n files, and every file goes into dir_001 to dir_(dirCount - 1) |
| DataMiner.FirstBucketReused | dataMiner.py:126-162 | a dir_001 left from an earlier run is not counted, so with targetDirs 1 the second file also goes to dir_001 |
| FileSorter.Sort | fileSorter.py:92-168 | the method computes `sorter`: setup, grouping pass and distribution pass, given the walk and the `iteritems()` order |
| FileSorter.GroupFiles | fileSorter.py:113-128 | the grouping loop computes the grouping pass over the walk |
| FileSorter.RecordFile | fileSorter.py:115-128 | one walked file is counted and recorded under its type, and its type directory is created |
| FileSorter.GatherStep | fileSorter.py:113-128 | one more walked file is one turn of the grouping loop |
| FileSorter.DistributeFiles | fileSorter.py:132-160 | the outer loop computes the distribution over the types in `iteritems()` order |
| FileSorter.DistributeStep | fileSorter.py:132-160 | one more type is one turn of the outer loop |
| FileSorter.SortType | fileSorter.py:135-160 | one type gets its first bucket, then its files |
| FileSorter.PlaceAllStep | fileSorter.py:143-160 | one more file is one turn of the inner loop |
| FileSorter.OpenBucket | fileSorter.py:135-153 | curDir moves to `<ext>_<dirCount>`; outside test mode a missing bucket is created, counted, and fileCount restarts at 1 |
| FileSorter.PlaceFile | fileSorter.py:143-160 | one file: switch buckets when full, then copy or move it under its base name |
| FileSorter.GatherSticks | fileSorter.py:113-128 | after a failed mkdir, the rest of the walk is not processed |
| FileSorter.PlaceAllSticks | fileSorter.py:143-160 | after a failed copy or move, the rest of the type's files are not processed |
| FileSorter.DistributeSticks | fileSorter.py:132-160 | after an exception, no further type is processed |
| FileSorter.GatherGroups | fileSorter.py:113-128 | every walked file is counted, each type is listed once, and each type gets exactly its files in walk order |
| FileSorter.TypesOrderStep | fileSorter.py:119-120 | appending a new type keeps fileType in first-seen order |
| FileSorter.FirstSeenOrder | fileSorter.py:119-120 | fileType lists the types in the order of their first appearance in the walk |
| FileSorter.PlaceLands | fileSorter.py:154-160 | outside test mode a placed file keeps its name and bytes in its bucket; a move removes the source; every other existing file keeps its bytes, and no file appears anywhere but at the destination |
| FileSorter.BucketOfInjective | fileSorter.py:135-147 | a bucket path determines its type and number |
| FileSorter.ExtDirNotBucket | fileSorter.py:127-135 | a type directory is never a bucket unless the type starts with `_` |
| FileSorter.OpenFilling | fileSorter.py:135-153 | opening a bucket outside test mode creates a new, empty one |
| FileSorter.PlaceFilling | fileSorter.py:143-160 | one file goes into a bucket with room left |
| FileSorter.SortCapacity | fileSorter.py:92-160 | outside test mode, with no earlier buckets and no type starting with `_`, no bucket receives more than 100 files, every placed file lands in a bucket numbered below dirCount, and when the order lists each walked type once every walked file is placed |
| FileSorter.PlaceAllRecords | fileSorter.py:141-160 | the inner loop, when it completes, places each of its source files once |
| FileSorter.DistributeRecords | fileSorter.py:132-160 | the outer loop, when it completes, places as many files as the listed types hold |
| FileSorter.SortPlacesAll | fileSorter.py:92-160 | in every mode, a completed run whose order lists each walked type once places exactly as many files as it walked |
| FileSorter.SumTypesAll | fileSorter.py:132-160 | when every walked type is listed once, the types hold all walked files |
| FileSorter.PlaceAllTest | fileSorter.py:143-160 | in test mode the inner loop only counts its files |
| FileSorter.TestModeSorts | fileSorter.py:162-166 | test mode creates, copies and moves nothing; it reports as many files handled as walked, in one folder |

## Left out

- Console output is not modelled: the welcome and closing banners, the progress dots, and the `terminal` messages other than those that raise. The elapsed time and `timeit` are not modelled either.
- The session log of dataMiner.py (`writeToLog` with `dataMiner_log.txt`) is not modelled. Run from the command line without `-l`, `log` is never assigned (dataMiner.py:248-249), so dataMiner.py:252 raises before `dig` runs and no file is handled. Only when `dig` is called directly with a false `log` is `logFile` unbound at dataMiner.py:181, raising after every file has been handled. The model ends the run with the counts of the message printed just before.
- The argument handlers (`userArguments`, argparse) are not modelled. They check that paths exist and pass strings on. The model takes their results as parameters: `Settings`, `Mode`, and the parsed `-y` types via `DataMiner.FileTypes`. Their unbound-variable bugs for omitted options are not modelled either.
- DataMiner.Threshold models `float(fileSize)` times the unit as an exact real, not a 64-bit float. For sizes past 2^53 bytes, rounding could differ.
- os.walk is flattened into the sequence of files it reports, in its order. The files a run creates under a walked root are therefore not walked again. Directories the walk visits are not checked to exist.
- RemoveDups.CheckForDuplicates: os.walk is lazy, so a root's walk depends on what earlier roots removed. The model takes each root's walk as an input and does not tie it to the filesystem left by the earlier roots; RemoveDups.RootTwiceRemovesSurvivors states the case of a root passed twice with its second walk given by RemoveDups.Relisted.
- dict, listdir and walk orders are inputs: `typeDic.iteritems()` order, `os.listdir` order and `os.walk` order.
- Hash algorithms (MD5, SHA-1) are uninterpreted functions. CompareSums assumes only that MD5 digests are 16 bytes (section 3.5 of RFC 1321).
- RemoveDups.Scan, Hashing.MdfiveSum, CheckSumGetter.SumUp, Folders.Lookup: every file the model holds can be read. A regular file that exists but cannot be opened for reading (permission denied) makes `open(..., 'rb')` raise IOError: it aborts check_for_duplicates (removeDups.py:67), crashes sumUp through mdfiveSum (checkSumGetter.py:60, called at :127), and makes compare raise (compareSums.py:134). The model has no unreadable files; only a missing path aborts Scan or makes Lookup yield None, and only `os.remove` can be refused (the `locked` set).
- Special files (sockets, devices, links) are not modelled. A path is a regular file, a directory, or nothing. Parent directories of a created directory are assumed to exist.
- Folders.Lookup: covers only names directly in the folder. A manifest name containing `/` (a subdirectory path, or an absolute path that os.path.join lets replace the folder) would be opened outside the folder's listing; the model yields None for it. checkSumGetter.py writes only names that os.listdir reports, which never contain `/`.
- Encodings: checkSum.txt is held as text, and its bytes come from a `utf8` parameter. Names are Python 2 byte strings seen as characters. `sys.getfilesystemencoding()` is not modelled.
- FileSorter.SortCapacity: requires that no bucket exists before the run and that no type starts with `_`. It promises that every walked file is placed only when the order lists each walked type once, as `typeDic.iteritems()` does. Otherwise `target/_NNN`, the empty type's bucket, could be another type's directory, and an existing bucket is reused without resetting fileCount.
- DataMiner.BucketCapacity: requires that dir_001 does not exist before the run. DataMiner.FirstBucketReused shows what the script does when it does exist.
