# FTP security scanner core, in Dafny

This project models the core of an FTP(S) security scanner. The scanner logs in
to a remote file-storage server and looks at what the account may do. Three
operations make up the FTP side (`utils/ftp.py`):

- the recursive content scan, with its depth and file-count limits;
- the write-and-delete probe, which creates and removes a directory and uploads
  and deletes a file;
- the maximal Unix rights shown in the root listing, as two numbers between
  000 and 777.

The address side (`utils/ip.py`) has:

- the table of public IPv4 ranges and its size;
- the intersection of the table with a requested interval;
- the division of the table into pieces of about equal size;
- the loop that calls a checking function for every address of an interval.

The server is not contacted in the model. Each command becomes a reply value
(`FtpReplies.Reply`). Each server error is one of the four error classes the
scanner distinguishes (`FtpReplies.FtpError`). An operation that can let an
error escape returns a `Result`. The directory scan runs against a finite tree
of listings (`Scanner.Listing`). The scan and the probe also return the commands
they sent, so the model can state what reaches the server and in which order.

Modules:

- `FtpReplies`: replies, error classes and results.
- `Paths`: splitting a listed path on '/', and finding a character.
- `Rights` and `RightsLemmas`: the maximal-rights computation and its laws.
- `Probe`: the write-and-delete probe.
- `Scanner` and `ScannerLemmas`: the recursive scan.
  - The nested call is modelled twice: as the code passes its arguments, and
    as the parameters are declared.
  - The lemmas state what each version does with the limits and with the
    session's working directory.
- `IpRanges`: the range table, intersection, division and the address loop.
- `PublicTable`: the public table next to the special-purpose IPv4 blocks.
  - It contains the two gaps in the table as written and the corrected table.
  - The corrected table is exactly the complement of the reserved blocks.

The docstrings at utils/ftp.py:49-50 call the two scan limits the maximum
depth and the maximum number of files before the scan stops. The model does
what the code does with them:

- `max_files`: each call adds one to its `count` when it starts, and returns
  '+' once that count reaches the limit (utils/ftp.py:58-61). As written, the
  nested call at utils/ftp.py:81 passes `depth + 1`, always 1, as the `count`
  of every call below the root, so each of them counts 2. A nested call
  returns '+' exactly when `max_files` is 1 or 2, and any `max_files` of 3 or
  more gives the same scan as 3 (`ScannerLemmas.MaxFilesFromThree`). A
  `max_files` of 0 makes the whole scan '+'.
- The same call passes the root's counted `count`, 0 when `max_files` is not
  negative, as the `optimized` flag of the calls one level below. When
  `max_files` is 3 or more, those calls list their directories and try to
  enter every entry, dotted names included. With 1 or 2 they return '+'
  before listing. The calls below them get 2 and skip dotted names again
  (`ScannerLemmas.FirstLevelUnoptimized`).
- `max_depth`: as written, it never takes effect (first finding below). A scan
  with `max_depth` 0 still expands the directories under the root.

## Model

| member | source | states |
|---|---|---|
| `Rights.MaxRights` | utils/ftp.py:226-324 | A refused listing gives (-1, -1). Any other error escapes unchanged. Otherwise each value is -1 exactly when no line of that kind (longer than ten characters, starting with 'd' or '-') occurs, and is the three-digit encoding of the union of the rights of those lines when one does |
| `Rights.AccumulateMeaning` | utils/ftp.py:248-268 | The loop over the listing records exactly whether a directory line and a file line occur, and sets bit j exactly when some line of that kind grants the right of column j + 1 |
| `Rights.Encode` | utils/ftp.py:273-295 | The weighted sum of the nine bits is a number 000..777 whose three decimal digits are the octal digits of the owner, group and other triads |
| `Rights.DecodeEncode` | utils/ftp.py:273-295 | The rights number loses no bit: decoding it gives back the nine-bit vector |
| `Rights.EncodeDecode` | utils/ftp.py:273-295 | Every number with three octal digits is the encoding of the vector it decodes to |
| `RightsLemmas.MaxRightsMonotone` | utils/ftp.py:250-268 | When every line of one listing also occurs in another, the rights of the first are included in those of the second, for directories and for files |
| `RightsLemmas.MaxRightsOrderIndependent` | utils/ftp.py:250-268 | Two listings with the same set of lines, in any order and with any repetition, give the same result |
| `RightsLemmas.MaxRightsAppend` | utils/ftp.py:250-268 | Appending lines never removes a right that was found |
| `RightsLemmas.MaxRightsIgnoresOtherLines` | utils/ftp.py:251-254 | Lines of ten characters or fewer and lines of other kinds, links among them, change nothing |
| `RightsLemmas.ExampleDirAndFile` | utils/ftp.py:226-324 | A listing with `drwxr-xr-x` and `-rw-r--r--` gives (755, 644) |
| `RightsLemmas.ExampleUnion` | utils/ftp.py:250-295 | The directory lines `drwx------` and `d---r-xr-x` give 755, the union, and the file value is -1 |
| `RightsLemmas.ExampleLinksOnly` | utils/ftp.py:244-271 | A listing of links only, and an empty listing, give (-1, -1) |
| `Probe.TryPair` | utils/ftp.py:195-206 | The remove command is sent only after the create command is accepted. Each flag says that its command and those before it were accepted. An error other than a refusal escapes, and it is the error of the last command sent |
| `Probe.CheckWriteAndDeleteAccess` | utils/ftp.py:177-223 | The four flags are true exactly when the server accepted mkd, mkd and rmd, stor, and stor and delete. A delete flag implies its create flag. The commands sent are exactly mkd, then rmd if mkd was accepted, then stor unless an error escaped the directory test, then delete if stor was accepted, in that order |
| `Probe.OnlyLastRaises` | utils/ftp.py:195-221 | Every command before the last one sent was accepted or refused. The probe fails exactly when the last command sent raised an error that is not a refusal, and it fails with that error |
| `Probe.FileTestIndependent` | utils/ftp.py:208-221 | The file flags do not depend on how the directory test went, provided no error escaped from it |
| `Probe.RefusingServer` | utils/ftp.py:189-223 | A server that refuses both creations grants nothing and receives no remove or delete |
| `Probe.AcceptingServer` | utils/ftp.py:189-223 | A server that accepts all four commands gets all four flags set, and the commands are sent in order mkd, rmd, stor, delete |
| `Scanner.GetContent` | utils/ftp.py:44-90 | A call returns '+' exactly when its limit test fires, without sending anything. A failed listing is the only error that escapes. Otherwise it returns one key per listed name other than '.' and '..', after sending NLST first, and the working directory only grows below where the call started. What each key holds is stated by `ScannerLemmas.GetContentValues` |
| `Scanner.VisitEntries` | utils/ftp.py:65-90 | The loop adds exactly the names of the remaining entries to the level, keeps the commands already sent as a prefix, and the working directory only grows below where it started. What each key holds is stated by `ScannerLemmas.VisitValues` |
| `Scanner.ProcessEntry` | utils/ftp.py:67-86 | An entry is entered exactly when `optimized` is false, or its name has no '.', or its name starts with '.'. A failed change into it gives '' with no further command. An error after entering leaves the session below. As written, a nested result is '+' exactly when `0 <= max_files <= depth + 2`. With the intended passing it is '+' exactly when the nested call's limit test fires. When the nested call gets past its limit test and its listing fails, the entry is ''. When it lists the directory and the change back succeeds, the entry is a level keyed by the names of that listing. `ScannerLemmas.ProcessValue` states that this level is what the nested call returns. `ScannerLemmas.ProcessTrace` gives the commands of an entered entry, and `ScannerLemmas.ProcessLeaves` gives where the session ends |
| `Scanner.Scan` | utils/ftp.py:163-174 | `getContent` returns '+' exactly when `max_files` is 0. It fails exactly when the root listing fails, and otherwise keys the root names. What each key holds is stated by `ScannerLemmas.ScanValues` |
| `ScannerLemmas.MaxDepthIgnored` | utils/ftp.py:58-81 | As written, the scan with any `max_depth` equals the scan with no depth limit |
| `ScannerLemmas.MaxFilesFromThree` | utils/ftp.py:58-81 | As written, every call below the root counts 2, so any `max_files` of 3 or more gives the same scan as 3 |
| `ScannerLemmas.FirstLevelUnoptimized` | utils/ftp.py:58-81 | As written, with a file limit the calls one level below the root get `optimized` 0, and they pass their limit test exactly when `max_files` is 3 or more. Given `optimized` 0, every entry is entered, whatever its name. The calls below them get 2 |
| `ScannerLemmas.MaxDepthZeroCounterexample` | utils/ftp.py:62-81 | With `max_depth` 0, the scan as written expands a directory two levels down, while the intended passing cuts off the first level |
| `ScannerLemmas.IntendedDepthBound` | utils/ftp.py:44-63 | With the arguments in their declared positions, a non-negative `max_depth` bounds the nesting of the result by `max_depth + 1` levels |
| `ScannerLemmas.GetContentWithin` | utils/ftp.py:62-82 | With the intended passing, a call at depth d returns at most `max_depth + 1 - d` levels of directories |
| `ScannerLemmas.ProcessCwdFree` | utils/ftp.py:67-86 | What an entry becomes, and the commands its processing sends, do not depend on the working directory the session is in |
| `ScannerLemmas.GetContentCwdFree` | utils/ftp.py:44-90 | A call's result and the commands it sends do not depend on the working directory it starts from |
| `ScannerLemmas.VisitKeeps` | utils/ftp.py:65-88 | The loop leaves every key it does not list again as it was |
| `ScannerLemmas.VisitValues` | utils/ftp.py:65-88 | Each name of the listing holds what processing its last entry gives, as if no entry came before it; an error on one entry does not change the others |
| `ScannerLemmas.VisitTrace` | utils/ftp.py:65-88 | The loop sends the commands of each processed entry in listing order, each entry's commands as if no entry came before it |
| `ScannerLemmas.GetContentValues` | utils/ftp.py:44-90 | A call past its limit test whose listing succeeds returns a level in which each name holds what processing its last entry gives, and sends NLST followed by the commands of every processed entry in order |
| `ScannerLemmas.ScanValues` | utils/ftp.py:163-174 | Unless `max_files` is 0, a scan of a listable root returns a level in which each root name holds its last entry as the root call processes it |
| `ScannerLemmas.ProcessValue` | utils/ftp.py:79-82 | An entry that is entered, scanned without error and left again holds the level its nested call returns, wherever the session stands |
| `ScannerLemmas.ProcessTrace` | utils/ftp.py:79-86 | An entered entry sends `cwd` into its path, then the nested call's commands, then `cwd('..')` exactly when the nested call returned. After a nested error no `cwd('..')` is sent |
| `ScannerLemmas.ProcessLeaves` | utils/ftp.py:79-82 | The single `cwd('..')` climbs one segment after a `cwd` into every segment of the path. The session ends in the directory that holds the entry, which lies below where it started when the path has several segments |
| `ScannerLemmas.GetContentRestores` | utils/ftp.py:79-82 | When every enterable entry has a single-segment name and the listings and changes back succeed, each call leaves the session where it found it |
| `Paths.Split` | utils/ftp.py:68 | Splitting on '/' gives at least one segment, no segment holds a '/', and joining the segments with '/' gives the path back |
| `Paths.SplitJoin` | utils/ftp.py:68 | Splitting undoes joining segments that hold no '/' |
| `Paths.LastSegment` | utils/ftp.py:68-69 | The entry name holds no '/', and a path without '/' is its own name. `Paths.LastSegmentEnds` states where the name sits in the path |
| `Paths.LastSegmentEnds` | utils/ftp.py:68-69 | The entry name ends the path, and unless it is the whole path the character just before it is '/' |
| `Paths.Find` | utils/ftp.py:79 | The result is -1 exactly when the character is absent; otherwise it is the position of its first occurrence |
| `IpRanges.ValidPublicIpRange` | utils/ip.py:62-81 | The thirteen public ranges are non-empty, sorted, disjoint and inside the 32-bit address space |
| `IpRanges.NumberOfPublicIp` | utils/ip.py:83-95 | The stored constant 3689020672 is the number of addresses in the table as written |
| `IpRanges.Intersect` | utils/ip.py:112-119 | The clipped ranges are non-empty, sorted, inside the interval, each inside one table range, and cover exactly the table's addresses in the interval |
| `IpRanges.ValidPublicIps` | utils/ip.py:97-119 | Both ends must be 32-bit addresses when `begin > end`, because the error message writes them out. An empty interval gives []. Otherwise the result covers exactly the public addresses from `begin` to `end`, in sorted disjoint ranges, each inside one table range |
| `IpRanges.CutRange` | utils/ip.py:137-145 | The inner loop cuts a range into the pieces `Pieces` describes |
| `IpRanges.CutRanges` | utils/ip.py:136-146 | The outer loop gives the pieces of every table range in order |
| `IpRanges.PiecesTile` | utils/ip.py:138-145 | The pieces of a range follow each other without a gap from its first address to its last. Each piece has `step` addresses except the last, which has 1 to `step` |
| `IpRanges.PiecesCover` | utils/ip.py:138-145 | The pieces are sorted, disjoint, inside the range, and cover exactly its addresses |
| `IpRanges.SplitAllCover` | utils/ip.py:134-146 | The pieces of a sorted table are sorted and disjoint, each inside one table range and at most `step` long, and cover exactly the table |
| `IpRanges.SplitAllCountLower` | utils/ip.py:135-146 | The number of pieces times `step` is at least the number of addresses |
| `IpRanges.SplitAllCountUpper` | utils/ip.py:135-146 | There are at most total / step pieces plus one per table range |
| `IpRanges.DividedPublicIpRange` | utils/ip.py:121-146 | At most thirteen requested ranges give the table itself. Otherwise every range is cut into pieces of `total / n` addresses. The result covers exactly the public addresses, is sorted and disjoint, and has between total / step rounded up and total / step + 13 pieces |
| `IpRanges.DivideTable` | utils/ip.py:134-146 | Cutting the table into pieces of `step` addresses covers exactly the public addresses, sorted and disjoint, in at least total / step rounded up and at most total / step + 13 pieces |
| `IpRanges.InnerTurn` | utils/ip.py:139-145 | A turn that finds at least `step` addresses left appends a range of exactly `step` addresses and takes them off what remains. Otherwise it appends the rest up to the end of the range and leaves nothing. Either way the range starts right after what was cut before |
| `IpRanges.OverlapNotEmpty` | utils/ip.py:112-119 | For an interval with `begin <= end`, a non-empty range that passes the overlap test of the loop always passes its second test: the clipped part is never empty |
| `IpRanges.StepZeroStalls` | utils/ip.py:131-145 | Asked for more ranges than there are public addresses, the piece size is 0, and a turn of the inner loop with size 0 appends an empty range and leaves the remaining count unchanged, so the loop never ends |
| `IpRanges.CorrectedDividedPublicIpRange` | utils/ip.py:121-146 | With pieces of at least one address, the division finishes for every `n`. It agrees with the code as written wherever that finishes. It covers exactly the public addresses, sorted and disjoint. With more ranges asked for than addresses, its pieces hold at most one address each, and there are between total and total + 13 of them |
| `IpRanges.IpLoop` | utils/ip.py:173-204 | Both ends must be 32-bit addresses, because both are written out first. Returns false, calling nothing, exactly when `begin > end`. Otherwise it calls the function once per address in order, the k-th call with address `begin + k` and count k |
| `PublicTable.AsWrittenGap` | utils/ip.py:68-81 | Every address of 126.255.1.0 .. 126.255.255.255 and of 223.55.1.0 .. 223.255.255.255 is missing from the table as written, and none of them is in a reserved block. The corrected table has them all |
| `PublicTable.CorrectedDiffers` | utils/ip.py:68-81 | The corrected table differs from the one as written only in the ends of its third and last ranges |
| `PublicTable.CorrectedPartition` | utils/ip.py:62-81 | With the corrected table, every 32-bit address is public exactly when it is in no reserved block |
| `PublicTable.CorrectedPublic` | utils/ip.py:62-81 | With the corrected table, an integer is public exactly when it is a 32-bit address outside every reserved block |
| `PublicTable.CorrectedPublicIps` | utils/ip.py:97-119 | Both ends must be 32-bit addresses when `begin > end`. Intersection with the corrected table gives exactly the 32-bit addresses of the interval that are in no reserved block |
| `PublicTable.CorrectedTotal` | utils/ip.py:83-95 | The corrected table holds 13237760 addresses more than the stored constant |
| `PublicTable.AlternatesPartition` | utils/ip.py:62-81 | When reserved blocks and public ranges alternate without gaps, an address between the first and the last block is public exactly when it is in no reserved block |

## Left out

- Connecting, quitting, logging in and the welcome banner (`connect`, `quit`,
  `login`, `getWelcomeBanner`). These are calls into the server library with no
  logic of their own.
- The long-listing fetch of `getMaxRights`. Its outcome is the parameter of
  `Rights.MaxRights`: lines, or the error raised.
- The default directory and file names of `checkWriteAndDeleteAccess`, drawn at
  random. Both names are parameters of `Probe.CheckWriteAndDeleteAccess`.
- Server answers that depend on the working directory. Each entry carries the
  answers of its own subtree. A server whose `cwd('..')` fails therefore still
  answers later commands as before, though the session stays below.
- Exceptions outside the four server-library error classes. In the scan and the
  probe they would escape; the model has no value for them.
- Path normalisation by the server. `cwd` into a path with several segments
  pushes all of them, and `cwd('..')` removes one.
- `ipToInt`, `intToIp`, `getHostFromIp` and `ping`. These are conversions and
  lookups through the socket library and an external process. Addresses are
  integers throughout the model.
- Logging, in both files, and the demonstration `main` functions.
- `IpRanges.DividedPublicIpRange`: the piece size is `total / n` rounded down,
  as under Python 2. Under Python 3 the division at utils/ip.py:135 is a float
  division, and pieces may then end at fractional addresses; that case is not
  modelled. The precondition `n <= total` (for more than thirteen ranges) is
  when the integer piece size is at least 1. Beyond it the loop at
  utils/ip.py:138-145 never ends (third finding below).
- `IpRanges.IpLoop`, `IpRanges.ValidPublicIps` and
  `PublicTable.CorrectedPublicIps`: writing an address out as text raises an
  error for an integer outside 0 .. 2^32 - 1. The model requires the ends
  that are written out to be 32-bit addresses instead of modelling that
  error.
- `IpRanges.IpLoop`: the checking function is represented by the sequence of
  calls made to it. Its effects are not modelled.
- The intersection and the division are proved for any sorted table. The
  corrected table is used with the intersection in
  `PublicTable.CorrectedPublicIps`. The division of the corrected table is not
  stated separately.

## Findings

| source | as written | input that shows it | evidently intended | confidence | as-written member | corrected member |
|---|---|---|---|---|---|---|
| utils/ftp.py:81 | The nested call passes `count` where `optimized` is declared and `depth + 1` where `count` is declared, so `depth` is always 0. Every call below the root also gets `count` 1, so `max_files` only takes effect there when it is 1 or 2, and the root's counter becomes the `optimized` flag of the level below it | `max_depth` 0 on a server with a directory `a` holding a directory `b`: the scan expands `b`. Any `max_files` of 3 or more gives the scan that 3 gives | Pass `optimized`, `count` and `depth + 1` in their declared positions, so that a scan with `max_depth` 0 cuts off `a` | high, not executed | `ScannerLemmas.MaxDepthZeroCounterexample` | `ScannerLemmas.GetContentWithin` |
| utils/ip.py:70 and utils/ip.py:80 | Two ranges end at 2130641151 (126.255.0.255) and 3744923903 (223.55.0.255). The three-part forms `126.255.255` and `223.55.255` read as those numbers | 126.255.1.0 and 223.56.0.0 are in no public range and in no reserved block, and so is every address from 126.255.1.0 to 126.255.255.255 and from 223.55.1.0 to 223.255.255.255 | End them at 126.255.255.255, next to loopback, and at 223.255.255.255, next to multicast. Then every address is public or reserved | medium, not executed | `PublicTable.AsWrittenGap` | `PublicTable.CorrectedPartition` |
| utils/ip.py:135-145 | The piece size is the number of public addresses divided by `n`, rounded down, with no lower bound | `n` = 3689020673: the piece size is 0, and the inner loop appends empty ranges forever without reducing what remains | Pieces of at least one address, so that every `n` gives a finite division of the table | medium, not executed | `IpRanges.StepZeroStalls` | `IpRanges.CorrectedDividedPublicIpRange` |

In the first finding, `ScannerLemmas.MaxDepthIgnored` shows that the depth limit
never takes effect in the scan as written. `ScannerLemmas.MaxFilesFromThree` and
`ScannerLemmas.FirstLevelUnoptimized` show what the same call does to the
file limit and to `optimized`. `ScannerLemmas.IntendedDepthBound`
gives the corrected bound for a whole scan.

In the second finding, the stored count 3689020672 at utils/ip.py:89 matches the
table as written. The corrected table holds 13237760 more addresses
(`PublicTable.CorrectedTotal`). `PublicTable.CorrectedPublicIps` is the address
intersection over the corrected table.

In the third finding, `IpRanges.InnerTurn` is one turn of the inner loop as
written, for any piece size including 0. `IpRanges.DividedPublicIpRange` keeps
the code as written and requires a piece size of at least 1;
`IpRanges.CorrectedDividedPublicIpRange` extends it to every `n`.
