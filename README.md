# libtree in Dafny

libtree prints the tree of shared libraries that the dynamic linker would load for an
ELF binary. This project models the core of that program in Dafny and proves properties
of the model. Two generations of the tool are modelled as written. Where the source has a
bug, a second, corrected definition sits beside the as-written one (see "## Findings").
The walk runs the as-written code, with one exception: `$ORIGIN` (see "## Left out").

- **libtree.c** reads each file itself with `fopen`/`fread`/`fseek`. It decodes the ELF
  header, the program headers and the dynamic section. It copies the soname, rpath,
  runpath and needed names into one string arena (`buf`/`buf_size`) and expands `$ORIGIN`,
  `$LIB` and `$PLATFORM` in the path lists. It then searches for each needed library in a
  fixed order and calls itself on what it finds:
  1. direct `/` names;
  2. the rpath stack, from the current depth down to 0, only when there is no runpath;
  3. `LD_LIBRARY_PATH`;
  4. the runpath;
  5. the ld.so.conf directories;
  6. the default paths.

  Files are deduplicated by `(st_dev, st_ino)`. The arena is given back on return.
- **The C++ generation** is split into three places:
  - src/elf.cpp reads a file through ELFIO (`from_path`);
  - src/deps.cpp walks the graph (`deps::explore`, `try_paths`, `search`);
  - src/ld.cpp parses `/etc/ld.so.conf` (`trim_ld_line`, `parse_ld_conf`).

  src/main.cc holds an earlier single-file copy of the same functions, with a
  `DepsTree` class. It differs in one function: its `from_path` canonicalises the path
  first. ELFs are deduplicated by the path their name denotes: `m_visited` is a set of
  `fs::path`, and two paths are equal when they differ only in runs of `/`. One `rpaths` vector is shared by the whole walk
  and only ever grows. Each lookup is a first hit over a candidate list.

The modules:

| module | file | what it holds |
|---|---|---|
| `Wrappers`, `Collections` | wrappers.dfy, collections.dfy | `Option`, and generic sequence and set lemmas |
| `ElfBytes` | elf_bytes.dfy | little-endian reads, 64-bit wrap-around, the `getc` string copy |
| `ElfDecode` | elf_decode.dfy | the parsing half of `recurse`: header, program headers, dynamic entries, string-table translation |
| `Substitution` | substitution.dfy | `interpolate_variables` (one left-to-right scan) and `apply_substitutions` (three whole-string replacements) |
| `SearchPaths` | search_paths.dfy | `split_paths`, the colon walk of `check_search_paths`, the `;` to `:` rewrite |
| `LdConf` | ld_conf.dfy | `trim_ld_line` and the C++ `parse_ld_conf`; the line handling of libtree.c's `parse_ld_conf` |
| `LibTreeSpec` | libtree_spec.dfy | what libtree.c's walk is specified by: return codes, `$ORIGIN`, stage order, arena layout, search outcome |
| `LibTreeWalk` | libtree_walk.dfy | class `Walker`: the global state of libtree.c and its `recurse`, `check_search_paths`, `parse_ld_conf`, `ld_conf_globbing`, `parse_ld_library_path`, `print_tree` |
| `CppElf` | cpp_elf.dfy | both copies of `from_path`, with the `std::filesystem::path` operations they use |
| `CppDeps` | cpp_deps.dfy | class `Deps`: `explore`, `try_paths`, `search`, for both `deps` and `DepsTree` |

Inputs and outside effects are modelled as values:

- A file is a byte sequence. The file system of libtree.c is a map from path to
  `(dev, ino)` and bytes.
- ELFIO is a map from path to the dynamic entries of each `SHT_DYNAMIC` section.
- `glob` and `fs::canonical` are functions given as parameters.
- `getenv("LD_LIBRARY_PATH")` is an `Option<string>` parameter.
- Printing is a list of lines (`trace` / `log`) that the walk appends to.

Modelling choices that follow the code:

- `fseek` fails when the offset does not fit a signed 64-bit `long`.
- `getc` into a `char` stops a string at byte `0xFF`, as on targets where `char` is
  signed.
- `strtab_offset` is computed in `uint64_t` arithmetic, so it wraps around.
- In `recurse`, `LIB` stands for the literal text `"LIB"` and `PLATFORM` for `"x86_64"`.

## Model

| member | source | states |
|---|---|---|
| ElfBytes.CStringAt | libtree.c:242-248 | the copied string is the slice of the file from the position on, holds no 0 or 0xFF byte, and stops at a 0, a 0xFF or the end of the file |
| ElfDecode.HeaderOf | libtree.c:259-291 | a short file or wrong magic gives the magic error; the header is accepted exactly when the file is 64-bit little-endian with the magic, `e_type` is ET_EXEC or ET_DYN, the `e_phoff` seek succeeds and the program-header table fits; for such a header a wrong `e_type` gives exactly code 7, a failed `e_phoff` seek code 8, and a program-header table that cannot be read in full code 9; an accepted header carries the `PT_LOAD` pairs in file order and the last `PT_DYNAMIC` offset |
| ElfDecode.ReadHeader | libtree.c:259-291 | the header stage as a method agrees with `HeaderOf` |
| ElfDecode.PhStep | libtree.c:310-320 | one more program header appends its `(offset, vaddr)` when it is PT_LOAD and replaces the dynamic offset when it is PT_DYNAMIC |
| ElfDecode.LoadsInFileOrder | libtree.c:310-316 | the loads of a prefix of the table are a prefix of the loads of the whole table, and every PT_LOAD entry is among them |
| ElfDecode.NoDynamicEntry | libtree.c:295-319 | with no PT_DYNAMIC entry the dynamic offset stays `MAX_SIZE_T` |
| ElfDecode.LastDynamicWins | libtree.c:317-319 | the dynamic offset is that of the last PT_DYNAMIC entry |
| ElfDecode.EntriesStopAtNull | libtree.c:391-400 | the decoded entries are the consecutive 16-byte records from the dynamic offset, none of them DT_NULL, and the record after the last one is DT_NULL |
| ElfDecode.EntriesEndAtNull | libtree.c:391-400 | the scan ends on a DT_NULL record that fits in the file |
| ElfDecode.EntryAt | libtree.c:391-400 | the k-th decoded entry is the k-th record and is not DT_NULL |
| ElfDecode.EntriesStep | libtree.c:391-400 | a record other than DT_NULL is followed by the scan of the rest; the scan succeeds from one exactly when it succeeds from the next |
| ElfDecode.NeededValsSnoc | libtree.c:410-412 | one more entry appends its value to the needed list exactly when it is DT_NEEDED |
| ElfDecode.NeededInEntryOrder | libtree.c:410-412 | the needed offsets are the DT_NEEDED values in entry order |
| ElfDecode.LastEntryWins | libtree.c:382-416 | DT_STRTAB, DT_RPATH, DT_RUNPATH and DT_SONAME keep `MAX_SIZE_T` when absent and otherwise take the value of their last entry |
| ElfDecode.SlotRecord | libtree.c:397-416 | recording one entry changes the slot of its own tag only |
| ElfDecode.DynamicOf | libtree.c:379-420 | a failed seek to the dynamic section gives 10; entries that run out before a `DT_NULL` give 11; entries without a `DT_STRTAB` give 14; otherwise the result is what the entries record, from first to last, and has a string table |
| ElfDecode.ReadDynamic | libtree.c:379-420 | the dynamic loop as a method agrees with `DynamicOf` |
| ElfDecode.Addrs | libtree.c:299-316 | the address array holds the load vaddrs in order followed by the `MAX_SIZE_T` sentinel |
| ElfDecode.FindLoad | libtree.c:423-433 | a found index is the first one from the start with `addrs[i] <= strtab < addrs[i+1]`; none found means no index has it |
| ElfDecode.StrtabOffset | libtree.c:423-435 | the translation loop yields `offsets[i] - addrs[i] + strtab` for the index `FindLoad` picks, wrapped to 64 bits |
| ElfDecode.AscendingLoadsTranslate | libtree.c:426-435 | with ascending addresses and `strtab` between the first and the sentinel, the loop finds an index, and every later address lies above `strtab` |
| Substitution.Recognize | libtree.c:194-214 | a recognised variable has a length within the text after the `$` |
| Substitution.RecognizedWord | libtree.c:194-214 | the recognised text is `ORIGIN`/`{ORIGIN}`, `LIB`/`{LIB}` or `PLATFORM`/`{PLATFORM}` for the matching variable |
| Substitution.TokenBeforeEnd | libtree.c:183-214 | the scan has met a variable before position p exactly when one starts before p |
| Substitution.ExpandWithoutToken | libtree.c:212-234 | text without a variable is copied through unchanged |
| Substitution.ExpandFromSuffix | libtree.c:183-227 | expanding from position p is expanding the suffix from p |
| Substitution.Interpolate | libtree.c:173-240 | it returns 0 exactly when no variable occurs, and then writes nothing; otherwise `dst` is the one-pass expansion followed by NUL and the return value is its length including the NUL |
| Substitution.ScanStep | libtree.c:183-227 | one step of the `strchr` loop advances and keeps the scan invariant |
| Substitution.ScanDone | libtree.c:229-239 | at the end nothing copied means no variable and an empty `dst`, and `dst` plus the uncopied rest is the expansion |
| Substitution.KeepCharacter | libtree.c:212-213 | a character that does not start a variable stays in the uncopied run |
| Substitution.ReplaceToken | libtree.c:216-226 | a variable flushes the uncopied run and appends its value |
| Substitution.TokenBeforeMonotone | libtree.c:183-214 | a variable met before p is met before any later q |
| Substitution.ReplaceSkipsPlainText | src/elf.cpp:42-44 | a replacement pass leaves text without `$` unchanged and continues after it |
| Substitution.ReplaceKeepsNamePrefix | src/elf.cpp:42-44 | with a value that is not `$`-bearing and does not start with a name character, a pass neither creates nor destroys a leading run of name characters |
| Substitution.KeepsDollar | src/elf.cpp:38-40 | a `$` not followed by the pass's name is kept |
| Substitution.ReplacesLeading | src/elf.cpp:38-44 | `$NAME` and `${NAME}` at the front are replaced by the value |
| Substitution.PassesKeepPlain | src/elf.cpp:42-44 | the three passes keep a leading character other than `$` |
| Substitution.PassesKeepValue | src/elf.cpp:43-44 | the LIB and PLATFORM passes keep a leading run without `$` |
| Substitution.PassesKeepDollar | src/elf.cpp:42-44 | a `$` that starts no variable survives all three passes |
| Substitution.OriginPassKeepsDollar | src/elf.cpp:42 | the ORIGIN pass keeps such a `$` and creates no LIB or PLATFORM name after it |
| Substitution.PassesReplaceOrigin | src/elf.cpp:38-42 | a leading `$ORIGIN` or `${ORIGIN}` becomes `cwd` |
| Substitution.PassKeepsLeading | src/elf.cpp:42-44 | a pass keeps a leading `$w` that does not spell its name |
| Substitution.PassesReplaceLib | src/elf.cpp:39-43 | a leading `$LIB` or `${LIB}` becomes `lib64` |
| Substitution.PassesReplacePlatform | src/elf.cpp:40-44 | a leading `$PLATFORM` or `${PLATFORM}` becomes `x86_64` |
| Substitution.PlatformSkipsPass | src/elf.cpp:42-43 | the ORIGIN and LIB passes keep `$PLATFORM` |
| Substitution.PassesAgreeWithScan | src/elf.cpp:35-47 | when `cwd` holds no `$` and starts with no name character, the three passes give the same string as the one-pass scan of libtree.c with `lib64` and `x86_64` |
| Substitution.AgreeAtToken | src/elf.cpp:35-47 | the two agree on a string that starts with a variable when they agree on the rest |
| Substitution.ReplaceWithoutMatch | src/elf.cpp:42-44 | a pass whose name does not occur after any `$` leaves the string unchanged |
| Substitution.NoNameWithoutToken | src/elf.cpp:38-40 | a string with no variable has no `$NAME` for any of the three names |
| Substitution.SubstitutionsWithoutToken | src/elf.cpp:35-47 | a string with no variable is returned unchanged; the earlier copy at src/main.cc:80-92 behaves the same |
| Substitution.OriginTextIsRescanned | src/elf.cpp:42-44 | the passes run in sequence, so `$LIB` inside the inserted `cwd` is replaced too; the earlier copy at src/main.cc:87-89 behaves the same |
| Substitution.ScanDoesNotRescan | libtree.c:221-226 | the one-pass scan does not rescan an inserted value |
| SearchPaths.ColonIndex | src/elf.cpp:56 | the index of the first `:` or the length |
| SearchPaths.ColonFreePrefix | src/elf.cpp:56 | the text before that index holds no `:` |
| SearchPaths.ColonIndexIs | src/elf.cpp:56 | any index with no `:` before it and a `:` or the end at it is that index |
| SearchPaths.SegmentsNonEmpty | src/elf.cpp:56-58 | no element of the split is empty or holds a `:` |
| SearchPaths.ColonSegmentsCons | src/elf.cpp:56-58 | a segment then `:` gives that segment, unless it is empty, then the split of the rest |
| SearchPaths.ColonSegmentsPlain | src/elf.cpp:56-58 | a string without `:` splits into itself, or into nothing when empty |
| SearchPaths.SplitJoinRoundTrip | src/elf.cpp:50-61 | splitting the `:`-join of non-empty colon-free paths gives them back |
| SearchPaths.SegmentsKeepText | src/elf.cpp:50-61 | the segments concatenated are the input with its colons removed: order and text are kept |
| SearchPaths.WithoutColonsAppend | src/elf.cpp:56-58 | removing colons distributes over concatenation |
| SearchPaths.SplitPaths | src/elf.cpp:50-61 | the `getline` loop returns the non-empty `:`-segments in input order; the earlier copy at src/main.cc:95-106 behaves the same |
| SearchPaths.SplitEnd | src/elf.cpp:56-60 | at the end of the input the pushed paths plus the last segment are the split |
| SearchPaths.SplitStep | src/elf.cpp:56-58 | one character keeps the loop invariant |
| SearchPaths.SplitAtColon | src/elf.cpp:56-58 | a `:` pushes the pending segment when it is not empty |
| SearchPaths.SplitPastChar | src/elf.cpp:56 | any other character extends the pending segment |
| SearchPaths.NextColon | libtree.c:143-145 | the copy loop stops at the next `:` or the end |
| SearchPaths.NextColonIs | libtree.c:143-145 | that position is the colon index of the rest |
| SearchPaths.NextColonPast | libtree.c:143-145 | the copy loop passes every non-colon character |
| SearchPaths.SegmentsFromIs | libtree.c:133-145 | the segments walked from a position are the split of the suffix |
| SearchPaths.SegmentsFromStart | libtree.c:133-145 | from position 0 they are the split of the whole list |
| SearchPaths.SegmentsFromStep | libtree.c:133-145 | the walk at a colon continues with the split after it |
| SearchPaths.SegmentEndsAt | libtree.c:143-145 | a segment ends at the next colon and the walk goes on after it |
| SearchPaths.SegmentsFromColon | libtree.c:135-136 | a leading colon contributes no segment |
| SearchPaths.SegmentsFromWhole | libtree.c:143-145 | a colon-free rest is one segment |
| SearchPaths.AddSlash | libtree.c:147-149 | the directory ends in `/` and is the segment, or the segment with `/` appended |
| SearchPaths.AddSlashes | libtree.c:147-149 | every segment gets its slash, in order |
| SearchPaths.NextDir | libtree.c:133-152 | the next directory tried is the next segment with its slash; when there is none the walk ends |
| SearchPaths.SkipColons | libtree.c:135-140 | skipping a run of colons changes no segment still to come |
| SearchPaths.CopySegment | libtree.c:143-145 | the copied text is the next segment and the walk continues after it |
| SearchPaths.SemicolonsToColons | libtree.c:861-864 | the copy has the same length, holds no `;`, and differs only where `;` became `:` |
| SearchPaths.LastSlashBelow | libtree.c:491 | `strrchr`: the last `/` before the bound, or none |
| LdConf.SkipBlanks | src/ld.cpp:9-12 | the first position not a space or tab, or the length |
| LdConf.SkipBlanksAll | src/ld.cpp:9-12 | every skipped character is a space or tab |
| LdConf.Find | src/ld.cpp:15-18 | the first `#`, or the length |
| LdConf.FindFirst | src/ld.cpp:15-18 | no `#` comes before it |
| LdConf.EndNonBlank | src/ld.cpp:21-24 | the end after the last character that is not a space or tab |
| LdConf.EndNonBlankAll | src/ld.cpp:21-24 | everything after that end is blank |
| LdConf.TrimIsSlice | src/ld.cpp:7-27 | the result is a contiguous substring of the line |
| LdConf.TrimNoHash | src/ld.cpp:15-18 | the result holds no `#` |
| LdConf.TrimEnds | src/ld.cpp:9-24 | when something other than blanks comes before the first `#`, the result starts and ends with such a character |
| LdConf.TrimWithoutContent | src/ld.cpp:9-24 | otherwise the result is made of blanks only |
| LdConf.TrimKeepsBlankLine | src/ld.cpp:9-24 | a line of only spaces and tabs is returned unchanged |
| LdConf.TrimIdempotent | src/ld.cpp:7-27 | trimming a trimmed line changes nothing; the earlier copy at src/main.cc:163-183 behaves the same |
| LdConf.TrimNoBlankEnds | src/ld.cpp:7-27 | a line without `#` and with non-blank ends is its own trim |
| LdConf.SpaceRun | src/ld.cpp:32 | the length of the leading `\s` run |
| LdConf.SpaceRunAll | src/ld.cpp:32 | that run is all `\s` |
| LdConf.IncludeSound | src/ld.cpp:32-44 | a line the regex accepts is `include`, a non-empty run of `\s`, then a non-empty pattern without line terminators |
| LdConf.IncludeComplete | src/ld.cpp:32-44 | every such line is accepted |
| LdConf.ConfDirsGood | src/ld.cpp:29-54 | every directory collected is non-empty, holds no `#`, is its own trim and is not an include line |
| LdConf.LinesDirsGood | src/ld.cpp:37-53 | the same for the directories of any run of lines |
| LdConf.LineDirsGood | src/ld.cpp:39-52 | the same for one line |
| LdConf.FilesDirsGood | src/ld.cpp:46-49 | the same for the directories of the matched files |
| LdConf.LinesDirsAppend | src/ld.cpp:37-53 | the directories of two runs of lines are those of the first then those of the second |
| LdConf.LinesDirsHead | src/ld.cpp:37-53 | the first line's directories come first |
| LdConf.LinesDirsFirst | src/ld.cpp:37-53 | a line put in front contributes its directories in front |
| LdConf.LinesDirsCons | src/ld.cpp:37-53 | from line i on: line i's directories, then the rest's |
| LdConf.LinesBelowAppend | src/ld.cpp:44-49 | includes below a level stay below it when runs are joined |
| LdConf.LinesBelowEach | src/ld.cpp:44-49 | a run of lines includes only files below a level exactly when each line does |
| LdConf.IncludeExpandsInPlace | src/ld.cpp:44-49 | an include line is replaced, at its position, by the directories of each matched file in glob order; the order is that of test/src/ld_so_conf.cpp:11-16 |
| LdConf.ParseLdConf | src/ld.cpp:29-54 | the directories are the given ones followed by those of the file, in line order with includes expanded in place; the earlier copy at src/main.cc:185-216 behaves the same |
| LdConf.ReadLine | src/ld.cpp:37-53 | one `getline` iteration moves one line's directories into the vector |
| LdConf.ParseLine | src/ld.cpp:39-52 | an include appends the matched files' directories; any other non-empty trimmed line appends itself |
| LdConf.ParseIncludes | src/ld.cpp:48-49 | the matched files are parsed in glob order, each appending its directories |
| LdConf.ReadFile | src/ld.cpp:48-49 | one matched file moves its directories into the vector |
| LdConf.BlankLineIsKept | src/ld.cpp:39-52 | a line of two spaces is pushed as the directory `"  "` |
| LdConf.SkipSpaces | libtree.c:787-789 | the first position that is not `isspace`, or the length |
| LdConf.EndNonSpace | libtree.c:799-803 | the end after the last non-`isspace` character |
| LdConf.TrimConfLine | libtree.c:786-810 | the pointer walk gives the trimmed line: leading space, comment and trailing space removed |
| LdConf.CTrimNoHash | libtree.c:791-794 | the trimmed line holds no `#` |
| LdConf.ClassifyAsWritten | libtree.c:786-834 | as written: a directory is the trimmed line and has at least two characters; an include's pattern starts with `/` |
| LdConf.Classify | libtree.c:805-807 | the corrected test that the "Skip empty lines" comment intends: a directory is the non-empty trimmed line; every non-empty line that is not `include` plus a space is a directory; an include's pattern starts with `/` |
| LdConf.ClassifyLine | libtree.c:786-834 | the trimming, the `begin == end` skip, the `include` test and the absolute-pattern test agree with `ClassifyAsWritten` |
| LdConf.AsWrittenDropsSingleCharacters | libtree.c:801-807 | the code as written skips exactly the lines whose trimmed content is one character, and otherwise agrees with `Classify` |
| LdConf.RootLineDropped | libtree.c:801-807 | the line `/` is dropped as written and kept by `Classify` |
| LdConf.CLinesDirsAt | libtree.c:785-835 | from line i on: line i's directories, then the rest's |
| LdConf.CFilesDirsAt | libtree.c:768-769 | from match i on: match i's directories, then the rest's |
| LdConf.CConfDirsNonEmpty | libtree.c:775-841 | every directory libtree.c collects, with the as-written line test, is non-empty and holds no `#` |
| LdConf.CLinesDirsNonEmpty | libtree.c:785-835 | the same for a run of lines |
| LdConf.CFilesDirsNonEmpty | libtree.c:768-769 | the same for the matched files |
| LibTreeSpec.CStr | libtree.c:157 | the C string at an offset: a slice of the arena without NUL, followed by NUL unless it runs to the end |
| LibTreeSpec.CStrOfTerminated | libtree.c:247 | a string written with its NUL reads back as itself |
| LibTreeSpec.CStrPrefix | libtree.c:247 | appending to the arena does not change a terminated string |
| LibTreeSpec.Origin | libtree.c:489-502 | `$ORIGIN` ends in `/`; it is the prefix of the path up to and including its last `/`, or `./` when there is no `/` |
| LibTreeSpec.OriginKeepsStaleByte | libtree.c:494-496 | as written, the byte after the last `/` is whatever was in the buffer: `/usr/lib/libz.so` with a stale `x` gives `/usr/lib/x` |
| LibTreeSpec.OriginAgreesOnNul | libtree.c:494-496 | when that byte happens to be NUL the code as written gives `Origin` |
| LibTreeSpec.DecodeOf | libtree.c:259-435 | a file the decoder rejects has a non-zero code |
| LibTreeSpec.CodeValues | libtree.c:250-746 | `recurse` returns one of 0, 1, 7, 8, 9, 10, 11, 14, 16 |
| LibTreeSpec.CodeSeenWeaker | libtree.c:441-487 | a file that succeeds on its first visit also succeeds when met again; a failure on a revisit has the first visit's code |
| LibTreeSpec.TriedCode | libtree.c:159 | a zero code means the path resolves, a non-zero one that it fails whenever tried |
| LibTreeSpec.RpathStagesDescend | libtree.c:637-646 | the rpath stages are rpath stages at depths at most the current one, strictly descending |
| LibTreeSpec.RpathsConsulted | libtree.c:637-646 | every depth from the current one down to 0 with an rpath has its stage |
| LibTreeSpec.StagesInOrder | libtree.c:633-681 | stages go rpath stack, `LD_LIBRARY_PATH`, runpath, ld.so.conf, default; the last two are always the ld.so.conf string at the arena start and the default paths |
| LibTreeSpec.FixedAfterRpaths | libtree.c:652-681 | no stage after the rpath stack is an rpath stage |
| LibTreeSpec.FixedInOrder | libtree.c:652-681 | the stages after the rpath stack are in precedence order |
| LibTreeSpec.LeadsInOrder | libtree.c:633-681 | a stage of lower precedence put in front keeps the order |
| LibTreeSpec.OrderedConcat | libtree.c:633-681 | two ordered runs, all of the first before all of the second, are ordered together |
| LibTreeSpec.RunpathHidesRpaths | libtree.c:634 | with a runpath no rpath stage is searched |
| LibTreeSpec.WithColons | libtree.c:829-834 | each ld.so.conf directory is followed by a `:` |
| LibTreeSpec.WithColonsAppend | libtree.c:829-834 | the arena text of two runs of directories is the two texts in order |
| LibTreeSpec.WithColonsJoin | libtree.c:829-834 | the arena text is the `:`-join followed by one `:` |
| LibTreeSpec.ConfString | libtree.c:880-882 | the corrected termination: the ld.so.conf list on its own ends in NUL |
| LibTreeSpec.ConfStringOfJoin | libtree.c:880-882 | terminating it turns the last `:` into NUL, leaving the `:`-join |
| LibTreeSpec.ConfStringIsJoin | libtree.c:880-882 | in the corrected layout the ld.so.conf stage searches exactly the `:`-join of the directories, whether or not `LD_LIBRARY_PATH` is set, as read by the ld.so.conf stage at libtree.c:676 |
| LibTreeSpec.JoinedConfString | libtree.c:880-882 | the same, for a given join, as read by the ld.so.conf stage at libtree.c:676 |
| LibTreeSpec.EmptyConfString | libtree.c:881 | in the corrected layout an empty ld.so.conf list is the empty string, as read by the ld.so.conf stage at libtree.c:676 |
| LibTreeSpec.JoinWithoutNul | libtree.c:829-834 | joining NUL-free directories gives a NUL-free string |
| LibTreeSpec.LdLibraryPathIsSeparate | libtree.c:852-866 | in the corrected layout, the `LD_LIBRARY_PATH` stage reads the variable's value with `;` turned into `:` |
| LibTreeSpec.ConfStringRunsOn | libtree.c:880-882 | as written, ld.so.conf `/a` with `LD_LIBRARY_PATH=/b` makes the ld.so.conf stage search `/a:/b`; the corrected layout gives `/a`, as read by the ld.so.conf stage at libtree.c:676 |
| LibTreeSpec.EmptyArenaAsWritten | libtree.c:881-882 | as written, with no directory and no variable the arena is empty, so the ld.so.conf stage searches the first string `recurse` then copies in at offset 0; the corrected layout searches the empty string |
| LibTreeSpec.ConfStageAsWritten | libtree.c:876-882 | in the arena as written, the ld.so.conf stage searches the `:`-join of the directories when `LD_LIBRARY_PATH` is unset, the rewritten variable alone when there is no directory, and otherwise the join, a `:` and the rewritten variable |
| LibTreeSpec.ConfStageWithoutVariable | libtree.c:880-882 | with the variable unset, the last `:` becomes the NUL and the stage searches exactly the join |
| LibTreeSpec.RunsOnIntoVariable | libtree.c:880-882 | with the variable set, the last byte is already the variable's NUL, so the arena is the list with its colons, then the rewritten variable and its NUL |
| LibTreeSpec.LdLibraryPathAsWritten | libtree.c:852-866 | in the arena as written the `LD_LIBRARY_PATH` stage, at the offset right after the list, reads the value with `;` turned into `:` |
| LibTreeSpec.SearchStart | libtree.c:597-628 | after the direct pass the pending names are relative and the moved ones hold a `/` |
| LibTreeSpec.FailsInAppend | libtree.c:155-169 | a name that fails in a run of directories and in one more fails in all of them |
| LibTreeSpec.ResolvesInAppend | libtree.c:155-169 | a name found in part of a run of directories is found in the run |
| LibTreeSpec.FoundInPrefix | libtree.c:633-681 | a name found at its first stage among the stages run so far is found among all stages |
| LibTreeSpec.FoundInLast | libtree.c:633-681 | a name that failed in every earlier stage and resolves in this one is found here |
| LibTreeSpec.FailsAllAppend | libtree.c:633-681 | failing every earlier stage and this one is failing them all |
| LibTreeSpec.StageStep | libtree.c:643-681 | one `check_search_paths` call that keeps the pending names a permutation and moves the resolved ones behind keeps the search invariant over one more stage |
| LibTreeSpec.SearchDone | libtree.c:630-684 | stopping early when nothing is pending, or after the last stage, gives the invariant over all stages |
| LibTreeSpec.TriedDirs | libtree.c:155-169 | one more directory: the still-pending names failed in all directories so far, the moved ones resolved in one |
| LibTreeWalk.MarkShrinks | libtree.c:329-340 | recording a new `(dev, ino)` strictly shrinks the set of identities not yet visited: the walk's measure |
| LibTreeWalk.StringAtHasNoNul | libtree.c:245-247 | a string copied from the file holds no NUL |
| LibTreeWalk.ExpandHasNoNul | libtree.c:173-240 | expanding NUL-free text with NUL-free values gives NUL-free text |
| LibTreeWalk.ReadDynamicPart | libtree.c:379-435 | after a header that passed, the dynamic stage and translation agree with `DecodeOf` |
| LibTreeWalk.MissingLines | libtree.c:686-691 | one not-found line per pending name, in order |
| LibTreeWalk.SwapKeeps | libtree.c:162-165 | the swap with the last pending slot keeps the multiset of the prefix, the suffix, the part before `i`, and moves the name behind the pending part; the direct pass at libtree.c:622-624 swaps the same way |
| LibTreeWalk.AppendCString | libtree.c:242-248 | `copy_from_file` appends the file's string and a NUL |
| LibTreeWalk.CharsStep | libtree.c:245-246 | one `getc` step appends the byte and continues |
| LibTreeWalk.NeededStep | libtree.c:549-555 | copying one more needed name records its offset, and the arena only grows |
| LibTreeWalk.NeededGrow | libtree.c:549-555 | appending to the arena keeps the copied names |
| LibTreeWalk.NeededAppend | libtree.c:549-555 | a recorded offset whose string is the next needed name extends the copy |
| LibTreeWalk.CStrExtend | libtree.c:247 | appending keeps a terminated string |
| LibTreeWalk.KeepsCStr | libtree.c:247 | a terminated string survives any growth of the arena |
| LibTreeWalk.EndsInNul | libtree.c:247 | an arena ending in NUL terminates every string in it |
| LibTreeWalk.PathListAt | libtree.c:516-525 | after the literal copy and the expansion, the recorded offset reads the expansion when a variable occurs and the literal copy otherwise |
| LibTreeWalk.AppendPathList | libtree.c:507-545 | copying an rpath or runpath and expanding it leaves the recorded offset reading the path list, and the arena only grows |
| LibTreeWalk.TryHit | libtree.c:159-165 | a name that resolves is swapped behind the pending part and the invariant of the inner loop holds |
| LibTreeWalk.AllResolveCons | libtree.c:159-165 | a resolved name put in front of resolved names keeps them all resolved |
| LibTreeWalk.TryMiss | libtree.c:166-167 | a name that fails stays and the index moves on |
| LibTreeWalk.DirectMove | libtree.c:605-624 | a name with a `/` is swapped behind the pending part |
| LibTreeWalk.DirectKeep | libtree.c:625-627 | a name without `/` stays pending |
| LibTreeWalk.DirectDone | libtree.c:603-628 | after the direct pass the offsets are a permutation of the input and the search invariant holds with no stage run |
| LibTreeWalk.RpathStagesKept | libtree.c:634-647 | rpath stages depend only on the rpath offsets at depths up to the current one |
| LibTreeWalk.DirsStart | libtree.c:133 | no directory tried at the start of the list |
| LibTreeWalk.DirsStep | libtree.c:143-152 | the next directory tried is the next segment with its slash |
| LibTreeWalk.DirsDone | libtree.c:133-140 | at the end of the list the directories tried are the list's segments with slashes, in order |
| LibTreeWalk.CheckStart | libtree.c:130-133 | the invariant of `check_search_paths` holds before any directory |
| LibTreeWalk.CheckStep | libtree.c:152-169 | one directory's inner loop extends the invariant by that directory |
| LibTreeWalk.CopyNeeded | libtree.c:548-556 | it succeeds exactly when every needed name can be reached, and then each recorded offset reads its needed name; the arena only grows |
| LibTreeWalk.CopyOneNeeded | libtree.c:549-555 | one iteration succeeds exactly when its name can be reached, and then records it |
| LibTreeWalk.Swap | libtree.c:162-165 | the two slots are exchanged |
| LibTreeWalk.MoveFound | libtree.c:159-165 | a resolved name is moved behind the pending part, keeping the loop invariant |
| LibTreeWalk.SettleTry | libtree.c:155-169 | one inner-loop iteration keeps the invariant and shrinks what is left |
| LibTreeWalk.SettleDirect | libtree.c:603-628 | one direct-pass iteration keeps its invariant and shrinks what is left |
| LibTreeWalk.MoveDirect | libtree.c:620-624 | a `/` name is moved behind the pending part whether found or not |
| LibTreeWalk.AllOpenStep | libtree.c:768-769 | the codes or-ed so far are zero exactly when every matched file so far opened |
| LibTreeWalk.ConfLinesStart | libtree.c:775-785 | a file's lines give that file's directories |
| LibTreeWalk.ConfLinesStep | libtree.c:785-835 | one line appends its directories, each followed by `:` |
| LibTreeWalk.ConfLinesEnd | libtree.c:785 | no lines left, nothing appended |
| LibTreeWalk.ConfFilesStart | libtree.c:767-768 | the glob loop starts with code 0 and all matches to do |
| LibTreeWalk.ConfFilesStep | libtree.c:768-769 | one match appends its directories |
| LibTreeWalk.ConfFilesEnd | libtree.c:768-772 | at the end nothing is left to append |
| LibTreeWalk.Walker.constructor | libtree.c:872-874 | the walk starts with an empty arena, no visited file, no rpath and no `LD_LIBRARY_PATH` |
| LibTreeWalk.Walker.MarkVisited | libtree.c:329-340 | `should_recurse` is 0 exactly when the identity was visited before, and the identity is appended in every case; nothing else changes |
| LibTreeWalk.Walker.CopyFromFile | libtree.c:242-248 | the file's string and a NUL are appended at the old end of the arena; nothing else changes |
| LibTreeWalk.Walker.Recurse | libtree.c:250-746 | the code is `Code` of the path, given whether its identity was seen; the arena and `LD_LIBRARY_PATH` offset are given back and the rpaths below the depth kept; on success the first new line is the file's node; the identity is recorded exactly when the header passed |
| LibTreeWalk.Walker.DynamicStage | libtree.c:378-746 | after the header: the code and the node line as for `recurse` |
| LibTreeWalk.Walker.Revisit | libtree.c:441-487 | a file seen before returns 16 when its soname cannot be reached and otherwise prints one repeated node, changing nothing else |
| LibTreeWalk.Walker.FirstVisit | libtree.c:441-746 | a new file returns 16, 1 or 0 by whether the soname and path strings can be reached; on success its node is the first new line |
| LibTreeWalk.Walker.CopySoname | libtree.c:440-450 | it succeeds exactly when the soname can be reached, and then yields the shown name |
| LibTreeWalk.Walker.ExpandFile | libtree.c:489-746 | the code is 0 exactly when the path strings can be reached; on success the node is the first new line |
| LibTreeWalk.Walker.ExpandNode | libtree.c:594-745 | the node is printed first, and the state below the depth is given back |
| LibTreeWalk.Walker.CopyStrings | libtree.c:489-556 | it succeeds exactly when rpath, runpath and every needed name can be reached; the rpath slot of the depth and the runpath read the expanded path lists with the corrected `$ORIGIN`, the slot is `MAX_SIZE_T` without an rpath, and each needed offset reads its name |
| LibTreeWalk.Walker.PushRpath | libtree.c:506-526 | only the rpath slot of the depth changes; it is `MAX_SIZE_T` without an rpath and otherwise reads the expanded rpath |
| LibTreeWalk.Walker.CopyRunpath | libtree.c:528-545 | a runpath offset exists exactly when there is a reachable runpath, and it reads the expanded runpath |
| LibTreeWalk.Walker.Search | libtree.c:597-691 | the needed offsets stay a permutation; the pending ones failed in every stage in order, the others were direct or found at their first stage; the not-found lines come last |
| LibTreeWalk.Walker.SearchNeeded | libtree.c:597-691 | the same when there is at least one needed name |
| LibTreeWalk.Walker.Resolve | libtree.c:603-684 | the direct pass and the stages keep the permutation and establish the search invariant over all stages |
| LibTreeWalk.Walker.RunStages | libtree.c:633-681 | running the remaining stages extends the invariant to all of them |
| LibTreeWalk.Walker.RunStage | libtree.c:643-681 | one stage extends the invariant by that stage |
| LibTreeWalk.Walker.DirectPass | libtree.c:603-628 | the loop over `/` names moves each behind the pending part and keeps the permutation |
| LibTreeWalk.Walker.DirectName | libtree.c:604-627 | one iteration of that loop keeps its invariant and shrinks what is left |
| LibTreeWalk.Walker.VisitDirect | libtree.c:605-618 | a relative `/` name is reported as not absolute, an absolute one that fails as not found |
| LibTreeWalk.Walker.CheckSearchPaths | libtree.c:130-171 | over the list's directories in order: the offsets stay a permutation, the pending ones failed in every directory and the moved ones resolved in one; the pending count never grows |
| LibTreeWalk.Walker.TryDir | libtree.c:152-169 | one directory's inner loop: the same over that directory |
| LibTreeWalk.Walker.TryName | libtree.c:155-169 | one name in one directory keeps the invariant and shrinks what is left |
| LibTreeWalk.Walker.TryPath | libtree.c:156-159 | a zero code means the candidate resolves, a non-zero one that it fails |
| LibTreeWalk.Walker.ReportMissing | libtree.c:686-691 | one not-found line per pending name; nothing else changes |
| LibTreeWalk.Walker.ParseLdConf | libtree.c:775-841 | the arena gains each directory of the file followed by `:`, with includes expanded in place and lines of at most one character dropped, as written; the code is 0 exactly when the file opens |
| LibTreeWalk.Walker.ParseConfLine | libtree.c:786-834 | one line appends its directories with colons, classified as written |
| LibTreeWalk.Walker.LdConfGlobbing | libtree.c:750-773 | the matched files' directories are appended in glob order; the code is 0 exactly when every match opens |
| LibTreeWalk.Walker.ParseMatch | libtree.c:768-769 | one match appends its directories and or-s its code in |
| LibTreeWalk.Walker.ParseLdLibraryPath | libtree.c:843-867 | with the variable set, its value with `;` turned into `:` and its NUL is appended and the offset is the old end; unset, the offset is `MAX_SIZE_T` |
| LibTreeWalk.Walker.TerminateArena | libtree.c:880-882 | after both copies only the last byte of the arena becomes NUL, and only when the arena is not empty |
| LibTreeWalk.Walker.BuildArena | libtree.c:871-882 | the arena is the one libtree.c builds: the ld.so.conf directories each followed by `:`, then the `LD_LIBRARY_PATH` copy, with the last byte made NUL; the variable's offset is right after the list |
| LibTreeWalk.Walker.PrintTree | libtree.c:869-889 | the arena has that as-written layout, the code is that of `recurse` on the input as a first visit, and on success the input's node is printed first |
| CppElf.FileNameSplit | src/elf.cpp:68-71 | the directory part and the file name make up the path, and the file name holds no `/` |
| CppElf.RemoveFilenameEndsInSlash | src/elf.cpp:68 | the directory part is empty or ends in `/`, and is non-empty when the path has a `/` |
| CppElf.CwdIsDirectory | src/elf.cpp:68 | `cwd` is an absolute directory with its trailing separator |
| CppElf.FileNameOfSlash | src/deps.cpp:112 | a bare name joined to a directory has that name as its file name |
| CppElf.FirstNull | src/elf.cpp:107-108 | the index of the first DT_NULL is within the section |
| CppElf.StringsAppend | src/elf.cpp:97-98 | the strings of a tag over two runs of entries are those of the first then the second |
| CppElf.PathsOfAppend | src/elf.cpp:99-104 | the same for the split and substituted path lists |
| CppElf.LastOrAppend | src/elf.cpp:105-106 | the last soname over two runs is the second run's last, else the first's |
| CppElf.ScannedAppend | src/elf.cpp:91-110 | scanning one run then another is scanning both |
| CppElf.ScannedOne | src/elf.cpp:97-106 | one entry other than DT_NULL is scanned by the `if` chain |
| CppElf.ScanEntriesIs | src/elf.cpp:91-110 | the entry loop appends the NEEDED strings in entry order, appends each RPATH and RUNPATH string split and substituted, lets the last SONAME win, and stops at the first DT_NULL |
| CppElf.ScanSectionsIs | src/elf.cpp:79-112 | over all dynamic sections the record is made of the live entries, section after section |
| CppElf.FromPathContents | src/elf.cpp:63-115 | the result is present exactly when the file loads and is 64-bit; it then carries the caller's type, the path, the needed strings in order, the split and substituted rpaths and runpaths, and the last soname or else the file name of the path; the earlier copy at src/main.cc:108-161 behaves the same |
| CppElf.StringsFrom | src/elf.cpp:97-106 | every string gathered comes from an entry |
| CppElf.LiveFrom | src/elf.cpp:79-112 | every live entry comes from a section |
| CppElf.NameKnown | src/elf.cpp:71-106 | the name of a loaded existing file is a file name of an existing path or a dynamic string |
| CppElf.FromPath | src/elf.cpp:63-115 | the section loop agrees with `FromPathSpec`; the earlier copy at src/main.cc:108-161 behaves the same |
| CppElf.ScanSection | src/elf.cpp:91-110 | the entry loop with its `break` agrees with the scan up to DT_NULL |
| CppElf.ApplyEntry | src/elf.cpp:97-109 | the `if` chain on the tag agrees with one scan step |
| CppElf.PushSubstituted | src/elf.cpp:100-104 | the split pieces are appended in order, each substituted |
| CppElf.SubstitutedSnoc | src/elf.cpp:100-104 | substituting one more piece appends its substitution |
| CppDeps.PathKey | include/bundler/deps.hpp:31 | the key `m_visited` compares by: no two consecutive `/`, never longer than the name, empty exactly when the name is, same first character |
| CppDeps.KeyOfCollapsed | include/bundler/deps.hpp:31 | a name with no run of `/` is its own key |
| CppDeps.PathKeyIdempotent | include/bundler/deps.hpp:31 | a key is its own key |
| CppDeps.PathKeyExamples | include/bundler/deps.hpp:31 | `x//y` and `x/y` are the same visited path; `x/` and `x`, and `x/./y` and `x/y`, are not |
| CppDeps.TryPathsFirstHit | src/deps.cpp:101-109 | nothing is found exactly when every `search` fails; otherwise the result is that of the first directory whose `search` succeeds; the earlier copy at src/main.cc:307-315 behaves the same |
| CppDeps.TryPathsAppend | src/deps.cpp:101-109 | trying two lists is trying the first and the second only when the first finds nothing |
| CppDeps.CandidateOrder | src/deps.cpp:50-63 | without a runpath a hit in the shared rpaths wins and a miss falls through to `LD_LIBRARY_PATH` then the search paths; with a runpath the shared rpaths are not used and the order is `LD_LIBRARY_PATH`, runpaths, search paths; the earlier copy at src/main.cc:261-274 behaves the same |
| CppDeps.SearchedName | src/deps.cpp:111-118 | a library found by a bare name is named by its last soname, or by the needed name itself |
| CppDeps.DirectHasNoFallback | src/deps.cpp:73-84 | a multi-component name whose path does not exist is not looked for anywhere else; the earlier copy at src/main.cc:284-294 behaves the same |
| CppDeps.LocatedKnown | src/deps.cpp:70-87 | whatever is located is named by a file name or a dynamic string of the file system |
| CppDeps.TriedKnown | src/deps.cpp:101-109 | the same for what `try_paths` finds |
| CppDeps.ExploreSpec | src/deps.cpp:30-99 | the ELF is shown first with its mark; one whose path is visited (by `fs::path` equality), or whose name is excluded (by string equality), changes no set, list or rpaths; any other has its path visited, is appended once in the next slot, and its rpaths are appended to the shared vector for good; the state only grows |
| CppDeps.ExploreNeeded | src/deps.cpp:65-98 | the needed loop only grows the state |
| CppDeps.EmptyNeededStep | src/deps.cpp:66-68 | an empty needed name is skipped: the loop goes on to the next name from the same state |
| CppDeps.EmptyNeededSkipped | src/deps.cpp:66-68 | when all remaining needed names are empty the loop changes nothing |
| CppDeps.ExploreAll | src/deps.cpp:16-24 | the constructor's loop only grows the state |
| CppDeps.EnteredDeduplicated | src/deps.cpp:42-44 | caching a new, not excluded path keeps the visited set equal to the paths of the names kept, no two the same path and none excluded |
| CppDeps.ExploreDeduplicates | src/deps.cpp:33-44 | `explore` keeps that invariant; the earlier copy at src/main.cc:244-255 behaves the same |
| CppDeps.NeededDeduplicates | src/deps.cpp:65-98 | the needed loop keeps it |
| CppDeps.ExploreAllDeduplicates | src/deps.cpp:21-23 | exploring the top-level ELFs in turn keeps it |
| CppDeps.TopLevelVisited | src/deps.cpp:21-23 | the path of every top-level ELF that is not excluded ends up visited |
| CppDeps.WalkDeduplicates | src/deps.cpp:16-44 | after the constructor no two kept ELFs name the same path (so none share a name) and none is excluded |
| CppDeps.Deps.constructor | src/deps.cpp:16-24 | the state after the constructor is that of exploring the inputs in order from the empty state; the earlier copy at src/main.cc:228-233 behaves the same |
| CppDeps.Deps.Explore | src/deps.cpp:30-99 | the method agrees with `ExploreSpec`; the earlier copy at src/main.cc:241-305 behaves the same |
| CppDeps.Deps.ExploreNeededLoop | src/deps.cpp:65-98 | the loop agrees with `ExploreNeeded` |
| CppDeps.Deps.VisitNeeded | src/deps.cpp:65-97 | one iteration: skip an empty name, explore what is located, report the rest |
| CppDeps.Deps.LocateNeeded | src/deps.cpp:70-87 | the lambda agrees with `Locate` |
| CppDeps.Deps.TryPaths | src/deps.cpp:101-109 | the loop agrees with `TryPathsSpec`; the earlier copy at src/main.cc:307-315 behaves the same |
| CppDeps.Deps.Search | src/deps.cpp:111-118 | nothing unless the joined path exists, else `from_path` on it; the earlier copy at src/main.cc:317-324 behaves the same |

## Left out

- File reading in libtree.c is modelled as byte sequences. `fopen` succeeds for the paths
  in the map; `fread`/`getc` past the end fail or return EOF; `fseek` fails beyond a
  signed 64-bit offset.
- The `fstat` call (libtree.c:323-327) and its code 54: the identity comes from the file
  system map, and `fstat` on an open file is taken to succeed.
- Tree rendering and colour are not modelled: `tree_preamble`, `found_all_needed`, the
  indentation, the `[rpath]`-style suffixes, and the "paths considered" report
  (libtree.c:111-126, 344-373, 453-484, 560-592, 693-741). The walk records which line is
  printed, not how.
- The printing in the C++ `explore` is recorded as events (`Shown`, `NotFound`). The
  search-path dump after a not-found name (src/deps.cpp:93-96) is not modelled.
- `glob` (libtree.c:753) and `cppglob::glob` (src/ld.cpp:46) are functions given as
  parameters. The GLOB_NOSPACE and GLOB_ABORTED error codes are not modelled; no match
  is an empty list.
- `getenv("LD_LIBRARY_PATH")` is a parameter. `std::ifstream` and `getline` are a map
  from file to lines; a file that does not open has no lines.
- `fs::canonical`, `fs::absolute` and ELFIO's `elf.load`/`dynamic_section_accessor` are
  oracles. The dynamic entries of each section are an input list. Exceptions thrown by
  `std::filesystem` are not modelled.
- The fixed capacities of libtree.c appear as preconditions on the file system
  (`FsWithinLimits`, through `ElfDecode.WithinLimits`): at most 31 loads and 32 needed
  names, and a string table that lies in some `PT_LOAD` segment (`Mappable`).
  - The last condition leaves out every file whose `DT_STRTAB` lies in no `PT_LOAD`
    segment. That includes files with a dynamic section and no `PT_LOAD` at all. On such
    files the loop at libtree.c:428-433 reads past the end of `addrs`.
  - The limits on `visited_files[128]`, `rpath_offsets[16]`, `path[4096]`, `origin[4096]`
    and the 16 KiB `buf` are not modelled. Overflowing them is undefined behaviour in the
    source.
- `std::regex_replace` treats `$&` and `$n` in the replacement specially. The model
  replaces literally, and its lemmas assume that `cwd` holds no `$`.
- Include cycles in ld.so.conf recurse forever in both generations. The model requires a
  rank on files that every include decreases (`Acyclic`, `CAcyclic`).
- `is_lib` and `deps::locate*` (include/libtree/deps.hpp) are declared without bodies and
  are not modelled.
- Also not modelled:
  - the root main.cc, which runs `readelf`;
  - src/main.cpp;
  - the `main` of src/main.cc;
  - src/deploy.cpp, src/exec.cpp and src/glob.cpp;
  - the `main` of libtree.c.
- `deps`'s constructor-local `rpaths` vector, passed by reference to every `explore`, is
  a field of the class.
- LibTreeWalk.Walker.RunStages: runs the default stage only when names are pending. The
  source calls `check_search_paths` on the default paths unconditionally
  (libtree.c:679-681). With nothing pending that call tries no name and changes nothing.
- LibTreeWalk.Walker.VisitDirect: states the lines printed for a relative name and for a
  failed absolute one. A successful absolute one adds the child's own lines, which the
  contract bounds only through `Kept`.
- LibTreeWalk.Walker.Recurse: the lines printed below a file are not stated. Only the
  node line is stated, plus the invariants that bound the rest.
- LibTreeWalk.Walker.CopyStrings: the rpath and runpath contents are stated with the
  corrected `$ORIGIN` and only when it holds no NUL. See Findings.

## Findings

| source | as written | input that shows it | evidently intended | confidence | as-written member | corrected member |
|---|---|---|---|---|---|---|
| libtree.c:494-496 | `origin[bytes + 1] = '\0'` leaves `origin[bytes]` unset, so `$ORIGIN` ends in a stale byte of the stack buffer | `/usr/lib/libz.so` with a stale `x` after the copy: `$ORIGIN` reads `/usr/lib/x` | `$ORIGIN` is the prefix up to and including the last `/` (comment at libtree.c:493) | high; not executed | LibTreeSpec.OriginKeepsStaleByte | LibTreeSpec.Origin |
| libtree.c:880-882 | only the last byte of the arena becomes NUL; with `LD_LIBRARY_PATH` set that byte is already the variable's NUL, so the ld.so.conf list keeps its last `:` and runs on into the `LD_LIBRARY_PATH` copy when the ld.so.conf stage reads it at libtree.c:676 | ld.so.conf listing `/a`, `LD_LIBRARY_PATH=/b`: the ld.so.conf stage searches `/a:/b` | the ld.so.conf list is terminated on its own | high; not executed | LibTreeSpec.ConfStringRunsOn | LibTreeSpec.ConfStringIsJoin |
| libtree.c:881-882 | with an empty ld.so.conf list and no `LD_LIBRARY_PATH`, nothing is written. The ld.so.conf stage (libtree.c:676) runs only after `recurse` has copied the root's strings in from offset 0, so it searches the root's first copied string (its soname, rpath, runpath or first needed name) as a `:`-list of directories | no ld.so.conf directory, variable unset, root with soname `libz.so.1`: the ld.so.conf stage searches the directory `libz.so.1` | an empty ld.so.conf list is the empty string | medium; not executed | LibTreeSpec.EmptyArenaAsWritten | LibTreeSpec.EmptyConfString |
| libtree.c:801-807 | the right-trim loop leaves `end` on the last non-space character, so a line with one character of content has `begin == end` and is skipped as empty | an ld.so.conf line `/` | skip only lines with no content | high; not executed | LdConf.RootLineDropped | LdConf.Classify |

