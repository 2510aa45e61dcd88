# SynoPhotoSorter in Dafny

`photo_sorter.py` is a batch script that sorts a Synology photo backup by capture date. It walks the
source folder top-down and never enters a directory named `@eaDir`. For every file it does three things:

1. It takes the extension: the lower-cased text after the last dot of the name.
2. If that extension is a camera-raw or ordinary image/video format, it finds the capture date. It uses
   the EXIF `DateTimeOriginal` tag, read with `strptime('%Y:%m:%d %H:%M:%S')`. If that tag is absent or
   unreadable, it falls back to the file's modification time.
3. If there is a date, it moves the file into a day folder:
   - raw files go to `RAW_BASE/YYYY/MM/DD`;
   - all other media go to `REGULAR_BASE/YYYY/YYYY-MM/YYYY-MM-DD`.

   A name that is already taken in the folder becomes `base_1.ext`, `base_2.ext`, … whichever comes
   first and is free.

This project models that script and proves its policy.

The filesystem is the set of paths that `os.path.exists` reports. In the imperative part it is the field
`paths` of the class `Mover.FileSystem`, and `move_file` and `main` update it in place. The EXIF reader and
the modification-time lookup become inputs: an optional tag text and an optional date for each path.

The modules follow the script:

| module | models |
|---|---|
| `Text` | `str.lower`, `str.split`, `str.rfind`, `str(int)` and the zero padding of `strftime` |
| `Paths` | `os.path.join`, `basename` and `splitext` |
| `Extensions` | the allow-sets and the extension rule |
| `DateTaken` | `get_date_taken`, with a model of CPython's `_strptime` for this one format |
| `Destination` | the folder computation |
| `Mover` | `move_file`, as a class over the set of existing paths, with its conflict loop |
| `Walker` | `os.walk` with in-place pruning, and the `main` loop as a worklist method |

## Model

| member | source | states |
|---|---|---|
| Text.Lower | photo_sorter.py:97 | `lower()` keeps the length and leaves no upper-case letter; each upper-case letter becomes the lower-case letter at the same place in the alphabet, and every other character stays as it is |
| Text.LowerIdempotent | photo_sorter.py:97 | lower-casing twice gives what lower-casing once gives |
| Text.LowerAppend | photo_sorter.py:97 | lower-casing a concatenation lower-cases each part on its own |
| Text.Split | photo_sorter.py:97 | `split('.')` yields at least one piece and no piece contains the separator |
| Text.JoinSplit | photo_sorter.py:97 | joining the pieces of `split(c)` with `c` gives the string back, so splitting loses nothing |
| Text.LastPieceOfSplit | photo_sorter.py:97 | `split(c)[-1]` is the text after the last `c`, or the whole string when there is no `c` |
| Text.Fixed | photo_sorter.py:107-115 | the zero-padded field of `strftime` has exactly the width asked for, holds only digits, and reads back as the number when the number fits |
| Text.NatToString | photo_sorter.py:77 | `str(counter)` is a non-empty run of digits without a leading zero whose decimal value is the counter |
| Extensions.Extension | photo_sorter.py:97 | the extension has no dot; it is the lower-cased name after its last dot; a name without a dot gives the whole lower-cased name |
| Extensions.IsMedia | photo_sorter.py:100 | an extension that is handled is non-empty, has no dot and is already lower-case |
| Extensions.ExtensionSetsDisjoint | photo_sorter.py:23-24 | no extension is both raw and regular |
| Extensions.ExtensionOfLower | photo_sorter.py:97 | lower-casing the name first does not change its extension |
| Extensions.ExtensionOfSuffix | photo_sorter.py:97 | a name ending in a dot and a dot-free text has that text, lower-cased, as its extension |
| Extensions.ExtensionIgnoresCase | photo_sorter.py:97-100 | `IMG_0001.JPG` has extension `jpg`, which is handled |
| Extensions.ExtensionAfterLastDot | photo_sorter.py:97-100 | `archive.tar.gz` has extension `gz`, which is not handled |
| Extensions.ExtensionOfDotName | photo_sorter.py:97-100 | a name such as `.jpg` is classified by the text after its dot |
| Paths.Basename | photo_sorter.py:71 | `basename(p)` contains no `/` and is a suffix of `p`; when it is shorter than `p`, the character right before it is a `/`, so it is everything after the last `/` |
| Paths.SplitExt | photo_sorter.py:74 | `splitext` splits the name into two parts that concatenate back to it; the extension is empty or a dot followed by no dot or `/`; a non-empty extension has a character other than a dot before it in the last component; an empty extension means every dot in the last component has only dots before it there |
| Paths.Join | photo_sorter.py:71 | an absolute name replaces the directory; otherwise the result is at least as long as both parts together and at most one character longer |
| Paths.JoinParts | photo_sorter.py:71 | joining a relative name keeps the directory in front and the name at the end, with a `/` right before the name when the directory is not empty, and adds no character when the directory is empty or ends in `/` |
| Paths.BasenameOfJoin | photo_sorter.py:71 | the basename of `join(dir, name)` is `name` for a plain file name |
| Paths.JoinPlain | photo_sorter.py:107-115 | joining onto a directory without a trailing `/` inserts exactly one `/` |
| DateTaken.ParseExifDateTime | photo_sorter.py:51 | a text that `strptime` reads starts with the year in four digits followed by a colon |
| DateTaken.ResolveDate | photo_sorter.py:46-60 | the result is None exactly when there is no parseable EXIF date and no modification time; a parseable EXIF date is the result; without one, the modification time is the result |
| DateTaken.ExifTakesPrecedence | photo_sorter.py:46-51 | a parseable EXIF date is the result whatever the modification time is |
| DateTaken.MtimeIsFallback | photo_sorter.py:52-57 | without a parseable EXIF date the modification time is the result |
| DateTaken.MissingFileHasNoDate | test_photo_sorter.py:12-15 | a file with neither EXIF data nor a modification time has no date |
| DateTaken.ZeroDateFallsBackToMtime | photo_sorter.py:46-57 | the all-zero EXIF value gives way to the modification time |
| DateTaken.CameraDateWins | photo_sorter.py:46-51 | a valid date written by a camera in the canonical form is the result, whatever the modification time |
| DateTaken.ParseOfFormat | photo_sorter.py:51 | `strptime` reads the canonical text of a date whose fields fit their directives and accepts it exactly when the values form a valid `datetime`, giving that same date |
| DateTaken.ParseFormatRoundTrip | photo_sorter.py:51 | every valid date written in the canonical form is read back unchanged |
| DateTaken.LeapSecondIsRejected | photo_sorter.py:51 | seconds 60 and 61 pass the `%S` pattern, but the text is rejected |
| DateTaken.FebruaryTwentyNinth | photo_sorter.py:51 | 29 February is read exactly in leap years |
| DateTaken.ShortMonthIsRead | photo_sorter.py:51 | `%m` also reads a single-digit month |
| DateTaken.SpacePaddedDayIsRead | photo_sorter.py:51 | `%d` also reads a day padded with a space |
| DateTaken.ZeroMonthIsRejected | photo_sorter.py:51 | month `00` makes the text unparseable, whatever surrounds it |
| DateTaken.ZeroDateIsRejected | photo_sorter.py:51 | `0000:00:00 00:00:00` is not a date |
| DateTaken.TwoDigitPrefix | photo_sorter.py:51 | a two-digit field followed by a non-digit is read as exactly those two digits, with its value |
| DateTaken.ReadYearOfFixed | photo_sorter.py:51 | `%Y` reads four digits back as the year |
| DateTaken.ReadCharOf | photo_sorter.py:51 | a literal `:` of the format consumes one `:` |
| DateTaken.ReadSpacesOfOne | photo_sorter.py:51 | the space of the format consumes one space before a digit |
| DateTaken.ReadMonthOfFixed | photo_sorter.py:51 | `%m` reads a two-digit month from 1 to 12 |
| DateTaken.ReadDayOfFixed | photo_sorter.py:51 | `%d` reads a two-digit day from 1 to 31 |
| DateTaken.ReadHourOfFixed | photo_sorter.py:51 | `%H` reads a two-digit hour below 24 |
| DateTaken.ReadMinuteOfFixed | photo_sorter.py:51 | `%M` reads a two-digit minute below 60 |
| DateTaken.ReadSecondOfFixed | photo_sorter.py:51 | `%S` reads two digits up to 61, leaving nothing behind |
| Destination.DestinationFolder | photo_sorter.py:106-115 | the day folder lies under the raw base for a raw extension and under the regular base otherwise, and ends with the two-digit day |
| Destination.JoinedUnder | photo_sorter.py:107-115 | joining three relative components onto a base keeps the base in front and ends with the last two characters of the last component |
| Destination.RawFolderShape | photo_sorter.py:106-110 | a raw file's folder is `RAW_BASE/Y/M/D`, with a four-digit year and a two-digit month and day holding the date's values |
| Destination.RegularFolderShape | photo_sorter.py:111-115 | any other media file's folder is `REGULAR_BASE/Y/Y-M/Y-M-D`, with the same fields |
| Destination.FolderIsTheDay | photo_sorter.py:106-115 | two files of the same class share a folder exactly when their dates share year, month and day |
| Mover.Candidate | photo_sorter.py:77-78 | for a base without `/`, the candidate starts with the folder and ends with `_`, the counter and the extension |
| Mover.NameOfCandidate | photo_sorter.py:77-78 | the file name of the candidate is `base_counter.ext` |
| Mover.CandidateInjective | photo_sorter.py:77-78 | different counters give different candidate paths |
| Mover.RemainingShrinks | photo_sorter.py:76-82 | each taken candidate uses up one more existing path, so the conflict loop ends |
| Mover.FirstFreeFrom | photo_sorter.py:75-82 | the counter found is the first one, from the start value on, whose candidate path does not exist |
| Mover.ChosenPath | photo_sorter.py:71-82 | the chosen path does not exist; it is `dest/name` when that is free, and otherwise `dest/base_k.ext` for the smallest `k >= 1` whose path is free |
| Mover.ThirdCopyGetsCounterTwo | photo_sorter.py:73-82 | with the name and counter 1 taken and counter 2 free, the file gets counter 2 |
| Mover.FileSystem.MakeDirs | photo_sorter.py:70 | afterwards the folder exists and nothing else changes |
| Mover.FileSystem.FreeDestination | photo_sorter.py:71-82 | the `while True` loop with its counter returns the chosen path |
| Mover.FileSystem.MoveFile | photo_sorter.py:62-85 | the file goes to the chosen path in the created folder; the folder and that path are added, the source is removed, and nothing else changes |
| Walker.Prune | photo_sorter.py:94 | the kept subdirectories are the listed ones that are not excluded, and every listed one that is not excluded is kept |
| Walker.Walk | photo_sorter.py:92 | the walk reports the directory itself first, with its own path, names and files |
| Walker.WalkReportsEachDirectoryOnce | photo_sorter.py:92-94 | when sibling directories have distinct names, two reported entries with the same names from the top are the same entry |
| Walker.WalkVisitsOnlyKeptDirectories | photo_sorter.py:92-94 | every directory the walk reports exists in the tree, is reached without passing an excluded name, and is reported with its own files and the source folder joined with those names |
| Walker.WalkVisitsEveryKeptDirectory | photo_sorter.py:92-94 | every directory reached without passing an excluded name is reported, with its files |
| Walker.VisitsAreEntryFiles | photo_sorter.py:96-98 | the files handled are exactly the files of the reported directories, each joined to its directory's path |
| Walker.Step | photo_sorter.py:97-119 | a file is logged as having an unknown extension exactly when its extension is not handled, and as having no date exactly when it is handled but has no date; otherwise it is moved; a file that is not moved leaves the filesystem unchanged |
| Walker.StepMovesWithoutOverwrite | photo_sorter.py:106-117 | a moved file goes to the path that the conflict rule chooses in its day folder once that folder exists; that path did not exist, and it is the file's own name exactly when that name is free there; the folder and that path are added and the source removed |
| Walker.Handle | photo_sorter.py:96-119 | each file handled adds exactly one entry to the log |
| Walker.Run | photo_sorter.py:96-119 | the run logs exactly one entry per file |
| Walker.RunLogsEachFile | photo_sorter.py:96-119 | the i-th log entry is the step taken on the i-th file, in the state the earlier files left |
| Walker.RunClassifies | photo_sorter.py:100-104 | each file's outcome is the one its extension and date decide |
| Walker.RunNeverOverwrites | photo_sorter.py:73-84 | a moved file never lands on a path that existed when it was moved, and it is present afterwards |
| Walker.RunKeepsSkippedFile | photo_sorter.py:100-104 | a file that is not moved is still at its path after the run, when no other file has the same path |
| Walker.RunKeepsOtherPaths | photo_sorter.py:84 | a path that is not one of the handled files still exists after the run |
| Walker.HandleFile | photo_sorter.py:97-119 | the body of the file loop changes the filesystem and logs as the step does |
| Walker.HandleFiles | photo_sorter.py:96-119 | the file loop of one directory performs the steps for its files in order |
| Walker.SortPhotos | photo_sorter.py:92-119 | `main` leaves the filesystem and the log that the steps produce for the files of the pruned walk, in walk order |

## Left out

- The EXIF reader (`exifread.process_file`) is foreign code. Each path's `DateTimeOriginal` text is an
  input. It is None when the file cannot be opened, the library raises, or the tag is absent.
- `os.path.getmtime` and `datetime.fromtimestamp` are replaced by an optional date per path. The model
  drops the float seconds, the local time zone and the microseconds.
- Destination.YearText writes the year with four digits. On glibc, `strftime('%Y')` prints years below
  1000 without zero padding, which the model leaves out.
- Text.Lower lower-cases ASCII letters only. Python's `str.lower` covers all of Unicode.
- Digits are ASCII only. Python's `\d` and `int()` also accept other Unicode decimal digits.
- `os.makedirs` adds only the folder itself to the set of paths, not its missing parents.
- Files and directories are one set of names. Symbolic links are left out.
- `shutil.move` always succeeds here: copy-and-delete across devices, permission errors and a full disk
  are left out. In the script such an error ends the run.
- `os.walk` is modelled on a snapshot of the source tree, taken before any file moves. Changes the run
  makes inside the source tree are not seen by the walk. Neither are walk errors, which the script ignores.
- Log messages are modelled as the list of outcomes: unknown extension, no date, or moved with its
  destination. The warnings that `get_date_taken` logs, the log file and its format are left out.
- Walker.WalkReportsEachDirectoryOnce: assumes sibling directories have distinct names, which a real directory listing guarantees.
- The import guard that exits when `exifread` is missing is left out.
- The home-directory paths are parameters: `Destination.Config` holds the two bases, and `SortPhotos`
  takes the source folder.
- `test_photo_sorter.py` imports a `MEDIA_EXTS` that `photo_sorter.py` does not define. Only its
  missing-file test is modelled, as `DateTaken.MissingFileHasNoDate`.
