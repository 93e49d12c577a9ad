# Profile grabber, modelled in Dafny

The profile grabber backs up application profile folders from a list of
drives. For each spreadsheet row whose `drive_path` is usable, `main` calls
`copy_profiles_folder(source, destination)`. That function walks the drive
with `os.walk` and looks for directories that have a path piece named
`profiles`. It skips roots, sub-directories and files that carry an
exclusion keyword (`not_used`, `not used`, `old`). For each kept root it
creates `destination\<app>_profile`, where `<app>` is the base name of the
root's parent. Into that folder it copies:

- the `FraMES.Client.Shell.exe.config` file from the parent folder;
- the kept sub-directories;
- the kept files.

Before each step it looks at a `TimeoutFlag` that a timer thread sets, and
once the flag is set it stops. Each directory or file copy appends the
drive path to a marker file.

The model has six modules:

- `Text` (text.dfy) holds what the code uses of Python strings and lists:
  `lower`, `in` on strings, `split` and filtering comprehensions.
- `Paths` (paths.dfy) holds the Windows `os.path` operations: `join`,
  `dirname` and `basename`, with the drive and share prefixes that
  `splitdrive` recognises (`X:` and `\\host\share`).
- `Timeout` (timeout.dfy) holds the `TimeoutFlag` class.
- `Selection` (selection.dfy) says which roots, directories and files are
  copied, and where the copies go.
- `Walker` (walker.dfy) holds the walk itself. `CopyProfilesFolder` is an
  imperative method with the source's loops. It creates the flag, polls it
  and collects the copy actions. The walk is an input sequence of
  `(root, dirs, files)` entries. `os.listdir` is an input function.
  The timer is an oracle `fires`: just before the p-th look at the flag,
  the timer callback `check_timeout` has run when `fires(p)` holds.
- `WalkProperties` (walk_properties.dfy) proves facts about whole runs.
  `Plan` is what a run with no timeout does. `Performed` is what a run with
  the timer does.
- `Rows` (rows.dfy) holds the `drive_path` check in `main`.

The method is proved against a specification built from a flat list of
steps. Each look at the flag is a `Poll` step, and each action is an `Act`
step. A run takes the steps in order and stops at the first poll that finds
the flag set. The method's postcondition says three things:

- its actions are exactly those of `Performed`;
- the marker file gets one line, the drive path, per directory or file copy;
- each of the two flags, and the final "nothing found" report, says
  whether a copy of its kind happened.

Behaviour of the code worth knowing, proved as lemmas:

- Exclusion keywords match anywhere, even inside words (`OldInsideWords`).
  For example, `folder` and `Golden` are excluded.
- The `profiles` piece is matched case-sensitively (`ProfilesCaseSensitive`).
- The walk also enters the sub-directories of a profiles directory. These
  qualify as well, and their copies go to `profiles_profile`
  (`DescendantQualifies`).
- A profiles folder right at the root of a drive or share, such as
  `C:\profiles` or `\\host\share\profiles`, has an empty parent name, so its
  copies go to a folder named `_profile` (`RootProfilesFolder`).
- Every copy goes into a folder that the walk created before it
  (`FolderBeforeCopies`).
- The marker file records the drive path, not the walk root. It records it
  once per copy, so it may hold duplicates.

## Model

| member | source | states |
|---|---|---|
| Text.Lower | profileGrabber.py:56 | `lower()` keeps the length and maps each character to its lower case (ASCII letters fold, everything else is unchanged) |
| Text.ContainsIff | profileGrabber.py:56 | `keyword in s` holds exactly when `keyword` occurs at some offset of `s` |
| Text.Split | profileGrabber.py:55 | `root.split(os.sep)` gives at least one piece, and no piece contains the separator |
| Text.SplitPieceAt | profileGrabber.py:55 | every piece of `root.split(os.sep)` occurs in the root as a whole piece, with a separator or an end of the root on each side |
| Text.PieceIn | profileGrabber.py:55 | a separator-free name is among the pieces of `root.split(os.sep)` exactly when it occurs in the root as a whole piece |
| Text.JoinSplit | profileGrabber.py:55 | joining the pieces of a split with the separator gives back the path |
| Text.SplitJoin | profileGrabber.py:55 | splitting a join of separator-free pieces gives back the pieces |
| Text.Filter | profileGrabber.py:61-62 | a list comprehension with a condition keeps exactly the elements that satisfy it, with their multiplicities and in their order |
| Paths.DriveLength | profileGrabber.py:68-69 | a non-empty drive that `os.path` splits off is `X:` or starts a UNC path, and after it comes a separator, unless it ends in a colon or is the whole path |
| Paths.DriveLengthIff | profileGrabber.py:68-69 | the drive is pinned for every path: `X:` when the second character is a colon and there is no UNC start; for a UNC start, a drive exists exactly when a non-empty separator-free host is followed by a single separator, and it is `\\`, the host, that separator and a separator-free share reaching to the next separator or the end; otherwise the drive is empty |
| Paths.Basename | profileGrabber.py:68 | `basename` has no separator and ends the path |
| Paths.Dirname | profileGrabber.py:68 | `dirname` is a prefix of the path that keeps at least the drive |
| Paths.Join | profileGrabber.py:69 | `os.path.join(a, b)` ends with `b`, is non-empty when `a` is, and starts with `a` unless `b` starts with a separator |
| Paths.DirnameBasename | profileGrabber.py:68 | `basename` is what follows the last separator after the drive; `dirname` is what precedes it with only trailing separators dropped, and ends in something other than a separator unless everything after the drive is separators, in which case nothing is dropped |
| Paths.JoinThenSplit | profileGrabber.py:68-69 | for a folder inside a drive or share, `join` adds one separator, and `dirname` and `basename` undo it |
| Paths.DriveRootFolder | profileGrabber.py:68 | the directory name of `X:\name` is the root `X:\`, whose base name is empty |
| Paths.ShareRootFolder | profileGrabber.py:68 | the directory name of `\\host\share\name` is the root `\\host\share\`, whose base name is empty |
| Paths.BasenameIsLastPiece | profileGrabber.py:55 | on backslash paths whose drive is followed by a separator, `basename` is the last piece of `split(os.sep)` |
| Paths.JoinAddsPiece | profileGrabber.py:69 | `os.path.join` onto a path ending in an ordinary character adds the joined name as one more piece of `split(os.sep)` |
| Selection.Excluded | profileGrabber.py:56 | a root is excluded exactly when one of `not_used`, `not used`, `old` occurs at some offset of its lower-cased text |
| Selection.Qualifies | profileGrabber.py:55 | a root qualifies exactly when `profiles` occurs in it as a whole piece between backslashes or the ends and `test_profile` does not, both compared case-sensitively |
| Selection.FilteredDirs | profileGrabber.py:61 | `filtered_dirs` is an order-preserving subsequence of `dirs` holding exactly the names without an exclusion keyword, each as often as `dirs` holds it |
| Selection.FilteredFiles | profileGrabber.py:62 | `filtered_files` is an order-preserving subsequence of `files` holding exactly the names that are not `test_profile.xml` in any case and have no exclusion keyword, each as often as `files` holds it |
| Selection.Selected | profileGrabber.py:55-66 | for a non-empty root, the `any(os.path.join(...))` test holds exactly when `filtered_dirs` is non-empty, so an entry is kept exactly when it qualifies, is not excluded, and keeps a directory or a file |
| Selection.ProfileFolderName | profileGrabber.py:68 | the profile folder's name is one path piece ending in `_profile` |
| Selection.ProfilesDestinationInside | profileGrabber.py:69 | for a destination folder inside a drive or share, `profiles_destination` is a sub-folder of it named after the profile folder |
| Selection.RootProfilesFolder | profileGrabber.py:68 | a profiles folder right at a drive root or a share root copies to `_profile` |
| Selection.ConfigFiles | profileGrabber.py:76 | `config_files` holds only the exact configuration file name; it is non-empty exactly when the listing holds that name, and holds it as often as the listing does |
| Selection.ConfigFilesMember | profileGrabber.py:76 | a name is in `config_files` exactly when it is the configuration file name and the parent listing holds it |
| Selection.ExcludedWithin | profileGrabber.py:56 | a keyword anywhere in a part of a path excludes the whole path |
| Selection.OldInsideWords | profileGrabber.py:56 | `old` in any case, with any text around it, excludes a name |
| Selection.ProfilesFolderOfApp | profileGrabber.py:55-69 | `drive\app\profiles` qualifies exactly when no piece is `test_profile`, and its copies go to `app_profile`, for a drive part that ends in an ordinary character and holds a whole share if it is a UNC path |
| Selection.ProfilesCaseSensitive | profileGrabber.py:55 | `drive\app\Profiles` does not qualify when no other piece is exactly `profiles` |
| Selection.DescendantQualifies | profileGrabber.py:55-69 | a sub-directory of a qualifying root inside a drive or share qualifies too, and its copies go to a folder named after that root |
| Timeout.TimeoutFlag.constructor | profileGrabber.py:19-26 | a new flag is clear: `is_set` reports false |
| Timeout.TimeoutFlag.Set | profileGrabber.py:22-26 | after `set`, `is_set` reports true, whatever the flag was before |
| Walker.CheckTimeout | profileGrabber.py:40-42 | after the timer callback the flag is set |
| Walker.Performed | profileGrabber.py:51-53 | a run with a timer takes a prefix of the actions of a run without a timeout |
| Walker.ActionsPrefix | profileGrabber.py:51-53 | stopping early takes a prefix of the actions |
| Walker.CopyProfilesFolder | profileGrabber.py:50-125 | the actions taken are exactly `Performed`; the marker gets the drive path once per directory or file copy; each flag is true exactly when a copy of its kind was taken; "nothing found" is reported exactly when no copy was taken |
| Walker.VisitEntry | profileGrabber.py:55-122 | handling one walk entry takes exactly the steps of that entry, up to the first poll that finds the flag set |
| Walker.CopyEach | profileGrabber.py:78-122 | one copy loop polls before each copy and stops at a set flag; config copies set `config_files_copied`; directory and file copies set `profiles_found` and add a marker line |
| Walker.HaltAt | profileGrabber.py:51-53 | the walk stops exactly at the first poll that finds the flag set, or at the end when there is none |
| Walker.Finish | profileGrabber.py:124-125 | at the end of the walk its progress holds the actions up to the stop, and the flags and the report match the kinds of copies among them |
| Walker.CopyCounts | profileGrabber.py:124-125 | the count of copies of a kind is positive exactly when a copy of that kind is among the actions |
| WalkProperties.CopyStepsActions | profileGrabber.py:78-87 | a copy loop's actions are the copies of its names, from its source folder to its destination folder |
| WalkProperties.EntryBodyActions | profileGrabber.py:68-122 | a selected entry creates its destination folder, then copies its config files, its kept directories and its kept files, in that order |
| WalkProperties.EntryActions | profileGrabber.py:55-122 | an entry takes an action exactly when the entry is selected and the action is its folder creation or a copy of a config file, kept directory or kept file into that folder |
| WalkProperties.EntrySkipped | profileGrabber.py:55-66 | an entry takes no action at all, not even a config copy, exactly when its root does not qualify, is excluded, or keeps neither directories nor files |
| WalkProperties.PlanCons | profileGrabber.py:50 | the actions of a walk are those of its first entry, followed by those of the rest |
| WalkProperties.PlanExplained | profileGrabber.py:50-122 | without a timeout, an action is taken exactly when some walk entry accounts for it |
| WalkProperties.PerformedExplained | profileGrabber.py:50-122 | every action a run takes is accounted for by some walk entry |
| WalkProperties.PerformedCopiesKept | profileGrabber.py:55-116 | a run copies config files only under their exact name, and copies directories and files only without a keyword; it never copies `test_profile.xml`; every copy goes to the folder of a qualifying, non-excluded root |
| WalkProperties.FolderBeforeCopies | profileGrabber.py:68-116 | with or without a timeout, every copy goes into a folder that an earlier action created |
| WalkProperties.HaltFromQuiet | profileGrabber.py:51-53 | if the timer does not fire before any poll, every step is taken |
| WalkProperties.NoTimeoutPerformsPlan | profileGrabber.py:50-122 | a run whose timer does not fire during its polls takes every action of the walk |
| WalkProperties.HaltFromEarlier | profileGrabber.py:51-53 | a timer that fires whenever another does stops the walk no later |
| WalkProperties.EarlierTimeoutDoesLess | profileGrabber.py:51-53 | the actions under an earlier timeout are a prefix of those under a later one |
| WalkProperties.ImmediateTimeout | profileGrabber.py:51-53 | a timer that fires before the first look at the flag means nothing is done |
| Rows.SkipRow | profileGrabber.py:151 | a row is skipped exactly when its `drive_path` is empty or is `nan` in one of its eight case spellings |
| Rows.SkipRowKeepsPaths | profileGrabber.py:151 | a non-empty path that is not three characters long, or that starts like a UNC or drive-letter path, is not skipped |

## Left out

- Filesystem I/O is not performed. `os.walk` and `os.listdir` are inputs.
  `os.makedirs` (with its `os.path.exists` test), `shutil.copy` and
  `shutil.copytree` are emitted as action records.
- The timer thread is not modelled. That covers the timer's creation,
  cancellation, restart after each copy, and the `finally` cancel. The
  model keeps only their effect: an oracle that may run `check_timeout`
  before any look at the flag. A restart only changes when that happens,
  and every such pattern is an oracle.
- Concurrency is coarse. The callback is taken to run only between the
  walk's steps, never during a copy.
- `TimeoutException` and `raise_timeout_exception` are left out. Nothing
  raises the exception, so its handlers are dead code.
- The logging setup and the log messages are left out.
- The marker-file write is an append-only list of lines.
- Reading the spreadsheet with pandas is left out, as is the `str()` call
  that could raise `ValueError`.
- The rest of the `main` loop is left out. That covers the per-drive
  destination join, its `makedirs` and the call to `copy_profiles_folder`.
  The model keeps only the row check.
- Text.Lower: folds ASCII letters only. Python folds all of Unicode. The
  two agree on every literal the code compares against.
- Filesystem failures are not modelled: every `os.makedirs`, `os.listdir`,
  `shutil.copy` and `shutil.copytree` call is taken to succeed. In the code
  such an exception is not caught inside `copy_profiles_folder`, which
  catches only `TimeoutException`. It reaches the outer handler of `main`,
  so one failing call ends the walk and every remaining spreadsheet row.
- Paths.DriveLength: follows the drive rules of `ntpath.splitdrive` as of
  Python 3.8 (`X:` and `\\host\share`). The `\\?\` and `\\.\`
  device prefixes, and the wider UNC forms that later versions accept, are
  not modelled.
- Paths.Join: covers a second argument without a drive of its own. A name
  whose second character is a colon would carry a drive, and `ntpath.join`
  would then drop the first argument; Windows names cannot contain a colon.
- Walker.CopyEach: the three inner loops are one method with the kind of
  copy as a parameter. Only directory and file copies add a marker line and
  set `profiles_found`; only config copies set `config_files_copied`.
