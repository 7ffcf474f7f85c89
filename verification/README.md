# Native library locator — a Dafny model

The MongoDB .NET driver loads native libraries (compression codecs and
similar) from a path that a *library locator* works out at run time.
`RelativeLibraryLocatorBase` is the shared base class of those locators.
Each concrete locator says where its library lives relative to the driver's
assembly directory on a given platform (`GetLibraryRelativePath`). The base
class turns that relative path into an absolute one:

1. It takes the library's file name, the last segment of the relative path.
2. It builds three candidate paths, in priority order:
   - the file name directly in the base directory;
   - the relative path under `..\..\` from the base directory;
   - the relative path under the base directory.
3. It returns the first candidate that exists on disk.
4. If none exists, it fails with a file-not-found error. The error names the
   library and lists every candidate, joined with `;`, in probe order.

The model covers the following.

- **`Paths`** (`paths.dfy`): the two path operations the locator uses.
  - `Path.GetFileName` is `FileName`: the longest suffix without a segment boundary. On Unix the only boundary is `/`. On Windows the boundaries are `\`, `/` and the volume separator `:`, wherever it appears, as in the .NET Framework.
  - `Path.Combine` is `Combine` and `Combine3`.
  - Both depend on the host's path conventions, given as a `PathStyle` (`Windows` or `Unix`).
- **`Probing`** (`probing.dfy`): the first-match probe over an ordered candidate list.
  - `FirstExisting` is the recursive reference definition.
  - `Probe` is the `foreach` loop itself. Its contract ties it to `FirstExisting`: it returns a path exactly when `FirstExisting` finds a position, and then the candidate at that position.
  - The file system is a set of the paths that exist.
- **`Strings`** (`strings.dfy`): `string.Join`, with the position of every joined part and separator. It also has `Split` as its inverse, used to recover the probed list from the message.
- **`RelativeLibraryLocator`** (`locator.dfy`): the class itself.
  - `Candidates` builds the three candidate paths.
  - `Resolve` is the probe-or-report step over any candidate list.
  - `GetAbsolutePath` and `GetLibraryAbsolutePath` are the class's lookup methods.
  - `IsX32ModeSupported` is the 32-bit default.
  - The error message is built from the same constant text as the source.
  - A concrete locator is a `Locator` value. It holds the relative path it gives each platform, and optionally an override of the 32-bit answer.
- **`Scenarios`** (`scenarios.dfy`): worked lookups.
  - A Unix example: `native/libfoo.so` from `/app/bin`, for every set of existing files, with the exact error text.
  - The second candidate of a Windows example: `x64\snappy64.dll` from `C:\app\bin`.

On Unix, the second candidate is not two directories up. The code inserts the
segment `..\..\` literally. Backslashes are ordinary characters on Unix, so
`Combine` adds a `/` after the segment. The second candidate for `native/libfoo.so`
from `/app/bin` is therefore `/app/bin/..\..\/native/libfoo.so` (see
`Scenarios.ExampleCandidates`). Reading this step as "two levels up" holds only
on Windows (`Scenarios.WindowsSecondCandidate`). The model follows the code as
written.

## Model

| member | source | states |
|---|---|---|
| `RelativeLibraryLocator.IsX32ModeSupported` | src/MongoDB.Driver.Core/Core/NativeLibraryLoader/RelativeLibraryLocatorBase.cs:26 | 32-bit mode is reported unsupported unless a concrete locator overrides the answer, and then the override's answer is reported |
| `RelativeLibraryLocator.GetLibraryAbsolutePath` | src/MongoDB.Driver.Core/Core/NativeLibraryLoader/RelativeLibraryLocatorBase.cs:31-35 | the lookup of the relative path the locator gives the platform: found exactly when one of that path's three candidates exists, and then it is the first one that exists; otherwise not-found, naming that path's file name, listing its candidates and carrying their message |
| `RelativeLibraryLocator.LibraryPathDependsOnlyOnRelativePath` | src/MongoDB.Driver.Core/Core/NativeLibraryLoader/RelativeLibraryLocatorBase.cs:31-35 | two locators that give a platform the same relative path resolve it to the same result, for the same base directory and files; nothing else about the locator matters |
| `Paths.FileName` | src/MongoDB.Driver.Core/Core/NativeLibraryLoader/RelativeLibraryLocatorBase.cs:56 | the library name is a suffix of the relative path with no separator in it, and is either the whole path or starts right after a separator |
| `Paths.Combine` | src/MongoDB.Driver.Core/Core/NativeLibraryLoader/RelativeLibraryLocatorBase.cs:60-62 | combining keeps the first path as a prefix and ends in the second, with exactly one boundary between them: nothing is added when the first path already ends in a boundary, otherwise exactly one directory separator of the host is; an empty second path gives the first; a rooted second path or an empty first path gives the second |
| `Paths.Combine3` | src/MongoDB.Driver.Core/Core/NativeLibraryLoader/RelativeLibraryLocatorBase.cs:61 | the three-path combine used for the second candidate: a rooted last path replaces everything; an empty last path gives the two-path combine of the first two; with neither later path rooted the first path is a prefix; a non-empty, non-rooted last path ends the result right after a boundary; with all three non-empty and the later two not rooted, the result is at least their total length and at most two characters longer |
| `RelativeLibraryLocator.Candidates` | src/MongoDB.Driver.Core/Core/NativeLibraryLoader/RelativeLibraryLocatorBase.cs:58-63 | exactly three paths are probed |
| `RelativeLibraryLocator.CandidateLayout` | src/MongoDB.Driver.Core/Core/NativeLibraryLoader/RelativeLibraryLocatorBase.cs:58-63 | for a base without a trailing separator and a relative path that is not rooted and ends in a file name, the candidates in order are base/file name, base/`..\..\`/relative path, base/relative path |
| `RelativeLibraryLocator.SecondCandidateLayout` | src/MongoDB.Driver.Core/Core/NativeLibraryLoader/RelativeLibraryLocatorBase.cs:61 | the second candidate holds `..\..\` unnormalised; on Windows the relative path follows it directly, on Unix after one more `/` |
| `RelativeLibraryLocator.CandidatesNameTheLibrary` | src/MongoDB.Driver.Core/Core/NativeLibraryLoader/RelativeLibraryLocatorBase.cs:56-63 | when the relative path ends in a file name, every candidate's file name is the library name |
| `RelativeLibraryLocator.CandidatesStayUnderBase` | src/MongoDB.Driver.Core/Core/NativeLibraryLoader/RelativeLibraryLocatorBase.cs:58-63 | when the relative path is not rooted, the base directory is a prefix of all three candidates |
| `RelativeLibraryLocator.RootedRelativePathIgnoresBase` | src/MongoDB.Driver.Core/Core/NativeLibraryLoader/RelativeLibraryLocatorBase.cs:61-62 | a rooted relative path escapes the base directory: the second and third candidates are the path itself |
| `Probing.FirstExisting` | src/MongoDB.Driver.Core/Core/NativeLibraryLoader/RelativeLibraryLocatorBase.cs:65-71 | a position is returned only if its candidate exists and no earlier one does; nothing is returned only if no candidate exists |
| `Probing.Probe` | src/MongoDB.Driver.Core/Core/NativeLibraryLoader/RelativeLibraryLocatorBase.cs:65-71 | the loop returns a candidate that exists with every earlier candidate missing, and returns nothing only when every candidate is missing; it returns a path exactly when `FirstExisting` finds a position, and that path is the candidate at the position |
| `Probing.FirstExistingIgnoresLaterCandidates` | src/MongoDB.Driver.Core/Core/NativeLibraryLoader/RelativeLibraryLocatorBase.cs:65-71 | once candidate k exists, changing which later candidates exist does not change the position found |
| `Probing.FirstExistingMonotone` | src/MongoDB.Driver.Core/Core/NativeLibraryLoader/RelativeLibraryLocatorBase.cs:65-71 | with more files present a hit stays a hit, at the same or an earlier position |
| `RelativeLibraryLocator.Resolve` | src/MongoDB.Driver.Core/Core/NativeLibraryLoader/RelativeLibraryLocatorBase.cs:65-73 | found exactly when some candidate exists; a found path is a candidate that exists, with every earlier candidate missing; otherwise the error carries the library name, all candidates and the message |
| `RelativeLibraryLocator.FirstExistingCandidateIsReturned` | src/MongoDB.Driver.Core/Core/NativeLibraryLoader/RelativeLibraryLocatorBase.cs:65-70 | conversely, when candidate k exists and no earlier one does, candidate k is the path returned |
| `RelativeLibraryLocator.ResolutionTable` | src/MongoDB.Driver.Core/Core/NativeLibraryLoader/RelativeLibraryLocatorBase.cs:65-73 | for three candidates, the result is the first, else the second, else the third that exists, else the not-found error |
| `RelativeLibraryLocator.LaterCandidatesDoNotMatter` | src/MongoDB.Driver.Core/Core/NativeLibraryLoader/RelativeLibraryLocatorBase.cs:65-71 | once an earlier candidate exists, adding or removing files at later candidates leaves the result unchanged |
| `RelativeLibraryLocator.OnlyCandidatesMatter` | src/MongoDB.Driver.Core/Core/NativeLibraryLoader/RelativeLibraryLocatorBase.cs:65-71 | files other than the candidates never affect the result |
| `RelativeLibraryLocator.AddingFilesKeepsLibraryFound` | src/MongoDB.Driver.Core/Core/NativeLibraryLoader/RelativeLibraryLocatorBase.cs:65-71 | installing more files never turns a found library into the error, and the winning candidate can only move earlier |
| `RelativeLibraryLocator.GetAbsolutePath` | src/MongoDB.Driver.Core/Core/NativeLibraryLoader/RelativeLibraryLocatorBase.cs:53-74 | for the three candidates of the relative path: found exactly when one exists; the path returned exists, is a candidate, and every earlier candidate is missing; otherwise the error names the relative path's file name, lists the three candidates and carries their message |
| `RelativeLibraryLocator.NotFoundMessage` | src/MongoDB.Driver.Core/Core/NativeLibraryLoader/RelativeLibraryLocatorBase.cs:73 | the message runs past the fixed text and the library name, and ends in a period |
| `RelativeLibraryLocator.NotFoundMessageNamesLibrary` | src/MongoDB.Driver.Core/Core/NativeLibraryLoader/RelativeLibraryLocatorBase.cs:73 | the message starts "Could not find library ", then the library name, then ". Checked " |
| `RelativeLibraryLocator.NotFoundMessageListsProbed` | src/MongoDB.Driver.Core/Core/NativeLibraryLoader/RelativeLibraryLocatorBase.cs:73 | between that opening text and the final period the message holds exactly the probed paths joined with `;` |
| `RelativeLibraryLocator.NotFoundMessageRecoversProbed` | src/MongoDB.Driver.Core/Core/NativeLibraryLoader/RelativeLibraryLocatorBase.cs:73 | when no probed path contains `;`, splitting the listed part of the message on `;` gives back every probed path, in probe order |
| `Strings.Join` | src/MongoDB.Driver.Core/Core/NativeLibraryLoader/RelativeLibraryLocatorBase.cs:73 | the joined text is as long as the parts plus one separator between each pair of neighbours; no parts give the empty string |
| `Strings.JoinThree` | src/MongoDB.Driver.Core/Core/NativeLibraryLoader/RelativeLibraryLocatorBase.cs:73 | joining three paths gives the first, the separator, the second, the separator, the third |
| `Strings.JoinPlacesParts` | src/MongoDB.Driver.Core/Core/NativeLibraryLoader/RelativeLibraryLocatorBase.cs:73 | every part appears in the joined text at its offset: after all earlier parts, each followed by one separator |
| `Strings.JoinPlacesSeparators` | src/MongoDB.Driver.Core/Core/NativeLibraryLoader/RelativeLibraryLocatorBase.cs:73 | one separator follows every part except the last |
| `Strings.SplitJoin` | src/MongoDB.Driver.Core/Core/NativeLibraryLoader/RelativeLibraryLocatorBase.cs:73 | splitting a join of separator-free parts on the separator gives the parts back |
| `Strings.JoinSplit` | src/MongoDB.Driver.Core/Core/NativeLibraryLoader/RelativeLibraryLocatorBase.cs:73 | joining the pieces of a split gives the original text back |
| `Scenarios.ExampleCandidates` | src/MongoDB.Driver.Core/Core/NativeLibraryLoader/RelativeLibraryLocatorBase.cs:58-63 | for `native/libfoo.so` from `/app/bin` on Unix the candidates are `/app/bin/libfoo.so`, `/app/bin/..\..\/native/libfoo.so` and `/app/bin/native/libfoo.so` |
| `Scenarios.ExampleResolution` | src/MongoDB.Driver.Core/Core/NativeLibraryLoader/RelativeLibraryLocatorBase.cs:53-74 | for that example and any set of existing files: the first of the three paths that exists, else the error naming `libfoo.so` with the three paths in order |
| `Scenarios.ExampleMessage` | src/MongoDB.Driver.Core/Core/NativeLibraryLoader/RelativeLibraryLocatorBase.cs:73 | the example's error text is "Could not find library libfoo.so. Checked " followed by the three paths separated by `;`, then "." |
| `Scenarios.WindowsSecondCandidate` | src/MongoDB.Driver.Core/Core/NativeLibraryLoader/RelativeLibraryLocatorBase.cs:61 | on Windows, for `x64\snappy64.dll` from `C:\app\bin`, the second candidate is `C:\app\bin\..\..\x64\snappy64.dll` |

## Left out

- The assembly `CodeBase` lookup by reflection (line 29) is a runtime call. The base directory is a parameter instead.
- URI parsing and unescaping (lines 37-42) and `Path.GetDirectoryName` (lines 44-48) are left out. They are thin wrappers over .NET library behaviour whose only output is the base directory, which is a parameter.
- `File.Exists` (line 67) is file-system I/O. It is modelled as membership in a fixed set of existing paths. Files that appear or vanish while the probe runs are not modelled.
- `GetLibraryRelativePath` (line 50) is abstract and supplied by subclasses that are not part of this model. It is a function from platform to relative path, stored in `Locator`. Platform and architecture detection are left out.
- The .NET path API is modelled only as far as the locator uses it.
  - These are left out: argument checks (null paths, invalid path characters and the exceptions they raise), UNC and device paths, and path normalisation.
  - `IsRooted` treats a leading separator as rooted. On Windows it also treats any path whose second character is `:` as rooted, whatever the first character is.
  - The three-path `Combine` is the two-path one applied left to right.
- Paths are sequences of Unicode scalar values (Dafny's `char`), not of UTF-16 code units as in .NET.
  - A character outside the Basic Multilingual Plane is one `char` here, but two code units in .NET.
  - So `IsRooted` differs when such a character comes first and `:` follows it. The model calls `\U{1D4B3}:foo` rooted, whereas .NET sees a low surrogate at index 1 and calls it not rooted. `Combine` follows that difference.
  - A .NET string with an unpaired surrogate has no counterpart here.
  - The Windows rules below are the .NET Framework's only up to this encoding difference.
- The Windows path rules are those of the .NET Framework, where `:` counts as a boundary anywhere. On Windows, .NET Core and later differ in three ways, and those rules are not modelled.
  - `GetFileName` cuts only at `\` and `/` after the root, so `x64\a:b.dll` gives `a:b.dll` there and `b.dll` here.
  - `Combine` inserts a separator after a trailing `:`.
  - `IsPathRooted` wants a letter before the `:`.
- The `FileNotFoundException` is the `NotFound` value. It carries the library name, the probed list and the message text. The exception type and its stack are not modelled.
- Loading or binding the native library is not done in this class and is not modelled.
- `RelativeLibraryLocator.NotFoundMessage`: its own contract states only the length and the final period. The opening text and the probed list are stated by `NotFoundMessageNamesLibrary`, `NotFoundMessageListsProbed` and `NotFoundMessageRecoversProbed`. That keeps these facts out of every proof that only mentions the message.
