/**
  The relative native-library locator: from a platform-specific relative path
  and the directory of the driver's own assembly, build three candidate
  absolute paths, return the first one that exists, and otherwise fail with a
  file-not-found error that names the library and every path it checked.

  The host filesystem is the set of paths at which a file exists; the base
  directory is a parameter; the per-platform relative path is a function
  supplied with the locator.
 */
module RelativeLibraryLocator {
  import opened Wrappers
  import opened Paths
  import opened Strings
  import opened Probing

  /** The second candidate's segment, kept literal and unnormalised: two levels up in Windows notation. */
  const TwoLevelsUp: string := "..\\..\\"

  /** The `..\..\` segment is not rooted, so `Combine` appends it to the base directory. */
  lemma TwoLevelsUpIsNotRooted(style: PathStyle)
    ensures !IsRooted(style, TwoLevelsUp)
  {
    assert TwoLevelsUp[0] == '.' && TwoLevelsUp[1] == '.';
  }

  /** The fixed text of the not-found message, around the library name and the probed list. */
  const MessagePrefix: string := "Could not find library "
  const MessageMiddle: string := ". Checked "
  const MessageSuffix: string := "."

  /** `string.Join` separator for the probed paths. */
  const ListSeparator: char := ';'

  /** The outcome of a lookup: the path found, or the file-not-found error. */
  datatype Resolution =
    | Found(path: string)
    | NotFound(libraryName: string, probed: seq<string>, message: string)

  /**
    A concrete locator: the relative path it gives each platform (the abstract
    `GetLibraryRelativePath`), and its answer to `IsX32ModeSupported` when it
    overrides the default.
   */
  datatype Locator<-P> = Locator(relativePathOf: P -> string, x32ModeOverride: Option<bool>)

  /** `IsX32ModeSupported`: false unless a locator says otherwise. */
  function IsX32ModeSupported<P>(locator: Locator<P>): (r: bool)
    ensures locator.x32ModeOverride.None? ==> !r
    ensures locator.x32ModeOverride.Some? ==> r == locator.x32ModeOverride.value
  {
    match locator.x32ModeOverride
    case None => false
    case Some(supported) => supported
  }

  /**
    The paths checked, in priority order: the library's file name directly in
    the base directory, the relative path under `..\..\` from the base
    directory, and the relative path under the base directory.
   */
  function Candidates(style: PathStyle, base: string, relativePath: string): (candidates: seq<string>)
    ensures |candidates| == 3
  {
    [
      Combine(style, base, FileName(style, relativePath)),
      Combine3(style, base, TwoLevelsUp, relativePath),
      Combine(style, base, relativePath)
    ]
  }

  /** When the relative path ends in a file name, every candidate names that same file. */
  lemma CandidatesNameTheLibrary(style: PathStyle, base: string, relativePath: string)
    requires FileName(style, relativePath) != ""
    ensures FileName(style, Candidates(style, base, relativePath)[0]) == FileName(style, relativePath)
    ensures FileName(style, Candidates(style, base, relativePath)[1]) == FileName(style, relativePath)
    ensures FileName(style, Candidates(style, base, relativePath)[2]) == FileName(style, relativePath)
  {
    var name := FileName(style, relativePath);
    var up := Combine(style, base, TwoLevelsUp);
    assert Candidates(style, base, relativePath)
        == [Combine(style, base, name), Combine(style, up, relativePath), Combine(style, base, relativePath)];
    FileNameOfCombine(style, base, name);
    FileNameIdempotent(style, relativePath);
    FileNameOfCombine(style, up, relativePath);
    FileNameOfCombine(style, base, relativePath);
  }

  /** A relative path that is not rooted keeps every candidate under the base directory. */
  lemma CandidatesStayUnderBase(style: PathStyle, base: string, relativePath: string)
    requires !IsRooted(style, relativePath)
    ensures base <= Candidates(style, base, relativePath)[0]
    ensures base <= Candidates(style, base, relativePath)[1]
    ensures base <= Candidates(style, base, relativePath)[2]
  {
    var c := Candidates(style, base, relativePath);
    var up := Combine3(style, base, TwoLevelsUp, relativePath);
    assert c == [Combine(style, base, FileName(style, relativePath)), up, Combine(style, base, relativePath)];
    CombineFileNameExtends(style, base, relativePath);
    TwoLevelsUpIsNotRooted(style);
    Combine3Extends(style, base, TwoLevelsUp, relativePath);
    CombineExtends(style, base, relativePath);
  }

  /**
    A rooted "relative" path escapes the base directory: the second and third
    candidates are both the path itself.
   */
  lemma RootedRelativePathIgnoresBase(style: PathStyle, base: string, relativePath: string)
    requires IsRooted(style, relativePath)
    ensures Candidates(style, base, relativePath)[1] == relativePath
    ensures Candidates(style, base, relativePath)[2] == relativePath
  {
  }

  /**
    The candidates spelled out for the usual case: a base directory without a
    trailing separator and a relative path that is not rooted. The `..\..\`
    segment is inserted as written; on Unix its backslashes are ordinary
    characters, so `Combine` adds another separator after it.
   */
  lemma CandidateLayout(style: PathStyle, base: string, relativePath: string)
    requires base != "" && !IsBoundary(style, base[|base| - 1])
    requires EndsInFileName(style, relativePath) && !IsRooted(style, relativePath)
    ensures Candidates(style, base, relativePath)[0]
         == base + [DirectorySeparator(style)] + FileName(style, relativePath)
    ensures Candidates(style, base, relativePath)[1]
         == base + [DirectorySeparator(style)] + TwoLevelsUp
            + (if style.Windows? then "" else [DirectorySeparator(style)]) + relativePath
    ensures Candidates(style, base, relativePath)[2]
         == base + [DirectorySeparator(style)] + relativePath
  {
    FirstCandidateLayout(style, base, relativePath);
    SecondCandidateLayout(style, base, relativePath);
    ThirdCandidateLayout(style, base, relativePath);
  }

  /** The first candidate: base directory, one separator, file name. */
  lemma FirstCandidateLayout(style: PathStyle, base: string, relativePath: string)
    requires base != "" && !IsBoundary(style, base[|base| - 1])
    requires EndsInFileName(style, relativePath)
    ensures Candidates(style, base, relativePath)[0]
         == base + [DirectorySeparator(style)] + FileName(style, relativePath)
  {
    FileNameOfFile(style, relativePath);
    FileNameNotRooted(style, relativePath);
    CombineInsertsSeparator(style, base, FileName(style, relativePath));
  }

  /**
    The second candidate: `..\..\` after one separator; on Unix, where `\` is
    an ordinary character, `Combine` then adds a second separator.
   */
  lemma SecondCandidateLayout(style: PathStyle, base: string, relativePath: string)
    requires base != "" && !IsBoundary(style, base[|base| - 1])
    requires relativePath != "" && !IsRooted(style, relativePath)
    ensures Candidates(style, base, relativePath)[1]
         == base + [DirectorySeparator(style)] + TwoLevelsUp
            + (if style.Windows? then "" else [DirectorySeparator(style)]) + relativePath
  {
    var sep := [DirectorySeparator(style)];
    TwoLevelsUpIsNotRooted(style);
    CombineInsertsSeparator(style, base, TwoLevelsUp);
    var up := base + sep + TwoLevelsUp;
    assert up[|up| - 1] == '\\';
    CombineAfterBackslash(style, up, relativePath);
    assert Combine3(style, base, TwoLevelsUp, relativePath) == Combine(style, up, relativePath);
  }

  /**
    A backslash ends a segment on Windows only, so on Unix `Combine` still
    inserts a `/` after it.
   */
  lemma CombineAfterBackslash(style: PathStyle, a: string, b: string)
    requires a != "" && a[|a| - 1] == '\\'
    requires b != "" && !IsRooted(style, b)
    ensures Combine(style, a, b) == a + (if style.Windows? then "" else [DirectorySeparator(style)]) + b
  {
    if style.Windows? {
      CombineAfterBoundary(style, a, b);
    } else {
      CombineInsertsSeparator(style, a, b);
    }
  }

  /** The third candidate: base directory, one separator, relative path. */
  lemma ThirdCandidateLayout(style: PathStyle, base: string, relativePath: string)
    requires base != "" && !IsBoundary(style, base[|base| - 1])
    requires relativePath != "" && !IsRooted(style, relativePath)
    ensures Candidates(style, base, relativePath)[2] == base + [DirectorySeparator(style)] + relativePath
  {
    CombineInsertsSeparator(style, base, relativePath);
  }

  /** The text before the probed list: the fixed prefix, the library name and the middle text. */
  function MessageHead(libraryName: string): string {
    MessagePrefix + libraryName + MessageMiddle
  }

  /** Where the probed list starts inside the not-found message. */
  function ListStart(libraryName: string): nat {
    |MessageHead(libraryName)|
  }

  /** The error text: the library name, then the probed paths joined with `;`. */
  function NotFoundMessage(libraryName: string, probed: seq<string>): (message: string)
    ensures |message| > ListStart(libraryName)
    ensures message[|message| - 1] == '.'
  {
    MessageHead(libraryName) + Join([ListSeparator], probed) + MessageSuffix
  }

  /** The message opens with the fixed prefix, the library name and the middle text. */
  lemma NotFoundMessageNamesLibrary(libraryName: string, probed: seq<string>)
    ensures var message := NotFoundMessage(libraryName, probed);
      && message[..|MessagePrefix|] == MessagePrefix
      && OccursAt(message, libraryName, |MessagePrefix|)
      && OccursAt(message, MessageMiddle, |MessagePrefix| + |libraryName|)
  {
    var rest := Join([ListSeparator], probed) + MessageSuffix;
    var named := MessagePrefix + libraryName;
    assert NotFoundMessage(libraryName, probed) == named + MessageMiddle + rest;
    assert OccursAt(MessagePrefix, MessagePrefix, 0);
    OccursAtExtend(MessagePrefix, libraryName, MessagePrefix, 0);
    OccursAtExtend(named, MessageMiddle, MessagePrefix, 0);
    OccursAtExtend(named + MessageMiddle, rest, MessagePrefix, 0);
    assert OccursAt(libraryName, libraryName, 0);
    OccursAtShift(MessagePrefix, libraryName, libraryName, 0, |MessagePrefix|);
    OccursAtExtend(named, MessageMiddle, libraryName, |MessagePrefix|);
    OccursAtExtend(named + MessageMiddle, rest, libraryName, |MessagePrefix|);
    assert OccursAt(MessageMiddle, MessageMiddle, 0);
    OccursAtShift(named, MessageMiddle, MessageMiddle, 0, |MessagePrefix| + |libraryName|);
    OccursAtExtend(named + MessageMiddle, rest, MessageMiddle, |MessagePrefix| + |libraryName|);
  }

  /**
    Between the head and the final period the message holds exactly the
    probed paths joined with `;`, so (by `JoinPlacesParts` and
    `JoinPlacesSeparators`) it lists them in probe order.
   */
  lemma NotFoundMessageListsProbed(libraryName: string, probed: seq<string>)
    ensures var message := NotFoundMessage(libraryName, probed);
      message[ListStart(libraryName)..|message| - 1] == Join([ListSeparator], probed)
  {
    var list := Join([ListSeparator], probed);
    var message := NotFoundMessage(libraryName, probed);
    assert message == MessageHead(libraryName) + list + MessageSuffix;
    assert message[ListStart(libraryName)..|message| - 1] == list;
  }

  /**
    When no probed path contains `;`, splitting the list part of the message
    on `;` gives back exactly the probed paths, in order.
   */
  lemma NotFoundMessageRecoversProbed(libraryName: string, probed: seq<string>)
    requires |probed| > 0
    requires forall k :: 0 <= k < |probed| ==> ListSeparator !in probed[k]
    ensures var message := NotFoundMessage(libraryName, probed);
      Split(message[ListStart(libraryName)..|message| - 1], ListSeparator) == probed
  {
    NotFoundMessageListsProbed(libraryName, probed);
    SplitJoin(probed, ListSeparator);
  }

  /**
    The probe-and-report step on any list of candidates: the first candidate
    that exists, or the not-found error naming the library and listing every
    candidate.
   */
  function Resolve(libraryName: string, candidates: seq<string>, existing: set<string>): (r: Resolution)
    ensures r.Found? <==> !NoneExists(candidates, existing)
    ensures r.Found? ==> exists i :: IsFirstExisting(candidates, existing, i) && r.path == candidates[i]
    ensures r.Found? ==> r.path in existing && r.path in candidates
    ensures r.NotFound? ==> r == NotFound(libraryName, candidates, NotFoundMessage(libraryName, candidates))
  {
    match FirstExisting(candidates, existing)
    case Some(i) => Found(candidates[i])
    case None => NotFound(libraryName, candidates, NotFoundMessage(libraryName, candidates))
  }

  /** Conversely, the first candidate that exists is the path returned. */
  lemma FirstExistingCandidateIsReturned(libraryName: string, candidates: seq<string>, existing: set<string>, k: nat)
    requires IsFirstExisting(candidates, existing, k)
    ensures Resolve(libraryName, candidates, existing) == Found(candidates[k])
  {
    var r := Resolve(libraryName, candidates, existing);
    var i :| IsFirstExisting(candidates, existing, i) && r.path == candidates[i];
    FirstExistingIsUnique(candidates, existing, i, k);
  }

  /**
    With three candidates the lookup is a decision table in probe order: the
    first that exists is returned, and the error is raised only when none
    does.
   */
  lemma ResolutionTable(libraryName: string, candidates: seq<string>, existing: set<string>)
    requires |candidates| == 3
    ensures Resolve(libraryName, candidates, existing)
         == if candidates[0] in existing then Found(candidates[0])
            else if candidates[1] in existing then Found(candidates[1])
            else if candidates[2] in existing then Found(candidates[2])
            else NotFound(libraryName, candidates, NotFoundMessage(libraryName, candidates))
  {
    if candidates[0] in existing {
      FirstExistingCandidateIsReturned(libraryName, candidates, existing, 0);
    } else if candidates[1] in existing {
      FirstExistingCandidateIsReturned(libraryName, candidates, existing, 1);
    } else if candidates[2] in existing {
      FirstExistingCandidateIsReturned(libraryName, candidates, existing, 2);
    } else {
      assert NoneExists(candidates, existing);
    }
  }

  /**
    Once candidate `k` exists, files appearing or disappearing at later
    candidates do not change the result.
   */
  lemma LaterCandidatesDoNotMatter(libraryName: string, candidates: seq<string>,
                                   existing: set<string>, existing': set<string>, k: nat)
    requires k < |candidates| && candidates[k] in existing
    requires forall j :: 0 <= j <= k ==> (candidates[j] in existing <==> candidates[j] in existing')
    ensures Resolve(libraryName, candidates, existing) == Resolve(libraryName, candidates, existing')
  {
    FirstExistingIgnoresLaterCandidates(candidates, existing, existing', k);
  }

  /** Files other than the candidates never affect the result. */
  lemma OnlyCandidatesMatter(libraryName: string, candidates: seq<string>,
                             existing: set<string>, existing': set<string>)
    requires forall j :: 0 <= j < |candidates| ==> (candidates[j] in existing <==> candidates[j] in existing')
    ensures Resolve(libraryName, candidates, existing) == Resolve(libraryName, candidates, existing')
  {
    FirstExistingDependsOnlyOnCandidates(candidates, existing, existing');
  }

  /**
    Installing more files never turns a found library into a not-found error,
    and the path found can only move to an earlier candidate.
   */
  lemma AddingFilesKeepsLibraryFound(libraryName: string, candidates: seq<string>,
                                     existing: set<string>, existing': set<string>)
    requires existing <= existing'
    ensures Resolve(libraryName, candidates, existing).Found? ==>
      && Resolve(libraryName, candidates, existing').Found?
      && exists i, j :: i <= j
                     && IsFirstExisting(candidates, existing', i)
                     && IsFirstExisting(candidates, existing, j)
  {
    FirstExistingMonotone(candidates, existing, existing');
  }

  /**
    `GetAbsolutePath`: the first of the three candidates that exists, or the
    not-found error carrying the library's file name, the candidates and the
    message.
   */
  function GetAbsolutePath(style: PathStyle, base: string, relativePath: string, existing: set<string>): (r: Resolution)
    ensures r.Found? <==> !NoneExists(Candidates(style, base, relativePath), existing)
    ensures r.Found? ==> exists i :: IsFirstExisting(Candidates(style, base, relativePath), existing, i)
                                  && r.path == Candidates(style, base, relativePath)[i]
    ensures r.Found? ==> r.path in existing && r.path in Candidates(style, base, relativePath)
    ensures r.NotFound? ==>
      && r.libraryName == FileName(style, relativePath)
      && r.probed == Candidates(style, base, relativePath)
      && r.message == NotFoundMessage(r.libraryName, r.probed)
  {
    Resolve(FileName(style, relativePath), Candidates(style, base, relativePath), existing)
  }

  /**
    `GetLibraryAbsolutePath`: look up the locator's relative path for the
    platform, then resolve it against the base directory.
   */
  function GetLibraryAbsolutePath<P>(locator: Locator<P>, platform: P, style: PathStyle,
                                     base: string, existing: set<string>): (r: Resolution)
    ensures var candidates := Candidates(style, base, locator.relativePathOf(platform));
      && (r.Found? <==> !NoneExists(candidates, existing))
      && (r.Found? ==> exists i :: IsFirstExisting(candidates, existing, i) && r.path == candidates[i])
      && (r.NotFound? ==>
            && r.libraryName == FileName(style, locator.relativePathOf(platform))
            && r.probed == candidates
            && r.message == NotFoundMessage(r.libraryName, r.probed))
  {
    GetAbsolutePath(style, base, locator.relativePathOf(platform), existing)
  }

  /**
    Two locators that give the platform the same relative path resolve it to
    the same result: only the platform's relative path, the base directory and
    the files that exist matter. This holds by construction, since
    `GetLibraryAbsolutePath` reads nothing else from the locator.
   */
  lemma LibraryPathDependsOnlyOnRelativePath<P>(locator: Locator<P>, locator': Locator<P>, platform: P,
                                                style: PathStyle, base: string, existing: set<string>)
    requires locator.relativePathOf(platform) == locator'.relativePathOf(platform)
    ensures GetLibraryAbsolutePath(locator, platform, style, base, existing)
         == GetLibraryAbsolutePath(locator', platform, style, base, existing)
  {
  }
}
