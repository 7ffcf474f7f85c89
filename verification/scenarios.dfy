/**
  Worked examples: a library at relative path `native/libfoo.so` looked up
  from the base directory `/app/bin` on Unix, with a file at one candidate,
  or none; and the same layout on Windows.
 */
module Scenarios {
  import opened Paths
  import opened Strings
  import opened RelativeLibraryLocator

  const Base: string := "/app/bin"
  const Relative: string := "native/libfoo.so"
  const Library: string := "libfoo.so"

  const Alongside: string := "/app/bin/libfoo.so"
  const UpTwo: string := "/app/bin/..\\..\\/native/libfoo.so"
  const Nested: string := "/app/bin/native/libfoo.so"

  /** The file name of `native/libfoo.so` is `libfoo.so`. */
  lemma LibraryFileName()
    ensures FileName(Unix, Relative) == Library
  {
    assert Relative == "native/" + Library;
    assert Relative[|Relative| - |Library| - 1] == '/';
    assert IsSegment(Unix, Library);
    FileNameUnique(Unix, Relative, Library);
  }

  /** The layout lemma applied to the example. */
  lemma ExampleLayout()
    ensures Candidates(Unix, Base, Relative)[0] == Base + "/" + Library
    ensures Candidates(Unix, Base, Relative)[1] == Base + "/" + TwoLevelsUp + "/" + Relative
    ensures Candidates(Unix, Base, Relative)[2] == Base + "/" + Relative
  {
    LibraryFileName();
    assert Base[|Base| - 1] == 'n';
    assert Relative[0] == 'n' && Relative[|Relative| - 1] == 'o';
    CandidateLayout(Unix, Base, Relative);
  }

  /** The example's first candidate, spelled out. */
  lemma AlongsideSpelling()
    ensures Base + "/" + Library == Alongside
  {
  }

  /** The example's second candidate, spelled out. */
  lemma UpTwoSpelling()
    ensures Base + "/" + TwoLevelsUp + "/" + Relative == UpTwo
  {
  }

  /** The example's third candidate, spelled out. */
  lemma NestedSpelling()
    ensures Base + "/" + Relative == Nested
  {
  }

  /** The three candidates for the example, in probe order. */
  lemma ExampleCandidates()
    ensures Candidates(Unix, Base, Relative) == [Alongside, UpTwo, Nested]
  {
    ExampleLayout();
    AlongsideSpelling();
    UpTwoSpelling();
    NestedSpelling();
  }

  /**
    The whole lookup for the example, for every set of existing files: the
    first of the three paths that exists is returned, and with none of them
    present the error names `libfoo.so` and lists all three in probe order.
    (The base directory and relative path are parameters pinned by the
    requires clause, which keeps the verifier from unfolding `Candidates`
    on the literals.)
   */
  lemma ExampleResolution(base: string, relative: string, existing: set<string>)
    requires base == Base && relative == Relative
    ensures GetAbsolutePath(Unix, base, relative, existing)
         == if Alongside in existing then Found(Alongside)
            else if UpTwo in existing then Found(UpTwo)
            else if Nested in existing then Found(Nested)
            else NotFound(Library, [Alongside, UpTwo, Nested], NotFoundMessage(Library, [Alongside, UpTwo, Nested]))
  {
    ExampleCandidates();
    LibraryFileName();
    ResolutionTable(Library, [Alongside, UpTwo, Nested], existing);
  }

  /** The example's error message, spelled out. */
  lemma ExampleMessage()
    ensures NotFoundMessage(Library, [Alongside, UpTwo, Nested])
         == "Could not find library " + Library + ". Checked " + (Alongside + ";" + UpTwo + ";" + Nested) + "."
  {
    JoinThree([ListSeparator], Alongside, UpTwo, Nested);
  }

  const WindowsBase: string := "C:\\app\\bin"
  const WindowsRelative: string := "x64\\snappy64.dll"
  const WindowsUpTwo: string := "C:\\app\\bin\\..\\..\\x64\\snappy64.dll"

  /** The layout lemma applied to the Windows example's second candidate. */
  lemma WindowsLayout(base: string, relative: string)
    requires base == WindowsBase && relative == WindowsRelative
    ensures Candidates(Windows, base, relative)[1] == base + "\\" + TwoLevelsUp + relative
  {
    assert base[|base| - 1] == 'n';
    assert relative[0] == 'x' && relative[1] == '6';
    SecondCandidateLayout(Windows, base, relative);
  }

  /** The Windows example's second candidate, spelled out. */
  lemma WindowsSpelling()
    ensures WindowsBase + "\\" + TwoLevelsUp + WindowsRelative == WindowsUpTwo
  {
  }

  /**
    On Windows the `..\..\` segment ends in a separator, so the relative path
    follows it directly and the candidate really is two levels up.
   */
  lemma WindowsSecondCandidate(base: string, relative: string)
    requires base == WindowsBase && relative == WindowsRelative
    ensures Candidates(Windows, base, relative)[1] == WindowsUpTwo
  {
    WindowsLayout(base, relative);
    WindowsSpelling();
  }
}
