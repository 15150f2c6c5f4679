/** Post-processing of the last captured command output: it is turned into
    a directory change or into a selection by names. */
module Stdout {
  import opened Base
  import opened Text
  import opened State
  import opened Select

  /** What to do with a capture. */
  datatype PostProcessor = ChangeDirectory | SelectNames

  /** Recognizes the processor keys; any other key names no processor. */
  function FromStr(key: string): (r: Option<PostProcessor>)
    ensures r == Some(ChangeDirectory) <==> key == "cd"
    ensures r == Some(SelectNames) <==> key == "select-names"
    ensures r == None <==> key != "cd" && key != "select-names"
  {
    if key == "cd" then Some(ChangeDirectory)
    else if key == "select-names" then Some(SelectNames)
    else None
  }

  /** The key that names each processor. */
  function Key(p: PostProcessor): string {
    match p
    case ChangeDirectory => "cd"
    case SelectNames => "select-names"
  }

  /** Each processor is recognized from its own key, and from no other. */
  lemma FromStrKey(p: PostProcessor, key: string)
    ensures FromStr(Key(p)) == Some(p)
    ensures FromStr(key) == Some(p) ==> key == Key(p)
  {
  }

  const NoCaptureError := AppError(StateError, "No result from a former `shell` available")
  const NotOneLineError := AppError(StateError,
    "The last `capture` stdout does not have exactly one line as expected for this stdout processor")
  const NotExistingError := AppError(StateError, "The last `capture` output line is not an existing path")
  const NoParentError := AppError(StateError,
    "The last `capture` output is a file but without a valid directory as parent in the file system")

  /** Succeeds exactly when the text holds one line as `str::lines` counts
      them. */
  function AssertOneLine(stdout: string): (r: AppResult)
    ensures r.Ok? <==> stdout != [] && '\n' !in stdout[..|stdout| - 1]
    ensures r.Err? ==> r.error == NotOneLineError
  {
    OneLine(stdout);
    if |Lines(stdout)| == 1 then Ok(()) else Err(NotOneLineError)
  }

  /** The filesystem queries the pipeline makes: existence, whether a path
      is a regular file, and its parent. */
  datatype FileSystem = FileSystem(
    pathExists: Path -> bool,
    isFile: Path -> bool,
    parent: Path -> Option<Path>)

  /** Validates a capture as naming one existing path and resolves it to a
      directory: the path itself when it is not a file, the file's parent
      otherwise. The checks come in order: one line, existence, parent. */
  function AsOneExistingDirectory(stdout: string, fs: FileSystem, expand: string -> Path): (r: Result<Path>)
    ensures |Lines(stdout)| != 1 ==> r == Err(NotOneLineError)
    ensures |Lines(stdout)| == 1 && !fs.pathExists(expand(stdout)) ==> r == Err(NotExistingError)
    ensures r.Ok? <==>
      |Lines(stdout)| == 1 && fs.pathExists(expand(stdout))
      && (fs.isFile(expand(stdout)) ==> fs.parent(expand(stdout)).Some?)
    ensures r.Ok? ==>
      r.value == (if fs.isFile(expand(stdout)) then fs.parent(expand(stdout)).value else expand(stdout))
    ensures (&& |Lines(stdout)| == 1 && fs.pathExists(expand(stdout)) && fs.isFile(expand(stdout))
             && fs.parent(expand(stdout)).None?) ==> r == Err(NoParentError)
    ensures r.Err? ==> r.error in {NotOneLineError, NotExistingError, NoParentError}
    ensures IsTrimmed(stdout) && r.Ok? ==> stdout != [] && '\n' !in stdout
  {
    TrimmedOneLine(stdout);
    match AssertOneLine(stdout)
    case Err(e) => Err(e)
    case Ok(_) =>
      var path := expand(stdout);
      if fs.pathExists(path) then
        if fs.isFile(path) then
          match fs.parent(path)
          case Some(dir) => Ok(dir)
          case None => Err(NoParentError)
        else Ok(path)
      else Err(NotExistingError)
  }

  /** The set of lines of the capture; never fails. */
  function AsStringHash(stdout: string): (r: Result<set<string>>)
    ensures r.Ok?
    ensures forall name :: name in r.value <==> name in Lines(stdout)
  {
    Ok(set line | line in Lines(stdout))
  }

  /** `post_process_std_out`: fails when nothing was captured; otherwise
      the trimmed capture is validated and resolved to a directory that the
      directory-change collaborator `cd` is given, or its lines select the
      entries so named and deselect all others. A failed validation
      returns the state unchanged. */
  function PostProcessStdOut(
    p: PostProcessor, s: AppState, fs: FileSystem, expand: string -> Path,
    cd: (AppState, Path) -> Step): (r: Step)
    ensures s.lastStdout.None? ==> r == Step(s, Err(NoCaptureError))
    ensures s.lastStdout.Some? && p == ChangeDirectory ==>
      var dir := AsOneExistingDirectory(Trim(s.lastStdout.value), fs, expand);
      && (dir.Err? ==> r == Step(s, Err(dir.error)))
      && (dir.Ok? ==> r == cd(s, dir.value))
    ensures s.lastStdout.Some? && p == SelectNames ==>
      var lines := Lines(Trim(s.lastStdout.value));
      && r.result == Ok(())
      && (s.currList.None? ==> r.state == s)
      && (s.currList.Some? ==>
            var es := s.currList.value.contents;
            && r.state.currList.Some?
            && r.state.currList.value.index == s.currList.value.index
            && |r.state.currList.value.contents| == |es|
            && (forall i :: 0 <= i < |es| ==>
                  r.state.currList.value.contents[i] == es[i].(selected := es[i].name in lines))
            && r.state.messages == s.messages + [Info(NamesReport(
                 |NamedIndices(es, AsStringHash(Trim(s.lastStdout.value)).value)|,
                 |StrayIndices(es, AsStringHash(Trim(s.lastStdout.value)).value)|,
                 true))]
            && r.state.lastStdout == s.lastStdout)
    ensures s.lastStdout.Some? && p == SelectNames ==>
      r == SelectByNames(s, AsStringHash(Trim(s.lastStdout.value)).value, true)
  {
    match s.lastStdout
    case None => Step(s, Err(NoCaptureError))
    case Some(capture) =>
      var stdout := Trim(capture);
      match p
      case ChangeDirectory =>
        (match AsOneExistingDirectory(stdout, fs, expand)
         case Err(e) => Step(s, Err(e))
         case Ok(dir) => cd(s, dir))
      case SelectNames =>
        (match AsStringHash(stdout)
         case Err(e) => Step(s, Err(e))
         case Ok(names) => SelectByNames(s, names, true))
  }

  // ---------------------------------------------------------------------
  // Properties across calls
  // ---------------------------------------------------------------------

  /** A capture that trims to nothing, or to more than one line, is refused
      before the directory-change collaborator is reached, whatever it
      would do. */
  lemma ChangeDirectoryRejectsNotOneLine(s: AppState, fs: FileSystem, expand: string -> Path)
    requires s.lastStdout.Some?
    requires Trim(s.lastStdout.value) == [] || '\n' in Trim(s.lastStdout.value)
    ensures forall cd: (AppState, Path) -> Step {:trigger PostProcessStdOut(ChangeDirectory, s, fs, expand, cd)} ::
      PostProcessStdOut(ChangeDirectory, s, fs, expand, cd) == Step(s, Err(NotOneLineError))
  {
    TrimmedOneLine(Trim(s.lastStdout.value));
  }

  /** Whenever the directory-change processor fails validation, the state
      is unchanged and the collaborator plays no part in the outcome. */
  lemma ChangeDirectoryValidatesFirst(
    s: AppState, fs: FileSystem, expand: string -> Path,
    cd1: (AppState, Path) -> Step, cd2: (AppState, Path) -> Step)
    requires s.lastStdout.None? || AsOneExistingDirectory(Trim(s.lastStdout.value), fs, expand).Err?
    ensures PostProcessStdOut(ChangeDirectory, s, fs, expand, cd1).result.Err?
    ensures PostProcessStdOut(ChangeDirectory, s, fs, expand, cd1).state == s
    ensures PostProcessStdOut(ChangeDirectory, s, fs, expand, cd1)
         == PostProcessStdOut(ChangeDirectory, s, fs, expand, cd2)
  {
  }

  /** A capture of one path and a trailing line feed changes to that
      path if it is not a file, and to its parent if it is. */
  lemma ChangeDirectoryOneLine(
    s: AppState, fs: FileSystem, expand: string -> Path, cd: (AppState, Path) -> Step, line: string)
    requires IsTrimmed(line) && line != [] && '\n' !in line
    requires s.lastStdout == Some(line + "\n")
    requires fs.pathExists(expand(line))
    requires !fs.isFile(expand(line)) || fs.parent(expand(line)).Some?
    ensures PostProcessStdOut(ChangeDirectory, s, fs, expand, cd)
         == cd(s, if fs.isFile(expand(line)) then fs.parent(expand(line)).value else expand(line))
  {
    TrimDropsTrailingWhitespace(line, '\n');
    TrimmedOneLine(line);
  }

  /** The same with the capture "/home/user\n". */
  lemma ChangeDirectoryExample(
    s: AppState, fs: FileSystem, expand: string -> Path, cd: (AppState, Path) -> Step)
    requires s.lastStdout == Some("/home/user\n")
    requires fs.pathExists(expand("/home/user"))
    requires !fs.isFile(expand("/home/user")) || fs.parent(expand("/home/user")).Some?
    ensures PostProcessStdOut(ChangeDirectory, s, fs, expand, cd)
         == cd(s, if fs.isFile(expand("/home/user")) then fs.parent(expand("/home/user")).value
                  else expand("/home/user"))
  {
    var line := "/home/user";
    assert IsTrimmed(line);
    assert '\n' !in line;
    assert "/home/user\n" == line + "\n";
    ChangeDirectoryOneLine(s, fs, expand, cd, line);
  }

  /** A capture that trims to nothing deselects every entry. */
  lemma EmptyCaptureDeselectsAll(s: AppState, fs: FileSystem, expand: string -> Path, cd: (AppState, Path) -> Step)
    requires s.lastStdout.Some? && Trim(s.lastStdout.value) == []
    requires s.currList.Some?
    ensures var r := PostProcessStdOut(SelectNames, s, fs, expand, cd);
            && r.result == Ok(())
            && forall i :: 0 <= i < |r.state.currList.value.contents| ==>
                 !r.state.currList.value.contents[i].selected
  {
  }

  /** Running the selection processor again on an unchanged capture keeps
      the same flags and reports that nothing was deselected. */
  lemma SelectNamesIdempotent(s: AppState, fs: FileSystem, expand: string -> Path, cd: (AppState, Path) -> Step)
    requires s.lastStdout.Some? && s.currList.Some?
    ensures var r1 := PostProcessStdOut(SelectNames, s, fs, expand, cd);
            var r2 := PostProcessStdOut(SelectNames, r1.state, fs, expand, cd);
            var names := AsStringHash(Trim(s.lastStdout.value)).value;
            && r2.state.currList == r1.state.currList
            && r2.state.messages == r1.state.messages
                 + [Info(NamesReport(|NamedIndices(s.currList.value.contents, names)|, 0, true))]
  {
    var names := AsStringHash(Trim(s.lastStdout.value)).value;
    var es := s.currList.value.contents;
    var r1 := PostProcessStdOut(SelectNames, s, fs, expand, cd);
    var once := r1.state.currList.value.contents;
    assert r1 == SelectByNames(s, names, true);
    assert forall i :: 0 <= i < |es| ==> once[i] == MarkNames(names, true, es).entries[i];
    assert once == MarkNames(names, true, es).entries;
    MarkNamesIdempotent(names, es);
  }

  /** Three lines x, y, x with a trailing line feed name exactly x and y:
      the repeated line collapses. */
  lemma SelectNamesRepeatedLine(x: string, y: string)
    requires IsPlainLine(x) && IsPlainLine(y) && x != [] && IsTrimmed(x)
    ensures AsStringHash(Trim(x + "\n" + y + "\n" + x + "\n")).value == {x, y}
  {
    var t := x + "\n" + (y + "\n" + x);
    TrimThreeLines(x, y);
    LinesOfThree(x, y);
    LineSetOfThree(x, y, t);
  }

  lemma TrimThreeLines(x: string, y: string)
    requires x != [] && IsTrimmed(x)
    ensures Trim(x + "\n" + y + "\n" + x + "\n") == x + "\n" + (y + "\n" + x)
  {
    var t := x + "\n" + (y + "\n" + x);
    assert x + "\n" + y + "\n" + x + "\n" == t + ['\n'];
    TrimmedThreeLines(x, y);
    TrimDropsTrailingWhitespace(t, '\n');
  }

  lemma LinesOfThree(x: string, y: string)
    requires IsPlainLine(x) && IsPlainLine(y) && x != []
    ensures Lines(x + "\n" + (y + "\n" + x)) == [x, y, x]
  {
    LinesCons(x, y + "\n" + x);
    LinesCons(y, x);
  }

  lemma LineSetOfThree(x: string, y: string, t: string)
    requires Lines(t) == [x, y, x]
    ensures AsStringHash(t).value == {x, y}
  {
  }

  lemma TrimmedThreeLines(x: string, y: string)
    requires x != [] && IsTrimmed(x)
    ensures IsTrimmed(x + "\n" + (y + "\n" + x))
  {
    var t := x + "\n" + (y + "\n" + x);
    assert t[0] == x[0];
    assert t[|t| - 1] == x[|x| - 1];
  }

  /** The same with the capture "x.txt\ny.txt\nx.txt\n". */
  lemma SelectNamesExample()
    ensures AsStringHash(Trim("x.txt\ny.txt\nx.txt\n")).value == {"x.txt", "y.txt"}
  {
    assert IsPlainLine("x.txt") && IsPlainLine("y.txt") && IsTrimmed("x.txt");
    assert "x.txt\ny.txt\nx.txt\n" == "x.txt" + "\n" + "y.txt" + "\n" + "x.txt" + "\n";
    SelectNamesRepeatedLine("x.txt", "y.txt");
  }
}
