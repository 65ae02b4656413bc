/**
  `get_game_name`: the executable name of a configured game path, which is
  what the watchdog compares process names against and what the monitored
  list stores.
*/
module Paths {
  import opened Text

  /** The path separators of the Windows path flavour the program runs under. */
  predicate IsSeparator(c: char)
  {
    c == '/' || c == '\\'
  }

  /**
    `os.path.basename`: everything after the last separator. The result is
    the longest suffix of the path that holds no separator.
  */
  function Basename(path: string): string
    decreases |path|
  {
    if |path| == 0 then ""
    else if IsSeparator(path[|path| - 1]) then ""
    else Basename(path[..|path| - 1]) + [path[|path| - 1]]
  }

  /**
    The basename is a suffix of the path that holds no separator and is
    either the whole path or preceded by a separator.
  */
  lemma {:induction false} BasenameIsLastComponent(path: string)
    ensures var name := Basename(path);
      && |name| <= |path| && name == path[|path| - |name|..]
      && (forall i :: 0 <= i < |name| ==> !IsSeparator(name[i]))
      && (|name| == |path| || IsSeparator(path[|path| - |name| - 1]))
    decreases |path|
  {
    if |path| > 0 && !IsSeparator(path[|path| - 1]) {
      var init := path[..|path| - 1];
      BasenameIsLastComponent(init);
      var name := Basename(path);
      assert name == Basename(init) + [path[|path| - 1]];
      assert init[|init| - |Basename(init)|..] + [path[|path| - 1]] == path[|path| - |name|..];
    }
  }

  /** The basename of a path that is already a bare name is the name itself. */
  lemma {:induction false} BasenameOfName(name: string)
    requires forall i :: 0 <= i < |name| ==> !IsSeparator(name[i])
    ensures Basename(name) == name
    decreases |name|
  {
    if |name| > 0 {
      BasenameOfName(name[..|name| - 1]);
      assert name[..|name| - 1] + [name[|name| - 1]] == name;
    }
  }

  /** The basename of a file in a directory is the file's own name. */
  lemma {:induction false} BasenameOfDirectory(dir: string, name: string)
    requires forall i :: 0 <= i < |name| ==> !IsSeparator(name[i])
    ensures Basename(dir + "/" + name) == name
    decreases |name|
  {
    var p := dir + "/" + name;
    if |name| > 0 {
      BasenameOfDirectory(dir, name[..|name| - 1]);
      assert p[..|p| - 1] == dir + "/" + name[..|name| - 1];
      assert name[..|name| - 1] + [name[|name| - 1]] == name;
    }
  }

  /** Process name and game name agree once both are lower-cased. */
  predicate SameName(processName: string, gameName: string)
  {
    Lower(processName) == Lower(gameName)
  }
}
