/**
  The extension filter of `getFiles`. The directory walk itself is a
  parameter: the directories `os.walk` visits, in its order, each with the
  names of the files it holds. A file is kept when its lower-cased name ends
  with the extension as given (the extension itself is not lower-cased), and
  its path is the directory joined with the file name.
 */
module Files {
  import opened PyString

  /** One step of the walk: a directory and the file names in it. */
  datatype WalkEntry = WalkEntry(subdir: string, files: seq<string>)

  /** POSIX `os.path.join(dir, name)`. */
  function PathJoin(dir: string, name: string): string {
    if StartsWith(name, "/") then name
    else if dir == "" || EndsWith(dir, "/") then dir + name
    else dir + "/" + name
  }

  /** The test `file.lower().endswith(extension)`. */
  predicate Wanted(file: string, extension: string) {
    EndsWith(Lower(file), extension)
  }

  /** The paths kept from one directory, in file order. */
  function InDir(subdir: string, files: seq<string>, extension: string): seq<string>
    decreases |files|
  {
    if files == [] then []
    else
      var last := files[|files| - 1];
      InDir(subdir, files[..|files| - 1], extension) + (if Wanted(last, extension) then [PathJoin(subdir, last)] else [])
  }

  /** The paths kept from the whole walk, in walk order. */
  function Selected(walk: seq<WalkEntry>, extension: string): seq<string>
    decreases |walk|
  {
    if walk == [] then []
    else
      var last := walk[|walk| - 1];
      Selected(walk[..|walk| - 1], extension) + InDir(last.subdir, last.files, extension)
  }

  /** The paths kept from the first `j + 1` files: those of the first `j`, then file `j` if it is wanted. */
  lemma InDirSnoc(subdir: string, files: seq<string>, extension: string, j: nat)
    requires j < |files|
    ensures InDir(subdir, files[..j + 1], extension) ==
              InDir(subdir, files[..j], extension) + (if Wanted(files[j], extension) then [PathJoin(subdir, files[j])] else [])
  {
    assert files[..j + 1][..j] == files[..j];
  }

  /** The paths kept from the first `i + 1` directories: those of the first `i`, then those of directory `i`. */
  lemma SelectedSnoc(walk: seq<WalkEntry>, extension: string, i: nat)
    requires i < |walk|
    ensures Selected(walk[..i + 1], extension) == Selected(walk[..i], extension) + InDir(walk[i].subdir, walk[i].files, extension)
  {
    assert walk[..i + 1][..i] == walk[..i];
  }

  /** The inner loop of `getFiles`: the wanted files of one directory appended to the list, in order. */
  method AppendWanted(filelist: seq<string>, subdir: string, files: seq<string>, extension: string)
    returns (extended: seq<string>)
    ensures extended == filelist + InDir(subdir, files, extension)
  {
    extended := filelist;
    for j := 0 to |files|
      invariant extended == filelist + InDir(subdir, files[..j], extension)
    {
      InDirSnoc(subdir, files, extension, j);
      var file := files[j];
      if EndsWith(Lower(file), extension) {
        extended := extended + [PathJoin(subdir, file)];
      }
    }
    assert files[..|files|] == files;
  }

  /** `getFiles(rootPath, extension)` over the walk of `rootPath`. */
  method GetFiles(walk: seq<WalkEntry>, extension: string) returns (filelist: seq<string>)
    ensures filelist == Selected(walk, extension)
  {
    filelist := [];
    for i := 0 to |walk|
      invariant filelist == Selected(walk[..i], extension)
    {
      SelectedSnoc(walk, extension, i);
      filelist := AppendWanted(filelist, walk[i].subdir, walk[i].files, extension);
    }
    assert walk[..|walk|] == walk;
  }

  /** Every path kept from a directory joins it with a wanted file of it. */
  lemma {:induction false} InDirSound(subdir: string, files: seq<string>, extension: string, p: string)
    requires p in InDir(subdir, files, extension)
    ensures exists j :: 0 <= j < |files| && Wanted(files[j], extension) && p == PathJoin(subdir, files[j])
    decreases |files|
  {
    var init := files[..|files| - 1];
    if p in InDir(subdir, init, extension) {
      InDirSound(subdir, init, extension, p);
      var j :| 0 <= j < |init| && Wanted(init[j], extension) && p == PathJoin(subdir, init[j]);
      assert files[j] == init[j];
    } else {
      assert Wanted(files[|files| - 1], extension) && p == PathJoin(subdir, files[|files| - 1]);
    }
  }

  /** Every wanted file of a directory is kept, joined with the directory. */
  lemma {:induction false} InDirComplete(subdir: string, files: seq<string>, extension: string, j: nat)
    requires j < |files| && Wanted(files[j], extension)
    ensures PathJoin(subdir, files[j]) in InDir(subdir, files, extension)
    decreases |files|
  {
    var init := files[..|files| - 1];
    if j < |init| {
      InDirComplete(subdir, init, extension, j);
      assert init[j] == files[j];
    }
  }

  /** A path comes from a directory exactly when it joins that directory with a wanted file of it. */
  lemma InDirIff(subdir: string, files: seq<string>, extension: string, p: string)
    ensures p in InDir(subdir, files, extension) <==>
              exists j :: 0 <= j < |files| && Wanted(files[j], extension) && p == PathJoin(subdir, files[j])
  {
    if p in InDir(subdir, files, extension) {
      InDirSound(subdir, files, extension, p);
    }
    if exists j :: 0 <= j < |files| && Wanted(files[j], extension) && p == PathJoin(subdir, files[j]) {
      var j :| 0 <= j < |files| && Wanted(files[j], extension) && p == PathJoin(subdir, files[j]);
      InDirComplete(subdir, files, extension, j);
    }
  }

  /** Every path returned comes from a wanted file of some directory of the walk. */
  lemma {:induction false} SelectedSound(walk: seq<WalkEntry>, extension: string, p: string)
    requires p in Selected(walk, extension)
    ensures exists i, j :: 0 <= i < |walk| && 0 <= j < |walk[i].files| &&
              Wanted(walk[i].files[j], extension) && p == PathJoin(walk[i].subdir, walk[i].files[j])
    decreases |walk|
  {
    var init, last := walk[..|walk| - 1], walk[|walk| - 1];
    if p in Selected(init, extension) {
      SelectedSound(init, extension, p);
      var i, j :| 0 <= i < |init| && 0 <= j < |init[i].files| &&
        Wanted(init[i].files[j], extension) && p == PathJoin(init[i].subdir, init[i].files[j]);
      assert walk[i] == init[i];
    } else {
      InDirSound(last.subdir, last.files, extension, p);
      var j :| 0 <= j < |last.files| && Wanted(last.files[j], extension) && p == PathJoin(last.subdir, last.files[j]);
      assert walk[|walk| - 1] == last;
    }
  }

  /** Every wanted file of every directory of the walk is returned. */
  lemma {:induction false} SelectedComplete(walk: seq<WalkEntry>, extension: string, i: nat, j: nat)
    requires i < |walk| && j < |walk[i].files| && Wanted(walk[i].files[j], extension)
    ensures PathJoin(walk[i].subdir, walk[i].files[j]) in Selected(walk, extension)
    decreases |walk|
  {
    var init := walk[..|walk| - 1];
    if i < |init| {
      assert init[i] == walk[i];
      SelectedComplete(init, extension, i, j);
    } else {
      InDirComplete(walk[i].subdir, walk[i].files, extension, j);
    }
  }

  /** A path is returned exactly when some directory of the walk holds a wanted file that joins to it. */
  lemma SelectedIff(walk: seq<WalkEntry>, extension: string, p: string)
    ensures p in Selected(walk, extension) <==>
              exists i, j :: 0 <= i < |walk| && 0 <= j < |walk[i].files| &&
                Wanted(walk[i].files[j], extension) && p == PathJoin(walk[i].subdir, walk[i].files[j])
  {
    if p in Selected(walk, extension) {
      SelectedSound(walk, extension, p);
    }
    if exists i, j :: 0 <= i < |walk| && 0 <= j < |walk[i].files| &&
        Wanted(walk[i].files[j], extension) && p == PathJoin(walk[i].subdir, walk[i].files[j]) {
      var i, j :| 0 <= i < |walk| && 0 <= j < |walk[i].files| &&
        Wanted(walk[i].files[j], extension) && p == PathJoin(walk[i].subdir, walk[i].files[j]);
      SelectedComplete(walk, extension, i, j);
    }
  }

  /** A joined path ends with the file name. */
  lemma PathJoinEndsWith(dir: string, name: string)
    ensures EndsWith(PathJoin(dir, name), name)
  {
    var p := PathJoin(dir, name);
    if !StartsWith(name, "/") {
      if dir == "" || EndsWith(dir, "/") {
        assert p == dir + name;
      } else {
        assert p == dir + "/" + name;
      }
      assert p[|p| - |name|..] == name;
    }
  }

  /** Lower-casing a suffix: the lower-cased path ends with the lower-cased file name. */
  lemma LowerSuffix(s: string, t: string)
    requires EndsWith(s, t)
    ensures EndsWith(Lower(s), Lower(t))
  {
    var ls, lt := Lower(s), Lower(t);
    forall k | 0 <= k < |t| ensures ls[|s| - |t|..][k] == lt[k] {
      assert s[|s| - |t|..][k] == t[k];
    }
  }

  lemma EndsWithTransitive(s: string, t: string, u: string)
    requires EndsWith(s, t) && EndsWith(t, u)
    ensures EndsWith(s, u)
  {
    forall k | 0 <= k < |u| ensures s[|s| - |u|..][k] == u[k] {
      assert s[|s| - |u| + k] == t[|t| - |u| + k];
    }
  }

  /** Every returned path carries the extension, compared in lower case. */
  lemma SelectedHaveExtension(walk: seq<WalkEntry>, extension: string, p: string)
    requires p in Selected(walk, extension)
    ensures EndsWith(Lower(p), extension)
  {
    SelectedIff(walk, extension, p);
    var i, j :| 0 <= i < |walk| && 0 <= j < |walk[i].files| &&
      Wanted(walk[i].files[j], extension) && p == PathJoin(walk[i].subdir, walk[i].files[j]);
    var name := walk[i].files[j];
    PathJoinEndsWith(walk[i].subdir, name);
    LowerSuffix(p, name);
    EndsWithTransitive(Lower(p), Lower(name), extension);
  }

  predicate HasUpper(s: string) {
    exists k :: 0 <= k < |s| && 'A' <= s[k] <= 'Z'
  }

  lemma LowerCharNotUpper(c: char)
    ensures !('A' <= LowerChar(c) <= 'Z')
  {
  }

  /** A lower-cased name has no upper-case letter, so it cannot end with an extension that has one. */
  lemma UpperNeverWanted(file: string, extension: string)
    requires HasUpper(extension)
    ensures !Wanted(file, extension)
  {
    var k :| 0 <= k < |extension| && 'A' <= extension[k] <= 'Z';
    var name := Lower(file);
    if |extension| <= |name| {
      var i := |name| - |extension| + k;
      LowerCharNotUpper(file[i]);
      assert name[|name| - |extension|..][k] == name[i];
    }
  }

  lemma {:induction false} UpperNothingInDir(subdir: string, files: seq<string>, extension: string)
    requires HasUpper(extension)
    ensures InDir(subdir, files, extension) == []
    decreases |files|
  {
    if files != [] {
      UpperNothingInDir(subdir, files[..|files| - 1], extension);
      UpperNeverWanted(files[|files| - 1], extension);
    }
  }

  /** An extension with an upper-case letter never matches a lower-cased name, so nothing is returned. */
  lemma {:induction false} UpperExtensionSelectsNothing(walk: seq<WalkEntry>, extension: string)
    requires HasUpper(extension)
    ensures Selected(walk, extension) == []
    decreases |walk|
  {
    if walk != [] {
      var last := walk[|walk| - 1];
      UpperExtensionSelectsNothing(walk[..|walk| - 1], extension);
      UpperNothingInDir(last.subdir, last.files, extension);
    }
  }
}
