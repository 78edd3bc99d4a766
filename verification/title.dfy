/**
 * The window title: the application name, preceded by the base name of the
 * current file when there is one, and marked with `* ` while the document
 * has unsaved changes.
 */
module Title {

  import opened Wrappers

  const AppName: string := "Malemon"

  /** What follows a file's base name in the title. */
  const NameSuffix: string := " - Malemon"

  /** What precedes the title of a document with unsaved changes. */
  const ModifiedMark: string := "* "

  /** `os.path.basename` on POSIX: everything after the last `/`. */
  function Basename(path: string): (r: string)
    ensures |r| <= |path| && path[|path| - |r|..] == r
    ensures forall i :: 0 <= i < |r| ==> r[i] != '/'
    ensures |r| == |path| || path[|path| - |r| - 1] == '/'
  {
    if path == [] || path[|path| - 1] == '/' then []
    else Basename(path[..|path| - 1]) + [path[|path| - 1]]
  }

  /** The name the title shows for the current file: none when there is no file or its path is empty. */
  function ShownName(file: Option<string>): Option<string> {
    if file.Some? && file.value != [] then Some(Basename(file.value)) else None
  }

  /** The title begins with the modified mark `* `. */
  predicate Marked(t: string) {
    |t| >= 2 && t[0] == '*' && t[1] == ' '
  }

  predicate HasSuffix(s: string, p: string) {
    |p| <= |s| && s[|s| - |p|..] == p
  }

  /** `update_title`. */
  function Title(file: Option<string>, modified: bool): (r: string)
    ensures HasSuffix(r, AppName)
    ensures modified ==> Marked(r)
    ensures !modified && ShownName(file).None? ==> r == AppName
  {
    var base := match ShownName(file)
      case None => AppName
      case Some(name) => name + NameSuffix;
    assert base[|base| - |AppName|..] == AppName;
    if modified then ModifiedMark + base else base
  }

  /** The parts a title is made of. */
  datatype TitleParts = TitleParts(name: Option<string>, modified: bool)

  /** Reads the name and the modified flag back from a title, if it has the title's shape. */
  function ParseTitle(t: string): (r: Option<TitleParts>)
    ensures r.Some? ==> (r.value.modified <==> Marked(t))
    ensures r.Some? && r.value.name.None? ==> t == AppName || t == ModifiedMark + AppName
  {
    var modified := Marked(t);
    var rest := if modified then t[2..] else t;
    assert modified ==> t == ModifiedMark + rest;
    if rest == AppName then Some(TitleParts(None, modified))
    else if HasSuffix(rest, NameSuffix) then Some(TitleParts(Some(rest[..|rest| - |NameSuffix|]), modified))
    else None
  }

  /**
   * The title gives back the name shown and the modified flag, unless the
   * title of the unmodified document already begins with the modified mark.
   */
  lemma TitleRoundTrip(file: Option<string>, modified: bool)
    requires modified || !Marked(Title(file, false))
    ensures ParseTitle(Title(file, modified)) == Some(TitleParts(ShownName(file), modified))
  {
    var base := Title(file, false);
    var t := Title(file, modified);
    assert t == if modified then ModifiedMark + base else base;
    if modified {
      assert t[2..] == base;
    }
    match ShownName(file)
    case None =>
    case Some(name) =>
      assert base == name + NameSuffix;
      assert base != AppName by {
        assert |base| > |AppName|;
      }
      assert base[|base| - |NameSuffix|..] == NameSuffix;
      assert base[..|base| - |NameSuffix|] == name;
  }

  /**
   * The exception: an unmodified file named `* x` has the title of a
   * modified file named `x`.
   */
  lemma TitleCollision(name: string)
    requires name != [] && forall i :: 0 <= i < |name| ==> name[i] != '/'
    ensures Title(Some(ModifiedMark + name), false) == Title(Some(name), true)
  {
    var marked := ModifiedMark + name;
    forall i | 0 <= i < |marked| ensures marked[i] != '/' {
      if i >= 2 {
        assert marked[i] == name[i - 2];
      }
    }
    BasenameOfName(name);
    BasenameOfName(marked);
    assert ShownName(Some(marked)) == Some(marked);
    assert ShownName(Some(name)) == Some(name);
    assert marked + NameSuffix == ModifiedMark + (name + NameSuffix);
  }

  /** A file's directories never show in the title. */
  lemma DirectoriesHidden(dir: string, name: string, modified: bool)
    requires name != [] && forall i :: 0 <= i < |name| ==> name[i] != '/'
    ensures Title(Some(dir + "/" + name), modified) == Title(Some(name), modified)
  {
    BasenameOfJoin(dir, name);
    BasenameOfName(name);
  }

  lemma {:induction false} BasenameOfJoin(dir: string, name: string)
    requires forall i :: 0 <= i < |name| ==> name[i] != '/'
    ensures Basename(dir + "/" + name) == name
  {
    var p := dir + "/" + name;
    if name != [] {
      var init := name[..|name| - 1];
      assert p[..|p| - 1] == dir + "/" + init;
      BasenameOfJoin(dir, init);
      assert name == init + [name[|name| - 1]];
    }
  }

  lemma {:induction false} BasenameOfName(name: string)
    requires forall i :: 0 <= i < |name| ==> name[i] != '/'
    ensures Basename(name) == name
  {
    if name != [] {
      var init := name[..|name| - 1];
      BasenameOfName(init);
      assert name == init + [name[|name| - 1]];
    }
  }
}
