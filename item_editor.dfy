/** The icon-string helpers of Alacarte's launcher editor. The editor shows an
    item's `Icon` key in an image widget, which holds either a file or an
    icon-theme name. `SetIconString` puts a key value into the widget, and
    `GetIconString` turns the widget back into a key value. For an image file
    chosen from an icon-theme directory (`<dir>/<theme>/<size>/<category>/<icon>.png`),
    it gives the bare icon name. */
module ItemEditor {
  import opened PyStr

  datatype Option<T> = None | Some(value: T)

  /** The file extensions recognised as images; each is four characters long. */
  const EXTENSIONS: seq<string> := [".png", ".xpm", ".svg"]

  /** `s.endswith(EXTENSIONS)`: `s` ends with one of the image extensions. The
      same test reads as "the last four characters are an image extension". */
  predicate HasImageExtension(s: string)
    ensures HasImageExtension(s) <==> 4 <= |s| && s[|s| - 4..] in EXTENSIONS
  {
    exists e :: e in EXTENSIONS && EndsWith(s, e)
  }

  /** `GLib.path_is_absolute` on POSIX: the path starts with the separator. */
  predicate IsAbsolute(path: string) {
    |path| > 0 && path[0] == Sep
  }

  /** `strip_extensions`: removes one trailing image extension, if there is
      one. The result is always a prefix of the input, shorter by exactly the
      four characters of the extension when there is one, and the input itself
      otherwise. */
  function StripExtensions(icon: string): (r: string)
    ensures r <= icon
    ensures HasImageExtension(icon) <==> |r| == |icon| - 4
    ensures !HasImageExtension(icon) <==> r == icon
    ensures HasImageExtension(icon) ==> r + icon[|r|..] == icon && icon[|r|..] in EXTENSIONS
  {
    if HasImageExtension(icon) then icon[..|icon| - 4] else icon
  }

  /** The value of `resolved_path` after the search loop of `try_icon_name`:
      the first search-path entry that is a string prefix of `stem` is cut off
      and the leading separators are stripped from what is left. `None` when
      no entry is a prefix. The result is a suffix of `stem` that does not
      start with a separator. */
  function ResolvedPath(stem: string, searchPath: seq<string>): (r: Option<string>)
    ensures r.Some? ==> EndsWith(stem, r.value) && (r.value == [] || r.value[0] != Sep)
    decreases |searchPath|
  {
    if searchPath == [] then None
    else if searchPath[0] <= stem then
      var rest := stem[|searchPath[0]|..];
      var rel := LStrip(rest, Sep);
      assert stem[|stem| - |rel|..] == rest[|rest| - |rel|..];
      Some(rel)
    else ResolvedPath(stem, searchPath[1..])
  }

  /** What `try_icon_name(filename)` returns for the icon-theme search path
      `searchPath`. */
  function IconNameOf(filename: string, searchPath: seq<string>): string {
    if !HasImageExtension(filename) then filename
    else
      var stem := filename[..|filename| - 4];
      match ResolvedPath(stem, searchPath)
      case None => stem
      case Some(rel) =>
        var parts := Split(rel, Sep);
        if |parts| != 4 then stem else parts[3]
  }

  /** `try_icon_name`: walks the search path until the first entry that is a
      prefix of the file name without its extension. */
  method TryIconName(filename: string, searchPath: seq<string>) returns (r: string)
    ensures r == IconNameOf(filename, searchPath)
  {
    if !HasImageExtension(filename) {
      return filename;
    }
    var stem := filename[..|filename| - 4];
    var resolved: Option<string> := None;
    var i := 0;
    while i < |searchPath|
      invariant 0 <= i <= |searchPath|
      invariant resolved == None
      invariant ResolvedPath(stem, searchPath) == ResolvedPath(stem, searchPath[i..])
    {
      var path := searchPath[i];
      if path <= stem {
        assert searchPath[i..][0] == path;
        resolved := Some(LStrip(stem[|path|..], Sep));
        break;
      }
      assert searchPath[i..][1..] == searchPath[i + 1..];
      i := i + 1;
    }
    if resolved == None {
      return stem;
    }
    var parts := Split(resolved.value, Sep);
    if |parts| != 4 {
      return stem;
    }
    return parts[3];
  }

  /** The image widget of the launcher dialog, reduced to the two properties
      the helpers use. The widget shows one image source at a time: assigning
      `file` clears `icon_name` and assigning `icon_name` clears `file`. */
  class Image {
    var file: Option<string>
    var iconName: Option<string>

    constructor ()
      ensures file == None && iconName == None
    {
      file := None;
      iconName := None;
    }

    /** `image.props.file = path`. */
    method SetFile(path: string)
      modifies this
      ensures file == Some(path) && iconName == None
    {
      file := Some(path);
      iconName := None;
    }

    /** `image.props.icon_name = name`. */
    method SetIconName(name: string)
      modifies this
      ensures iconName == Some(name) && file == None
    {
      iconName := Some(name);
      file := None;
    }
  }

  /** `get_icon_string`: the `Icon` value the widget stands for. A file is
      turned into an icon name where it can be; otherwise the icon name held,
      which may be absent. */
  method GetIconString(image: Image, searchPath: seq<string>) returns (r: Option<string>)
    ensures image.file.Some? ==> r == Some(IconNameOf(image.file.value, searchPath))
    ensures image.file.None? ==> r == image.iconName
  {
    var filename := image.file;
    if filename != None {
      var name := TryIconName(filename.value, searchPath);
      return Some(name);
    }
    return image.iconName;
  }

  /** `set_icon_string`: an absolute path goes into the file slot unchanged;
      anything else is an icon name and goes, without its image extension, into
      the icon-name slot. */
  method SetIconString(image: Image, icon: string)
    modifies image
    ensures IsAbsolute(icon) ==> image.file == Some(icon) && image.iconName == None
    ensures !IsAbsolute(icon) ==> image.iconName == Some(StripExtensions(icon)) && image.file == None
  {
    if IsAbsolute(icon) {
      image.SetFile(icon);
    } else {
      image.SetIconName(StripExtensions(icon));
    }
  }

  /** The `Icon` path through the launcher editor: the key's value is loaded
      into a fresh image widget and read back when the launcher is saved. An
      icon name comes back without its image extension; an absolute path comes
      back as its icon-theme name where it has one. Either way the value written
      back is the loaded one with its extension stripped, or a separator-free
      suffix of that. */
  method ReloadedIconKey(icon: string, searchPath: seq<string>) returns (saved: Option<string>)
    ensures !IsAbsolute(icon) ==> saved == Some(StripExtensions(icon))
    ensures IsAbsolute(icon) ==> saved == Some(IconNameOf(icon, searchPath))
    ensures saved.Some?
    ensures saved.value == StripExtensions(icon)
         || (Sep !in saved.value && EndsWith(StripExtensions(icon), saved.value))
  {
    var image := new Image();
    SetIconString(image, icon);
    saved := GetIconString(image, searchPath);
    IconNameIsStrippedOrSuffix(icon, searchPath);
  }

  // ----- Properties of try_icon_name -----

  /** A name without an image extension is returned unchanged; otherwise the
      result is the name with its extension stripped, or a suffix of that
      containing no separator (the last component of a theme path). */
  lemma IconNameIsStrippedOrSuffix(filename: string, searchPath: seq<string>)
    ensures !HasImageExtension(filename) ==> IconNameOf(filename, searchPath) == filename
    ensures var r := IconNameOf(filename, searchPath);
      r == StripExtensions(filename)
      || (HasImageExtension(filename) && Sep !in r && EndsWith(StripExtensions(filename), r))
  {
    if HasImageExtension(filename) {
      var stem := filename[..|filename| - 4];
      assert StripExtensions(filename) == stem;
      var resolved := ResolvedPath(stem, searchPath);
      if resolved.Some? && |Split(resolved.value, Sep)| == 4 {
        FourthPieceIsSuffix(stem, resolved.value);
      }
    }
  }

  /** The fourth of four pieces of a suffix `rel` of `stem` is itself a suffix of `stem`. */
  lemma FourthPieceIsSuffix(stem: string, rel: string)
    requires EndsWith(stem, rel) && |Split(rel, Sep)| == 4
    ensures EndsWith(stem, Split(rel, Sep)[3]) && Sep !in Split(rel, Sep)[3]
  {
    LastPieceIsSuffix(rel, Sep);
    var last := Split(rel, Sep)[3];
    assert stem[|stem| - |last|..] == stem[|stem| - |rel|..][|rel| - |last|..];
  }

  /** `ResolvedPath` is `None` exactly when no search-path entry is a prefix of the stem. */
  lemma {:induction false} ResolvedPathNoneIff(stem: string, searchPath: seq<string>)
    ensures ResolvedPath(stem, searchPath).None?
        <==> forall i :: 0 <= i < |searchPath| ==> !(searchPath[i] <= stem)
    decreases |searchPath|
  {
    if searchPath != [] {
      ResolvedPathNoneIff(stem, searchPath[1..]);
      assert forall i :: 1 <= i < |searchPath| ==> searchPath[i] == searchPath[1..][i - 1];
    }
  }

  /** The first entry that is a prefix of the stem, and no later one, decides `ResolvedPath`. */
  lemma {:induction false} ResolvedPathFirstMatch(stem: string, searchPath: seq<string>, k: nat)
    requires k < |searchPath| && searchPath[k] <= stem
    requires forall j :: 0 <= j < k ==> !(searchPath[j] <= stem)
    ensures ResolvedPath(stem, searchPath) == Some(LStrip(stem[|searchPath[k]|..], Sep))
    decreases k
  {
    if k > 0 {
      assert !(searchPath[0] <= stem);
      ResolvedPathFirstMatch(stem, searchPath[1..], k - 1);
    }
  }

  /** When no search-path entry is a string prefix of the stripped name, the
      stripped name is the result. The test is on characters, not on whole
      path components. */
  lemma UnmatchedIsStripped(filename: string, searchPath: seq<string>)
    requires forall i :: 0 <= i < |searchPath| ==> !(searchPath[i] <= StripExtensions(filename))
    ensures IconNameOf(filename, searchPath) == StripExtensions(filename)
  {
    if HasImageExtension(filename) {
      ResolvedPathNoneIff(filename[..|filename| - 4], searchPath);
    }
  }

  /** Only the first matching search-path entry counts: the result is the same
      as with that entry alone. */
  lemma FirstMatchDecides(filename: string, searchPath: seq<string>, k: nat)
    requires k < |searchPath| && searchPath[k] <= StripExtensions(filename)
    requires forall j :: 0 <= j < k ==> !(searchPath[j] <= StripExtensions(filename))
    ensures IconNameOf(filename, searchPath) == IconNameOf(filename, [searchPath[k]])
  {
    if HasImageExtension(filename) {
      var stem := filename[..|filename| - 4];
      ResolvedPathFirstMatch(stem, searchPath, k);
      ResolvedPathFirstMatch(stem, [searchPath[k]], 0);
    }
  }

  /** Entries after a matching one are never consulted. */
  lemma {:induction false} LaterEntriesIgnored(filename: string, searchPath: seq<string>, later: seq<string>)
    requires exists i :: 0 <= i < |searchPath| && searchPath[i] <= StripExtensions(filename)
    ensures IconNameOf(filename, searchPath + later) == IconNameOf(filename, searchPath)
  {
    if HasImageExtension(filename) {
      var stem := filename[..|filename| - 4];
      ResolvedPathAppend(stem, searchPath, later);
    }
  }

  /** Appending entries after a matching one leaves `ResolvedPath` unchanged. */
  lemma {:induction false} ResolvedPathAppend(stem: string, searchPath: seq<string>, later: seq<string>)
    requires exists i :: 0 <= i < |searchPath| && searchPath[i] <= stem
    ensures ResolvedPath(stem, searchPath + later) == ResolvedPath(stem, searchPath)
    decreases |searchPath|
  {
    var all := searchPath + later;
    assert all[0] == searchPath[0];
    if !(searchPath[0] <= stem) {
      var i :| 0 <= i < |searchPath| && searchPath[i] <= stem;
      assert searchPath[1..][i - 1] == searchPath[i];
      assert all[1..] == searchPath[1..] + later;
      ResolvedPathAppend(stem, searchPath[1..], later);
    }
  }

  /** Once a relative path has been found, the result is its last component when
      it has exactly three separators (the shape `theme/size/category/icon`),
      and that component contains no separator; with any other number of
      separators the result is the stripped name. */
  lemma FourComponentsGiveIconName(filename: string, searchPath: seq<string>, rel: string)
    requires HasImageExtension(filename)
    requires ResolvedPath(StripExtensions(filename), searchPath) == Some(rel)
    ensures Occurrences(rel, Sep) == 3 ==>
      |Split(rel, Sep)| == 4 && IconNameOf(filename, searchPath) == Split(rel, Sep)[3]
      && Sep !in IconNameOf(filename, searchPath)
    ensures Occurrences(rel, Sep) != 3 ==> IconNameOf(filename, searchPath) == StripExtensions(filename)
  {
    SplitLength(rel, Sep);
  }

  /** An image file under a search-path directory, laid out as
      `<dir>/<theme>/<size>/<category>/<icon><ext>`, resolves to `icon`, provided
      `dir` is the first search-path entry that is a prefix of it. */
  lemma ThemeFileGivesIconName(dir: string, theme: string, size: string, category: string,
                               icon: string, ext: string, searchPath: seq<string>, k: nat)
    requires ext in EXTENSIONS
    requires theme != []
    requires Sep !in theme && Sep !in size && Sep !in category && Sep !in icon
    requires k < |searchPath| && searchPath[k] == dir
    requires forall j :: 0 <= j < k ==>
      !(searchPath[j] <= dir + [Sep] + theme + [Sep] + size + [Sep] + category + [Sep] + icon)
    ensures IconNameOf(dir + [Sep] + theme + [Sep] + size + [Sep] + category + [Sep] + icon + ext,
                       searchPath) == icon
  {
    var rel := theme + [Sep] + size + [Sep] + category + [Sep] + icon;
    var stem := dir + [Sep] + rel;
    assert stem == dir + [Sep] + theme + [Sep] + size + [Sep] + category + [Sep] + icon;
    ThemeStemResolves(dir, rel, searchPath, k);
    ThemePathSplits(theme, size, category, icon);
    StripAppendedExtension(stem, ext);
  }

  /** The stem `<dir>/<rel>` resolves to `rel` when `rel` does not start with a separator. */
  lemma ThemeStemResolves(dir: string, rel: string, searchPath: seq<string>, k: nat)
    requires rel != [] && rel[0] != Sep
    requires k < |searchPath| && searchPath[k] == dir
    requires forall j :: 0 <= j < k ==> !(searchPath[j] <= dir + [Sep] + rel)
    ensures ResolvedPath(dir + [Sep] + rel, searchPath) == Some(rel)
  {
    var stem := dir + [Sep] + rel;
    assert dir <= stem;
    assert stem[|dir|..] == [Sep] + rel;
    assert ([Sep] + rel)[1..] == rel;
    ResolvedPathFirstMatch(stem, searchPath, k);
  }

  /** `theme/size/category/icon` splits into its four components. */
  lemma ThemePathSplits(theme: string, size: string, category: string, icon: string)
    requires Sep !in theme && Sep !in size && Sep !in category && Sep !in icon
    ensures Split(theme + [Sep] + size + [Sep] + category + [Sep] + icon, Sep)
         == [theme, size, category, icon]
  {
    var parts := [theme, size, category, icon];
    JoinFour(theme, size, category, icon);
    assert forall i :: 0 <= i < |parts| ==> Sep !in parts[i];
    SplitOfJoin(parts, Sep);
  }

  /** Joining four components puts a separator between each neighbouring pair. */
  lemma JoinFour(a: string, b: string, c: string, d: string)
    ensures Join([a, b, c, d], Sep) == a + [Sep] + b + [Sep] + c + [Sep] + d
  {
    assert [c, d][1..] == [d];
    assert Join([c, d], Sep) == c + [Sep] + d;
    assert [b, c, d][1..] == [c, d];
    assert Join([b, c, d], Sep) == b + [Sep] + (c + [Sep] + d);
    assert [a, b, c, d][1..] == [b, c, d];
    assert Join([a, b, c, d], Sep) == a + [Sep] + (b + [Sep] + (c + [Sep] + d));
  }

  /** `strip_extensions` undoes appending an image extension. */
  lemma StripAppendedExtension(stem: string, ext: string)
    requires ext in EXTENSIONS
    ensures StripExtensions(stem + ext) == stem
  {
  }
}
