# Alacarte icon strings, in Dafny

Alacarte is a GTK editor for the freedesktop.org application menu. When it edits a
launcher, it turns the launcher's `Icon` key (an icon-theme name or an absolute file path)
into the dialog's image widget. When the launcher is saved, it turns the widget back
into an `Icon` value. This project models the four module-level helpers in
`Alacarte/ItemEditor.py` that do this, and proves what they compute:

- `strip_extensions` drops one trailing `.png`, `.xpm` or `.svg`.
- `try_icon_name` turns an image file inside an icon-theme directory,
  `<dir>/<theme>/<size>/<category>/<icon>.png`, into the bare icon name `icon`.
  It keeps any other image file as its path without the extension, and returns
  a name without an image extension unchanged.
- `set_icon_string` puts an absolute path into the widget's file slot and anything else,
  without its extension, into the icon-name slot.
- `get_icon_string` reads the file slot through `try_icon_name` when it is set, and the
  icon name otherwise.

The files:

- `py_str.dfy` (module `PyStr`) models the Python string methods the helpers use:
  `endswith`, `lstrip`, `split` and `join`, with `os.sep` as `/`.
  `Split` is proved to be the inverse of `Join`.
- `item_editor.dfy` (module `ItemEditor`) models the helpers, the widget (class `Image`) and the
  properties of `try_icon_name`. The method `TryIconName` keeps the source's search loop
  and its early exit. It is proved equal to the function `IconNameOf`, which is built on
  the recursive first-match function `ResolvedPath`. All lemmas are stated about that function.

The icon theme's search path (`Gtk.IconTheme.get_default().get_search_path()`) is a
parameter `searchPath: seq<string>`. `GLib.path_is_absolute` is modelled as "starts with
`/`" (`IsAbsolute`). The widget is modelled after GtkImage. It holds one image source at
a time, so assigning `file` clears `icon_name` and assigning `icon_name` clears `file`.
That is how the two property assignments in `set_icon_string` behave on the real widget.

## Model

| member | source | states |
|---|---|---|
| ItemEditor.HasImageExtension | Alacarte/ItemEditor.py:28-33 | `endswith(EXTENSIONS)` holds exactly when the last four characters are `.png`, `.xpm` or `.svg`, since every extension is four characters long |
| ItemEditor.StripExtensions | Alacarte/ItemEditor.py:62-66 | the result is a prefix of the input. It is four characters shorter exactly when the input ends with an image extension, and equals the input exactly when it does not. Result plus the removed tail gives the input back, and the tail is one of the extensions |
| ItemEditor.StripAppendedExtension | Alacarte/ItemEditor.py:62-66 | stripping undoes appending any of the extensions |
| ItemEditor.ResolvedPath | Alacarte/ItemEditor.py:39-43 | the relative path found by the search loop is a suffix of the stem and never starts with a separator |
| ItemEditor.ResolvedPathNoneIff | Alacarte/ItemEditor.py:39-45 | no relative path is found exactly when no search-path entry is a string prefix of the stem |
| ItemEditor.ResolvedPathFirstMatch | Alacarte/ItemEditor.py:40-43 | when entry k is the first entry that is a prefix, the relative path is the stem with entry k cut off and the leading separators stripped |
| ItemEditor.ResolvedPathAppend | Alacarte/ItemEditor.py:40-43 | entries after a matching entry do not change the relative path |
| ItemEditor.TryIconName | Alacarte/ItemEditor.py:30-53 | the loop with its early exit computes `IconNameOf`, the function that all the lemmas below are about |
| ItemEditor.IconNameIsStrippedOrSuffix | Alacarte/ItemEditor.py:30-53 | a name without an image extension comes back unchanged. Any result is the name with its extension stripped, or a separator-free suffix of that, so it is always derived from the stem |
| ItemEditor.FourthPieceIsSuffix | Alacarte/ItemEditor.py:48-53 | the fourth of four pieces of a relative path is a separator-free suffix of the stem |
| ItemEditor.UnmatchedIsStripped | Alacarte/ItemEditor.py:36-46 | if no entry is a string prefix of the stripped name, the result is the stripped name. The prefix test is on characters, not on whole path components |
| ItemEditor.FirstMatchDecides | Alacarte/ItemEditor.py:40-43 | the result is the same as with the first matching entry alone |
| ItemEditor.LaterEntriesIgnored | Alacarte/ItemEditor.py:40-43 | appending entries after a matching entry does not change the result |
| ItemEditor.FourComponentsGiveIconName | Alacarte/ItemEditor.py:48-53 | when the relative path has exactly three separators (four components), the result is the fourth component and contains no separator. Otherwise the result is the stem |
| ItemEditor.ThemeFileGivesIconName | Alacarte/ItemEditor.py:30-53 | `<dir>/<theme>/<size>/<category>/<icon><ext>` with a non-empty theme and separator-free components gives `icon`, when `dir` is the first matching entry |
| ItemEditor.ThemeStemResolves | Alacarte/ItemEditor.py:40-43 | `<dir>/<rel>` resolves to `rel` when `rel` does not start with a separator and `dir` is the first matching entry |
| ItemEditor.ThemePathSplits | Alacarte/ItemEditor.py:48-49 | `theme/size/category/icon` splits into exactly those four components |
| ItemEditor.Image.constructor | Alacarte/ItemEditor.py:78-79 | a newly built image widget holds neither a file nor an icon name |
| ItemEditor.Image.SetFile | Alacarte/ItemEditor.py:70 | assigning `file` sets the file slot and clears the icon-name slot |
| ItemEditor.Image.SetIconName | Alacarte/ItemEditor.py:72 | assigning `icon_name` sets the icon-name slot and clears the file slot |
| ItemEditor.GetIconString | Alacarte/ItemEditor.py:55-60 | if the file slot is set, the result is `try_icon_name` of the file. Otherwise it is the icon name, which may be absent |
| ItemEditor.SetIconString | Alacarte/ItemEditor.py:68-72 | an absolute path is stored verbatim in the file slot. Anything else is stored in the icon-name slot with its extension stripped. The other slot ends up empty |
| ItemEditor.ReloadedIconKey | Alacarte/ItemEditor.py:113-135 | an `Icon` value loaded into the widget and read back on save is present. For an icon name it is the name with its extension stripped, and for an absolute path it is `try_icon_name` of the path. Either way it is the stripped value or a separator-free suffix of it |
| PyStr.LStrip | Alacarte/ItemEditor.py:42 | `lstrip(os.sep)` removes a leading run made only of separators. What is left is a suffix that does not start with a separator |
| PyStr.Split | Alacarte/ItemEditor.py:48 | `split(os.sep)` gives at least one piece, no piece contains the separator, and joining the pieces gives the input back |
| PyStr.SplitOfJoin | Alacarte/ItemEditor.py:48 | splitting undoes joining pieces that are free of separators. With the contract of `Split`, the two are inverses |
| PyStr.SplitLength | Alacarte/ItemEditor.py:48-50 | the number of pieces is the number of separators plus one |
| PyStr.LastPieceIsSuffix | Alacarte/ItemEditor.py:48-53 | the last piece is a suffix of the split string |

## Left out

- The `LauncherEditor` class (Alacarte/ItemEditor.py:76-165): key-file loading and saving,
  widget lookup, file-chooser dialogs and file writes are toolkit and I/O work.
  `ReloadedIconKey` covers only how the `Icon` key passes through `load` and `save`.
- `ReloadedIconKey`: does not model a launcher without an `Icon` key. In that case `load` leaves
  the widget as the builder file made it, and that file is not part of this model.
- `Image.SetFile`: does not model an image file that fails to load. GtkImage then shows a
  fallback icon name instead of a file, and that depends on the file system.
- The icon search path is a parameter. Querying the default icon theme is toolkit behaviour.
- `IsAbsolute`: models `GLib.path_is_absolute` on POSIX only (a leading `/`). It ignores Windows drive letters.
- `test()` and the `__main__` entry point (Alacarte/ItemEditor.py:167-178) only start the dialog.
- `Alacarte/MainWindow.py`: GTK signal handlers, tree and list stores, drag and drop,
  timers and dialogs. Every change to the menu goes through the `MenuEditor` overlay and
  undo engine, and `MenuEditor` is not part of this model.
