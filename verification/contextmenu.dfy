/** The file explorer's context menu (public/app.js:1510-1647, 1655-1741).
    A right-click on a file or folder opens the `file` menu for it; one on
    the empty part of the tree opens the `empty` menu. Which actions are
    offered depends on how many paths are selected and on whether the
    target's name ends in `.zip`; choosing one runs the effect
    `handleContextMenuAction` assigns to it for the menu's kind. */
module ContextMenu {
  import opened Wrappers
  import opened Strings

  datatype Kind = EmptyArea | FileItem

  /** The `data-action` of a menu entry. `Paste` is handled but never offered. */
  datatype Action =
    | NewFile | NewFolder | Upload | Paste | Refresh | Zip | ClearSelection
    | Open | Rename | Copy | Delete | Unzip | Download | Properties

  /** The right-clicked entry: `dataset.path` and `dataset.isDirectory`. */
  datatype Target = Target(path: string, isDirectory: bool)

  datatype Heading = CreateHeading | ItemsHeading(count: nat) | ActionsHeading

  /** The menu's heading and its entries in display order (separators are
      layout only). */
  datatype Menu = Menu(heading: Heading, actions: seq<Action>)

  /** What choosing an entry does. */
  datatype Effect =
    | NoEffect
    | CreateFile | CreateFolder | PickUploads | ReloadTree | ComingSoon
    | ListFolder(folder: string) | OpenInEditor(file: string)
    | AskNewName(path: string) | ConfirmDelete(path: string)
    | DownloadFile(path: string) | ShowProperties(path: string)
    | WarnNothingSelected | PreviewZip | Extract(archive: string) | ClearSel

  /** `filePath.toLowerCase().endsWith('.zip')`. */
  predicate IsZip(path: string)
  {
    EndsWith(Lower(path), ".zip")
  }

  /** The path the file menu works on: the target's, or `''` without one. */
  function TargetPath(target: Option<Target>): string
  {
    if target.Some? then target.value.path else ""
  }

  /** `updateContextMenuContent(type)` with `selectedFiles.size == count`. */
  function MenuFor(kind: Kind, count: nat, target: Option<Target>): (m: Menu)
    ensures kind == EmptyArea ==> m.heading == CreateHeading
    ensures kind == FileItem ==> (m.heading == ItemsHeading(count) <==> count > 1)
    ensures kind == FileItem ==> (m.heading == ActionsHeading <==> count <= 1)
  {
    MenuOf(kind, count, IsZip(TargetPath(target)))
  }

  /** The menu, given whether the target's name ends in `.zip`. */
  function MenuOf(kind: Kind, count: nat, zip: bool): (m: Menu)
  {
    match kind
    case EmptyArea =>
      Menu(CreateHeading,
           [NewFile, NewFolder, Upload, Refresh] + (if count > 0 then [Zip, ClearSelection] else []))
    case FileItem =>
      var single := if count <= 1 then [Open, Rename] else [];
      var zipEntry := if count > 0 then [Zip] else [];
      var unzip := if zip && count == 1 then [Unzip] else [];
      var tail := if count <= 1 then [Download, Properties] else [];
      Menu(if count > 1 then ItemsHeading(count) else ActionsHeading,
           single + [Copy, Delete] + zipEntry + unzip + tail)
  }

  /** The rule for each entry, one action at a time, as a reference for the
      menu: which actions a menu of this kind offers. */
  predicate Offered(kind: Kind, count: nat, zip: bool, a: Action)
  {
    match kind
    case EmptyArea =>
      || a == NewFile || a == NewFolder || a == Upload || a == Refresh
      || ((a == Zip || a == ClearSelection) && count > 0)
    case FileItem =>
      || ((a == Open || a == Rename || a == Download || a == Properties) && count <= 1)
      || a == Copy || a == Delete
      || (a == Zip && count > 0)
      || (a == Unzip && count == 1 && zip)
  }

  /** `handleContextMenuAction(action, type)` as written: the `empty` branch
      knows only the create-side actions. */
  function Dispatch(kind: Kind, a: Action, count: nat, target: Option<Target>): (e: Effect)
    ensures kind == EmptyArea && a in {Zip, ClearSelection} ==> e == NoEffect
    ensures kind == FileItem && target.None? ==> e == NoEffect
  {
    match kind
    case EmptyArea =>
      (match a
       case NewFile => CreateFile
       case NewFolder => CreateFolder
       case Upload => PickUploads
       case Paste => ComingSoon
       case Refresh => ReloadTree
       case _ => NoEffect)
    case FileItem =>
      if target.None? then NoEffect
      else FileEffect(a, count, target.value)
  }

  /** The `file` branch of `handleContextMenuAction` for a present target. */
  function FileEffect(a: Action, count: nat, t: Target): (e: Effect)
    ensures a == Download && t.isDirectory ==> e == NoEffect
    ensures a == Unzip ==> (e == Extract(t.path) <==> IsZip(t.path))
    ensures a == Zip ==> (e == PreviewZip <==> count > 0)
  {
    match a
    case Open => if t.isDirectory then ListFolder(t.path) else OpenInEditor(t.path)
    case Rename => AskNewName(t.path)
    case Copy => ComingSoon
    case Delete => ConfirmDelete(t.path)
    case Download => if t.isDirectory then NoEffect else DownloadFile(t.path)
    case Properties => ShowProperties(t.path)
    case Zip => if count == 0 then WarnNothingSelected else PreviewZip
    case Unzip => if |t.path| > 0 && IsZip(t.path) then Extract(t.path) else NoEffect
    case ClearSelection => ClearSel
    case _ => NoEffect
  }

  /** The dispatch with the empty-area menu's own two entries handled the
      way the file menu handles them. */
  function DispatchFixed(kind: Kind, a: Action, count: nat, target: Option<Target>): (e: Effect)
    ensures kind == FileItem ==> e == Dispatch(kind, a, count, target)
    ensures kind == EmptyArea && a !in {Zip, ClearSelection} ==> e == Dispatch(kind, a, count, target)
  {
    match kind
    case EmptyArea =>
      (match a
       case Zip => if count == 0 then WarnNothingSelected else PreviewZip
       case ClearSelection => ClearSel
       case _ => Dispatch(kind, a, count, target))
    case FileItem => Dispatch(kind, a, count, target)
  }

  /** The menu offers exactly the actions the per-entry rules allow. */
  lemma MenuMatchesRules(kind: Kind, count: nat, zip: bool, a: Action)
    ensures a in MenuOf(kind, count, zip).actions <==> Offered(kind, count, zip, a)
  {
    if kind == EmptyArea {
      EmptyMenuRules(count, zip, a);
    } else if count <= 1 {
      SingleMenuRules(count, zip, a);
    } else {
      assert MenuOf(kind, count, zip).actions == [Copy, Delete, Zip];
    }
  }

  /** The empty-area menu against the rules. */
  lemma EmptyMenuRules(count: nat, zip: bool, a: Action)
    ensures a in MenuOf(EmptyArea, count, zip).actions <==> Offered(EmptyArea, count, zip, a)
  {
  }

  /** The file menu for at most one selected path against the rules. */
  lemma SingleMenuRules(count: nat, zip: bool, a: Action)
    requires count <= 1
    ensures a in MenuOf(FileItem, count, zip).actions <==> Offered(FileItem, count, zip, a)
  {
  }

  /** No action is offered twice. */
  lemma MenuHasNoRepeats(kind: Kind, count: nat, zip: bool)
    ensures var acts := MenuOf(kind, count, zip).actions;
      forall i, j :: 0 <= i < j < |acts| ==> acts[i] != acts[j]
  {
    MenuListing(kind, count, zip);
  }

  /** The menu spelled out case by case. */
  lemma MenuListing(kind: Kind, count: nat, zip: bool)
    ensures var acts := MenuOf(kind, count, zip).actions;
      && (kind == EmptyArea && count == 0 ==> acts == [NewFile, NewFolder, Upload, Refresh])
      && (kind == EmptyArea && count > 0 ==> acts == [NewFile, NewFolder, Upload, Refresh, Zip, ClearSelection])
      && (kind == FileItem && count == 0 ==> acts == [Open, Rename, Copy, Delete, Download, Properties])
      && (kind == FileItem && count == 1 && zip ==> acts == [Open, Rename, Copy, Delete, Zip, Unzip, Download, Properties])
      && (kind == FileItem && count == 1 && !zip ==> acts == [Open, Rename, Copy, Delete, Zip, Download, Properties])
      && (kind == FileItem && count > 1 ==> acts == [Copy, Delete, Zip])
  {
  }

  /** With several paths selected, the entries that act on one path alone
      (open, rename, download, properties, extract) are withdrawn. */
  lemma MultiSelectionHidesSingleActions(count: nat, target: Option<Target>)
    requires count > 1
    ensures var acts := MenuFor(FileItem, count, target).actions;
      && Open !in acts && Rename !in acts && Download !in acts
      && Properties !in acts && Unzip !in acts
      && acts == [Copy, Delete, Zip]
  {
  }

  /** Extracting is offered only for one selected path whose target name ends
      in `.zip` in any letter case, and then it extracts that archive. */
  lemma UnzipOnlyForOneArchive(count: nat, t: Target)
    requires Unzip in MenuFor(FileItem, count, Some(t)).actions
    ensures count == 1 && IsZip(t.path)
    ensures Dispatch(FileItem, Unzip, count, Some(t)) == Extract(t.path)
  {
  }

  /** As written, the empty-area menu offers "create zip" and "clear
      selection" once something is selected, but choosing either does
      nothing. */
  lemma EmptyMenuEntriesIgnored(count: nat)
    requires count > 0
    ensures Zip in MenuFor(EmptyArea, count, None).actions
    ensures ClearSelection in MenuFor(EmptyArea, count, None).actions
    ensures Dispatch(EmptyArea, Zip, count, None) == NoEffect
    ensures Dispatch(EmptyArea, ClearSelection, count, None) == NoEffect
  {
  }

  /** With the fix, every offered entry does something, except downloading a
      folder, which the handler refuses on purpose. */
  lemma EveryOfferedEntryActs(kind: Kind, count: nat, target: Option<Target>, a: Action)
    requires kind == FileItem ==> target.Some?
    requires a in MenuFor(kind, count, target).actions
    requires !(a == Download && target.Some? && target.value.isDirectory)
    ensures DispatchFixed(kind, a, count, target) != NoEffect
  {
    var zip := IsZip(TargetPath(target));
    MenuMatchesRules(kind, count, zip, a);
    if kind == FileItem && a == Unzip {
      assert |Lower(target.value.path)| == |target.value.path|;
    }
  }
}
