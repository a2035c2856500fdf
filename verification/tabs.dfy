/** The editor's open tabs (public/app.js:1113-1160, 1220-1303, 1330-1371).
    `openTabs` is a list of tabs, `activeTabIndex` the one shown (-1 when none),
    `currentFile` its path, and the Monaco editor holds the text being edited,
    `buffer`. A tab's own `content` is only brought up to date from the buffer
    when another tab is switched to or the file is saved, so the text a user
    would see in tab `i` is the buffer for the active tab and the stored
    content for every other one (`Views`). */
module EditorTabs {
  import opened Wrappers
  import opened FileTypes

  datatype Tab = Tab(path: string, filename: string, content: string, modified: bool, language: string)

  datatype Editor = Editor(tabs: seq<Tab>, active: int, currentFile: Option<string>, buffer: string)

  const Initial := Editor([], -1, None, "")

  /** The body of a successful `/api/file/read` reply. */
  datatype FileData = FileData(filename: string, content: string)

  /** A `/api/file/write` request. */
  datatype WriteRequest = WriteRequest(path: string, content: string)

  /** The text of every tab as the user would find it. */
  function Views(e: Editor): (v: seq<string>)
    ensures |v| == |e.tabs|
    ensures forall i :: 0 <= i < |v| && i != e.active ==> v[i] == e.tabs[i].content
    ensures 0 <= e.active < |v| ==> v[e.active] == e.buffer
  {
    seq(|e.tabs|, i requires 0 <= i < |e.tabs| => if i == e.active then e.buffer else e.tabs[i].content)
  }

  /** The paths of the tabs, in order. */
  function Paths(tabs: seq<Tab>): (ps: seq<string>)
    ensures |ps| == |tabs|
    ensures forall i :: 0 <= i < |tabs| ==> ps[i] == tabs[i].path
  {
    seq(|tabs|, i requires 0 <= i < |tabs| => tabs[i].path)
  }

  /** No path is open twice. */
  predicate Distinct(ps: seq<string>)
  {
    forall i, j :: 0 <= i < j < |ps| ==> ps[i] != ps[j]
  }

  /** The editor's consistency: the active index is a tab, or -1 exactly when
      there is none; `currentFile` is the active tab's path; no file is open
      in two tabs. */
  predicate Inv(e: Editor)
  {
    && -1 <= e.active < |e.tabs|
    && (e.active == -1 <==> |e.tabs| == 0)
    && (e.active == -1 ==> e.currentFile == None)
    && (e.active >= 0 ==> e.currentFile == Some(e.tabs[e.active].path))
    && Distinct(Paths(e.tabs))
  }

  /** `openTabs.findIndex(tab => tab.path === path)`, searching from `k` on. */
  function FindFrom(tabs: seq<Tab>, path: string, k: nat): (i: int)
    requires k <= |tabs|
    ensures i == -1 || k <= i < |tabs|
    ensures i >= 0 ==> tabs[i].path == path && forall j :: k <= j < i ==> tabs[j].path != path
    ensures i == -1 ==> forall j :: k <= j < |tabs| ==> tabs[j].path != path
    decreases |tabs| - k
  {
    if k == |tabs| then -1
    else if tabs[k].path == path then k
    else FindFrom(tabs, path, k + 1)
  }

  /** `openTabs.findIndex(...)`. */
  function FindTab(tabs: seq<Tab>, path: string): (i: int)
    ensures i == -1 <==> path !in Paths(tabs)
    ensures i >= 0 ==> i < |tabs| && tabs[i].path == path
  {
    var i := FindFrom(tabs, path, 0);
    if i == -1 then
      assert forall j :: 0 <= j < |tabs| ==> Paths(tabs)[j] != path;
      i
    else i
  }

  /** `openTabs[activeTabIndex]` exists. */
  predicate HasActive(e: Editor)
  {
    0 <= e.active < |e.tabs|
  }

  /** `after` is `before` with tab `k`, if there is one, flagged as
      modified, and nothing else changed. */
  predicate Flagged(before: seq<Tab>, after: seq<Tab>, k: int)
  {
    && |after| == |before|
    && forall i :: 0 <= i < |before| ==> after[i] == before[i].(modified := before[i].modified || i == k)
  }

  /** A change of the Monaco editor's content, typed by the user or made by
      `setValue`: the editor holds `text`, and the change handler
      (`markCurrentTabAsModified`, registered on `onDidChangeModelContent`)
      flags the active tab, if any, as modified. */
  function Edit(e: Editor, text: string): (r: Editor)
    ensures r.buffer == text && r.active == e.active && r.currentFile == e.currentFile
    ensures Flagged(e.tabs, r.tabs, e.active)
  {
    var tabs := if HasActive(e) then e.tabs[e.active := e.tabs[e.active].(modified := true)] else e.tabs;
    Editor(tabs, e.active, e.currentFile, text)
  }

  /** The tabs after the editor text is written back into the active tab. */
  function Store(e: Editor): (tabs: seq<Tab>)
    ensures |tabs| == |e.tabs| && Paths(tabs) == Paths(e.tabs)
    ensures forall i :: 0 <= i < |tabs| ==> tabs[i].content == Views(e)[i]
    ensures forall i :: 0 <= i < |tabs| ==> tabs[i].modified == e.tabs[i].modified
  {
    if HasActive(e) then e.tabs[e.active := e.tabs[e.active].(content := e.buffer)] else e.tabs
  }

  /** Makes tab `index` active and loads its text with `setValue`, which
      flags it as modified. */
  function Load(tabs: seq<Tab>, index: int): (r: Editor)
    requires 0 <= index < |tabs|
    ensures r.active == index && r.buffer == tabs[index].content
    ensures r.currentFile == Some(tabs[index].path)
    ensures Flagged(tabs, r.tabs, index)
  {
    Edit(Editor(tabs, index, Some(tabs[index].path), ""), tabs[index].content)
  }

  /** `switchToTab(index)`: an index that is no tab only clears the editor
      (`setValue('')`, which flags the active tab); otherwise the editor text
      is stored into the active tab, and the chosen tab becomes active and is
      loaded. */
  function SwitchTo(e: Editor, index: int): (r: Editor)
    ensures !(0 <= index < |e.tabs|) ==>
      && r.buffer == "" && r.active == e.active && r.currentFile == e.currentFile
      && Flagged(e.tabs, r.tabs, e.active)
    ensures 0 <= index < |e.tabs| ==>
      && Flagged(Store(e), r.tabs, index)
      && r.active == index
      && r.currentFile == Some(e.tabs[index].path)
      && r.buffer == Views(e)[index]
  {
    if index < 0 || index >= |e.tabs| then Edit(e, "")
    else Load(Store(e), index)
  }

  /** The tab `openFileInEditor` creates for a file read from the server,
      before `setValue` flags it. */
  function NewTab(path: string, data: FileData): (t: Tab)
    ensures t.path == path && t.content == data.content && !t.modified
    ensures t.language == DetectLanguage(data.filename)
  {
    Tab(path, data.filename, data.content, false, DetectLanguage(data.filename))
  }

  /** `openFileInEditor`, as written. The reply to `/api/file/read` is a
      file, or `None` for an error reply, which changes nothing. An open path
      is switched to; a new one is appended and loaded, without first storing
      the editor text into the tab that was active. */
  function OpenFile(e: Editor, path: string, reply: Option<FileData>): (r: Editor)
    ensures reply.None? ==> r == e
    ensures reply.Some? && path in Paths(e.tabs) ==> r == SwitchTo(e, FindTab(e.tabs, path))
    ensures reply.Some? && path !in Paths(e.tabs) ==>
      && r.tabs == e.tabs + [NewTab(path, reply.value).(modified := true)]
      && r.active == |e.tabs|
      && r.currentFile == Some(path)
      && r.buffer == reply.value.content
  {
    if reply.None? then e
    else
      var i := FindTab(e.tabs, path);
      if i != -1 then SwitchTo(e, i)
      else Load(e.tabs + [NewTab(path, reply.value)], |e.tabs|)
  }

  /** `openFileInEditor` as evidently intended: the active tab keeps its
      edits when a new file is opened next to it. */
  function OpenFileFixed(e: Editor, path: string, reply: Option<FileData>): (r: Editor)
    ensures reply.None? ==> r == e
    ensures reply.Some? && path in Paths(e.tabs) ==> r == SwitchTo(e, FindTab(e.tabs, path))
    ensures reply.Some? && path !in Paths(e.tabs) ==>
      && r.tabs == Store(e) + [NewTab(path, reply.value).(modified := true)]
      && r.active == |e.tabs|
      && r.currentFile == Some(path)
      && r.buffer == reply.value.content
  {
    if reply.None? then e
    else
      var i := FindTab(e.tabs, path);
      if i != -1 then SwitchTo(e, i)
      else Load(Store(e) + [NewTab(path, reply.value)], |e.tabs|)
  }

  /** The list without the tab at `index`. */
  function Without(tabs: seq<Tab>, index: int): (r: seq<Tab>)
    requires 0 <= index < |tabs|
    ensures |r| == |tabs| - 1
    ensures forall i :: 0 <= i < index ==> r[i] == tabs[i]
    ensures forall i :: index <= i < |r| ==> r[i] == tabs[i + 1]
  {
    tabs[..index] + tabs[index + 1..]
  }

  /** `closeTab(index)`, as written. A missing tab throws before anything
      changes; a modified tab stays unless the user confirms. When the active
      tab is closed its successor (or, for the last tab, its predecessor) is
      switched to with `switchToTab`, which first stores the editor text, the
      closed tab's text, into that tab. */
  function CloseTab(e: Editor, index: int, confirmed: bool): (r: Editor)
    ensures !(0 <= index < |e.tabs|) ==> r == e
    ensures 0 <= index < |e.tabs| && e.tabs[index].modified && !confirmed ==> r == e
    ensures 0 <= index < |e.tabs| && (!e.tabs[index].modified || confirmed) ==>
      && Paths(r.tabs) == Paths(Without(e.tabs, index))
      && (e.active != index ==> r.tabs == Without(e.tabs, index) && r.buffer == e.buffer)
  {
    if !(0 <= index < |e.tabs|) then e
    else if e.tabs[index].modified && !confirmed then e
    else
      var tabs := Without(e.tabs, index);
      var e1 := e.(tabs := tabs);
      if e.active == index then
        if |tabs| == 0 then Editor([], -1, None, "")
        else if e.active >= |tabs| then SwitchTo(e1.(active := |tabs| - 1), |tabs| - 1)
        else SwitchTo(e1, e.active)
      else if e.active > index then e1.(active := e.active - 1)
      else e1
  }

  /** `closeTab` as evidently intended: the tab that becomes active is loaded
      as it was, without the closed tab's text written into it. */
  function CloseTabFixed(e: Editor, index: int, confirmed: bool): (r: Editor)
    ensures !(0 <= index < |e.tabs|) ==> r == e
    ensures 0 <= index < |e.tabs| && e.tabs[index].modified && !confirmed ==> r == e
    ensures 0 <= index < |e.tabs| && (!e.tabs[index].modified || confirmed) ==>
      && Paths(r.tabs) == Paths(Without(e.tabs, index))
      && (forall i :: 0 <= i < |r.tabs| ==> r.tabs[i].content == Without(e.tabs, index)[i].content)
      && (e.active != index ==> r.tabs == Without(e.tabs, index) && r.buffer == e.buffer)
  {
    if !(0 <= index < |e.tabs|) then e
    else if e.tabs[index].modified && !confirmed then e
    else
      var tabs := Without(e.tabs, index);
      if e.active == index then
        if |tabs| == 0 then Editor([], -1, None, "")
        else if e.active >= |tabs| then Load(tabs, |tabs| - 1)
        else Load(tabs, e.active)
      else if e.active > index then e.(tabs := tabs, active := e.active - 1)
      else e.(tabs := tabs)
  }

  /** `saveCurrentFile` up to the `fetch`: with no file open nothing is
      sent; otherwise the editor text is sent for `currentFile`. */
  function SaveRequest(e: Editor): (req: Option<WriteRequest>)
    ensures req.None? <==> e.currentFile.None? || e.currentFile.value == "" || e.active == -1
    ensures req.Some? ==> req.value == WriteRequest(e.currentFile.value, e.buffer)
  {
    if e.currentFile.None? || e.currentFile.value == "" || e.active == -1 then None
    else Some(WriteRequest(e.currentFile.value, e.buffer))
  }

  /** `saveCurrentFile` after the reply to `sent` arrives, as written: an
      accepted write stores the sent text into whichever tab is active by
      then and clears its modified flag; a refused one changes nothing. */
  function SaveReply(e: Editor, sent: WriteRequest, accepted: bool): (r: Editor)
    ensures !accepted || !HasActive(e) ==> r == e
    ensures r.active == e.active && r.buffer == e.buffer && r.currentFile == e.currentFile
    ensures Paths(r.tabs) == Paths(e.tabs)
    ensures accepted && HasActive(e) ==>
      && r.tabs[e.active].content == sent.content && !r.tabs[e.active].modified
      && (forall i :: 0 <= i < |e.tabs| && i != e.active ==> r.tabs[i] == e.tabs[i])
  {
    if accepted && HasActive(e) then
      e.(tabs := e.tabs[e.active := e.tabs[e.active].(modified := false, content := sent.content)])
    else e
  }

  /** The reply as evidently intended: it concerns the tab of the file that
      was written, and that tab counts as saved only when it still shows
      exactly the text that was written. */
  function SaveReplyFixed(e: Editor, sent: WriteRequest, accepted: bool): (r: Editor)
    ensures r.active == e.active && r.buffer == e.buffer && r.currentFile == e.currentFile
    ensures Paths(r.tabs) == Paths(e.tabs)
    ensures var k := FindTab(e.tabs, sent.path);
      if accepted && k >= 0 && Views(e)[k] == sent.content then
        && r.tabs[k] == e.tabs[k].(modified := false, content := sent.content)
        && (forall i :: 0 <= i < |e.tabs| && i != k ==> r.tabs[i] == e.tabs[i])
      else r == e
  {
    var k := FindTab(e.tabs, sent.path);
    if accepted && k >= 0 && Views(e)[k] == sent.content then
      e.(tabs := e.tabs[k := e.tabs[k].(modified := false, content := sent.content)])
    else e
  }

  /** The user's actions on the tabs, and the reply to a save. */
  datatype Action =
    | Open(path: string, reply: Option<FileData>)
    | Switch(index: int)
    | Close(index: int, confirmed: bool)
    | Type(text: string)
    | Saved(sent: WriteRequest, accepted: bool)

  /** One action, with the corrected open, close and save reply. */
  function Apply(e: Editor, a: Action): Editor
  {
    match a
    case Open(path, reply) => OpenFileFixed(e, path, reply)
    case Switch(index) => SwitchTo(e, index)
    case Close(index, confirmed) => CloseTabFixed(e, index, confirmed)
    case Type(text) => Edit(e, text)
    case Saved(sent, accepted) => SaveReplyFixed(e, sent, accepted)
  }

  // ---------------------------------------------------------------------
  // The invariant

  /** The empty editor is consistent. */
  lemma InitialInv()
    ensures Inv(Initial)
  {
  }

  /** Flagging a tab leaves the paths as they were. */
  lemma FlaggedPaths(before: seq<Tab>, after: seq<Tab>, k: int)
    requires Flagged(before, after, k)
    ensures Paths(after) == Paths(before)
  {
    assert forall i :: 0 <= i < |after| ==> Paths(after)[i] == Paths(before)[i];
  }

  /** Switching keeps the editor consistent. */
  lemma SwitchInv(e: Editor, index: int)
    requires Inv(e)
    ensures Inv(SwitchTo(e, index))
  {
    var r := SwitchTo(e, index);
    if 0 <= index < |e.tabs| {
      FlaggedPaths(Store(e), r.tabs, index);
    } else {
      FlaggedPaths(e.tabs, r.tabs, e.active);
    }
  }

  /** A distinct list of paths stays distinct with a new path appended. */
  lemma DistinctAppend(ps: seq<string>, p: string)
    requires Distinct(ps) && p !in ps
    ensures Distinct(ps + [p])
  {
  }

  /** Opening keeps the editor consistent, in both versions. */
  lemma OpenInv(e: Editor, path: string, reply: Option<FileData>)
    requires Inv(e)
    ensures Inv(OpenFile(e, path, reply))
    ensures Inv(OpenFileFixed(e, path, reply))
  {
    if reply.Some? && path !in Paths(e.tabs) {
      var t := NewTab(path, reply.value).(modified := true);
      DistinctAppend(Paths(e.tabs), path);
      assert Paths(e.tabs + [t]) == Paths(e.tabs) + [path];
      assert Paths(Store(e) + [t]) == Paths(e.tabs) + [path];
    } else if reply.Some? {
      SwitchInv(e, FindTab(e.tabs, path));
    }
  }

  /** Removing an element keeps a list distinct. */
  lemma WithoutDistinct(tabs: seq<Tab>, index: int)
    requires 0 <= index < |tabs| && Distinct(Paths(tabs))
    ensures Distinct(Paths(Without(tabs, index)))
  {
    var ps := Paths(Without(tabs, index));
    forall i, j | 0 <= i < j < |ps| ensures ps[i] != ps[j] {
      var i' := if i < index then i else i + 1;
      var j' := if j < index then j else j + 1;
      assert Paths(tabs)[i'] != Paths(tabs)[j'];
    }
  }

  /** Closing keeps the editor consistent. */
  lemma CloseInv(e: Editor, index: int, confirmed: bool)
    requires Inv(e)
    ensures Inv(CloseTab(e, index, confirmed))
  {
    if 0 <= index < |e.tabs| && (!e.tabs[index].modified || confirmed) {
      WithoutDistinct(e.tabs, index);
      var tabs := Without(e.tabs, index);
      if e.active == index && |tabs| > 0 {
        var k := if e.active >= |tabs| then |tabs| - 1 else e.active;
        var e1 := if e.active >= |tabs| then e.(tabs := tabs, active := k) else e.(tabs := tabs);
        assert CloseTab(e, index, confirmed) == SwitchTo(e1, k);
        SwitchToTabInv(e1, k);
      }
    }
  }

  /** Switching to a tab of a list with distinct paths gives a consistent
      editor, whatever the active index was. */
  lemma SwitchToTabInv(e: Editor, k: int)
    requires 0 <= k < |e.tabs| && Distinct(Paths(e.tabs))
    ensures Inv(SwitchTo(e, k))
  {
    var r := SwitchTo(e, k);
    FlaggedPaths(Store(e), r.tabs, k);
  }

  /** The corrected close keeps the editor consistent too. */
  lemma CloseFixedInv(e: Editor, index: int, confirmed: bool)
    requires Inv(e)
    ensures Inv(CloseTabFixed(e, index, confirmed))
  {
    if 0 <= index < |e.tabs| && (!e.tabs[index].modified || confirmed) {
      WithoutDistinct(e.tabs, index);
    }
  }

  /** Editing and the corrected save reply keep the editor consistent. */
  lemma EditSaveInv(e: Editor, text: string, sent: WriteRequest, accepted: bool)
    requires Inv(e)
    ensures Inv(Edit(e, text))
    ensures Inv(SaveReplyFixed(e, sent, accepted))
  {
    FlaggedPaths(e.tabs, Edit(e, text).tabs, e.active);
  }

  /** Every action keeps the editor consistent. */
  lemma ApplyInv(e: Editor, a: Action)
    requires Inv(e)
    ensures Inv(Apply(e, a))
  {
    match a
    case Open(path, reply) => OpenInv(e, path, reply);
    case Switch(index) => SwitchInv(e, index);
    case Close(index, confirmed) => CloseFixedInv(e, index, confirmed);
    case Type(text) => EditSaveInv(e, text, WriteRequest("", ""), true);
    case Saved(sent, accepted) => EditSaveInv(e, "", sent, accepted);
  }

  // ---------------------------------------------------------------------
  // Nothing a user typed is lost

  /** Switching between tabs loses no text: every tab reads as before, and
      the chosen tab is now the one in the editor. */
  lemma SwitchKeepsViews(e: Editor, index: int)
    requires Inv(e)
    requires 0 <= index < |e.tabs|
    ensures Views(SwitchTo(e, index)) == Views(e)
    ensures SwitchTo(e, index).buffer == Views(e)[index]
  {
    var r := SwitchTo(e, index);
    forall i | 0 <= i < |e.tabs| ensures Views(r)[i] == Views(e)[i] {
    }
  }

  /** Re-opening a file that is already open adds no tab and loses no text. */
  lemma ReopenKeepsTabs(e: Editor, path: string, data: FileData)
    requires Inv(e)
    requires path in Paths(e.tabs)
    ensures Views(OpenFileFixed(e, path, Some(data))) == Views(e)
    ensures Paths(OpenFileFixed(e, path, Some(data)).tabs) == Paths(e.tabs)
    ensures OpenFileFixed(e, path, Some(data)).currentFile == Some(path)
  {
    var k := FindTab(e.tabs, path);
    SwitchKeepsViews(e, k);
    FlaggedPaths(Store(e), SwitchTo(e, k).tabs, k);
  }

  /** Corrected: opening a new file keeps the text of every open tab and
      shows the file's content in a tab of its own. */
  lemma OpenFixedKeepsViews(e: Editor, path: string, data: FileData)
    requires Inv(e)
    requires path !in Paths(e.tabs)
    ensures Views(OpenFileFixed(e, path, Some(data))) == Views(e) + [data.content]
  {
    var r := OpenFileFixed(e, path, Some(data));
    forall i | 0 <= i < |r.tabs| ensures Views(r)[i] == (Views(e) + [data.content])[i] {
    }
  }

  /** As written: after a new file is opened, the tab that was active shows
      its last stored text again, not what was typed into it. */
  lemma OpenLosesEdits(e: Editor, path: string, data: FileData)
    requires Inv(e)
    requires path !in Paths(e.tabs)
    requires HasActive(e)
    ensures Views(OpenFile(e, path, Some(data)))[e.active] == e.tabs[e.active].content
  {
  }

  /** As written, concretely: `a.js` is open with stored text `A` and the user
      has typed `A2`; after opening `b.js` and switching back, the editor
      shows `A` again. */
  lemma OpenLosesEditsExample()
    ensures var e := Editor([Tab("a.js", "a.js", "A", true, "javascript")], 0, Some("a.js"), "A2");
      var after := OpenFile(e, "b.js", Some(FileData("b.js", "B")));
      && Views(e)[0] == "A2"
      && SwitchTo(after, 0).buffer == "A"
  {
  }

  /** Loading a tab's text into the editor flags it as modified, so a tab
      just opened or switched to asks for confirmation before it closes, as
      long as no save has been accepted for it. */
  lemma LoadingFlagsModified(e: Editor, path: string, data: FileData, index: int)
    requires Inv(e)
    ensures path !in Paths(e.tabs) ==>
      var r := OpenFile(e, path, Some(data));
      && r.tabs[|e.tabs|].modified
      && CloseTab(r, |e.tabs|, false) == r
    ensures 0 <= index < |e.tabs| ==>
      var r := SwitchTo(e, index);
      && r.tabs[index].modified
      && CloseTab(r, index, false) == r
  {
  }

  /** Corrected: closing a tab removes exactly that tab's text and leaves
      every other tab's text as it was. */
  lemma CloseFixedKeepsViews(e: Editor, index: int, confirmed: bool)
    requires Inv(e)
    requires 0 <= index < |e.tabs|
    requires !e.tabs[index].modified || confirmed
    ensures var r := CloseTabFixed(e, index, confirmed);
      Views(r) == Views(e)[..index] + Views(e)[index + 1..]
  {
    var r := CloseTabFixed(e, index, confirmed);
    var wanted := Views(e)[..index] + Views(e)[index + 1..];
    assert |Views(r)| == |wanted|;
    forall i | 0 <= i < |r.tabs| ensures Views(r)[i] == wanted[i] {
      var j := if i < index then i else i + 1;
      assert wanted[i] == Views(e)[j];
    }
  }

  /** As written: closing the active tab while others remain writes the
      closed tab's text into the tab that becomes active. */
  lemma CloseOverwritesSuccessor(e: Editor, index: int, confirmed: bool)
    requires Inv(e)
    requires index == e.active && |e.tabs| > 1
    requires !e.tabs[index].modified || confirmed
    ensures var r := CloseTab(e, index, confirmed);
      r.tabs[r.active].content == e.buffer && r.buffer == e.buffer
  {
  }

  /** As written, concretely: with `a.js` (text `A`, modified) active and
      `b.js` (text `B`) beside it, a confirmed close of `a.js` leaves `b.js`
      holding `A`. */
  lemma CloseOverwritesExample()
    ensures var e := Editor([Tab("a.js", "a.js", "A", true, "javascript"),
                             Tab("b.js", "b.js", "B", false, "javascript")], 0, Some("a.js"), "A");
      var r := CloseTab(e, 0, true);
      && Views(e)[1] == "B"
      && |r.tabs| == 1 && r.tabs[0].path == "b.js" && Views(r)[0] == "A"
  {
  }

  /** Which tab is active after closing tab `index`: another tab that was
      active stays active (its index moves down when a tab before it goes);
      closing the active tab makes its successor active, or its predecessor
      when it was the last, or no tab at all when it was the only one. */
  predicate SelectsNeighbour(e: Editor, index: int, r: Editor)
    requires 0 <= index < |e.tabs|
  {
    && (e.active != index && 0 <= e.active < |e.tabs| ==>
          0 <= r.active < |r.tabs| && r.tabs[r.active] == e.tabs[e.active] && r.currentFile == e.currentFile)
    && (e.active == index && |e.tabs| == 1 ==> r == Editor([], -1, None, ""))
    && (e.active == index && index == |e.tabs| - 1 && |e.tabs| > 1 ==>
          r.active == index - 1 && r.currentFile == Some(e.tabs[index - 1].path))
    && (e.active == index && index < |e.tabs| - 1 ==>
          r.active == index && r.currentFile == Some(e.tabs[index + 1].path))
  }

  /** Closing selects the neighbouring tab, as written. */
  lemma CloseSelectsNeighbour(e: Editor, index: int, confirmed: bool)
    requires Inv(e)
    requires 0 <= index < |e.tabs| && (!e.tabs[index].modified || confirmed)
    ensures SelectsNeighbour(e, index, CloseTab(e, index, confirmed))
  {
  }

  /** The corrected close selects the same tab as the code does. */
  lemma CloseFixedSelectsNeighbour(e: Editor, index: int, confirmed: bool)
    requires Inv(e)
    requires 0 <= index < |e.tabs| && (!e.tabs[index].modified || confirmed)
    ensures SelectsNeighbour(e, index, CloseTabFixed(e, index, confirmed))
  {
  }

  /** A modified tab is closed only after confirmation. */
  lemma UnconfirmedCloseKeepsTab(e: Editor, index: int)
    requires 0 <= index < |e.tabs| && e.tabs[index].modified
    ensures CloseTab(e, index, false) == e
    ensures CloseTabFixed(e, index, false) == e
  {
  }

  /** Typing and then saving, with the reply arriving before anything else
      happens: the typed text is written to the active tab's file, and the
      tab keeps that text and is no longer modified. */
  lemma EditThenSave(e: Editor, text: string)
    requires Inv(e) && HasActive(e)
    requires e.tabs[e.active].path != ""
    ensures var edited := Edit(e, text);
      var sent := SaveRequest(edited);
      && sent == Some(WriteRequest(e.tabs[e.active].path, text))
      && SaveReply(edited, sent.value, true).tabs[e.active].content == text
      && !SaveReply(edited, sent.value, true).tabs[e.active].modified
      && Views(SaveReply(edited, sent.value, true)) == Views(edited)
      && SaveReplyFixed(edited, sent.value, true) == SaveReply(edited, sent.value, true)
  {
    var edited := Edit(e, text);
    var sent := SaveRequest(edited).value;
    var saved := SaveReply(edited, sent, true);
    forall i | 0 <= i < |saved.tabs| ensures Views(saved)[i] == Views(edited)[i] {
    }
    FlaggedPaths(e.tabs, edited.tabs, e.active);
    assert FindTab(edited.tabs, sent.path) == e.active by {
      assert Paths(edited.tabs)[e.active] == sent.path;
    }
  }

  /** As written, concretely: the user types `A2` into `a.js` and saves; before
      the reply arrives they switch to `b.js` and type `B2`. The accepted reply
      then clears the flag of `b.js`, whose `B2` was never written, and
      stores `a.js`'s text in it; closing `b.js` now asks nothing, and even
      with the corrected close `B2` is gone. */
  lemma SaveReplyRaceExample()
    ensures var e := Editor([Tab("a.js", "a.js", "A", true, "javascript"),
                             Tab("b.js", "b.js", "B", false, "javascript")], 0, Some("a.js"), "A2");
      var sent := SaveRequest(e);
      var typed := Edit(SwitchTo(e, 1), "B2");
      var replied := SaveReply(typed, sent.value, true);
      && sent == Some(WriteRequest("a.js", "A2"))
      && Views(replied)[1] == "B2"
      && !replied.tabs[1].modified
      && replied.tabs[1].content == "A2"
      && Views(CloseTabFixed(replied, 1, false)) == ["A2"]
  {
  }

  /** Corrected: a save reply loses no text and clears a tab's flag only
      when that tab belongs to the written file and shows exactly the
      written text. */
  lemma SaveReplyFixedKeepsViews(e: Editor, sent: WriteRequest, accepted: bool)
    requires Inv(e)
    ensures var r := SaveReplyFixed(e, sent, accepted);
      && Views(r) == Views(e)
      && forall i :: 0 <= i < |e.tabs| && e.tabs[i].modified && !r.tabs[i].modified ==>
           accepted && e.tabs[i].path == sent.path && Views(e)[i] == sent.content
  {
    var r := SaveReplyFixed(e, sent, accepted);
    forall i | 0 <= i < |e.tabs| ensures Views(r)[i] == Views(e)[i] {
    }
  }
}
