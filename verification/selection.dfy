/** Multi-selection in the file tree (public/app.js:2603-2751). The tree shows
    `paths` in order; the selection is a set of paths, `lastSelectedFile` the
    anchor of shift-click ranges, and `isMultiSelecting` a flag that the
    selection counter resets whenever the selection becomes empty. */
module FileSelection {
  import opened Wrappers

  datatype Selection = Selection(selected: set<string>, anchor: Option<string>, multi: bool)

  const Initial := Selection({}, None, false)

  /** The modifier keys of a click. `ctrl` stands for Ctrl or Cmd. */
  datatype Click = Click(ctrl: bool, shift: bool)

  /** `paths.indexOf(p)`. */
  function PathIndex(paths: seq<string>, p: string): (i: int)
    ensures -1 <= i < |paths|
    ensures i == -1 <==> p !in paths
    ensures i >= 0 ==> paths[i] == p && p !in paths[..i]
    decreases |paths|
  {
    if |paths| == 0 then -1
    else if paths[0] == p then 0
    else
      var j := PathIndex(paths[1..], p);
      if j == -1 then -1
      else
        assert paths[..j + 1] == [paths[0]] + paths[1..][..j];
        j + 1
  }

  /** `getFilesBetween(a, b)`: the shown paths from the first occurrence of
      one to the first occurrence of the other, both included, in tree order;
      nothing when either is not shown. */
  function Between(paths: seq<string>, a: string, b: string): (r: seq<string>)
    ensures a !in paths || b !in paths ==> r == []
    ensures a in paths && b in paths ==>
      var i, j := PathIndex(paths, a), PathIndex(paths, b);
      && (i <= j ==> r == paths[i..j + 1])
      && (j < i ==> r == paths[j..i + 1])
  {
    var i, j := PathIndex(paths, a), PathIndex(paths, b);
    if i == -1 || j == -1 then []
    else
      var lo := if i < j then i else j;
      var hi := if i < j then j else i;
      paths[lo..hi + 1]
  }

  /** `updateSelectionCounter`: an empty selection is never a multi-selection. */
  function Counter(s: Selection): (r: Selection)
    ensures r.selected == s.selected && r.anchor == s.anchor
    ensures r.multi <==> s.multi && |s.selected| > 0
  {
    if |s.selected| == 0 then s.(multi := false) else s
  }

  /** The anchor is set (`lastSelectedFile` is truthy). */
  predicate HasAnchor(s: Selection)
  {
    s.anchor.Some? && s.anchor.value != ""
  }

  /** The paths of a sequence, as a set. */
  function Elements(ps: seq<string>): (r: set<string>)
    ensures forall p :: p in r <==> p in ps
  {
    set p | p in ps
  }

  /** `toggleFileSelection(p, event)` followed by the counter update. */
  function Toggle(s: Selection, paths: seq<string>, p: string, click: Click): (r: Selection)
    ensures click.shift && HasAnchor(s) ==>
      && r.anchor == s.anchor
      && r.selected == (if click.ctrl then s.selected else {}) + Elements(Between(paths, s.anchor.value, p))
    ensures !(click.shift && HasAnchor(s)) && click.ctrl ==>
      && r.anchor == Some(p)
      && (p in r.selected <==> p !in s.selected)
      && r.selected - {p} == s.selected - {p}
    ensures !(click.shift && HasAnchor(s)) && !click.ctrl ==>
      r == Selection({p}, Some(p), false)
    ensures r.multi ==> |r.selected| > 0
  {
    if click.shift && HasAnchor(s) then
      var base := if click.ctrl then s.selected else {};
      Counter(Selection(base + Elements(Between(paths, s.anchor.value, p)), s.anchor, true))
    else if click.ctrl then
      var sel := if p in s.selected then s.selected - {p} else s.selected + {p};
      Counter(Selection(sel, Some(p), true))
    else
      Counter(Selection({p}, Some(p), false))
  }

  /** `clearSelection`. */
  function Clear(s: Selection): (r: Selection)
    ensures r.selected == {} && r.anchor == None && !r.multi
  {
    Counter(Selection({}, None, s.multi))
  }

  /** `selectAllFiles`: every shown path, anchored at the last one. With
      nothing shown the anchor stays. */
  function SelectAll(s: Selection, paths: seq<string>): (r: Selection)
    ensures forall p :: p in r.selected <==> p in paths
    ensures |paths| > 0 ==> r.anchor == Some(paths[|paths| - 1]) && r.multi
    ensures |paths| == 0 ==> r.anchor == s.anchor && !r.multi
  {
    var anchor := if |paths| > 0 then Some(paths[|paths| - 1]) else s.anchor;
    assert |paths| > 0 ==> paths[0] in Elements(paths);
    Counter(Selection(Elements(paths), anchor, true))
  }

  /** The selection counter's rule holds at all times. */
  predicate SelectionInv(s: Selection)
  {
    s.multi ==> |s.selected| > 0
  }

  /** Every operation keeps the counter's rule. */
  lemma OperationsKeepInv(s: Selection, paths: seq<string>, p: string, click: Click)
    ensures SelectionInv(Toggle(s, paths, p, click))
    ensures SelectionInv(Clear(s))
    ensures SelectionInv(SelectAll(s, paths))
  {
  }

  /** The range between two shown paths holds both of them, is the same in
      either direction, and spans from one to the other. */
  lemma BetweenProperties(paths: seq<string>, a: string, b: string)
    requires a in paths && b in paths
    ensures Between(paths, a, b) == Between(paths, b, a)
    ensures a in Between(paths, a, b) && b in Between(paths, a, b)
    ensures var d := PathIndex(paths, a) - PathIndex(paths, b);
      |Between(paths, a, b)| == (if d < 0 then -d else d) + 1
  {
    var i, j := PathIndex(paths, a), PathIndex(paths, b);
    var lo, hi := if i < j then i else j, if i < j then j else i;
    assert Between(paths, a, b) == paths[lo..hi + 1];
    assert paths[i] == Between(paths, a, b)[i - lo];
    assert paths[j] == Between(paths, a, b)[j - lo];
  }

  /** Shift-click from a shown anchor selects exactly the range from the
      anchor to the clicked path, both included. */
  lemma ShiftClickSelectsRange(s: Selection, paths: seq<string>, p: string)
    requires HasAnchor(s) && s.anchor.value in paths && p in paths
    ensures var r := Toggle(s, paths, p, Click(false, true));
      && r.selected == Elements(Between(paths, s.anchor.value, p))
      && p in r.selected && s.anchor.value in r.selected
      && r.multi && r.anchor == s.anchor
  {
    BetweenProperties(paths, s.anchor.value, p);
  }

  /** Shift-click from an anchor that is no longer shown (after moving to
      another folder) selects nothing at all, not even the clicked path. */
  lemma ShiftClickStaleAnchor(s: Selection, paths: seq<string>, p: string)
    requires HasAnchor(s) && s.anchor.value !in paths
    ensures var r := Toggle(s, paths, p, Click(false, true));
      r.selected == {} && !r.multi
  {
  }

  /** Ctrl-clicking the same path twice gives back the selection. */
  lemma CtrlClickTwice(s: Selection, paths: seq<string>, p: string)
    ensures Toggle(Toggle(s, paths, p, Click(true, false)), paths, p, Click(true, false)).selected == s.selected
  {
  }

  /** A plain click selects the clicked path alone and anchors there. */
  lemma PlainClickSelectsOne(s: Selection, paths: seq<string>, p: string)
    ensures Toggle(s, paths, p, Click(false, false)) == Selection({p}, Some(p), false)
  {
  }
}
