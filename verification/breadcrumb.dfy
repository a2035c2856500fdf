/** The breadcrumb bar above the file tree (public/app.js:2251-2298). The
    folder path is cut at `/` with empty pieces dropped; a home crumb
    `workspace` comes first, then one crumb per remaining piece, except a
    leading `workspace` piece, which the home crumb stands for. Each crumb
    navigates to `workspace` followed by the pieces up to and including its
    own; the crumb of the last piece, or the home crumb when there is none,
    is marked active. */
module Breadcrumbs {
  import opened Strings

  datatype Crumb = Crumb(name: string, path: string, active: bool)

  const Home: string := "workspace"

  /** `path.split('/').filter(part => part !== '')`. */
  function Pieces(parts: seq<string>): (r: seq<string>)
    ensures forall i :: 0 <= i < |r| ==> r[i] != ""
    ensures |r| <= |parts|
    decreases |parts|
  {
    if |parts| == 0 then []
    else
      var front := Pieces(parts[..|parts| - 1]);
      var last := parts[|parts| - 1];
      if last == "" then front else front + [last]
  }

  /** The pieces that get crumbs of their own: a leading `workspace` is the
      home crumb. */
  function Shown(pieces: seq<string>): (r: seq<string>)
    ensures |pieces| > 0 && pieces[0] == Home ==> r == pieces[1..]
    ensures !(|pieces| > 0 && pieces[0] == Home) ==> r == pieces
  {
    if |pieces| > 0 && pieces[0] == Home then pieces[1..] else pieces
  }

  /** Where the crumb of the `k`-th shown piece leads. */
  function CrumbPath(shown: seq<string>, k: nat): string
    requires k < |shown|
  {
    Home + "/" + Join(shown[..k + 1], '/')
  }

  /** The crumb of the `k`-th shown piece. */
  function Item(shown: seq<string>, k: nat): Crumb
    requires k < |shown|
  {
    Crumb(shown[k], CrumbPath(shown, k), k == |shown| - 1)
  }

  /** The bar for the pieces of a folder path, as a reference definition. */
  function BarOf(pieces: seq<string>): (crumbs: seq<Crumb>)
    ensures |crumbs| >= 1
  {
    var shown := Shown(pieces);
    [Crumb(Home, Home, |shown| == 0)] + seq(|shown|, k requires 0 <= k < |shown| => Item(shown, k))
  }

  /** The bar for a folder path. */
  function Bar(path: string): (crumbs: seq<Crumb>)
    ensures |crumbs| >= 1
  {
    BarOf(Pieces(Split(path, '/')))
  }

  /** `updateBreadcrumb(path)`. */
  method UpdateBreadcrumb(path: string) returns (crumbs: seq<Crumb>)
    ensures crumbs == Bar(path)
  {
    crumbs := BuildCrumbs(Pieces(Split(path, '/')));
  }

  /** The loop of `updateBreadcrumb`, building the crumbs with a running
      `currentBreadcrumbPath`. */
  method BuildCrumbs(pieces: seq<string>) returns (crumbs: seq<Crumb>)
    ensures crumbs == BarOf(pieces)
  {
    var shown := Shown(pieces);
    var skip := |pieces| - |shown|;
    crumbs := [Crumb(Home, Home, |pieces| == 0 || (|pieces| == 1 && pieces[0] == Home))];
    var current := Home;
    var i := 0;
    while i < |pieces|
      invariant 0 <= i <= |pieces|
      invariant skip <= i || i == 0
      invariant |crumbs| == 1 + (if i < skip then 0 else i - skip)
      invariant crumbs[0] == Crumb(Home, Home, |shown| == 0)
      invariant forall k :: 0 <= k < |crumbs| - 1 ==> crumbs[k + 1] == Item(shown, k)
      invariant |crumbs| == 1 ==> current == Home
      invariant |crumbs| > 1 ==> current == CrumbPath(shown, |crumbs| - 2)
    {
      if pieces[i] == Home && i == 0 {
        i := i + 1;
        continue;
      }
      var k := |crumbs| - 1;
      assert k == i - skip && shown[k] == pieces[i];
      NextCrumbPath(shown, k, current);
      current := current + "/" + pieces[i];
      var crumb := Crumb(pieces[i], current, i == |pieces| - 1);
      assert crumb == Item(shown, k);
      crumbs := crumbs + [crumb];
      i := i + 1;
    }
  }

  /** The running path of the loop, extended by the next shown piece, is
      that piece's crumb path. */
  lemma NextCrumbPath(shown: seq<string>, k: nat, current: string)
    requires k < |shown|
    requires k == 0 ==> current == Home
    requires k > 0 ==> current == CrumbPath(shown, k - 1)
    ensures current + "/" + shown[k] == CrumbPath(shown, k)
  {
    if k == 0 {
      assert shown[..1] == [shown[0]];
    } else {
      assert shown[..k + 1] == shown[..k] + [shown[k]];
      JoinSnoc(shown[..k], '/', shown[k]);
    }
  }

  /** Exactly one crumb is active: the last one. */
  lemma OneActive(path: string)
    ensures Bar(path)[|Bar(path)| - 1].active
    ensures forall k :: 0 <= k < |Bar(path)| - 1 ==> !Bar(path)[k].active
  {
  }

  /** The first crumb is always the home crumb, and every later crumb names
      a non-empty piece. */
  lemma HomeFirst(path: string)
    ensures Bar(path)[0].name == Home && Bar(path)[0].path == Home
    ensures forall k :: 1 <= k < |Bar(path)| ==> Bar(path)[k].name != ""
  {
    var pieces := Pieces(Split(path, '/'));
    var shown := Shown(pieces);
    forall k | 1 <= k < |Bar(path)| ensures Bar(path)[k].name != "" {
      assert Bar(path)[k].name == shown[k - 1];
      assert shown[k - 1] == pieces[k - 1 + |pieces| - |shown|];
    }
  }

  /** Each crumb leads one folder deeper than the crumb before it. */
  lemma CrumbsChain(path: string, k: nat)
    requires 1 <= k < |Bar(path)| - 1
    ensures Bar(path)[k + 1].path == Bar(path)[k].path + "/" + Bar(path)[k + 1].name
  {
    var shown := Shown(Pieces(Split(path, '/')));
    assert shown[..k + 1] == shown[..k] + [shown[k]];
    JoinSnoc(shown[..k], '/', shown[k]);
  }

  /** Pieces that are all non-empty are kept as they are. */
  lemma {:induction false} PiecesKeepsNonEmpty(parts: seq<string>)
    requires forall i :: 0 <= i < |parts| ==> parts[i] != ""
    ensures Pieces(parts) == parts
    decreases |parts|
  {
    if |parts| > 0 {
      PiecesKeepsNonEmpty(parts[..|parts| - 1]);
      assert parts[..|parts| - 1] + [parts[|parts| - 1]] == parts;
    }
  }

  /** `Pieces` is the `filter` it stands for: the empty pieces are
      dropped, every other piece is kept, in order. */
  lemma {:induction false} PiecesDropsOnlyEmpty(parts: seq<string>)
    ensures Pieces(parts) == DropEmpty(parts)
    decreases |parts|
  {
    if |parts| > 0 {
      var front, last := parts[..|parts| - 1], parts[|parts| - 1];
      PiecesDropsOnlyEmpty(front);
      assert parts == front + [last];
      DropEmptyAppend(front, [last]);
      assert DropEmpty([last]) == (if last == "" then [] else [last]) + DropEmpty([]);
      assert DropEmpty(front) + [] == DropEmpty(front);
    }
  }

  /** The home folder's name is a single non-empty piece. */
  lemma HomeIsOnePiece()
    ensures '/' !in Home && Home != ""
  {
    assert Home == ['w', 'o', 'r', 'k', 's', 'p', 'a', 'c', 'e'];
  }

  /** The pieces of a folder path under the workspace are `workspace` and
      its segments. */
  lemma PiecesUnderHome(segments: seq<string>)
    requires |segments| > 0
    requires forall i :: 0 <= i < |segments| ==> segments[i] != "" && '/' !in segments[i]
    ensures Pieces(Split(Home + "/" + Join(segments, '/'), '/')) == [Home] + segments
  {
    HomeIsOnePiece();
    var all := [Home] + segments;
    assert all[1..] == segments;
    assert Join(all, '/') == Home + "/" + Join(segments, '/');
    assert forall i :: 0 <= i < |all| ==> '/' !in all[i] && all[i] != "" by {
      forall i | 0 <= i < |all| ensures '/' !in all[i] && all[i] != "" {
        if i > 0 {
          assert all[i] == segments[i - 1];
        }
      }
    }
    SplitJoin(all, '/');
    PiecesKeepsNonEmpty(all);
  }

  /** The last crumb of a folder under the workspace leads back to that very
      folder. */
  lemma LastCrumbIsFolder(segments: seq<string>)
    requires |segments| > 0
    requires forall i :: 0 <= i < |segments| ==> segments[i] != "" && '/' !in segments[i]
    ensures var path := Home + "/" + Join(segments, '/');
      Bar(path)[|Bar(path)| - 1] == Crumb(segments[|segments| - 1], path, true)
  {
    var path := Home + "/" + Join(segments, '/');
    var all := [Home] + segments;
    PiecesUnderHome(segments);
    assert all[1..] == segments;
    assert Shown(all) == segments;
    var n := |segments|;
    assert Bar(path)[n] == Item(segments, n - 1);
    assert segments[..n] == segments;
  }
}
