/** Path arithmetic of the file explorer: renaming in place
    (public/app.js:1746-1748), cleaning the paths handed to the zip endpoint
    on the client (public/app.js:2956-2963) and on the server
    (server.js:423-429), and placing the files of an uploaded folder
    (public/app.js:3781-3794, 3855-3874). Paths are `/`-separated text. */
module PathHelpers {
  import opened Strings

  /** `renameFile`: the last `/`-piece of the old path is replaced by the new
      name. */
  function RenamePath(oldPath: string, newName: string): (r: string)
  {
    var parts := Split(oldPath, '/');
    Join(parts[..|parts| - 1] + [newName], '/')
  }

  /** The last `/`-piece of a path. */
  function BaseName(path: string): (name: string)
    ensures '/' !in name
  {
    var parts := Split(path, '/');
    parts[|parts| - 1]
  }

  /** Renaming keeps the folder and swaps the name. */
  lemma RenameKeepsFolder(folder: string, name: string, newName: string)
    requires '/' !in name
    ensures RenamePath(folder + "/" + name, newName) == folder + "/" + newName
    ensures BaseName(folder + "/" + name) == name
  {
    var parts := Split(folder + "/" + name, '/');
    assert parts == Split(folder, '/') + [name] by {
      SplitAround(folder, '/', name);
      SplitNoSep(name, '/');
    }
    assert parts[..|parts| - 1] == Split(folder, '/');
    JoinSnoc(Split(folder, '/'), '/', newName);
    JoinSplit(folder, '/');
  }

  /** A name at the top level is replaced as a whole. */
  lemma RenameTopLevel(name: string, newName: string)
    requires '/' !in name
    ensures RenamePath(name, newName) == newName
    ensures BaseName(name) == name
  {
    SplitNoSep(name, '/');
  }

  /** Renaming back to the old name restores the old path. */
  lemma RenameRoundTrip(folder: string, name: string, newName: string)
    requires '/' !in name && '/' !in newName
    ensures RenamePath(RenamePath(folder + "/" + name, newName), BaseName(folder + "/" + name)) == folder + "/" + name
  {
    RenameKeepsFolder(folder, name, newName);
    RenameKeepsFolder(folder, newName, name);
  }

  const WorkspaceMarker: string := "/workspace/"
  const WorkspacePrefix: string := "workspace/"

  /** The client's cleaning in `confirmCreateZip`: a path holding
      `/workspace/` keeps what follows its first occurrence. */
  function CleanForZip(path: string): (r: string)
    ensures |r| <= |path| && r == path[|path| - |r|..]
    ensures !Contains(path, WorkspaceMarker) ==> r == path
  {
    if Contains(path, WorkspaceMarker) then
      path[IndexOf(path, WorkspaceMarker) + |WorkspaceMarker|..]
    else path
  }

  /** Where the zip endpoint looks for a listed file. */
  datatype ZipSource = Absolute(path: string) | UnderWorkspace(relative: string)

  /** The server's reading of a listed path: an absolute path is used as it
      is; a relative one loses a leading `workspace/` and is joined onto the
      workspace folder with `path.join`, which resolves `..`, so the result
      can lie outside the workspace. */
  function ZipSourceOf(path: string): (z: ZipSource)
    ensures StartsWith(path, "/") <==> z.Absolute?
    ensures z.Absolute? ==> z.path == path
    ensures z.UnderWorkspace? && StartsWith(path, WorkspacePrefix) ==> path == WorkspacePrefix + z.relative
    ensures z.UnderWorkspace? && !StartsWith(path, WorkspacePrefix) ==> z.relative == path
  {
    if StartsWith(path, "/") then Absolute(path)
    else if StartsWith(path, WorkspacePrefix) then UnderWorkspace(path[|WorkspacePrefix|..])
    else UnderWorkspace(path)
  }

  /** An absolute path into the workspace reaches the server as the path
      relative to it: `<root>/workspace/<rel>`, with no `/` in `<root>`, is
      sent as `<rel>`. */
  lemma CleanAbsolute(root: string, rel: string)
    requires '/' !in root
    ensures CleanForZip(root + WorkspaceMarker + rel) == rel
  {
    var p := root + WorkspaceMarker + rel;
    assert OccursAt(p, WorkspaceMarker, |root|) by {
      assert p[|root|..|root| + |WorkspaceMarker|] == WorkspaceMarker;
    }
    var i := IndexOf(p, WorkspaceMarker);
    assert forall j :: 0 <= j < |root| ==> !OccursAt(p, WorkspaceMarker, j) by {
      forall j | 0 <= j < |root| ensures !OccursAt(p, WorkspaceMarker, j) {
        assert p[j] == root[j];
      }
    }
    assert p[|root| + |WorkspaceMarker|..] == rel;
  }

  /** A path the client left alone that starts with `workspace/` is joined
      onto the workspace folder without that prefix, so `workspace/<rel>`
      and `<rel>` reach the same `path.join`. */
  lemma PrefixNamesSameFile(rel: string)
    requires !StartsWith(rel, "/") && !StartsWith(rel, WorkspacePrefix)
    ensures ZipSourceOf(WorkspacePrefix + rel) == UnderWorkspace(rel)
    ensures ZipSourceOf(rel) == UnderWorkspace(rel)
  {
    var p := WorkspacePrefix + rel;
    assert p[..|WorkspacePrefix|] == WorkspacePrefix;
    assert p[..1] == "w";
    assert p[|WorkspacePrefix|..] == rel;
  }

  /** Nothing on the way strips `..`: a relative path that climbs reaches the
      join unchanged, and so does one behind the `workspace/` prefix. */
  lemma ClimbingPathReachesJoin(rel: string)
    ensures ZipSourceOf("../" + rel) == UnderWorkspace("../" + rel)
    ensures ZipSourceOf(WorkspacePrefix + "../" + rel) == UnderWorkspace("../" + rel)
  {
    var up := "../" + rel;
    assert up[0] == '.';
    assert !StartsWith(up, "/") && !StartsWith(up, WorkspacePrefix) by {
      assert up[0] != "/"[0] && up[0] != WorkspacePrefix[0];
    }
    assert (WorkspacePrefix + up)[|WorkspacePrefix|..] == up;
  }

  /** The entries of a folder upload: `webkitRelativePath` cut into the
      folder part and the file name, and the folder the file is sent to. */
  datatype Placement = Placement(folders: string, name: string, uploadPath: string)

  /** `pathParts.slice(0, -1).join('/')`, the last piece, and
      `${targetPath}/${folderStructure}`. */
  function Place(targetPath: string, relativePath: string): (p: Placement)
    ensures '/' !in p.name
    ensures p.uploadPath == targetPath + "/" + p.folders
  {
    var parts := Split(relativePath, '/');
    var folders := Join(parts[..|parts| - 1], '/');
    Placement(folders, parts[|parts| - 1], targetPath + "/" + folders)
  }

  /** The folder part and the name put back together give the relative
      path. */
  lemma PlaceSplitsPath(targetPath: string, relativePath: string)
    requires '/' in relativePath
    ensures var p := Place(targetPath, relativePath);
      p.folders + "/" + p.name == relativePath
  {
    var parts := Split(relativePath, '/');
    if |parts| == 1 {
      JoinSplit(relativePath, '/');
      assert false;
    }
    assert parts == parts[..|parts| - 1] + [parts[|parts| - 1]];
    JoinSnoc(parts[..|parts| - 1], '/', parts[|parts| - 1]);
    JoinSplit(relativePath, '/');
  }

  /** The folders `createFolderStructure(base, folderPath)` asks the server
      to create, in order: one per non-empty piece, each below the one
      before. */
  function FolderChain(base: string, pieces: seq<string>): (r: seq<string>)
    decreases |pieces|
  {
    if |pieces| == 0 then []
    else
      var front := FolderChain(base, pieces[..|pieces| - 1]);
      var last := pieces[|pieces| - 1];
      if last == "" then front
      else front + [(if |front| == 0 then base else front[|front| - 1]) + "/" + last]
  }

  /** One more piece adds one folder below the last, unless it is empty. */
  lemma ChainSnoc(base: string, pieces: seq<string>, piece: string)
    ensures var front := FolderChain(base, pieces);
      FolderChain(base, pieces + [piece]) ==
        if piece == "" then front
        else front + [(if |front| == 0 then base else front[|front| - 1]) + "/" + piece]
  {
    assert (pieces + [piece])[..|pieces|] == pieces;
  }

  /** `createFolderStructure(basePath, folderPath)`: the paths posted to
      `/api/directory/create`. */
  method CreateFolderStructure(basePath: string, folderPath: string) returns (created: seq<string>)
    ensures created == FolderChain(basePath, Split(folderPath, '/'))
  {
    created := PostFolders(basePath, Split(folderPath, '/'));
  }

  /** The loop of `createFolderStructure` over the pieces of the folder
      path, with the running `currentPath`. */
  method PostFolders(basePath: string, folders: seq<string>) returns (created: seq<string>)
    ensures created == FolderChain(basePath, folders)
  {
    created := [];
    var currentPath := basePath;
    var i := 0;
    while i < |folders|
      invariant 0 <= i <= |folders|
      invariant created == FolderChain(basePath, folders[..i])
      invariant currentPath == if |created| == 0 then basePath else created[|created| - 1]
    {
      assert FolderChain(basePath, folders[..i + 1]) ==
        if folders[i] == "" then created else created + [currentPath + "/" + folders[i]]
      by {
        assert folders[..i + 1] == folders[..i] + [folders[i]];
        ChainSnoc(basePath, folders[..i], folders[i]);
      }
      if folders[i] != "" {
        currentPath := currentPath + "/" + folders[i];
        created := created + [currentPath];
      }
      i := i + 1;
    }
    assert folders[..|folders|] == folders;
  }

  /** Every created folder is the one before it, or the base, followed by
      `/` and one non-empty piece without a `/`: each request creates one
      level. */
  lemma {:induction false} ChainStepsOneLevel(base: string, pieces: seq<string>, k: nat)
    requires forall i :: 0 <= i < |pieces| ==> '/' !in pieces[i]
    requires k < |FolderChain(base, pieces)|
    ensures var r := FolderChain(base, pieces);
      var parent := if k == 0 then base else r[k - 1];
      && |r[k]| > |parent| + 1
      && r[k][..|parent| + 1] == parent + "/"
      && '/' !in r[k][|parent| + 1..]
    decreases |pieces|
  {
    var r := FolderChain(base, pieces);
    var front := FolderChain(base, pieces[..|pieces| - 1]);
    if k < |front| {
      ChainStepsOneLevel(base, pieces[..|pieces| - 1], k);
      assert r[k] == front[k];
      assert k > 0 ==> r[k - 1] == front[k - 1];
    } else {
      var parent := if k == 0 then base else r[k - 1];
      var last := pieces[|pieces| - 1];
      assert r[k] == parent + "/" + last;
      assert r[k][..|parent| + 1] == parent + "/";
      assert r[k][|parent| + 1..] == last;
    }
  }

  /** With no empty pieces, the last folder created is the base followed by
      the whole folder path: the folder the upload goes to exists. */
  lemma {:induction false} ChainEndsAtFolder(base: string, pieces: seq<string>)
    requires |pieces| > 0
    requires forall i :: 0 <= i < |pieces| ==> pieces[i] != ""
    ensures |FolderChain(base, pieces)| == |pieces|
    ensures FolderChain(base, pieces)[|pieces| - 1] == base + "/" + Join(pieces, '/')
    decreases |pieces|
  {
    if |pieces| > 1 {
      var front := pieces[..|pieces| - 1];
      ChainEndsAtFolder(base, front);
      assert pieces == front + [pieces[|pieces| - 1]];
      JoinSnoc(front, '/', pieces[|pieces| - 1]);
    }
  }

  /** Uploading a folder file whose relative path has no empty pieces: the
      folders are created level by level and the file goes to the deepest of
      them. */
  lemma UploadLandsInCreatedFolder(targetPath: string, relativePath: string)
    requires '/' in relativePath
    requires forall i :: 0 <= i < |Split(relativePath, '/')| ==> Split(relativePath, '/')[i] != ""
    ensures var p := Place(targetPath, relativePath);
      var chain := FolderChain(targetPath, Split(p.folders, '/'));
      |chain| > 0 && chain[|chain| - 1] == p.uploadPath
  {
    var parts := Split(relativePath, '/');
    assert |parts| > 1 by {
      JoinSplit(relativePath, '/');
    }
    var front := parts[..|parts| - 1];
    assert forall i :: 0 <= i < |front| ==> '/' !in front[i] && front[i] != "" by {
      forall i | 0 <= i < |front| ensures '/' !in front[i] && front[i] != "" {
        assert front[i] == parts[i];
      }
    }
    var p := Place(targetPath, relativePath);
    assert p.folders == Join(front, '/');
    assert Split(p.folders, '/') == front by {
      SplitJoin(front, '/');
    }
    ChainEndsAtFolder(targetPath, front);
  }
}
