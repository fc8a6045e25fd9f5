/**
 * Renaming the downloaded files (Infrastructure/IOHandler.cs): every file of
 * the download folder is moved to its path with a marker string removed and
 * white space trimmed, and the old path is deleted when it still exists.
 * The folder is a map from full paths to contents; `File.Move`,
 * `File.Exists` and `File.Delete` are updates and lookups of that map.
 */
module FileCleanup {
  import opened Wrappers
  import opened Text

  type Contents = seq<bv8>

  /** The path a file is moved to: every occurrence of `toRemove` cut out, then trimmed. */
  function NewName(path: string, toRemove: string): string
    requires |toRemove| > 0
  {
    Trim(Replace(path, toRemove, ""))
  }

  /**
   * The new name is the pieces between the occurrences of `toRemove`,
   * glued together and trimmed; it has no white space at its ends, is no
   * longer than the old path, and is the trimmed old path when `toRemove`
   * does not occur.
   */
  lemma NewNameSpec(path: string, toRemove: string)
    requires |toRemove| > 0
    ensures NewName(path, toRemove) == Trim(Join(Split(path, toRemove), ""))
    ensures IsTrimmed(NewName(path, toRemove))
    ensures |NewName(path, toRemove)| <= |path|
    ensures !Contains(path, toRemove) ==> NewName(path, toRemove) == Trim(path)
  {
    ReplaceIsJoinOfSplit(path, toRemove, "");
    IndexOfSpec(path, toRemove);
  }

  datatype IOError =
    | EmptyPattern               // `Replace` with an empty string to remove
    | EmptyDestination           // `File.Move` to an empty path
    | SourceMissing(path: string)
    | DestinationExists(path: string)

  datatype MoveOutcome = Moved(files: map<string, Contents>) | MoveFailed(error: IOError)

  /**
   * `File.Move(source, dest)` without overwriting: the argument is checked
   * first, then the source, then the destination; moving a file onto its
   * own path succeeds and changes nothing.
   */
  function MoveFile(files: map<string, Contents>, source: string, dest: string): (o: MoveOutcome)
    ensures o.MoveFailed? <==> dest == "" || source !in files || (source != dest && dest in files)
    ensures o.Moved? ==> source in files && dest != ""
    ensures o.Moved? && source == dest ==> o.files == files
    ensures o.Moved? && source != dest ==>
      source !in o.files && dest in o.files && o.files[dest] == files[source] && |o.files| == |files|
    ensures o.Moved? && source != dest ==> forall p | p != source && p != dest :: (p in o.files <==> p in files)
    ensures o.Moved? ==> forall p | p in files && p != source && p != dest :: p in o.files && o.files[p] == files[p]
  {
    if dest == "" then MoveFailed(EmptyDestination)
    else if source !in files then MoveFailed(SourceMissing(source))
    else if source == dest then Moved(files)
    else if dest in files then MoveFailed(DestinationExists(dest))
    else
      var moved := (files - {source})[dest := files[source]];
      assert |files - {source}| == |files| - 1;
      Moved(moved)
  }

  /** The download folder. */
  class Folder {
    var files: map<string, Contents>

    constructor (files: map<string, Contents>)
      ensures this.files == files
    {
      this.files := files;
    }

    /** `File.Exists`. */
    predicate Exists(path: string)
      reads this
    {
      path in files
    }

    /** `Directory.GetFiles`: every path once, in an order the file system chooses. */
    method GetFiles() returns (listing: seq<string>)
      ensures Distinct(listing)
      ensures forall p :: p in listing <==> p in files
    {
      listing := [];
      var rest := files.Keys;
      while rest != {}
        invariant Distinct(listing)
        invariant forall p :: p in files <==> p in rest || p in listing
        invariant forall p | p in rest :: p !in listing
        decreases |rest|
      {
        var p :| p in rest;
        listing := listing + [p];
        rest := rest - {p};
      }
    }

    /** `File.Move`: the folder changes only when the move succeeds. */
    method Move(source: string, dest: string) returns (error: Option<IOError>)
      modifies this
      ensures MoveFile(old(files), source, dest).Moved? ==>
        error == None && files == MoveFile(old(files), source, dest).files
      ensures MoveFile(old(files), source, dest).MoveFailed? ==>
        error == Some(MoveFile(old(files), source, dest).error) && files == old(files)
    {
      match MoveFile(files, source, dest)
      case Moved(f) =>
        files := f;
        error := None;
      case MoveFailed(e) =>
        error := Some(e);
    }

    /** `File.Delete`; a missing file is not an error. */
    method Delete(path: string)
      modifies this
      ensures files == old(files) - {path}
    {
      files := files - {path};
    }
  }

  /** One turn of the loop as written: move, then delete the old path if it still exists. */
  function RenameOne(files: map<string, Contents>, path: string, toRemove: string): MoveOutcome
    requires |toRemove| > 0
  {
    match MoveFile(files, path, NewName(path, toRemove))
    case MoveFailed(e) => MoveFailed(e)
    case Moved(f) => Moved(if path in f then f - {path} else f)
  }

  datatype RenameOutcome = RenameOutcome(files: map<string, Contents>, error: Option<IOError>)

  /** The loop over the listing: the first failure ends it and leaves the folder as it then is. */
  function RenameAll(files: map<string, Contents>, listing: seq<string>, toRemove: string): RenameOutcome
    decreases |listing|
  {
    if listing == [] then RenameOutcome(files, None)
    else if toRemove == "" then RenameOutcome(files, Some(EmptyPattern))
    else
      match RenameOne(files, listing[0], toRemove)
      case MoveFailed(e) => RenameOutcome(files, Some(e))
      case Moved(f) => RenameAll(f, listing[1..], toRemove)
  }

  /**
   * `RenameFilesRemovingString`. The listing is taken once, before the loop,
   * so the files the loop creates are never visited.
   */
  method RenameFilesRemovingString(dir: Folder, stringToRemove: string)
    returns (error: Option<IOError>, ghost listing: seq<string>)
    modifies dir
    ensures Distinct(listing) && forall p :: p in listing <==> p in old(dir.files)
    ensures RenameOutcome(dir.files, error) == RenameAll(old(dir.files), listing, stringToRemove)
  {
    var files := dir.GetFiles();
    listing := files;
    ghost var goal := RenameAll(dir.files, files, stringToRemove);
    error := None;
    var i := 0;
    while i < |files|
      invariant 0 <= i <= |files|
      invariant goal == RenameAll(dir.files, files[i..], stringToRemove)
      decreases |files| - i
    {
      var fileName := files[i];
      if stringToRemove == "" {
        return Some(EmptyPattern), listing;
      }
      ghost var before := dir.files;
      var moveError := dir.Move(fileName, NewName(fileName, stringToRemove));
      if moveError.Some? {
        RenameAllFailed(before, files[i..], stringToRemove);
        return moveError, listing;
      }
      RenameAllMoved(before, files[i..], stringToRemove, dir.files);
      if dir.Exists(fileName) {
        dir.Delete(fileName);
      }
      assert files[i..][1..] == files[i + 1..];
      i := i + 1;
    }
  }

  /** A failed first move ends the loop with the folder as it was. */
  lemma RenameAllFailed(files: map<string, Contents>, listing: seq<string>, toRemove: string)
    requires listing != [] && |toRemove| > 0
    requires MoveFile(files, listing[0], NewName(listing[0], toRemove)).MoveFailed?
    ensures RenameAll(files, listing, toRemove) ==
      RenameOutcome(files, Some(MoveFile(files, listing[0], NewName(listing[0], toRemove)).error))
  {
  }

  /** A successful first move, followed by the delete, hands the folder on to the rest of the listing. */
  lemma RenameAllMoved(files: map<string, Contents>, listing: seq<string>, toRemove: string, moved: map<string, Contents>)
    requires listing != [] && |toRemove| > 0
    requires MoveFile(files, listing[0], NewName(listing[0], toRemove)) == Moved(moved)
    ensures RenameAll(files, listing, toRemove) ==
      RenameAll(if listing[0] in moved then moved - {listing[0]} else moved, listing[1..], toRemove)
  {
  }

  /** After a successful turn the old path is gone, also when the name did not change. */
  lemma RenameOneRemovesOld(files: map<string, Contents>, path: string, toRemove: string)
    requires |toRemove| > 0 && RenameOne(files, path, toRemove).Moved?
    ensures path !in RenameOne(files, path, toRemove).files
    ensures path in files
  {
  }

  /** The names the loop as written leaves: the new names that differ from the old ones. */
  ghost function ChangedNames(listing: seq<string>, toRemove: string): set<string>
    requires |toRemove| > 0
  {
    if listing == [] then {}
    else
      (if NewName(listing[0], toRemove) != listing[0] then {NewName(listing[0], toRemove)} else {})
      + ChangedNames(listing[1..], toRemove)
  }

  /** The tail of a duplicate-free list is duplicate-free and lacks the head. */
  lemma DistinctTail<T>(xs: seq<T>)
    requires xs != [] && Distinct(xs)
    ensures Distinct(xs[1..]) && xs[0] !in xs[1..]
  {
    var rest := xs[1..];
    forall i, j | 0 <= i < j < |rest|
      ensures rest[i] != rest[j]
    {
      assert rest[i] == xs[i + 1] && rest[j] == xs[j + 1];
    }
  }

  /** One successful turn as written: the path leaves, and its new name arrives when it differs. */
  lemma RenameOneKeys(files: map<string, Contents>, path: string, toRemove: string)
    requires |toRemove| > 0 && RenameOne(files, path, toRemove).Moved?
    ensures var n := NewName(path, toRemove);
      forall q :: q in RenameOne(files, path, toRemove).files <==> (q in files && q != path) || (n != path && q == n)
    ensures var n := NewName(path, toRemove); n != path ==> n !in files
  {
  }

  /** One successful turn as written: the new name holds the old file's contents, and the other files keep theirs. */
  lemma RenameOneContents(files: map<string, Contents>, path: string, toRemove: string)
    requires |toRemove| > 0 && RenameOne(files, path, toRemove).Moved?
    ensures var n := NewName(path, toRemove); var f := RenameOne(files, path, toRemove).files;
      n != path ==> n in f && f[n] == files[path]
    ensures var n := NewName(path, toRemove); var f := RenameOne(files, path, toRemove).files;
      forall q | q in files && q != path && q != n :: q in f && f[q] == files[q]
  {
  }

  /** A run over a listing of distinct paths of the folder never finds a source missing. */
  lemma {:induction false} RenameAllFindsSources(files: map<string, Contents>, listing: seq<string>, toRemove: string)
    requires |toRemove| > 0
    requires Distinct(listing) && forall p | p in listing :: p in files
    decreases |listing|
    ensures RenameAll(files, listing, toRemove).error.Some? ==> !RenameAll(files, listing, toRemove).error.value.SourceMissing?
  {
    if listing != [] {
      var path := listing[0];
      var rest := listing[1..];
      DistinctTail(listing);
      match RenameOne(files, path, toRemove)
      case MoveFailed(e) =>
        assert path in files;
      case Moved(f) =>
        RenameOneKeys(files, path, toRemove);
        assert forall p | p in rest :: p in f;
        assert RenameAll(files, listing, toRemove) == RenameAll(f, rest, toRemove);
        RenameAllFindsSources(f, rest, toRemove);
    }
  }

  /** The changed names of a listing: those of its head and of its tail. */
  lemma ChangedNamesCons(listing: seq<string>, toRemove: string)
    requires |toRemove| > 0 && listing != []
    ensures var n := NewName(listing[0], toRemove);
      ChangedNames(listing, toRemove) == (if n != listing[0] then {n} else {}) + ChangedNames(listing[1..], toRemove)
  {
  }

  /**
   * When a run over a listing of distinct paths of the folder succeeds, the
   * folder holds the files not listed and the changed names, and nothing
   * else: a file whose name does not change is deleted.
   */
  lemma {:induction false} RenameAllResult(files: map<string, Contents>, listing: seq<string>, toRemove: string)
    requires |toRemove| > 0
    requires Distinct(listing) && forall p | p in listing :: p in files
    requires RenameAll(files, listing, toRemove).error.None?
    decreases |listing|
    ensures forall q :: q in RenameAll(files, listing, toRemove).files <==>
      (q in files && q !in listing) || q in ChangedNames(listing, toRemove)
    ensures var final := RenameAll(files, listing, toRemove).files;
      forall q | q in files && q !in listing :: q in final && final[q] == files[q]
    ensures var final := RenameAll(files, listing, toRemove).files;
      forall p | p in listing && NewName(p, toRemove) != p :: NewName(p, toRemove) in final && final[NewName(p, toRemove)] == files[p]
  {
    if listing != [] {
      var path := listing[0];
      var rest := listing[1..];
      DistinctTail(listing);
      var f := RenameOne(files, path, toRemove).files;
      assert RenameAll(files, listing, toRemove) == RenameAll(f, rest, toRemove);
      RenameOneKeys(files, path, toRemove);
      var n := NewName(path, toRemove);
      assert forall p | p in rest :: p in f;
      RenameAllResult(f, rest, toRemove);
      ChangedNamesCons(listing, toRemove);
      forall q
        ensures q in RenameAll(f, rest, toRemove).files <==> (q in files && q !in listing) || q in ChangedNames(listing, toRemove)
      {
        assert q in listing <==> q == path || q in rest;
      }
      RenameOneContents(files, path, toRemove);
      var final := RenameAll(f, rest, toRemove).files;
      forall q | q in files && q !in listing
        ensures q in final && final[q] == files[q]
      {
        assert q != path && q != n && q !in rest;
      }
      forall p | p in listing && NewName(p, toRemove) != p
        ensures NewName(p, toRemove) in final && final[NewName(p, toRemove)] == files[p]
      {
        if p == path {
          assert n in f && n !in rest;
        } else {
          assert p in rest && p in files && p != n;
        }
      }
    }
  }

  /** Moving an existing file onto its own path succeeds and changes nothing. */
  lemma MoveOntoItself(files: map<string, Contents>, path: string)
    requires path in files && path != ""
    ensures MoveFile(files, path, path) == Moved(files)
  {
  }

  /** The loss, on the smallest folder: a file whose name holds nothing to remove disappears. */
  lemma {:induction false} UnchangedNameIsDeleted(path: string, contents: Contents, toRemove: string)
    requires |toRemove| > 0 && path != "" && NewName(path, toRemove) == path
    ensures RenameAll(map[path := contents], [path], toRemove) == RenameOutcome(map[], None)
  {
    var m := map[path := contents];
    var listing := [path];
    assert RenameAll(m, listing, toRemove) == RenameAll(m - {path}, [], toRemove) by {
      MoveOntoItself(m, path);
      assert listing[0] == path && listing[1..] == [];
      RenameAllMoved(m, listing, toRemove, m);
    }
    assert m - {path} == map[];
  }

  /** One turn as evidently intended: a file whose name does not change is left alone. */
  function RenameOneKeeping(files: map<string, Contents>, path: string, toRemove: string): MoveOutcome
    requires |toRemove| > 0
  {
    var n := NewName(path, toRemove);
    if n == path && path in files then Moved(files)
    else RenameOne(files, path, toRemove)
  }

  /** The loop with the intended turn. */
  function RenameAllKeeping(files: map<string, Contents>, listing: seq<string>, toRemove: string): RenameOutcome
    decreases |listing|
  {
    if listing == [] then RenameOutcome(files, None)
    else if toRemove == "" then RenameOutcome(files, Some(EmptyPattern))
    else
      match RenameOneKeeping(files, listing[0], toRemove)
      case MoveFailed(e) => RenameOutcome(files, Some(e))
      case Moved(f) => RenameAllKeeping(f, listing[1..], toRemove)
  }

  /** With the intended turn no file is lost: a successful run keeps the number of files. */
  lemma {:induction false} RenameAllKeepingLosesNothing(files: map<string, Contents>, listing: seq<string>, toRemove: string)
    decreases |listing|
    ensures RenameAllKeeping(files, listing, toRemove).error.None? ==>
      |RenameAllKeeping(files, listing, toRemove).files| == |files|
  {
    if listing != [] && toRemove != "" {
      var path := listing[0];
      match RenameOneKeeping(files, path, toRemove)
      case MoveFailed(e) =>
      case Moved(f) =>
        var n := NewName(path, toRemove);
        if n != path {
          assert path !in f;
        }
        assert |f| == |files|;
        RenameAllKeepingLosesNothing(f, listing[1..], toRemove);
    }
  }

  /** With the intended turn, the file whose name does not change stays where it is. */
  lemma {:induction false} UnchangedNameIsKept(path: string, contents: Contents, toRemove: string)
    requires |toRemove| > 0 && NewName(path, toRemove) == path
    ensures RenameAllKeeping(map[path := contents], [path], toRemove) == RenameOutcome(map[path := contents], None)
  {
    assert [path][1..] == [];
  }
}
