/**
 * The command-line parameters (Program.cs). The arguments are glued together
 * and cut at every `--`; a parameter's value is read from the first piece
 * that mentions its name. The file system, the desktop folder, the HTTP
 * reachability of the playlist and the session id are parameters.
 */
module CommandLine {
  import opened Wrappers
  import opened Text

  datatype Mode = OneByOne | SpotifyPlaylist

  /** Equal up to ASCII case, character by character. */
  predicate EqualsIgnoringCase(a: string, b: string)
  {
    |a| == |b| && forall i | 0 <= i < |a| :: LowerChar(a[i]) == LowerChar(b[i])
  }

  /** Comparing lower-cased strings is comparing them ignoring case. */
  lemma LoweredEqualsIgnoringCase(s: string, keyword: string)
    ensures ToLower(s) == ToLower(keyword) <==> EqualsIgnoringCase(s, keyword)
  {
    if EqualsIgnoringCase(s, keyword) {
      assert forall i | 0 <= i < |s| :: ToLower(s)[i] == ToLower(keyword)[i];
    }
    if ToLower(s) == ToLower(keyword) {
      forall i | 0 <= i < |s|
        ensures LowerChar(s[i]) == LowerChar(keyword[i])
      {
        assert ToLower(s)[i] == ToLower(keyword)[i];
      }
    }
  }

  /** The mode named by `inputMode`, in any letter case; `None` for anything else. */
  function ParseMode(inputMode: string): (m: Option<Mode>)
    ensures m == Some(OneByOne) <==> EqualsIgnoringCase(inputMode, "OneByOne")
    ensures m == Some(SpotifyPlaylist) <==> EqualsIgnoringCase(inputMode, "SpotifyPlaylist")
  {
    LoweredEqualsIgnoringCase(inputMode, "OneByOne");
    LoweredEqualsIgnoringCase(inputMode, "SpotifyPlaylist");
    assert ToLower("OneByOne") == "onebyone";
    assert ToLower("SpotifyPlaylist") == "spotifyplaylist";
    var lowered := ToLower(inputMode);
    if lowered == "onebyone" then Some(OneByOne)
    else if lowered == "spotifyplaylist" then Some(SpotifyPlaylist)
    else None
  }

  /** The arguments concatenated with nothing between them, then cut at every `"--"`. */
  function Segments(args: seq<string>): seq<string>
  {
    Split(Join(args, ""), "--")
  }

  /** The segments put back together with `"--"` are the concatenated arguments, and none holds `"--"`. */
  lemma SegmentsSpec(args: seq<string>)
    ensures |Segments(args)| >= 1
    ensures Join(Segments(args), "--") == Join(args, "")
    ensures forall k | 0 <= k < |Segments(args)| :: !Contains(Segments(args)[k], "--")
  {
    SplitJoin(Join(args, ""), "--");
    SplitPiecesFree(Join(args, ""), "--");
  }

  /** `FirstOrDefault(x => x.Contains(key))`. */
  function FirstContaining(segs: seq<string>, key: string): Option<string>
  {
    if segs == [] then None
    else if Contains(segs[0], key) then Some(segs[0])
    else FirstContaining(segs[1..], key)
  }

  /** The piece found is the first that holds `key`; none is found only when no piece holds it. */
  lemma {:induction false} FirstContainingSpec(segs: seq<string>, key: string) returns (i: nat)
    ensures FirstContaining(segs, key).None? <==> forall j | 0 <= j < |segs| :: !Contains(segs[j], key)
    ensures FirstContaining(segs, key).Some? ==>
      i < |segs| && FirstContaining(segs, key).value == segs[i] && Contains(segs[i], key) &&
      forall j | 0 <= j < i :: !Contains(segs[j], key)
  {
    i := 0;
    if segs != [] && !Contains(segs[0], key) {
      var j := FirstContainingSpec(segs[1..], key);
      i := j + 1;
      forall n | 0 < n < |segs|
        ensures segs[n] == segs[1..][n - 1]
      {
      }
    }
  }

  /** `Split("=").LastOrDefault()?.Trim()` on a segment: what follows its last `'='`, trimmed. */
  function ValueOf(segment: string): string
  {
    TrimmedLastPiece(segment, "=")
  }

  /**
   * A value holds no `'='`; it is the whole trimmed segment when the segment
   * has no `'='`, and otherwise the trimmed text after the last `'='`.
   */
  lemma ValueOfSpec(segment: string) returns (k: nat)
    ensures '=' !in ValueOf(segment)
    ensures '=' !in segment ==> ValueOf(segment) == Trim(segment)
    ensures '=' in segment ==>
      1 <= k <= |segment| && segment[k - 1] == '=' && '=' !in segment[k..] && ValueOf(segment) == Trim(segment[k..])
  {
    k := TrimmedLastPieceSpec(segment, "=");
    ContainsChar(ValueOf(segment), '=');
    ContainsChar(segment, '=');
    if '=' in segment {
      assert segment[k - 1] == segment[k - 1..k][0];
      ContainsChar(segment[k..], '=');
    }
  }

  /** With a single `'='`, the value is everything after it, trimmed. */
  lemma ValueAfterKey(key: string, v: string)
    requires '=' !in v
    ensures ValueOf(key + "=" + v) == Trim(v)
  {
    var s := key + "=" + v;
    assert s[|key|] == '=';
    var k := ValueOfSpec(s);
    assert s[k..] == v;
  }

  /** The value of the first segment that mentions `key`, or `None` (C#'s null). */
  function Lookup(segs: seq<string>, key: string): Option<string>
  {
    match FirstContaining(segs, key)
    case None => None
    case Some(seg) => Some(ValueOf(seg))
  }

  /** The playlist link: the first segment mentioning it, with `"PlaylistLink="` cut out, trimmed. */
  function PlaylistLinkValue(segs: seq<string>): Option<string>
  {
    match FirstContaining(segs, "PlaylistLink")
    case None => None
    case Some(seg) => Some(Trim(Replace(seg, "PlaylistLink=", "")))
  }

  /** A link after `"PlaylistLink="` is kept whole, `'='` characters included, only trimmed. */
  lemma PlaylistLinkKeepsUrl(url: string)
    requires !Contains(url, "PlaylistLink=")
    ensures Trim(Replace("PlaylistLink=" + url, "PlaylistLink=", "")) == Trim(url)
  {
    ReplaceLeading("PlaylistLink=", url, "");
    assert "" + url == url;
  }

  /** Whether a value counts as given (`!string.IsNullOrEmpty`). */
  predicate Informed(value: Option<string>)
  {
    value.Some? && value.value != ""
  }

  /** `RunInParallel`: a segment mentions it and its value is not empty. */
  function RunInParallel(segs: seq<string>): bool
  {
    Informed(Lookup(segs, "RunInParallel"))
  }

  /** The value looked up comes from the first segment that mentions the key. */
  lemma LookupFirst(segs: seq<string>, i: nat, key: string)
    requires i < |segs| && Contains(segs[i], key)
    requires forall j | 0 <= j < i :: !Contains(segs[j], key)
    ensures Lookup(segs, key) == Some(ValueOf(segs[i]))
  {
    var n := FirstContainingSpec(segs, key);
  }

  /** A segment that is just the key, a word with no `'='` and no white space at its ends, gives the key itself. */
  lemma BareKey(segs: seq<string>, i: nat, key: string)
    requires i < |segs| && segs[i] == key && '=' !in key && IsTrimmed(key)
    requires forall j | 0 <= j < i :: !Contains(segs[j], key)
    ensures Lookup(segs, key) == Some(key)
  {
    ContainsPrefix(key, "");
    assert key + "" == key;
    LookupFirst(segs, i, key);
    var k := ValueOfSpec(key);
    TrimOfTrimmed(key);
  }

  /** A segment `key=v`, with no other `'='`, gives `v` trimmed. */
  lemma KeyWithValue(segs: seq<string>, i: nat, key: string, v: string)
    requires i < |segs| && segs[i] == key + "=" + v && '=' !in v
    requires forall j | 0 <= j < i :: !Contains(segs[j], key)
    ensures Lookup(segs, key) == Some(Trim(v))
  {
    ContainsPrefix(key, "=" + v);
    assert segs[i] == key + ("=" + v);
    LookupFirst(segs, i, key);
    ValueAfterKey(key, v);
  }

  /** A bare `--RunInParallel` switches the parallel mode on. */
  lemma BareRunInParallel(segs: seq<string>, i: nat)
    requires i < |segs| && segs[i] == "RunInParallel"
    requires forall j | 0 <= j < i :: !Contains(segs[j], "RunInParallel")
    ensures RunInParallel(segs)
  {
    BareKey(segs, i, "RunInParallel");
  }

  /** Any non-blank value switches it on, `--RunInParallel=false` included. */
  lemma RunInParallelWithValue(segs: seq<string>, i: nat, v: string)
    requires i < |segs| && segs[i] == "RunInParallel=" + v && '=' !in v && Trim(v) != ""
    requires forall j | 0 <= j < i :: !Contains(segs[j], "RunInParallel")
    ensures RunInParallel(segs)
  {
    KeyWithValue(segs, i, "RunInParallel", v);
  }

  /** The folder name of a session: `SongDownloader_Session_<id>`. */
  function BaseFolderName(sessionId: string): (name: string)
    ensures |name| == 23 + |sessionId|
    ensures name[..23] == "SongDownloader_Session_" && name[23..] == sessionId
  {
    "SongDownloader_Session_" + sessionId
  }

  /** Distinct sessions get distinct folder names. */
  lemma BaseFolderNameInjective(a: string, b: string)
    requires BaseFolderName(a) == BaseFolderName(b)
    ensures a == b
  {
    assert a == BaseFolderName(a)[23..];
  }

  /** Whether the output folder is taken from the arguments, as Program.cs:60 is written. */
  predicate OutputPathInformedAsWritten(inputOutput: Option<string>, dirExists: string -> bool)
  {
    !(!Informed(inputOutput) || dirExists(inputOutput.value))
  }

  /** The output folder is taken from the arguments when it was given and exists. */
  predicate OutputPathInformed(inputOutput: Option<string>, dirExists: string -> bool)
  {
    !(!Informed(inputOutput) || !dirExists(inputOutput.value))
  }

  /** The output directory as Program.cs:104 computes it from the flag of Program.cs:60. */
  function OutputDirectoryAsWritten(inputOutput: Option<string>, dirExists: string -> bool,
                                    defaultPath: string, baseName: string,
                                    combine: (string, string) -> string): string
  {
    if OutputPathInformedAsWritten(inputOutput, dirExists) then combine(inputOutput.value, baseName) else defaultPath
  }

  /** The output directory: inside the given folder when it exists, the default path otherwise. */
  function OutputDirectory(inputOutput: Option<string>, dirExists: string -> bool,
                           defaultPath: string, baseName: string,
                           combine: (string, string) -> string): (dir: string)
    ensures Informed(inputOutput) && dirExists(inputOutput.value) ==> dir == combine(inputOutput.value, baseName)
    ensures !Informed(inputOutput) || !dirExists(inputOutput.value) ==> dir == defaultPath
  {
    if OutputPathInformed(inputOutput, dirExists) then combine(inputOutput.value, baseName) else defaultPath
  }

  /**
   * As written, an existing folder is ignored and a missing one is used,
   * the opposite of what the warning printed at Program.cs:63 describes.
   */
  lemma OutputFolderInverted(folder: string, dirExists: string -> bool,
                             defaultPath: string, baseName: string,
                             combine: (string, string) -> string)
    requires folder != ""
    ensures dirExists(folder) ==>
      OutputDirectoryAsWritten(Some(folder), dirExists, defaultPath, baseName, combine) == defaultPath
    ensures !dirExists(folder) ==>
      OutputDirectoryAsWritten(Some(folder), dirExists, defaultPath, baseName, combine) == combine(folder, baseName)
    ensures OutputPathInformedAsWritten(Some(folder), dirExists) != OutputPathInformed(Some(folder), dirExists)
  {
  }

  datatype Params = Params(mode: Mode, songName: Option<string>, playlistLink: Option<string>,
                           outputDirectory: string, runInParallel: bool)

  datatype ParamsError =
    | ModeMissing                    // no segment mentions `Mode`: a null reference in `ParseMode`
    | ModeUnparsable(input: string)  // "No mode could be parsed for your input ..."
    | PlaylistUnreachable            // "The playlist link informed couldn't be acessed"

  datatype ParamsOutcome = Wizard | Parsed(params: Params) | Failed(error: ParamsError)

  /** A parsed result names a song only in one-by-one mode and a link exactly in playlist mode. */
  predicate WellFormedParams(p: Params, linkReachable: string -> bool)
  {
    && (p.songName.Some? ==> p.mode == OneByOne)
    && (p.playlistLink.Some? <==> p.mode == SpotifyPlaylist)
    && (p.playlistLink.Some? ==> linkReachable(p.playlistLink.value))
  }

  /**
   * `GetParams`, as written; `desktop` is the desktop folder, `combine` is
   * `Path.Combine`, `dirExists` is `Directory.Exists` and `linkReachable`
   * tells whether an HTTP request to the link succeeds. Each parsed field is
   * the value the helpers above compute from the segments.
   */
  function GetParams(args: seq<string>, sessionId: string, desktop: string,
                     combine: (string, string) -> string, dirExists: string -> bool,
                     linkReachable: string -> bool): (o: ParamsOutcome)
    ensures o.Wizard? <==> args == []
    ensures o.Parsed? ==> WellFormedParams(o.params, linkReachable)
    ensures o.Parsed? ==>
      Lookup(Segments(args), "Mode").Some? && ParseMode(Lookup(Segments(args), "Mode").value) == Some(o.params.mode)
    ensures o.Parsed? ==>
      o.params.outputDirectory == OutputDirectoryAsWritten(Lookup(Segments(args), "Output"), dirExists,
        combine(desktop, BaseFolderName(sessionId)), BaseFolderName(sessionId), combine)
    ensures o.Parsed? ==> o.params.runInParallel == RunInParallel(Segments(args))
    ensures o.Parsed? && o.params.mode == OneByOne ==> o.params.songName == Lookup(Segments(args), "SongName")
    ensures o.Parsed? && o.params.mode == SpotifyPlaylist ==> o.params.playlistLink == PlaylistLinkValue(Segments(args))
  {
    if args == [] then Wizard
    else
      var segs := Segments(args);
      match Lookup(segs, "Mode")
      case None => Failed(ModeMissing)
      case Some(inputMode) =>
        match ParseMode(inputMode)
        case None => Failed(ModeUnparsable(inputMode))
        case Some(mode) =>
          var baseName := BaseFolderName(sessionId);
          var defaultPath := combine(desktop, baseName);
          var output := OutputDirectoryAsWritten(Lookup(segs, "Output"), dirExists, defaultPath, baseName, combine);
          var link := if mode == SpotifyPlaylist then PlaylistLinkValue(segs) else None;
          var songName := if mode == OneByOne then Lookup(segs, "SongName") else None;
          if mode == SpotifyPlaylist && (link.None? || !linkReachable(link.value)) then Failed(PlaylistUnreachable)
          else Parsed(Params(mode, songName, link, output, RunInParallel(segs)))
  }

  /** `GetParams` with the output folder chosen by the corrected rule of `OutputDirectory`. */
  function GetParamsCorrected(args: seq<string>, sessionId: string, desktop: string,
                              combine: (string, string) -> string, dirExists: string -> bool,
                              linkReachable: string -> bool): ParamsOutcome
  {
    match GetParams(args, sessionId, desktop, combine, dirExists, linkReachable)
    case Parsed(p) =>
      var baseName := BaseFolderName(sessionId);
      Parsed(p.(outputDirectory := OutputDirectory(Lookup(Segments(args), "Output"), dirExists,
                                                   combine(desktop, baseName), baseName, combine)))
    case other => other
  }

  /**
   * The corrected parse differs from the one as written only in the output
   * folder, which is the given folder exactly when it was given and exists.
   */
  lemma GetParamsCorrectedOutput(args: seq<string>, sessionId: string, desktop: string,
                                 combine: (string, string) -> string, dirExists: string -> bool,
                                 linkReachable: string -> bool)
    ensures var o := GetParams(args, sessionId, desktop, combine, dirExists, linkReachable);
      var c := GetParamsCorrected(args, sessionId, desktop, combine, dirExists, linkReachable);
      var output := Lookup(Segments(args), "Output");
      && (c.Parsed? <==> o.Parsed?)
      && (!o.Parsed? ==> c == o)
      && (o.Parsed? ==> c.params.(outputDirectory := o.params.outputDirectory) == o.params)
      && (o.Parsed? && Informed(output) && dirExists(output.value) ==>
            c.params.outputDirectory == combine(output.value, BaseFolderName(sessionId)) &&
            o.params.outputDirectory == combine(desktop, BaseFolderName(sessionId)))
  {
  }

  /** How the mode decides the outcome for non-empty arguments. */
  lemma GetParamsByMode(args: seq<string>, sessionId: string, desktop: string,
                        combine: (string, string) -> string, dirExists: string -> bool,
                        linkReachable: string -> bool)
    requires args != []
    ensures var o := GetParams(args, sessionId, desktop, combine, dirExists, linkReachable);
      var inputMode := Lookup(Segments(args), "Mode");
      var link := PlaylistLinkValue(Segments(args));
      var badLink := link.None? || !linkReachable(link.value);
      && (o == Failed(ModeMissing) <==> inputMode.None?)
      && (o == Failed(ModeUnparsable(inputMode.GetOr(""))) <==> inputMode.Some? && ParseMode(inputMode.value).None?)
      && (o.Parsed? ==> inputMode.Some? && ParseMode(inputMode.value) == Some(o.params.mode))
      && (o == Failed(PlaylistUnreachable) <==>
            inputMode.Some? && ParseMode(inputMode.value) == Some(SpotifyPlaylist) && badLink)
      && (o.Parsed? <==>
            inputMode.Some? && ParseMode(inputMode.value).Some? &&
            !(ParseMode(inputMode.value) == Some(SpotifyPlaylist) && badLink))
  {
  }
}
