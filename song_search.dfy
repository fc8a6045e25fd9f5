/**
 * The song-name handling and the choice of what to download in the
 * downloader: building `"<artist> - <title>"`, cutting trailing qualifiers
 * off names, recognising a miss on the primary site, collapsing its result
 * rows, and turning a video link into the converter's URL.
 */
module SongSearch {
  import opened Wrappers
  import opened Text

  // ---------------------------------------------------------------------
  // Names from the playlist page

  /** The first artist's piece of an artists text ends at `k`: no comma before it, a comma (or the end) at it. */
  predicate FirstArtistEndsAt(artists: string, k: int)
  {
    0 <= k <= |artists| && ',' !in artists[..k] && (k == |artists| || artists[k] == ',')
  }

  /** `"<first artist> - <title>"`, as built for each playlist row. */
  function SongDisplayName(title: string, artists: string): (name: string)
  {
    Trim(Split(artists, ",")[0]) + " - " + Trim(title)
  }

  /**
   * The name is the trimmed text before the artists' first comma (all of
   * it when there is none), `" - "`, and the trimmed title.
   */
  lemma SongDisplayNameParts(title: string, artists: string)
    ensures exists k | 0 <= k <= |artists| ::
      FirstArtistEndsAt(artists, k) && SongDisplayName(title, artists) == Trim(artists[..k]) + " - " + Trim(title)
  {
    SplitFirstPiece(artists, ",");
    IndexOfSpec(artists, ",");
    ContainsChar(artists, ',');
    match IndexOf(artists, ",")
    case None =>
      assert artists[..|artists|] == artists;
      assert FirstArtistEndsAt(artists, |artists|);
    case Some(k) =>
      assert artists[k] == artists[k..k + 1][0];
      ContainsChar(artists[..k], ',');
      BeforeFirstOccurrence(artists, ",", k);
      assert FirstArtistEndsAt(artists, k);
  }

  // ---------------------------------------------------------------------
  // Cutting names down to two '-' parts

  /** The name `RefineSongsNames` leaves at one position of the list. */
  function RefinedName(name: string): string
  {
    var parts := Split(name, "-");
    if |parts| > 2 then parts[0] + " - " + parts[1] else name
  }

  /** A name with more than one '-' becomes its first two parts with `" - "` between, and then has exactly one '-'. */
  lemma RefinedNameCut(name: string)
    requires CountChar(name, '-') >= 2
    ensures var parts := Split(name, "-");
      |parts| > 2 && RefinedName(name) == parts[0] + " - " + parts[1] && '-' !in parts[0] && '-' !in parts[1]
    ensures CountChar(RefinedName(name), '-') == 1
  {
    assert "-" == ['-'];
    SplitCharCount(name, '-');
    var parts := Split(name, "-");
    SplitPiecesFree(name, "-");
    ContainsChar(parts[0], '-');
    ContainsChar(parts[1], '-');
    CountCharAppend(parts[0] + " - ", parts[1], '-');
    CountCharAppend(parts[0], " - ", '-');
    assert CountChar(" - ", '-') == 1;
  }

  /** A name is left as it is exactly when it holds at most one '-'. */
  lemma RefinedNameUnchangedIff(name: string)
    ensures RefinedName(name) == name <==> CountChar(name, '-') <= 1
  {
    assert "-" == ['-'];
    SplitCharCount(name, '-');
    if CountChar(name, '-') >= 2 {
      RefinedNameCut(name);
    }
  }

  /** Refining twice is refining once. */
  lemma RefinedNameIdempotent(name: string)
    ensures RefinedName(RefinedName(name)) == RefinedName(name)
  {
    RefinedNameUnchangedIff(name);
    if CountChar(name, '-') >= 2 {
      RefinedNameCut(name);
    }
    RefinedNameUnchangedIff(RefinedName(name));
  }

  /** The last piece of the example name holds no '-'. */
  lemma ExampleLastSplit()
    ensures Split(" Remix", "-") == [" Remix"]
  {
    var tail := " Remix";
    assert IndexFrom(tail, "-", 6) == None;
    assert tail[5..6] == "x";
    assert IndexFrom(tail, "-", 5) == None;
    assert tail[4..5] == "i";
    assert IndexFrom(tail, "-", 4) == None;
    assert tail[3..4] == "m";
    assert IndexFrom(tail, "-", 3) == None;
    assert tail[2..3] == "e";
    assert IndexFrom(tail, "-", 2) == None;
    assert tail[1..2] == "R";
    assert IndexFrom(tail, "-", 1) == None;
    assert tail[0..1] == " ";
    assert IndexFrom(tail, "-", 0) == None;
  }

  /** The two last pieces of the example name. */
  lemma ExampleTailSplit()
    ensures Split(" B - Remix", "-") == [" B ", " Remix"]
  {
    var rest := " B - Remix";
    assert rest[3..4] == "-";
    assert IndexFrom(rest, "-", 3) == Some(3);
    assert rest[2..3] == " ";
    assert IndexFrom(rest, "-", 2) == Some(3);
    assert rest[1..2] == "B";
    assert IndexFrom(rest, "-", 1) == Some(3);
    assert rest[0..1] == " ";
    assert IndexFrom(rest, "-", 0) == Some(3);
    assert rest[..3] == " B " && rest[4..] == " Remix";
    ExampleLastSplit();
  }

  /** The three pieces of the example name. */
  lemma ExampleSplit()
    ensures Split("A - B - Remix", "-") == ["A ", " B ", " Remix"]
  {
    var name := "A - B - Remix";
    assert name[2..3] == "-";
    assert IndexFrom(name, "-", 2) == Some(2);
    assert name[1..2] == " ";
    assert IndexFrom(name, "-", 1) == Some(2);
    assert name[0..1] == "A";
    assert IndexFrom(name, "-", 0) == Some(2);
    assert name[..2] == "A " && name[3..] == " B - Remix";
    ExampleTailSplit();
  }

  /** The split is on a single '-', so the spaces around the parts stay. */
  lemma RefinedNameExample()
    ensures RefinedName("A - B - Remix") == "A  -  B "
  {
    ExampleSplit();
    assert "A " + " - " + " B " == "A  -  B ";
  }

  /** `RefineSongsNames`: every name of the list is refined in place. */
  method RefineSongsNames(songsNames: array<string>)
    modifies songsNames
    ensures forall i :: 0 <= i < songsNames.Length ==> songsNames[i] == RefinedName(old(songsNames[i]))
  {
    for i := 0 to songsNames.Length
      invariant forall k :: 0 <= k < i ==> songsNames[k] == RefinedName(old(songsNames[k]))
      invariant forall k :: i <= k < songsNames.Length ==> songsNames[k] == old(songsNames[k])
    {
      var splitted := Split(songsNames[i], "-");
      if |splitted| > 2 {
        songsNames[i] := splitted[0] + " - " + splitted[1];
      }
    }
  }

  // ---------------------------------------------------------------------
  // The primary site's result list

  /** One row of the primary site's result list: its whole text and the texts of its `#navi` parts. */
  datatype ResultRow = ResultRow(text: string, navi: seq<string>)

  /** The text the primary site shows, lower-cased, when it has nothing. */
  const NotFoundText: string := "your request was not found"

  /** Only this many rows are looked at when collapsing the results. */
  const MaxRowsConsidered: nat := 10

  /** The search missed: one row only, whose lower-cased text holds `NotFoundText`. */
  predicate IsPrimaryMiss(rows: seq<ResultRow>)
  {
    |rows| == 1 && Contains(ToLower(rows[0].text), NotFoundText)
  }

  /** Lower-casing a string keeps every occurrence, lower-cased. */
  lemma LowerKeepsOccurrence(s: string, t: string, i: int)
    requires OccursAt(s, t, i)
    ensures OccursAt(ToLower(s), ToLower(t), i)
  {
    assert ToLower(s)[i..i + |t|] == ToLower(t);
  }

  /** The sentence in the site's capitalisation lower-cases to `NotFoundText`. */
  lemma NotFoundTextLowered()
    ensures ToLower("Your request was not found") == NotFoundText
  {
  }

  /**
   * A single row is a miss when its text holds the sentence in either of
   * the two capitalisations; a list of any other length never is.
   */
  lemma PrimaryMissCases(rows: seq<ResultRow>)
    ensures |rows| != 1 ==> !IsPrimaryMiss(rows)
    ensures |rows| == 1 && (Contains(rows[0].text, NotFoundText) || Contains(rows[0].text, "Your request was not found"))
      ==> IsPrimaryMiss(rows)
  {
    if |rows| == 1 {
      var text := rows[0].text;
      NotFoundTextLowered();
      assert ToLower(NotFoundText) == NotFoundText;
      if Contains(text, NotFoundText) {
        var i :| 0 <= i <= |text| - |NotFoundText| && OccursAt(text, NotFoundText, i);
        LowerKeepsOccurrence(text, NotFoundText, i);
      } else if Contains(text, "Your request was not found") {
        var i :| 0 <= i <= |text| - |NotFoundText| && OccursAt(text, "Your request was not found", i);
        LowerKeepsOccurrence(text, "Your request was not found", i);
      }
    }
  }

  /** A row's dictionary key: its `#navi` texts joined with `" - "`. */
  function RowKey(row: ResultRow): string
  {
    Join(row.navi, " - ")
  }

  /** The keys of the rows that are looked at: at most the first `MaxRowsConsidered`. */
  function ConsideredKeys(rows: seq<ResultRow>): (keys: seq<string>)
    ensures |keys| <= MaxRowsConsidered && |keys| <= |rows|
    ensures |keys| == if |rows| < MaxRowsConsidered then |rows| else MaxRowsConsidered
    ensures forall i :: 0 <= i < |keys| ==> keys[i] == RowKey(rows[i])
  {
    var n := if |rows| < MaxRowsConsidered then |rows| else MaxRowsConsidered;
    seq(n, i requires 0 <= i < n => RowKey(rows[i]))
  }

  /** The keys in the order they were first added: a later equal key is skipped. */
  function FirstOccurrences(keys: seq<string>): (d: seq<string>)
    ensures Distinct(d)
    ensures forall k :: k in d <==> k in keys
    ensures |d| <= |keys|
  {
    if keys == [] then []
    else
      var d := FirstOccurrences(keys[..|keys| - 1]);
      assert forall k :: k in keys <==> k in keys[..|keys| - 1] || k == keys[|keys| - 1];
      if keys[|keys| - 1] in d then d else d + [keys[|keys| - 1]]
  }

  /** The first key added is the first key. */
  lemma {:induction false} FirstOccurrencesHead(keys: seq<string>)
    requires keys != []
    ensures FirstOccurrences(keys) != [] && FirstOccurrences(keys)[0] == keys[0]
  {
    if |keys| > 1 {
      FirstOccurrencesHead(keys[..|keys| - 1]);
      assert keys[..|keys| - 1][0] == keys[0];
    }
  }

  /** Extending the keys by one either keeps the collapsed keys or appends the new one. */
  lemma FirstOccurrencesSnoc(keys: seq<string>, k: string)
    ensures FirstOccurrences(keys + [k]) ==
      if k in FirstOccurrences(keys) then FirstOccurrences(keys) else FirstOccurrences(keys) + [k]
  {
    assert (keys + [k])[..|keys|] == keys;
  }

  /** The collapsed keys after one more key. */
  lemma CollapseStep(keys: seq<string>, i: nat)
    requires i < |keys|
    ensures FirstOccurrences(keys[..i + 1]) ==
      if keys[i] in FirstOccurrences(keys[..i]) then FirstOccurrences(keys[..i])
      else FirstOccurrences(keys[..i]) + [keys[i]]
  {
    FirstOccurrencesSnoc(keys[..i], keys[i]);
    assert keys[..i + 1] == keys[..i] + [keys[i]];
  }

  /** A sequence without repetitions has as many distinct elements as positions. */
  lemma {:induction false} DistinctCardinality(s: seq<string>)
    requires Distinct(s)
    ensures |set x | x in s| == |s|
  {
    if s != [] {
      var init := s[..|s| - 1];
      DistinctCardinality(init);
      assert (set x | x in s) == (set x | x in init) + {s[|s| - 1]};
      assert s[|s| - 1] !in init;
    }
  }

  /**
   * The dictionary built from the result rows: the first
   * `MaxRowsConsidered` rows are visited in order, a row whose key is
   * already present is skipped, and every key added is given the link of
   * the list's first row. `order` is the dictionary's insertion order.
   */
  method CollapseResults(rows: seq<ResultRow>, firstRowHref: string)
    returns (items: map<string, string>, order: seq<string>)
    ensures order == FirstOccurrences(ConsideredKeys(rows))
    ensures forall k :: k in items <==> k in order
    ensures forall k :: k in items ==> items[k] == firstRowHref
    ensures |items| == |order| <= MaxRowsConsidered
  {
    var keys := ConsideredKeys(rows);
    items, order := map[], [];
    for i := 0 to |keys|
      invariant order == FirstOccurrences(keys[..i])
      invariant forall k :: k in items <==> k in order
      invariant forall k :: k in items ==> items[k] == firstRowHref
    {
      var key := keys[i];
      CollapseStep(keys, i);
      if key in items {
        continue;
      }
      items := items[key := firstRowHref];
      order := order + [key];
    }
    assert keys[..|keys|] == keys;
    KeysCardinality(items, order);
  }

  /** A map whose keys are exactly the elements of a sequence without repetitions has one entry per position. */
  lemma KeysCardinality(items: map<string, string>, order: seq<string>)
    requires Distinct(order)
    requires forall k :: k in items <==> k in order
    ensures |items| == |order|
  {
    DistinctCardinality(order);
    assert items.Keys == set k | k in order;
  }

  /** What the worker does with a result list. */
  datatype PrimaryOutcome =
    | NotFound                    // hand the song to the fallback site
    | Navigate(url: Option<string>) // go to the dictionary's first value; `None` is the null the empty dictionary gives

  /**
   * The decision on the primary site's result list: a miss sends the song
   * to the fallback; otherwise the worker goes to the first value of the
   * collapsed dictionary, which is always the first row's link, whatever
   * the keys are.
   */
  method PrimarySearchOutcome(rows: seq<ResultRow>, firstRowHref: string) returns (outcome: PrimaryOutcome)
    ensures outcome == NotFound <==> IsPrimaryMiss(rows)
    ensures outcome.Navigate? ==> outcome.url == if rows == [] then None else Some(firstRowHref)
  {
    if |rows| == 1 && Contains(ToLower(rows[0].text), NotFoundText) {
      return NotFound;
    }
    var items, order := CollapseResults(rows, firstRowHref);
    if order == [] {
      outcome := Navigate(None);
    } else {
      FirstOccurrencesHead(ConsideredKeys(rows));
      outcome := Navigate(Some(items[order[0]]));
    }
  }

  // ---------------------------------------------------------------------
  // The fallback site

  /** The prefix of the converter page a video id is appended to. */
  const ConverterPrefix: string := "https://www.yt-download.org/pt/@api/button/mp3/"

  /** The video id: the trimmed text after the last `"v="` of the first result's link (null when there is no link). */
  function VideoId(link: Option<string>): Option<string>
  {
    match link
    case None => None
    case Some(l) => Some(TrimmedLastPiece(l, "v="))
  }

  /** The converter page for a video id; C# turns a null id into the empty string. */
  function ConverterUrl(videoId: Option<string>): (url: string)
    ensures |url| == |ConverterPrefix| + |videoId.GetOr("")|
    ensures url[..|ConverterPrefix|] == ConverterPrefix
    ensures url[|ConverterPrefix|..] == videoId.GetOr("")
  {
    ConverterPrefix + videoId.GetOr("")
  }

  /**
   * The id never holds `"v="`; it is the trimmed final part of the link,
   * which follows a `"v="` when the link has one and is the whole link
   * otherwise.
   */
  lemma VideoIdSpec(link: string)
    ensures VideoId(Some(link)).Some?
    ensures !Contains(VideoId(Some(link)).value, "v=")
    ensures !Contains(link, "v=") ==> VideoId(Some(link)) == Some(Trim(link))
    ensures Contains(link, "v=") ==> exists k | 2 <= k <= |link| ::
      link[k - 2..k] == "v=" && !Contains(link[k..], "v=") && VideoId(Some(link)) == Some(Trim(link[k..]))
  {
    var k := TrimmedLastPieceSpec(link, "v=");
    if Contains(link, "v=") {
      assert link[k - 2..k] == "v=" && !Contains(link[k..], "v=");
    }
  }
}
