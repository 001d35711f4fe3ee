/** The video link rewriting of components/VideoModal.tsx: Google Drive share
    links and YouTube `watch?v=` / `youtu.be/` links become embeddable URLs,
    and a YouTube embed gets an autoplay flag before it is shown. */
module VideoModal {
  import opened Text

  const DriveHost := "drive.google.com"
  const FileMarker := "file/d/"
  const DriveRoot := "https://" + DriveHost + "/"
  const DrivePrefix := DriveRoot + FileMarker
  const DriveSuffix := "/preview"
  const EmbedMarker := "/embed/"
  const WatchMarker := "youtube.com/watch?v="
  const ShortMarker := "youtu.be/"
  const YouTubeHome := "https://www.youtube.com"
  const YouTubeEmbedPrefix := YouTubeHome + EmbedMarker
  const YouTubeEmbedHost := "youtube.com/embed"

  /** Where `/file\/d\/([^/]+)/` matches, and its captured file id. */
  datatype FileMatch = FileMatch(at: nat, id: string)

  /** The regular expression can match at `k`: `file/d/` followed by a character other than `/`. */
  predicate FileMatchesAt(url: string, k: nat) {
    OccursAt(url, k, FileMarker) && k + |FileMarker| < |url| && url[k + |FileMarker|] != '/'
  }

  /** `url.match(/file\/d\/([^/]+)/)`, searching from `from`: the leftmost match,
      whose id is the longest run of characters other than `/`. */
  function FileMatchFrom(url: string, from: nat): (r: Option<FileMatch>)
    ensures r.Some? ==> from <= r.value.at && FileMatchesAt(url, r.value.at)
    ensures r.Some? ==> r.value.id != [] && '/' !in r.value.id
    ensures r.Some? ==> OccursAt(url, r.value.at + |FileMarker|, r.value.id)
    ensures r.Some? ==> var end := r.value.at + |FileMarker| + |r.value.id|;
                        end <= |url| && (end == |url| || url[end] == '/')
    decreases |url| + 1 - from
  {
    if from >= |url| then None
    else if FileMatchesAt(url, from) then
      var id := Before(url[from + |FileMarker|..], '/');
      FileIdAt(url, from);
      Some(FileMatch(from, id))
    else FileMatchFrom(url, from + 1)
  }

  /** The match found is the leftmost one, and none is found only when the
      expression matches nowhere. */
  lemma {:induction false} FileMatchLeftmost(url: string, from: nat)
    ensures var r := FileMatchFrom(url, from);
      && (r.Some? ==> forall k :: from <= k < r.value.at ==> !FileMatchesAt(url, k))
      && (r.None? ==> forall k :: from <= k ==> !FileMatchesAt(url, k))
    decreases |url| + 1 - from
  {
    if from < |url| && !FileMatchesAt(url, from) {
      FileMatchLeftmost(url, from + 1);
    }
  }

  /** The id captured by a match at `k`: the characters up to the next `/`. */
  lemma FileIdAt(url: string, k: nat)
    requires FileMatchesAt(url, k)
    ensures var id := Before(url[k + |FileMarker|..], '/');
      && id != [] && OccursAt(url, k + |FileMarker|, id)
      && (k + |FileMarker| + |id| == |url| || url[k + |FileMarker| + |id|] == '/')
  {
    var rest := url[k + |FileMarker|..];
    var id := Before(rest, '/');
    assert id == url[k + |FileMarker|..k + |FileMarker| + |id|];
    assert rest[0] != '/';
  }

  function DriveFileId(url: string): Option<string> {
    match FileMatchFrom(url, 0)
    case None => None
    case Some(m) => Some(m.id)
  }

  /** The id the YouTube branch extracts, or "" when it finds none:
      `url.split('v=')[1].split('&')[0]` for a `watch?v=` link,
      `url.split('youtu.be/')[1].split('?')[0]` for a short link. */
  function YouTubeId(url: string): (r: string)
    ensures Contains(url, WatchMarker) ==> '&' !in r
    ensures !Contains(url, WatchMarker) && Contains(url, ShortMarker) ==> '?' !in r
    ensures !Contains(url, WatchMarker) && !Contains(url, ShortMarker) ==> r == ""
    ensures exists o: nat :: OccursAt(url, o, r)
  {
    if Contains(url, WatchMarker) then
      var piece := SecondPiece(url, "v=");
      var o: nat :| OccursAt(url, o, piece);
      OccursWithin(url, o, piece, 0, Before(piece, '&'));
      Before(piece, '&')
    else if Contains(url, ShortMarker) then
      var piece := SecondPiece(url, ShortMarker);
      var o: nat :| OccursAt(url, o, piece);
      OccursWithin(url, o, piece, 0, Before(piece, '?'));
      Before(piece, '?')
    else
      assert OccursAt(url, 0, "");
      ""
  }

  /** `getYouTubeEmbedUrl` */
  function EmbedUrl(url: string): (r: string)
    ensures r == "" <==> url == ""
    ensures r == url || (StartsWith(r, DrivePrefix) && Contains(url, DriveHost))
            || StartsWith(r, YouTubeEmbedPrefix)
  {
    if url == "" then ""
    else if Contains(url, DriveHost) && DriveFileId(url).Some? then
      DrivePrefix + DriveFileId(url).value + DriveSuffix
    else if Contains(url, EmbedMarker) then url
    else if YouTubeId(url) != "" then
      YouTubeEmbedPrefix + YouTubeId(url)
    else url
  }

  /** The URL put into the iframe: `?autoplay=1` or `&autoplay=1` is appended
      to a YouTube embed only. */
  function WithAutoplay(embed: string): (r: string)
    ensures !Contains(embed, YouTubeEmbedHost) ==> r == embed
    ensures Contains(embed, YouTubeEmbedHost) ==> |r| == |embed| + 11 && r[..|embed|] == embed
    ensures Contains(embed, YouTubeEmbedHost) ==> r[|embed|] == (if '?' in embed then '&' else '?')
  {
    if Contains(embed, YouTubeEmbedHost) then
      (if '?' in embed then embed + "&autoplay=1" else embed + "?autoplay=1")
    else embed
  }

  /** The URL the modal shows for a given video link. */
  function ModalSource(videoUrl: string): string {
    WithAutoplay(EmbedUrl(videoUrl))
  }

  // ---------------------------------------------------------------------------
  // Facts about the fixed prefixes

  lemma OccursInPrefix(pre: string, rest: string, k: nat, p: string)
    requires k + |p| <= |pre|
    ensures OccursAt(pre + rest, k, p) <==> OccursAt(pre, k, p)
  {
    assert (pre + rest)[k..k + |p|] == pre[k..k + |p|];
  }

  lemma OccursInSuffix(pre: string, rest: string, k: nat, p: string)
    ensures OccursAt(pre + rest, |pre| + k, p) <==> OccursAt(rest, k, p)
  {
    if k + |p| <= |rest| {
      assert (pre + rest)[|pre| + k..|pre| + k + |p|] == rest[k..k + |p|];
    }
  }

  lemma ContainsAt(s: string, k: nat, p: string)
    requires OccursAt(s, k, p)
    ensures Contains(s, p)
  {
  }

  /** A character missing from `pre` is missing from the first `|pre|` places of `pre + rest`. */
  lemma CharNotInPrefix(pre: string, rest: string, c: char)
    requires c !in pre
    ensures forall k :: 0 <= k < |pre| ==> (pre + rest)[k] != c
  {
    forall k | 0 <= k < |pre| ensures (pre + rest)[k] != c {
      assert (pre + rest)[k] == pre[k];
    }
  }

  /** The match of `/file\/d\/([^/]+)/` is pinned down by a `file/d/` with
      no `f` before it and a `/`-free id closed by `/`. */
  lemma {:induction false} LeftmostFileMatch(s: string, at: nat, id: string)
    requires at + 7 + |id| < |s| && s[at + 7 + |id|] == '/'
    requires forall k :: 0 <= k < at ==> s[k] != 'f'
    requires OccursAt(s, at, FileMarker) && OccursAt(s, at + 7, id)
    requires id != [] && '/' !in id
    ensures FileMatchFrom(s, 0) == Some(FileMatch(at, id))
  {
    assert s[at + 7] == id[0];
    assert FileMatchesAt(s, at);
    var r := FileMatchFrom(s, 0);
    FileMatchLeftmost(s, 0);
    var m := r.value.at;
    assert s[m..m + 7][0] == s[m] == 'f';
    assert m == at;
    var rid := r.value.id;
    assert '/' !in s[at + 7..at + 7 + |rid|];
    assert |rid| == |id|;
  }

  /** Where the Drive host and the file path sit in the Drive embed prefix. */
  lemma DrivePrefixFacts()
    ensures |DrivePrefix| == 32 && |DriveRoot| == 25
    ensures OccursAt(DrivePrefix, 8, DriveHost) && OccursAt(DrivePrefix, 25, FileMarker)
    ensures 'f' !in DriveRoot && DrivePrefix == DriveRoot + FileMarker
  {
    OccursAfter("https://", DriveHost);
    OccursInPrefix("https://" + DriveHost, "/", 8, DriveHost);
    OccursInPrefix(DriveRoot, FileMarker, 8, DriveHost);
    OccursAfter(DriveRoot, FileMarker);
  }

  /** The Drive link the rewrite produces is recognised as the same Drive link. */
  lemma DriveEmbedRoundTrip(id: string)
    requires id != [] && '/' !in id
    ensures FileMatchFrom(DrivePrefix + id + DriveSuffix, 0) == Some(FileMatch(25, id))
    ensures Contains(DrivePrefix + id + DriveSuffix, DriveHost)
  {
    var s := DrivePrefix + id + DriveSuffix;
    DrivePrefixFacts();
    assert s == DrivePrefix + (id + DriveSuffix);
    assert s == DriveRoot + (FileMarker + id + DriveSuffix);
    OccursInPrefix(DrivePrefix, id + DriveSuffix, 8, DriveHost);
    ContainsAt(s, 8, DriveHost);
    OccursInPrefix(DrivePrefix, id + DriveSuffix, 25, FileMarker);
    CharNotInPrefix(DriveRoot, FileMarker + id + DriveSuffix, 'f');
    OccursInSuffix(DrivePrefix, id + DriveSuffix, 0, id);
    assert s[32 + |id|] == DriveSuffix[0];
    LeftmostFileMatch(s, 25, id);
  }

  /** Behind a prefix without `f`, a Drive file path lies entirely in the rest. */
  lemma FileMatchBeyond(pre: string, rest: string)
    requires 'f' !in pre
    ensures forall k: nat :: FileMatchesAt(pre + rest, k) ==> k >= |pre| && FileMatchesAt(rest, k - |pre|)
  {
    CharNotInPrefix(pre, rest, 'f');
    forall k: nat | FileMatchesAt(pre + rest, k) ensures k >= |pre| && FileMatchesAt(rest, k - |pre|) {
      assert (pre + rest)[k] == 'f';
      OccursInSuffix(pre, rest, k - |pre|, FileMarker);
      assert (pre + rest)[k + 7] == rest[k - |pre| + 7];
    }
  }

  /** The Drive host does not start inside the YouTube embed prefix. */
  lemma DriveHostBeyond(id: string)
    ensures forall k: nat :: OccursAt(YouTubeEmbedPrefix + id, k, DriveHost) ==> k >= 30
  {
    var s := YouTubeEmbedPrefix + id;
    assert 'v' !in YouTubeHome && 'v' !in EmbedMarker && '/' !in DriveHost;
    CharNotInPrefix(YouTubeEmbedPrefix, id, 'v');
    forall k: nat | OccursAt(s, k, DriveHost) ensures k >= 30 {
      assert s[k..k + 16][3] == s[k + 3] == 'v';
      assert s[29] == '/';
      assert '/' !in s[k..k + 16];
    }
  }

  /** A YouTube embed link contains `/embed/`; it contains the Drive host, or
      a Drive file path, only where its id does. */
  lemma YouTubeEmbedShape(id: string)
    ensures Contains(YouTubeEmbedPrefix + id, EmbedMarker)
    ensures Contains(YouTubeEmbedPrefix + id, DriveHost) ==> Contains(id, DriveHost)
    ensures forall k: nat :: FileMatchesAt(YouTubeEmbedPrefix + id, k) ==> k >= 30 && FileMatchesAt(id, k - 30)
  {
    YouTubeEmbedMarker(id);
    YouTubeEmbedDrive(id);
    assert 'f' !in YouTubeHome && 'f' !in EmbedMarker;
    FileMatchBeyond(YouTubeEmbedPrefix, id);
  }

  lemma YouTubeEmbedMarker(id: string)
    ensures Contains(YouTubeEmbedPrefix + id, EmbedMarker)
  {
    var s := YouTubeEmbedPrefix + id;
    assert s == YouTubeHome + (EmbedMarker + id);
    OccursInSuffix(YouTubeHome, EmbedMarker + id, 0, EmbedMarker);
    ContainsAt(s, 23, EmbedMarker);
  }

  lemma YouTubeEmbedDrive(id: string)
    ensures Contains(YouTubeEmbedPrefix + id, DriveHost) ==> Contains(id, DriveHost)
  {
    var s := YouTubeEmbedPrefix + id;
    if Contains(s, DriveHost) {
      var k := IndexOf(s, DriveHost).value;
      DriveHostBeyond(id);
      OccursInSuffix(YouTubeEmbedPrefix, id, k - 30, DriveHost);
      ContainsAt(id, k - 30, DriveHost);
    }
  }

  /** A Drive file path inside a fragment of a URL is a Drive file path of the URL. */
  lemma FileMatchWithin(url: string, o: nat, id: string, k: nat)
    requires OccursAt(url, o, id) && FileMatchesAt(id, k)
    ensures FileMatchesAt(url, o + k)
  {
    OccursWithin(url, o, id, k, FileMarker);
    assert url[o + k + 7] == id[k + 7];
  }

  // ---------------------------------------------------------------------------
  // Properties

  /** Rewriting is idempotent: a rewritten link is rewritten to itself. No side
      condition is needed, because a YouTube id is a fragment of the original
      link, so a Drive host or file path inside it would have sent the original
      link down the Drive branch already. */
  lemma EmbedUrlIdempotent(url: string)
    ensures EmbedUrl(EmbedUrl(url)) == EmbedUrl(url)
  {
    if url == "" {
    } else if Contains(url, DriveHost) && DriveFileId(url).Some? {
      var id := DriveFileId(url).value;
      DriveEmbedRoundTrip(id);
    } else if Contains(url, EmbedMarker) {
    } else if YouTubeId(url) != "" {
      var id := YouTubeId(url);
      YouTubeEmbedShape(id);
      var o: nat :| OccursAt(url, o, id);
      HostInsideId(url, o, id);
      FileInsideId(url, o, id);
    }
  }

  /** The Drive host in a YouTube embed built from a fragment of `url` is in `url`. */
  lemma HostInsideId(url: string, o: nat, id: string)
    requires OccursAt(url, o, id)
    ensures Contains(YouTubeEmbedPrefix + id, DriveHost) ==> Contains(url, DriveHost)
  {
    YouTubeEmbedDrive(id);
    if Contains(id, DriveHost) {
      var h := IndexOf(id, DriveHost).value;
      OccursWithin(url, o, id, h, DriveHost);
      ContainsAt(url, o + h, DriveHost);
    }
  }

  /** A Drive file path in a YouTube embed built from a fragment of `url` is in `url`. */
  lemma FileInsideId(url: string, o: nat, id: string)
    requires OccursAt(url, o, id)
    ensures DriveFileId(YouTubeEmbedPrefix + id).Some? ==> DriveFileId(url).Some?
  {
    var r := YouTubeEmbedPrefix + id;
    if DriveFileId(r).Some? {
      YouTubeEmbedShape(id);
      var k := FileMatchFrom(r, 0).value.at;
      FileMatchWithin(url, o, id, k - 30);
      FileMatchLeftmost(url, 0);
    }
  }
}
