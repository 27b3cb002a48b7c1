/** `SlideshowManager.processImageUrl`: a blank link becomes the fallback
    image; any other link loses its quote characters and surrounding
    whitespace; a Google Drive share link is rewritten to the direct-view form
    when a file id can be taken from it, and to the fallback image when not;
    every other link passes through. */
module ImageUrl {
  import opened Wrappers
  import opened JsString

  /** `CONFIG.FALLBACK_IMAGE`. */
  const FALLBACK_IMAGE: string := "https://sksu.edu.ph/wp-content/uploads/2021/04/sksu1.png"

  /** The substring that marks a Google Drive link. */
  const DRIVE_HOST: string := "drive.google.com"

  /** The three id patterns, tried in this order: `/file/d/<id>`, `id=<id>`
      and `/open?id=<id>`. */
  const FILE_MARKER: string := "/file/d/"
  const ID_MARKER: string := "id="
  const OPEN_MARKER: string := "/open?id="

  /** The direct-view link is this prefix followed by the file id. */
  const DIRECT_VIEW_PREFIX: string := "https://drive.google.com/uc?export=view&id="

  /** The regular-expression class `[a-zA-Z0-9-_]`. */
  predicate IsIdChar(c: char) {
    ('a' <= c <= 'z') || ('A' <= c <= 'Z') || ('0' <= c <= '9') || c == '-' || c == '_'
  }

  /** Length of the run of id characters starting at index `i`. */
  function IdRunLength(s: string, i: nat): (n: nat)
    requires i <= |s|
    ensures i + n <= |s|
    ensures forall k :: i <= k < i + n ==> IsIdChar(s[k])
    ensures i + n == |s| || !IsIdChar(s[i + n])
    decreases |s| - i
  {
    if i == |s| || !IsIdChar(s[i]) then 0 else 1 + IdRunLength(s, i + 1)
  }

  /** The longest run of id characters starting at index `i`: what the
      greedy group `([a-zA-Z0-9-_]+)` captures there. */
  function IdRun(s: string, i: nat): string
    requires i <= |s|
  {
    s[i..i + IdRunLength(s, i)]
  }

  /** The pattern `marker([a-zA-Z0-9-_]+)` matches `s` at index `p`: the
      marker occurs there and at least one id character follows it. */
  ghost predicate IdMatchAt(s: string, marker: string, p: int) {
    OccursAt(s, marker, p) && p + |marker| < |s| && IsIdChar(s[p + |marker|])
  }

  /** The leftmost index at or after `from` where the pattern matches. */
  function FirstMatch(s: string, marker: string, from: nat): (r: Option<nat>)
    requires from <= |s|
    ensures r.Some? ==> from <= r.value && IdMatchAt(s, marker, r.value)
    ensures forall q :: from <= q && (r.None? || q < r.value) ==> !IdMatchAt(s, marker, q)
    decreases |s| - from
  {
    if from + |marker| >= |s| then None
    else if s[from..from + |marker|] == marker && IsIdChar(s[from + |marker|]) then Some(from)
    else FirstMatch(s, marker, from + 1)
  }

  /** `s.match(/marker([a-zA-Z0-9-_]+)/)`, reduced to its capture group:
      the id run after the leftmost match, or `None` when nothing matches. */
  function MatchId(s: string, marker: string): Option<string> {
    match FirstMatch(s, marker, 0)
    case None => None
    case Some(p) => Some(IdRun(s, p + |marker|))
  }

  /** `match ? match[1] : ''`. */
  function IdOrEmpty(m: Option<string>): string {
    match m
    case None => ""
    case Some(id) => id
  }

  /** The `fileId` of a cleaned Drive link: the `if / else if / else if`
      over the three patterns, where the first pattern whose marker occurs
      anywhere is the only one tried. */
  function FileId(u: string): string {
    if Contains(u, FILE_MARKER) then IdOrEmpty(MatchId(u, FILE_MARKER))
    else if Contains(u, ID_MARKER) then IdOrEmpty(MatchId(u, ID_MARKER))
    else if Contains(u, OPEN_MARKER) then IdOrEmpty(MatchId(u, OPEN_MARKER))
    else ""
  }

  /** `url.replace(/['"]/g, '').trim()`. */
  function Clean(url: string): string {
    Trim(RemoveQuotes(url))
  }

  /** `processImageUrl(url)`. */
  function ProcessImageUrl(url: string): string {
    if IsBlank(url) then FALLBACK_IMAGE
    else
      var u := Clean(url);
      if Contains(u, DRIVE_HOST) then
        var id := FileId(u);
        if id != "" then DIRECT_VIEW_PREFIX + id else FALLBACK_IMAGE
      else u
  }

  /** The id run at a match is a non-empty run of id characters that is
      not followed by another id character. */
  lemma IdRunAtMatch(s: string, marker: string, p: nat)
    requires IdMatchAt(s, marker, p)
    ensures var id := IdRun(s, p + |marker|);
            id != [] && (forall k :: 0 <= k < |id| ==> IsIdChar(id[k]))
            && s[p + |marker|..p + |marker| + |id|] == id
            && (p + |marker| + |id| == |s| || !IsIdChar(s[p + |marker| + |id|]))
  {
    var i := p + |marker|;
    var id := IdRun(s, i);
    assert |id| == IdRunLength(s, i);
    forall k | 0 <= k < |id| ensures IsIdChar(id[k]) {
      assert id[k] == s[i + k];
    }
  }

  /** The capture is the id run after the leftmost match of the pattern. */
  lemma MatchIdLeftmost(s: string, marker: string, p: nat)
    requires IdMatchAt(s, marker, p)
    requires forall q :: 0 <= q < p ==> !IdMatchAt(s, marker, q)
    ensures MatchId(s, marker) == Some(IdRun(s, p + |marker|))
  {
    assert FirstMatch(s, marker, 0).Some?;
  }

  /** The pattern does not match exactly when there is no match anywhere. */
  lemma MatchIdNone(s: string, marker: string)
    ensures MatchId(s, marker).None? <==> forall q :: !IdMatchAt(s, marker, q)
  {
  }

  /** Every occurrence of `/open?id=` holds an occurrence of `id=` six
      characters later. */
  lemma OpenMarkerHoldsIdMarker(s: string, p: int)
    requires OccursAt(s, OPEN_MARKER, p)
    ensures OccursAt(s, ID_MARKER, p + 6)
  {
    assert s[p + 6..p + 9] == s[p..p + 9][6..9];
    assert OPEN_MARKER[6..9] == ID_MARKER;
  }

  /** The third pattern is never tried: a link that contains `/open?id=`
      already contains `id=`, so the `id=` branch is taken first. */
  lemma OpenBranchUnreachable(u: string)
    ensures Contains(u, OPEN_MARKER) ==> Contains(u, ID_MARKER)
    ensures FileId(u) == if Contains(u, FILE_MARKER) then IdOrEmpty(MatchId(u, FILE_MARKER))
                         else IdOrEmpty(MatchId(u, ID_MARKER))
  {
    if Contains(u, OPEN_MARKER) {
      var p :| OccursAt(u, OPEN_MARKER, p);
      OpenMarkerHoldsIdMarker(u, p);
    }
    if !Contains(u, ID_MARKER) {
      MatchIdNone(u, ID_MARKER);
      assert forall q :: IdMatchAt(u, ID_MARKER, q) ==> OccursAt(u, ID_MARKER, q);
    }
  }

  /** Empty or whitespace-only input gives the fallback image. */
  lemma BlankGivesFallback(url: string)
    requires forall i :: 0 <= i < |url| ==> IsSpace(url[i])
    ensures ProcessImageUrl(url) == FALLBACK_IMAGE
  {
  }

  /** A link that is not blank and whose cleaned form does not mention the
      Drive host passes through as its own quote-free text, trimmed. */
  lemma PassThrough(url: string)
    requires !IsBlank(url)
    requires !Contains(Clean(url), DRIVE_HOST)
    ensures var r := ProcessImageUrl(url);
            r == Clean(url)
            && IsTrimOf(r, RemoveQuotes(url))
            && forall i :: 0 <= i < |r| ==> !IsQuote(r[i])
  {
    var r := ProcessImageUrl(url);
    TrimSpec(RemoveQuotes(url));
    forall i | 0 <= i < |r| ensures !IsQuote(r[i]) {
      assert r[i] in r;
    }
  }

  /** A Drive link holding `/file/d/` followed by an id character is
      rewritten to the direct-view link of the id after the leftmost such
      match, whatever else the link holds. */
  lemma FileLink(url: string, p: nat)
    requires !IsBlank(url)
    requires var u := Clean(url);
             Contains(u, DRIVE_HOST) && IdMatchAt(u, FILE_MARKER, p)
             && forall q :: 0 <= q < p ==> !IdMatchAt(u, FILE_MARKER, q)
    ensures ProcessImageUrl(url) == DIRECT_VIEW_PREFIX + IdRun(Clean(url), p + |FILE_MARKER|)
  {
    var u := Clean(url);
    assert OccursAt(u, FILE_MARKER, p);
    MatchIdLeftmost(u, FILE_MARKER, p);
    IdRunAtMatch(u, FILE_MARKER, p);
  }

  /** A Drive link that holds `/file/d/` but never followed by an id
      character gives the fallback image, even when `id=<id>` occurs: the
      `id=` pattern is only tried when `/file/d/` is absent. */
  lemma FileMarkerWithoutId(url: string)
    requires !IsBlank(url)
    requires var u := Clean(url);
             Contains(u, DRIVE_HOST) && Contains(u, FILE_MARKER)
             && forall q :: !IdMatchAt(u, FILE_MARKER, q)
    ensures ProcessImageUrl(url) == FALLBACK_IMAGE
  {
    MatchIdNone(Clean(url), FILE_MARKER);
  }

  /** A Drive link without `/file/d/` whose `id=` is followed by an id
      character is rewritten to the direct-view link of the id after the
      leftmost such `id=`. */
  lemma IdParameterLink(url: string, p: nat)
    requires !IsBlank(url)
    requires var u := Clean(url);
             Contains(u, DRIVE_HOST) && !Contains(u, FILE_MARKER)
             && IdMatchAt(u, ID_MARKER, p)
             && forall q :: 0 <= q < p ==> !IdMatchAt(u, ID_MARKER, q)
    ensures ProcessImageUrl(url) == DIRECT_VIEW_PREFIX + IdRun(Clean(url), p + |ID_MARKER|)
  {
    var u := Clean(url);
    assert OccursAt(u, ID_MARKER, p);
    MatchIdLeftmost(u, ID_MARKER, p);
    IdRunAtMatch(u, ID_MARKER, p);
  }

  /** A Drive link without `/file/d/` in which no `id=` is followed by an id
      character gives the fallback image. */
  lemma DriveLinkWithoutId(url: string)
    requires !IsBlank(url)
    requires var u := Clean(url);
             Contains(u, DRIVE_HOST) && !Contains(u, FILE_MARKER)
             && forall q :: !IdMatchAt(u, ID_MARKER, q)
    ensures ProcessImageUrl(url) == FALLBACK_IMAGE
  {
    var u := Clean(url);
    MatchIdNone(u, ID_MARKER);
    OpenBranchUnreachable(u);
  }

  /** A Drive link never passes through: the result is the fallback image
      or the direct-view prefix followed by a non-empty run of id characters. */
  lemma DriveLinkRewritten(url: string)
    requires !IsBlank(url) && Contains(Clean(url), DRIVE_HOST)
    ensures var r := ProcessImageUrl(url);
            r == FALLBACK_IMAGE
            || (|r| > |DIRECT_VIEW_PREFIX| && r[..|DIRECT_VIEW_PREFIX|] == DIRECT_VIEW_PREFIX
                && forall k :: |DIRECT_VIEW_PREFIX| <= k < |r| ==> IsIdChar(r[k]))
  {
    var id := FileId(Clean(url));
    FileIdIsRun(Clean(url));
    if id != "" {
      PrefixedIdRun(DIRECT_VIEW_PREFIX, id);
    }
  }

  /** The file id of a link is empty or made of id characters only. */
  lemma FileIdIsRun(u: string)
    ensures forall k :: 0 <= k < |FileId(u)| ==> IsIdChar(FileId(u)[k])
  {
    OpenBranchUnreachable(u);
    var marker := if Contains(u, FILE_MARKER) then FILE_MARKER else ID_MARKER;
    var m := FirstMatch(u, marker, 0);
    if (Contains(u, FILE_MARKER) || Contains(u, ID_MARKER)) && m.Some? {
      IdRunAtMatch(u, marker, m.value);
    }
  }

  /** A prefix followed by a non-empty run of id characters. */
  lemma PrefixedIdRun(prefix: string, id: string)
    requires |id| > 0 && forall k :: 0 <= k < |id| ==> IsIdChar(id[k])
    ensures var r := prefix + id;
            |r| > |prefix| && r[..|prefix|] == prefix
            && forall k :: |prefix| <= k < |r| ==> IsIdChar(r[k])
  {
    var r := prefix + id;
    assert r[..|prefix|] == prefix;
    forall k | |prefix| <= k < |r| ensures IsIdChar(r[k]) {
      assert r[k] == id[k - |prefix|];
    }
  }

  /** The result is empty exactly when the link is not blank but nothing is
      left of it once its quotes are removed and it is trimmed: a cell holding
      only quote characters and whitespace yields an empty link, not the
      fallback image. */
  lemma EmptyResult(url: string)
    ensures ProcessImageUrl(url) == [] <==> !IsBlank(url) && IsBlank(RemoveQuotes(url))
  {
    if !IsBlank(url) && Clean(url) == [] {
      assert !Contains(Clean(url), DRIVE_HOST);
    }
  }

  /** A string lacking one of the characters of `t` does not contain `t`. */
  lemma MissingCharNotContained(s: string, t: string, c: char)
    requires c in t && c !in s
    ensures !Contains(s, t)
  {
  }

  /** A link with no quotes and no whitespace at its ends is its own cleaned
      form. */
  lemma CleanUnchanged(url: string)
    requires forall i :: 0 <= i < |url| ==> !IsQuote(url[i])
    requires url != [] && !IsSpace(url[0]) && !IsSpace(url[|url| - 1])
    ensures !IsBlank(url) && Clean(url) == url
  {
    RemoveQuotesNone(url);
    TrimUnchanged(url);
  }

  /** A quote-free link without surrounding whitespace and without the
      letter `v` (so without the Drive host) is returned unchanged. */
  lemma PlainLinkUnchanged(url: string)
    requires forall i :: 0 <= i < |url| ==> !IsQuote(url[i])
    requires url != [] && !IsSpace(url[0]) && !IsSpace(url[|url| - 1])
    requires 'v' !in url
    ensures ProcessImageUrl(url) == url
  {
    CleanUnchanged(url);
    DriveHostAbsent(url);
    PassThrough(url);
  }

  /** A string without the letter `v` does not contain the Drive host. */
  lemma DriveHostAbsent(s: string)
    requires 'v' !in s
    ensures !Contains(s, DRIVE_HOST)
  {
    assert DRIVE_HOST[3] == 'v';
    MissingCharNotContained(s, DRIVE_HOST, 'v');
  }

  /** `https://example.com/pic.png` passes through unchanged. */
  lemma PassThroughExample(url: string)
    requires url == "https://example.com/pic.png"
    ensures ProcessImageUrl(url) == url
  {
    assert forall i :: 0 <= i < |url| ==> !IsQuote(url[i]);
    assert !IsSpace(url[0]) && !IsSpace(url[|url| - 1]);
    assert 'v' !in url;
    PlainLinkUnchanged(url);
  }
}
