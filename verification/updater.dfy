/**
 * `updateWritingSection`: fetch both feeds, give up without writing unless
 * both returned posts, else splice the two generated array literals and the
 * timestamp comment into the component text.
 */
module Updater {

  import opened Wrappers
  import opened Normalizer
  import opened Serializer
  import opened Splicer
  import opened Fetcher

  // The marker and comment texts are written in short pieces, which lets the
  // verifier look at their individual characters.

  /** `// Aditya's latest posts from Substack API`, then the declaration line. */
  const AdityaHead := "// " + AdityaSource + AdityaDeclaration
  const AdityaSource := "Aditya's " + "latest " + "posts " + "from " + "Substack " + "API\n"
  /** `// Gentle Velocity latest posts from Substack API`, then the declaration line. */
  const GentleHead := "// " + GentleSource + GentleDeclaration
  const GentleSource := "Gentle " + "Velocity " + "latest " + "posts " + "from " + "Substack " + "API\n"
  /** `// Static post data from Substack feeds (auto-updated: `. */
  const TimestampHead := "// " + TimestampSource + AutoUpdated
  const TimestampSource := "Static " + "post " + "data " + "from " + "Substack " + "feeds "
  const AutoUpdated := "(auto-" + "updated: "

  /** The two array patterns run lazily over any characters to the first `];`. */
  const AdityaMarker := Pattern(AdityaHead, "];", true)
  const GentleMarker := Pattern(GentleHead, "];", true)
  /** `.*?\)`: up to the first `)`, within the line. */
  const TimestampMarker := Pattern(TimestampHead, ")", false)

  const AdityaComment := "// " + "Aditya's " + "latest " + "posts " + "from " + "RSS " + "feed\n"
  const GentleComment := "// " + "Gentle " + "Velocity " + "latest " + "posts " + "from " + "RSS " + "feed\n"
  const TimestampOpening := "// " + RssSource + AutoUpdated
  const RssSource := "Static " + "post " + "data " + "from " + "RSS " + "feeds "

  /** The pause between the two fetches, in milliseconds. */
  const InterFeedPause: nat := 1000

  function AdityaBlock(posts: seq<Post>): string {
    AdityaComment + ArrayLiteral(AdityaDeclaration, posts)
  }

  function GentleBlock(posts: seq<Post>): string {
    GentleComment + ArrayLiteral(GentleDeclaration, posts)
  }

  function TimestampLine(timestamp: string): string {
    TimestampOpening + timestamp + ")"
  }

  /** The three replacements, in the order the script applies them. */
  function Patch(content: string, aditya: seq<Post>, gentle: seq<Post>, timestamp: string): string {
    var once := Replace(AdityaMarker, content, AdityaBlock(aditya));
    var twice := Replace(GentleMarker, once, GentleBlock(gentle));
    Replace(TimestampMarker, twice, TimestampLine(timestamp))
  }

  /**
   * One run: `content` is the component file as read, `timestamp` the value
   * of `new Date().toISOString()`. Returns the text written back (None when
   * the run skips the write) and every delay requested, in order.
   */
  method UpdateWritingSection(content: string, adityaFeed: nat -> Attempt, gentleFeed: nat -> Attempt,
                              formatDate: Option<string> -> string, timestamp: string)
    returns (written: Option<string>, waits: seq<nat>)
    ensures var aditya := FetchResult(adityaFeed, DefaultRetries, formatDate);
      var gentle := FetchResult(gentleFeed, DefaultRetries, formatDate);
      && (written.Some? <==> aditya.Some? && gentle.Some?)
      && (written.Some? ==> written.value == Patch(content, aditya.value, gentle.value, timestamp))
    ensures waits == Backoff(AttemptsMade(adityaFeed, DefaultRetries)) + [InterFeedPause]
                     + Backoff(AttemptsMade(gentleFeed, DefaultRetries))
  {
    var adityaPosts, _, adityaWaits := FetchRssPosts(adityaFeed, DefaultRetries, formatDate);
    var gentlePosts, _, gentleWaits := FetchRssPosts(gentleFeed, DefaultRetries, formatDate);
    waits := adityaWaits + [InterFeedPause] + gentleWaits;
    if adityaPosts.None? || gentlePosts.None? {
      written := None;
      return;
    }
    var updated := Replace(AdityaMarker, content, AdityaBlock(adityaPosts.value));
    updated := Replace(GentleMarker, updated, GentleBlock(gentlePosts.value));
    updated := Replace(TimestampMarker, updated, TimestampLine(timestamp));
    written := Some(updated);
  }

  /**
   * One array splice: everything before and after the marker is kept, and in
   * its place come the new comment and an array literal that reads back as
   * exactly the posts written, in order. The block is inserted verbatim only
   * when it holds no `$`, which `replace` would otherwise expand.
   */
  lemma SpliceWritesPosts(p: Pattern, s: string, b: nat, n: nat, comment: string, declaration: string,
                          posts: seq<Post>)
    requires IsFirstMatch(p, s, b, n)
    requires '$' !in comment + ArrayLiteral(declaration, posts)
    requires forall k :: 0 <= k < |posts| ==> Readable(posts[k])
    ensures Replace(p, s, comment + ArrayLiteral(declaration, posts))
            == s[..b] + comment + ArrayLiteral(declaration, posts) + s[b + n..]
    ensures ParseArrayLiteral(declaration, ArrayLiteral(declaration, posts)) == Some(posts)
  {
    var literal := ArrayLiteral(declaration, posts);
    ReplaceWithPlainText(p, s, b, n, comment + literal);
    FlattenBlock(s[..b], comment, literal, s[b + n..]);
    ArrayLiteralRoundTrip(declaration, posts);
  }

  /**
   * A `$&` in the generated block, as a post title holding it produces, makes
   * `replace` put the old marker block back inside the new one: the marker
   * survives the run, and the next run splices again.
   */
  lemma MatchedTextInBlockKeepsMarker(s: string, b: nat, n: nat, posts: seq<Post>, pre: string, post: string)
    requires IsFirstMatch(AdityaMarker, s, b, n)
    requires AdityaBlock(posts) == pre + "$&" + post && '$' !in pre && '$' !in post
    ensures Replace(AdityaMarker, s, AdityaBlock(posts)) == s[..b] + pre + s[b..b + n] + post + s[b + n..]
    ensures !NoMatchIn(AdityaMarker, Replace(AdityaMarker, s, AdityaBlock(posts)))
  {
    MatchedTextKeepsMatch(AdityaMarker, s, b, n, pre, post);
  }

  /** The comment and the literal spliced in as one block, or one after the other. */
  lemma FlattenBlock(a: string, b: string, c: string, d: string)
    ensures a + (b + c) + d == a + b + c + d
  {
  }

  // ---- Running the splices again ------------------------------------------

  /**
   * A text that opens with `//` cannot complete a copy of a head that opens
   * with `// ` and has no other `/`: no copy can start before the text and
   * run into it.
   */
  lemma CommentCannotStraddle(head: string, text: string)
    requires |head| >= 3 && head[1] == '/' && head[2] == ' ' && '/' !in head[2..]
    requires |text| >= 2 && text[0] == '/' && text[1] == '/'
    ensures forall l :: 0 < l < |head| ==> !Compatible(head[l..], text)
  {
    forall l | 0 < l < |head| ensures !Compatible(head[l..], text) {
      if l == 1 {
        assert head[l..][1] == head[2];
      } else {
        assert head[l..][0] == head[2..][l - 2];
      }
    }
  }

  /**
   * Applying a splice to its own output changes nothing, whatever the second
   * replacement text: the written comment says "from RSS feed(s)" where the
   * pattern wants "from Substack …", so the marker is gone. This needs that
   * the marker occurred once (no copy of its head before the match and no
   * further match after it), that the replacement text quotes no copy of
   * the head, and that it holds no `$`.
   */
  lemma SpliceIsIdempotent(p: Pattern, s: string, b: nat, n: nat, text: string, later: string)
    requires IsFirstMatch(p, s, b, n)
    requires forall i :: 0 <= i && i + |p.head| <= b ==> !StartsWith(s[i..], p.head)
    requires NoMatchIn(p, s[b + n..])
    requires |p.head| >= 3 && p.head[1] == '/' && p.head[2] == ' ' && '/' !in p.head[2..]
    requires |text| >= 2 && text[0] == '/' && text[1] == '/' && text[|text| - 1] !in p.head
    requires '$' !in text
    requires forall q :: 0 <= q <= |text| ==> !StartsWith(text[q..], p.head)
    ensures Replace(p, Replace(p, s, text), later) == Replace(p, s, text)
  {
    CommentCannotStraddle(p.head, text);
    SpliceLeavesNoMatch(p, s, b, n, text);
  }

  /** The shape `SpliceIsIdempotent` needs of a head. */
  predicate CommentHead(head: string, last: char) {
    && |head| >= 3 && head[1] == '/' && head[2] == ' ' && '/' !in head[2..]
    && last !in head
  }

  /** A head made of `// ` and texts with neither `/` nor `last` has the shape. */
  lemma SlashesThen(source: string, declaration: string, last: char)
    requires '/' !in source && last !in source && '/' !in declaration && last !in declaration
    requires last != '/' && last != ' '
    ensures CommentHead("// " + source + declaration, last)
  {
    assert ("// " + source + declaration)[2..] == " " + source + declaration;
  }

  lemma AdityaHeadShape()
    ensures CommentHead(AdityaHead, ';')
  {
    AdityaSourceChars();
    AdityaDeclarationChars();
    SlashesThen(AdityaSource, AdityaDeclaration, ';');
  }

  lemma GentleHeadShape()
    ensures CommentHead(GentleHead, ';')
  {
    GentleSourceChars();
    GentleDeclarationChars();
    SlashesThen(GentleSource, GentleDeclaration, ';');
  }

  lemma TimestampHeadShape()
    ensures CommentHead(TimestampHead, ')')
  {
    TimestampSourceChars();
    AutoUpdatedChars();
    SlashesThen(TimestampSource, AutoUpdated, ')');
  }

  lemma AdityaSourceChars() ensures '/' !in AdityaSource && ';' !in AdityaSource {}
  lemma AdityaDeclarationChars() ensures '/' !in AdityaDeclaration && ';' !in AdityaDeclaration {}
  lemma GentleSourceChars() ensures '/' !in GentleSource && ';' !in GentleSource {}
  lemma GentleDeclarationChars() ensures '/' !in GentleDeclaration && ';' !in GentleDeclaration {}
  lemma TimestampSourceChars() ensures '/' !in TimestampSource && ')' !in TimestampSource {}
  lemma AutoUpdatedChars() ensures '/' !in AutoUpdated && ')' !in AutoUpdated && '$' !in AutoUpdated {}
  lemma RssSourceChars() ensures '/' !in RssSource && '$' !in RssSource && RssSource[22] == 'R' {}
  lemma TimestampSourceLetter() ensures TimestampSource[22] == 'S' {}

  /** A generated block opens with its `//` comment and closes with `];`. */
  lemma BlockShape(comment: string, declaration: string, posts: seq<Post>)
    requires |comment| >= 2 && comment[0] == '/' && comment[1] == '/'
    ensures var text := comment + ArrayLiteral(declaration, posts);
      text[0] == '/' && text[1] == '/' && text[|text| - 1] == ';'
  {
    var lit := ArrayLiteral(declaration, posts);
    assert lit[|lit| - 2..][1] == ';';
  }

  /** The Aditya splice, run again on its own output, leaves it unchanged. */
  lemma AdityaSpliceIsIdempotent(s: string, b: nat, n: nat, posts: seq<Post>, later: seq<Post>)
    requires IsFirstMatch(AdityaMarker, s, b, n)
    requires NoMatchIn(AdityaMarker, s[b + n..])
    requires '$' !in AdityaBlock(posts)
    requires forall q :: 0 <= q <= |AdityaBlock(posts)| ==> !StartsWith(AdityaBlock(posts)[q..], AdityaHead)
    ensures var once := Replace(AdityaMarker, s, AdityaBlock(posts));
      Replace(AdityaMarker, once, AdityaBlock(later)) == once
  {
    FirstMatchHasNoEarlierHead(AdityaMarker, s, b, n);
    AdityaHeadShape();
    BlockShape(AdityaComment, AdityaDeclaration, posts);
    SpliceIsIdempotent(AdityaMarker, s, b, n, AdityaBlock(posts), AdityaBlock(later));
  }

  /** The Gentle Velocity splice, run again on its own output, leaves it unchanged. */
  lemma GentleSpliceIsIdempotent(s: string, b: nat, n: nat, posts: seq<Post>, later: seq<Post>)
    requires IsFirstMatch(GentleMarker, s, b, n)
    requires NoMatchIn(GentleMarker, s[b + n..])
    requires '$' !in GentleBlock(posts)
    requires forall q :: 0 <= q <= |GentleBlock(posts)| ==> !StartsWith(GentleBlock(posts)[q..], GentleHead)
    ensures var once := Replace(GentleMarker, s, GentleBlock(posts));
      Replace(GentleMarker, once, GentleBlock(later)) == once
  {
    FirstMatchHasNoEarlierHead(GentleMarker, s, b, n);
    GentleHeadShape();
    BlockShape(GentleComment, GentleDeclaration, posts);
    SpliceIsIdempotent(GentleMarker, s, b, n, GentleBlock(posts), GentleBlock(later));
  }

  /**
   * The timestamp splice, run again on its own output, leaves it unchanged,
   * when the marker comment occurs once and the timestamp (an ISO-8601
   * string) holds no `/` and no `$`.
   */
  lemma TimestampSpliceIsIdempotent(s: string, b: nat, n: nat, timestamp: string, later: string)
    requires IsFirstMatch(TimestampMarker, s, b, n)
    requires forall i :: 0 <= i && i + |TimestampHead| <= b ==> !StartsWith(s[i..], TimestampHead)
    requires NoMatchIn(TimestampMarker, s[b + n..])
    requires '/' !in timestamp && '$' !in timestamp
    ensures var once := Replace(TimestampMarker, s, TimestampLine(timestamp));
      Replace(TimestampMarker, once, TimestampLine(later)) == once
  {
    TimestampHeadShape();
    TimestampLineShape(timestamp);
    TimestampLineHasNoHead(timestamp);
    SpliceIsIdempotent(TimestampMarker, s, b, n, TimestampLine(timestamp), TimestampLine(later));
  }

  lemma TimestampLineShape(timestamp: string)
    requires '$' !in timestamp
    ensures var line := TimestampLine(timestamp);
      line[0] == '/' && line[1] == '/' && line[|line| - 1] == ')' && '$' !in line
  {
    RssSourceChars();
    AutoUpdatedChars();
  }

  /** The new timestamp comment holds no copy of the old marker text. */
  lemma TimestampLineHasNoHead(timestamp: string)
    requires '/' !in timestamp
    ensures var line := TimestampLine(timestamp);
      forall q :: 0 <= q <= |line| ==> !StartsWith(line[q..], TimestampHead)
  {
    RssSourceChars();
    AutoUpdatedChars();
    TimestampSourceLetter();
    var rest := RssSource + AutoUpdated + timestamp + ")";
    assert TimestampLine(timestamp) == "// " + rest;
    assert rest[22] == RssSource[22];
    assert TimestampHead[25] == TimestampSource[22];
    CommentLineHasNoHead(rest, TimestampHead, 25);
  }

  /**
   * A line `// ` + `rest` with no other `/` holds no copy of a head opening
   * with `//` that differs from the line at position `k`.
   */
  lemma CommentLineHasNoHead(rest: string, head: string, k: nat)
    requires '/' !in rest
    requires |head| >= 2 && head[0] == '/' && head[1] == '/'
    requires 3 <= k < |head| && k - 3 < |rest| && head[k] != rest[k - 3]
    ensures forall q :: 0 <= q <= |"// " + rest| ==> !StartsWith(("// " + rest)[q..], head)
  {
  }

}
