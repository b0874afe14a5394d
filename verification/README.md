# update-posts in Dafny

A model of `scripts/update-posts.js`, the maintenance script that refreshes
the "latest posts" section of the site. It fetches the two Substack RSS feeds
(Aditya's and Gentle Velocity's), retrying each up to three times with a
linear back-off. It turns the first three items of each feed into post
records with fallback title, link and description. It then writes two
`BlogPost[]` array literals and an "auto-updated" timestamp comment into
`WritingSection.astro`, each by one single-shot `String.prototype.replace`.
If either feed fails, nothing is written.

Modules, one file each:

- `Wrappers` (`wrappers.dfy`): the `Option` type.
- `JsString` (`jsstring.dfy`): the JavaScript string operations the script
  uses:
  - `trim`, with the exact ECMAScript WhiteSpace and LineTerminator sets;
  - `substring(0, n)`;
  - the global tag-stripping replacement `/<[^>]*>/g`.
- `Normalizer` (`normalizer.dfy`): a feed item becomes a `Post`.
- `Serializer` (`serializer.dfy`): the generated array literal, with a reader
  that parses it back. The reader reads each double-quoted field as the
  TypeScript compiler reads a string literal.
- `Splicer` (`splicer.dfy`): a leftmost, lazy matcher for the three fixed
  patterns of the form `head[\s\S]*?close` / `head.*?close`. It also models
  the `$`-substitution that `replace` applies to a replacement string.
- `Fetcher` (`fetcher.dfy`): the retry loop of `fetchRSSPosts`, as a method
  with loop invariants.
- `Updater` (`updater.dfy`): `updateWritingSection`. It combines the two
  fetches, the abort, the three splices, and what a second run does.

The main results:

- The fetch returns the normalised posts of the first usable attempt, or
  null after `retries` failures. It requests the delays 2000, 4000, … ms.
- Normalised descriptions are at most 120 characters, hold no complete tag
  and have no surrounding whitespace. The fallbacks are exact.
- The serialised literal parses back to exactly the posts it was written
  from. Its string literals are read as the TypeScript compiler reads them.
  This needs fields without a backslash, a line feed or a carriage return,
  and dates and links without `"`.
- A splice keeps everything outside the marker.
- Applying a splice to its own output leaves it unchanged, whatever the
  second run's posts or timestamp are. The reason is given in the list
  below.

Where the code and the design description differ, the model follows the code:

- The description fallback is applied before tags are stripped. So
  `"<p></p>"` gives `""`, not "Click to read more...".
- The link falls back to the guid and then to `""`. There is no home-page
  URL.
- There is no rotating client identity. Every attempt sends the same headers.
- A feed with exactly one `<item>` is parsed as an object rather than an
  array. That fails the `Array.isArray` check, so every attempt throws and
  the feed fails.
- The design expects a periodic refresh, with the file changing on every
  successful run. The code refreshes only once. The first successful run
  rewrites the marker comments ("from Substack API" becomes "from RSS feed",
  "from Substack feeds" becomes "from RSS feeds"). None of the three
  patterns matches after that, so every later run writes the file back
  unchanged: neither the posts nor the timestamp are refreshed again. The
  splice idempotence lemmas state this for any later posts and timestamp.

Three behaviours of the code that the model makes explicit:

- Only `"` is escaped. A backslash in a title or description is written as
  it is, so the compiler reads it as the start of an escape sequence:
  `C:\new` comes back with a line feed in it (`Serializer.BackslashMisread`).
- A line break in a field is written raw. Tag stripping and trimming keep
  line breaks inside a description, and a raw line break ends a string
  literal with an error (`Serializer.LineBreakRefused`).
- The generated block is a `replace` template, so `$&`, `` $` ``, `$'` and
  `$$` in a post title or description are expanded. A `$&` puts the old
  marker block back inside the new one, so the marker survives the run
  (`Updater.MatchedTextInBlockKeepsMarker`).

## Model

| member | source | states |
|---|---|---|
| JsString.TrimStart | scripts/update-posts.js:58 | the result is the suffix left after removing only trimmable characters, and it does not start with one |
| JsString.TrimEnd | scripts/update-posts.js:58 | the result is the prefix left after removing only trimmable characters from the end, and it does not end with one |
| JsString.Trim | scripts/update-posts.js:58 | the result is a slice of the input; everything cut on either side is ECMAScript whitespace or a line terminator; its own ends are not |
| JsString.TrimKeepsTrimmed | scripts/update-posts.js:58 | trimming a string with non-whitespace ends returns it unchanged |
| JsString.Take | scripts/update-posts.js:57 | `substring(0, n)` is the first `n` characters, or the whole string when shorter |
| JsString.IndexOf | scripts/update-posts.js:56 | the position returned holds the character, and no earlier position does |
| JsString.StripTags | scripts/update-posts.js:56 | removing `<…>` spans never lengthens the text, leaves no `<` followed later by `>`, adds no character, and leaves text without `<` untouched |
| JsString.StripTagsKeepsTagFree | scripts/update-posts.js:56 | stripping tags is idempotent: tag-free text comes back unchanged |
| JsString.StripTextThenTag | scripts/update-posts.js:56 | plain text followed by a complete tag keeps the text and drops the tag |
| JsString.NoTagSlice | scripts/update-posts.js:55-58 | cutting a tag-free string keeps it tag-free |
| Normalizer.Or | scripts/update-posts.js:48-55 | the JavaScript "or" fallback is truthy exactly when one side is, and is one of the two sides; the exact fallbacks are stated by `Normalizer.Fallbacks` |
| Normalizer.Describe | scripts/update-posts.js:55-58 | the description is at most 120 characters, holds no complete tag, and neither starts nor ends with whitespace |
| Normalizer.NormalizeItem | scripts/update-posts.js:47-59 | every post has a non-empty title, the formatted publication date, and a description of at most 120 characters |
| Normalizer.MapItems | scripts/update-posts.js:47 | the map keeps the length, and each post is the normalisation of the item at the same position |
| Normalizer.NormalizeAll | scripts/update-posts.js:47 | exactly min(3, item count) posts, the k-th being the k-th item normalised, in feed order |
| Normalizer.Fallbacks | scripts/update-posts.js:48-49 | title is the item title when truthy, else "Untitled Post"; link is link, else guid, else ""; a falsy description gives exactly "Click to read more..." |
| Normalizer.PlainDescriptionKept | scripts/update-posts.js:55-58 | a short plain-text description without surrounding whitespace is kept verbatim |
| Normalizer.MarkupExample | scripts/update-posts.js:55-58 | `<p>Hi <b>there</b></p>` is turned into `Hi there` |
| Serializer.Escape | scripts/update-posts.js:91 | after escaping, every `"` has a backslash right before it; quote-free text is unchanged |
| Serializer.Entry | scripts/update-posts.js:90-95 | no contract of its own; `Serializer.EntryRoundTrip` states that the object literal reads back as its post |
| Serializer.JoinEntries | scripts/update-posts.js:90-96 | no contract of its own; `Serializer.EntriesRoundTrip` states that the joined entries read back as the posts, in order |
| Serializer.ArrayLiteral | scripts/update-posts.js:89-96 | the literal starts with the declaration line and ends with `];` |
| Serializer.ReadEscapedRoundTrip | scripts/update-posts.js:91 | an escaped field without backslashes or line breaks, read as a string literal up to its closing quote, gives back the original text and the rest |
| Serializer.ReadPlainRoundTrip | scripts/update-posts.js:92-93 | the verbatim date and link fields read back as written when they hold no `"`, backslash or line break |
| Serializer.BackslashMisread | scripts/update-posts.js:91 | a backslash the escaping leaves alone starts an escape sequence: `\n` in a field reads back as a line feed, so the field changes |
| Serializer.LineBreakRefused | scripts/update-posts.js:91 | a line break in an escaped field is copied raw, and the string literal then fails to read |
| Serializer.FieldRoundTrip | scripts/update-posts.js:91-94 | one quoted field, escaped or verbatim, reads back as its value |
| Serializer.EntryRoundTrip | scripts/update-posts.js:90-95 | one object literal reads back as the post it was written from |
| Serializer.EntriesRoundTrip | scripts/update-posts.js:90-96 | the `,\n`-joined entries and the closing `];` read back as exactly the posts, in order |
| Serializer.ArrayLiteralRoundTrip | scripts/update-posts.js:98-105 | the whole literal, its strings read as TypeScript string literals, parses back to exactly the posts it was written from |
| Splicer.CloseLength | scripts/update-posts.js:121 | the scanned body plus close fits in the text |
| Splicer.CloseLengthIsLazy | scripts/update-posts.js:109 | the scan stops at the first close that the body can reach (`*?`), and reports none exactly when there is none |
| Splicer.MatchLength | scripts/update-posts.js:114 | a match covers at least the head and the close |
| Splicer.MatchLengthIsMatch | scripts/update-posts.js:109 | a match is reported exactly when the head is followed by a lazy body and the close |
| Splicer.FindFrom | scripts/update-posts.js:108-111 | the result is the leftmost match at or after `from`; none is reported only when none exists |
| Splicer.Find | scripts/update-posts.js:108-111 | the result is the leftmost match in the text, or the text has none |
| Splicer.Expand | scripts/update-posts.js:110 | a replacement string without `$` is inserted as it is |
| Splicer.ExpandMatchedText | scripts/update-posts.js:110 | a `$&` in a replacement string expands to the matched text, with the `$`-free text around it kept |
| Splicer.MatchedTextKeepsMatch | scripts/update-posts.js:108-111 | a replacement holding `$&` puts the matched text back, so with `[\s\S]*?` the pattern still matches the result |
| Splicer.Replace | scripts/update-posts.js:108-123 | without a match the text is unchanged; otherwise only the leftmost match is replaced by the expanded template |
| Splicer.ReplaceWithPlainText | scripts/update-posts.js:108-111 | a replacement text without `$` ends up verbatim in place of the first match |
| Splicer.FirstMatchUnique | scripts/update-posts.js:108-111 | the leftmost match is unique |
| Splicer.ReplaceFrame | scripts/update-posts.js:108-123 | the text before and after the replaced span survives unchanged, with the expansion between them |
| Splicer.CloseFoundWhenDotAll | scripts/update-posts.js:109 | with `[\s\S]*?`, a close anywhere later always ends a match |
| Splicer.HeadThenCloseMatches | scripts/update-posts.js:109 | with `[\s\S]*?`, a head followed anywhere later by `];` is a match |
| Splicer.FirstMatchHasNoEarlierHead | scripts/update-posts.js:114 | with `[\s\S]*?`, no copy of the head lies wholly before the first match |
| Splicer.SpliceLeavesNoMatch | scripts/update-posts.js:108-123 | after the splice the pattern matches nowhere, when the inserted text neither contains nor straddles a head and no later match exists |
| Fetcher.FirstUsable | scripts/update-posts.js:15-20 | the first attempt in the range whose feed parses to a non-empty item array; all earlier ones failed, and none means all failed |
| Fetcher.Backoff | scripts/update-posts.js:18-20 | one delay before every attempt but the first, the i-th being 2000·i ms |
| Fetcher.FetchRssPosts | scripts/update-posts.js:14-68 | the loop returns the first success's normalised posts (or null after all attempts fail), makes at most `retries` attempts, and waits exactly the back-off delays |
| Fetcher.FetchResultIsFirstSuccess | scripts/update-posts.js:41-68 | posts are returned iff some attempt is usable; then they come from the last attempt made, and every attempt before it failed |
| Fetcher.FirstUsableIs | scripts/update-posts.js:15 | attempts known to have failed can be skipped when looking for the first success |
| Updater.AdityaBlock | scripts/update-posts.js:110 | no contract of its own; `Updater.SpliceWritesPosts` and `Updater.AdityaSpliceIsIdempotent` state what splicing it does |
| Updater.GentleBlock | scripts/update-posts.js:115 | no contract of its own; `Updater.SpliceWritesPosts` and `Updater.GentleSpliceIsIdempotent` state what splicing it does |
| Updater.TimestampLine | scripts/update-posts.js:122 | no contract of its own; `Updater.TimestampLineHasNoHead` and `Updater.TimestampSpliceIsIdempotent` state what splicing it does |
| Updater.Patch | scripts/update-posts.js:107-123 | no contract of its own; the three replacements in order, whose effect the splice lemmas state one by one |
| Updater.UpdateWritingSection | scripts/update-posts.js:76-123 | the file is written iff both fetches return posts; then it is the three splices in order; the delays are the first feed's back-off, the 1000 ms pause, then the second feed's back-off |
| Updater.SpliceWritesPosts | scripts/update-posts.js:88-111 | the splice keeps the text around the marker, and the literal inserted reads back as exactly the posts |
| Updater.MatchedTextInBlockKeepsMarker | scripts/update-posts.js:108-111 | a `$&` in the generated Aditya block puts the old marker block back inside the new one, and the marker still matches afterwards |
| Updater.CommentCannotStraddle | scripts/update-posts.js:109-110 | a comment starting with `//` cannot complete a head copy that began before it |
| Updater.SpliceIsIdempotent | scripts/update-posts.js:107-123 | a splice applied to its own output, with any replacement, changes nothing |
| Updater.AdityaSpliceIsIdempotent | scripts/update-posts.js:108-111 | the second Aditya splice leaves the first's output as it is, whatever the later posts |
| Updater.GentleSpliceIsIdempotent | scripts/update-posts.js:113-116 | the second Gentle Velocity splice leaves the first's output as it is, whatever the later posts |
| Updater.TimestampSpliceIsIdempotent | scripts/update-posts.js:119-123 | the second timestamp splice leaves the first's output as it is, whatever the later timestamp |
| Updater.TimestampLineHasNoHead | scripts/update-posts.js:121-122 | the new "from RSS feeds" line holds no copy of the "from Substack feeds" marker |
| Updater.BlockShape | scripts/update-posts.js:110 | a generated block opens with `//` and ends with `;` |

## Left out

- Network access (`fetch`, the request headers, HTTP status). Each attempt's
  outcome is an input: it either threw or parsed to missing items, a single
  item or an item array.
- XML parsing. Item fields are optional strings. Non-string values the
  parser can produce (a guid with attributes, a numeric title) are not
  modelled.
- Date formatting (`toLocaleDateString`) and the clock (`toISOString`). Both
  are parameters.
- `setTimeout`. The requested delays are returned instead of waited for.
- File I/O, `console` logging and `process.exit`.
- The outer `try`/`catch` of `updateWritingSection`. Nothing in the model
  throws.
- Strings are sequences of Unicode characters, not UTF-16 code units.
  `substring(0, 120)` is taken over characters, so it never splits a
  surrogate pair.
- Updater.SpliceIsIdempotent: proved per splice, not for the whole
  three-splice `Patch`. It assumes the marker occurs once, the generated block
  quotes no head, and the block has no `$`.
- Updater.TimestampSpliceIsIdempotent: needs no earlier copy of the marker
  head and a timestamp with no `/` and no `$`.
- Serializer.ArrayLiteralRoundTrip: needs fields without a backslash, a line
  feed or a carriage return, and dates and links without `"`. The script
  escapes only `"`; `Serializer.BackslashMisread` and
  `Serializer.LineBreakRefused` show what happens otherwise.
- The string-literal reader refuses the numeric escapes `\0`, `\x` and `\u`
  instead of decoding them. The round trip never meets them.
- Splicer.CloseLength: its own contract bounds the length only. The lazy
  characterisation is stated by `Splicer.CloseLengthIsLazy`.
- Splicer.MatchLength: its own contract bounds the length only. What a
  match is, is stated by `Splicer.MatchLengthIsMatch`.
