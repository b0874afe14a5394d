/**
 * The array literals `updateWritingSection` writes into the component file,
 * and a reader that parses such a literal back into post records.
 */
module Serializer {

  import opened Wrappers
  import opened JsString
  import opened Normalizer

  /** Every double quote in `s` has a backslash right before it. */
  ghost predicate QuotesEscaped(s: string) {
    forall i :: 0 <= i < |s| && s[i] == '"' ==> 0 < i && s[i - 1] == '\\'
  }

  /** `s.replace(/"/g, '\\"')`: a backslash is put before every double quote. */
  function Escape(s: string): (r: string)
    ensures QuotesEscaped(r)
    ensures '"' !in s ==> r == s
  {
    if s == [] then []
    else (if s[0] == '"' then "\\\"" else [s[0]]) + Escape(s[1..])
  }

  // The constant text of one entry, between its quoted fields.
  const TitleOpen := "  {\n    title: \""
  const DateOpen := ",\n    date: \""
  const LinkOpen := ",\n    link: \""
  const DescriptionOpen := ",\n    description: \""
  const EntryClose := "\n  }"
  const EntrySeparator := ",\n"
  const ArrayClose := "\n];"

  // The two declaration lines, written in short pieces, which lets the
  // verifier look at their individual characters.
  const AdityaDeclaration := "const " + "aditya" + "Posts" + ": " + "BlogPost" + "[] " + "= ["
  const GentleDeclaration := "const " + "gentle" + "Velocity" + "Posts" + ": " + "BlogPost" + "[] " + "= ["

  /** The text `opening`, then a field body and its closing quote. */
  function Field(opening: string, body: string): string {
    opening + body + "\""
  }

  /**
   * One `{ title, date, link, description }` object literal: title and
   * description escaped, date and link copied verbatim.
   */
  function Entry(p: Post): string {
    Field(TitleOpen, Escape(p.title)) + Field(DateOpen, p.date) + Field(LinkOpen, p.link)
      + Field(DescriptionOpen, Escape(p.description)) + EntryClose
  }

  /** `posts.map(entry).join(',\n')`. */
  function JoinEntries(posts: seq<Post>): string {
    if posts == [] then ""
    else if |posts| == 1 then Entry(posts[0])
    else Entry(posts[0]) + EntrySeparator + JoinEntries(posts[1..])
  }

  /** The declaration line, the joined entries on their own lines, and the closing `];`. */
  function ArrayLiteral(declaration: string, posts: seq<Post>): (r: string)
    ensures |r| >= |declaration| + 3
    ensures r[..|declaration|] == declaration && r[|r| - 2..] == "];"
  {
    declaration + "\n" + JoinEntries(posts) + ArrayClose
  }

  // ---- Reading a literal back -------------------------------------------

  /** The rest of `s` after the fixed text `k`, if `s` starts with it. */
  function Expect(s: string, k: string): (r: Option<string>)
    ensures r.Some? ==> |k| <= |s| && r.value == s[|k|..]
  {
    if |k| <= |s| && s[..|k|] == k then Some(s[|k|..]) else None
  }

  /**
   * The character an escape sequence `\c` of a double-quoted ECMAScript
   * string literal stands for: a single escape character gives its control
   * or quote character, a line terminator after the backslash is a line
   * continuation and gives nothing, and any other character stands for
   * itself. Digits, `x` and `u` start numeric escapes, which this reader
   * refuses instead of decoding.
   */
  function EscapeValue(c: char): (r: Option<string>)
    ensures r.Some? ==> |r.value| <= 1
    ensures c in "\"'\\" ==> r == Some([c])
    ensures IsLineTerminator(c) ==> r == Some("")
  {
    if IsLineTerminator(c) then Some("")
    else if c == 'b' then Some("\U{0008}")
    else if c == 't' then Some("\t")
    else if c == 'n' then Some("\n")
    else if c == 'v' then Some("\U{000B}")
    else if c == 'f' then Some("\U{000C}")
    else if c == 'r' then Some("\r")
    else if '0' <= c <= '9' || c == 'x' || c == 'u' then None
    else Some([c])
  }

  /**
   * The body of a double-quoted string literal up to its closing quote, read
   * as the TypeScript compiler reads it, and the text after the closing
   * quote. A raw line feed or carriage return ends the literal with an error;
   * `\` starts an escape sequence, and a carriage return and line feed after
   * it together make one line continuation.
   */
  function ReadString(s: string): (r: Option<(string, string)>)
    ensures r.Some? ==> |r.value.1| < |s|
    decreases |s|
  {
    if s == [] || s[0] == '\n' || s[0] == '\r' then None
    else if s[0] == '"' then Some(([], s[1..]))
    else if s[0] != '\\' then
      var (t, rest) :- ReadString(s[1..]);
      Some(([s[0]] + t, rest))
    else if |s| < 2 then None
    else if |s| >= 3 && s[1] == '\r' && s[2] == '\n' then ReadString(s[3..])
    else
      var e :- EscapeValue(s[1]);
      var (t, rest) :- ReadString(s[2..]);
      Some((e + t, rest))
  }

  /** The fixed text `opening`, then the body of a string literal and its closing quote. */
  function ReadField(s: string, opening: string): (r: Option<(string, string)>)
    ensures r.Some? ==> |r.value.1| < |s|
  {
    var body :- Expect(s, opening);
    ReadString(body)
  }

  /** One entry at the start of `s`, and what follows it. */
  function ParseEntry(s: string): (r: Option<(Post, string)>)
    ensures r.Some? ==> |r.value.1| < |s|
  {
    var (title, s1) :- ReadField(s, TitleOpen);
    var (date, s2) :- ReadField(s1, DateOpen);
    var (link, s3) :- ReadField(s2, LinkOpen);
    var (description, s4) :- ReadField(s3, DescriptionOpen);
    var rest :- Expect(s4, EntryClose);
    Some((Post(title, date, link, description), rest))
  }

  /** Entries separated by `,\n`, up to and including the closing `\n];`. */
  function ParseEntries(s: string): (r: Option<seq<Post>>)
    decreases |s|
  {
    var (p, rest) :- ParseEntry(s);
    if rest == ArrayClose then Some([p])
    else
      var more :- Expect(rest, EntrySeparator);
      var ps :- ParseEntries(more);
      Some([p] + ps)
  }

  /** A whole array literal introduced by `declaration`. */
  function ParseArrayLiteral(declaration: string, s: string): Option<seq<Post>> {
    var body :- Expect(s, declaration + "\n");
    if body == ArrayClose then Some([]) else ParseEntries(body)
  }

  // ---- Round trip --------------------------------------------------------

  /**
   * Text a string literal holds as written: no backslash, which would start
   * an escape sequence, and no raw line feed or carriage return, which ends
   * the literal with an error.
   */
  predicate LiteralSafe(s: string) {
    forall i :: 0 <= i < |s| ==> s[i] != '\\' && s[i] != '\n' && s[i] != '\r'
  }

  /**
   * A post the literal can be read back from: title and description are
   * escaped for `"` only, so they must be literal-safe; date and link are
   * copied verbatim, so they must hold no `"` either.
   */
  predicate Readable(p: Post) {
    && LiteralSafe(p.title) && LiteralSafe(p.description)
    && LiteralSafe(p.date) && '"' !in p.date
    && LiteralSafe(p.link) && '"' !in p.link
  }

  /** Un-escaping gives back the original field. */
  lemma {:induction false} ReadEscapedRoundTrip(s: string, rest: string)
    requires LiteralSafe(s)
    ensures ReadString(Escape(s) + "\"" + rest) == Some((s, rest))
    decreases |s|
  {
    if s == [] {
      assert Escape(s) + "\"" + rest == "\"" + rest;
    } else {
      assert LiteralSafe(s[1..]) by {
        forall i | 0 <= i < |s[1..]| ensures s[1..][i] == s[i + 1] { }
      }
      ReadEscapedRoundTrip(s[1..], rest);
      EscapeHead(s);
      if s[0] == '"' {
        SplitFirstPiece("\\\"", Escape(s[1..]), "\"", rest);
        ReadEscapedQuote(Escape(s[1..]) + "\"" + rest, s[1..], rest);
      } else {
        assert s[0] != '\\' && s[0] != '\n' && s[0] != '\r';
        SplitFirstPiece([s[0]], Escape(s[1..]), "\"", rest);
        ReadPlainChar(s[0], Escape(s[1..]) + "\"" + rest, s[1..], rest);
      }
      FirstThenRest(s);
    }
  }

  /** Escaping works one character at a time. */
  lemma EscapeHead(s: string)
    requires s != []
    ensures Escape(s) == (if s[0] == '"' then "\\\"" else [s[0]]) + Escape(s[1..])
  {
  }

  /** The first piece of a concatenation, then all the others as one. */
  lemma SplitFirstPiece(a: string, e: string, q: string, rest: string)
    ensures a + e + q + rest == a + (e + q + rest)
  {
  }

  /** An escaped quote reads as a quote. */
  lemma ReadEscapedQuote(tail: string, t: string, rest: string)
    requires ReadString(tail) == Some((t, rest))
    ensures ReadString("\\\"" + tail) == Some((['"'] + t, rest))
  {
    assert ("\\\"" + tail)[2..] == tail;
  }

  /** A character that is neither a quote, a backslash nor a line break reads as itself. */
  lemma ReadPlainChar(c: char, tail: string, t: string, rest: string)
    requires c != '"' && c != '\\' && c != '\n' && c != '\r'
    requires ReadString(tail) == Some((t, rest))
    ensures ReadString([c] + tail) == Some(([c] + t, rest))
  {
    assert ([c] + tail)[1..] == tail;
  }

  /** The verbatim date and link fields read back as written. */
  lemma ReadPlainRoundTrip(s: string, rest: string)
    requires LiteralSafe(s) && '"' !in s
    ensures ReadString(s + "\"" + rest) == Some((s, rest))
  {
    ReadEscapedRoundTrip(s, rest);
  }

  /**
   * A literal-safe prefix reads back as itself in front of whatever the rest
   * of the field reads as, or of the error it gives.
   */
  lemma {:induction false} ReadSafePrefix(before: string, x: string, rest: string)
    requires LiteralSafe(before)
    ensures var r := ReadString(Escape(x) + "\"" + rest);
      && (r.None? ==> ReadString(Escape(before + x) + "\"" + rest).None?)
      && (r.Some? ==> ReadString(Escape(before + x) + "\"" + rest) == Some((before + r.value.0, r.value.1)))
    decreases |before|
  {
    if before == [] {
      assert before + x == x;
      var r := ReadString(Escape(x) + "\"" + rest);
      if r.Some? {
        assert before + r.value.0 == r.value.0;
      }
    } else {
      assert LiteralSafe(before[1..]) by {
        forall i | 0 <= i < |before[1..]| ensures before[1..][i] == before[i + 1] { }
      }
      ReadSafePrefix(before[1..], x, rest);
      var tail := Escape(before[1..] + x) + "\"" + rest;
      EscapeSplit(before, x, rest);
      ReadOneEscaped(before[0], tail);
      var r := ReadString(Escape(x) + "\"" + rest);
      if r.Some? {
        ConsThenRest(before, r.value.0);
      }
    }
  }

  /** The escape of the first character, then the escape of the rest and what follows. */
  lemma EscapeSplit(before: string, x: string, rest: string)
    requires before != []
    ensures Escape(before + x) + "\"" + rest
            == (if before[0] == '"' then "\\\"" else [before[0]]) + (Escape(before[1..] + x) + "\"" + rest)
  {
    var s := before + x;
    assert s[1..] == before[1..] + x;
    EscapeHead(s);
    SplitFirstPiece(if s[0] == '"' then "\\\"" else [s[0]], Escape(s[1..]), "\"", rest);
  }

  /** One escaped character other than a backslash or a line break reads back as itself. */
  lemma ReadOneEscaped(c: char, tail: string)
    requires c != '\\' && c != '\n' && c != '\r'
    ensures var r := ReadString(tail);
      var w := if c == '"' then "\\\"" else [c];
      && (r.None? ==> ReadString(w + tail).None?)
      && (r.Some? ==> ReadString(w + tail) == Some(([c] + r.value.0, r.value.1)))
  {
    if c == '"' {
      assert ("\\\"" + tail)[2..] == tail;
    } else {
      assert ([c] + tail)[1..] == tail;
    }
  }

  lemma ConsThenRest(s: string, t: string)
    requires s != []
    ensures [s[0]] + (s[1..] + t) == s + t
  {
    assert s == [s[0]] + s[1..];
  }

  /**
   * A backslash in a title or description is copied unescaped: after it,
   * `n` is read back as a line feed, so the field comes back changed.
   */
  lemma BackslashMisread(before: string, after: string, rest: string)
    requires LiteralSafe(before) && LiteralSafe(after)
    ensures ReadString(Escape(before + "\\n" + after) + "\"" + rest) == Some((before + "\n" + after, rest))
    ensures before + "\n" + after != before + "\\n" + after
  {
    var x := "\\n" + after;
    ReadLineFeedEscape(after, rest);
    ReadSafePrefix(before, x, rest);
    assert before + "\\n" + after == before + x;
    assert before + "\n" + after == before + ("\n" + after);
    assert |before + "\n" + after| < |before + "\\n" + after|;
  }

  /** `\n` followed by literal-safe text reads as a line feed and that text. */
  lemma ReadLineFeedEscape(after: string, rest: string)
    requires LiteralSafe(after)
    ensures ReadString(Escape("\\n" + after) + "\"" + rest) == Some(("\n" + after, rest))
  {
    EscapeBackslashN(after);
    var tail := Escape(after) + "\"" + rest;
    SplitFirstPiece("\\n", Escape(after), "\"", rest);
    ReadEscapedRoundTrip(after, rest);
    ReadLineFeedThen(tail, after, rest);
  }

  lemma EscapeBackslashN(after: string)
    ensures Escape("\\n" + after) == "\\n" + Escape(after)
  {
    var n := ['n'] + after;
    EscapeUnquoted('n', after);
    EscapeUnquoted('\\', n);
    assert "\\n" + after == ['\\'] + n;
    assert ['\\'] + (['n'] + Escape(after)) == "\\n" + Escape(after);
  }

  lemma ReadLineFeedThen(tail: string, t: string, rest: string)
    requires ReadString(tail) == Some((t, rest))
    ensures ReadString("\\n" + tail) == Some(("\n" + t, rest))
  {
    assert EscapeValue('n') == Some("\n");
    assert "\\n" + tail == ['\\', 'n'] + tail;
    ReadEscapeSequence('n', tail, t, rest);
  }

  /** A character other than a quote is copied as it is. */
  lemma EscapeUnquoted(c: char, s: string)
    requires c != '"'
    ensures Escape([c] + s) == [c] + Escape(s)
  {
    assert ([c] + s)[1..] == s;
  }

  /** A backslash and a character other than a carriage return read as that character's escape value. */
  lemma ReadEscapeSequence(c: char, tail: string, t: string, rest: string)
    requires c != '\r' && EscapeValue(c).Some?
    requires ReadString(tail) == Some((t, rest))
    ensures ReadString(['\\', c] + tail) == Some((EscapeValue(c).value + t, rest))
  {
    assert (['\\', c] + tail)[2..] == tail;
  }

  /** A line break in a title or description is copied raw, which ends the string literal with an error. */
  lemma LineBreakRefused(before: string, after: string, rest: string)
    requires LiteralSafe(before)
    ensures ReadString(Escape(before + "\n" + after) + "\"" + rest).None?
  {
    var x := "\n" + after;
    EscapeHead(x);
    assert (Escape(x) + "\"" + rest)[0] == '\n';
    ReadSafePrefix(before, x, rest);
    assert before + "\n" + after == before + x;
  }

  lemma ExpectPrefix(k: string, rest: string)
    ensures Expect(k + rest, k) == Some(rest)
  {
    assert (k + rest)[..|k|] == k;
  }

  lemma FieldRoundTrip(opening: string, body: string, escaped: bool, rest: string)
    requires LiteralSafe(body)
    requires !escaped ==> '"' !in body
    ensures ReadField(Field(opening, if escaped then Escape(body) else body) + rest, opening)
            == Some((body, rest))
  {
    var written := if escaped then Escape(body) else body;
    assert Field(opening, written) + rest == opening + (written + "\"" + rest);
    ExpectPrefix(opening, written + "\"" + rest);
    if escaped {
      ReadEscapedRoundTrip(body, rest);
    } else {
      ReadPlainRoundTrip(body, rest);
    }
  }

  /** An entry reads back as the post it was written from. */
  lemma EntryRoundTrip(p: Post, rest: string)
    requires Readable(p)
    ensures ParseEntry(Entry(p) + rest) == Some((p, rest))
  {
    var title, date := Field(TitleOpen, Escape(p.title)), Field(DateOpen, p.date);
    var link, description := Field(LinkOpen, p.link), Field(DescriptionOpen, Escape(p.description));
    var s4 := EntryClose + rest;
    var s3 := description + s4;
    var s2 := link + s3;
    var s1 := date + s2;
    NestEntryPieces(title, date, link, description, EntryClose, rest);
    FieldRoundTrip(TitleOpen, p.title, true, s1);
    FieldRoundTrip(DateOpen, p.date, false, s2);
    FieldRoundTrip(LinkOpen, p.link, false, s3);
    FieldRoundTrip(DescriptionOpen, p.description, true, s4);
    ExpectPrefix(EntryClose, rest);
  }

  /** The five pieces of an entry and what follows, nested to the right. */
  lemma NestEntryPieces(a: string, b: string, c: string, d: string, e: string, rest: string)
    ensures a + b + c + d + e + rest == a + (b + (c + (d + (e + rest))))
  {
  }

  lemma ParseLastEntry(s: string, p: Post)
    requires ParseEntry(s) == Some((p, ArrayClose))
    ensures ParseEntries(s) == Some([p])
  {
  }

  lemma ParseNextEntry(s: string, p: Post, more: string, ps: seq<Post>)
    requires ParseEntry(s) == Some((p, EntrySeparator + more))
    requires ParseEntries(more) == Some(ps)
    ensures ParseEntries(s) == Some([p] + ps)
  {
    assert (EntrySeparator + more)[0] == ',';
    ExpectPrefix(EntrySeparator, more);
  }

  lemma {:induction false} EntriesRoundTrip(posts: seq<Post>)
    requires posts != []
    requires forall k :: 0 <= k < |posts| ==> Readable(posts[k])
    ensures ParseEntries(JoinEntries(posts) + ArrayClose) == Some(posts)
    decreases |posts|
  {
    var p := posts[0];
    JoinEntriesUnfold(posts);
    if |posts| == 1 {
      EntryRoundTrip(p, ArrayClose);
      ParseLastEntry(Entry(p) + ArrayClose, p);
    } else {
      var more := JoinEntries(posts[1..]) + ArrayClose;
      EntryRoundTrip(p, EntrySeparator + more);
      EntriesRoundTrip(posts[1..]);
      ParseNextEntry(Entry(p) + (EntrySeparator + more), p, more, posts[1..]);
    }
  }

  /** The first entry, then either nothing or the separator and the rest. */
  lemma JoinEntriesUnfold(posts: seq<Post>)
    requires posts != []
    ensures |posts| == 1 ==> JoinEntries(posts) + ArrayClose == Entry(posts[0]) + ArrayClose && posts == [posts[0]]
    ensures |posts| > 1 ==> JoinEntries(posts) + ArrayClose
                            == Entry(posts[0]) + (EntrySeparator + (JoinEntries(posts[1..]) + ArrayClose))
    ensures posts == [posts[0]] + posts[1..]
  {
    if |posts| > 1 {
      NestJoinPieces(Entry(posts[0]), EntrySeparator, JoinEntries(posts[1..]), ArrayClose);
    }
    FirstThenRest(posts);
  }

  /** An entry, the separator, the joined rest and the close, nested to the right. */
  lemma NestJoinPieces(a: string, b: string, c: string, d: string)
    ensures a + b + c + d == a + (b + (c + d))
  {
  }

  lemma FirstThenRest<T>(xs: seq<T>)
    requires xs != []
    ensures xs == [xs[0]] + xs[1..]
    ensures |xs| == 1 ==> xs == [xs[0]]
  {
  }

  /**
   * The serialised array holds exactly one entry per post, in order: reading
   * it back gives the posts it was written from.
   */
  lemma ArrayLiteralRoundTrip(declaration: string, posts: seq<Post>)
    requires forall k :: 0 <= k < |posts| ==> Readable(posts[k])
    ensures ParseArrayLiteral(declaration, ArrayLiteral(declaration, posts)) == Some(posts)
  {
    var body := JoinEntries(posts) + ArrayClose;
    assert ArrayLiteral(declaration, posts) == (declaration + "\n") + body;
    ExpectPrefix(declaration + "\n", body);
    if posts != [] {
      JoinEntriesStart(posts);
      assert body[0] == ' ';
      EntriesRoundTrip(posts);
    }
  }

  lemma JoinEntriesStart(posts: seq<Post>)
    requires posts != []
    ensures JoinEntries(posts) != [] && JoinEntries(posts)[0] == ' '
  {
    EntryStart(posts[0]);
    if |posts| > 1 {
      assert JoinEntries(posts) == Entry(posts[0]) + (EntrySeparator + JoinEntries(posts[1..]));
    }
  }

  lemma EntryStart(p: Post)
    ensures Entry(p) != [] && Entry(p)[0] == ' '
  {
    var f := Field(TitleOpen, Escape(p.title));
    assert TitleOpen[0] == ' ';
    assert f == TitleOpen + (Escape(p.title) + "\"");
    assert f[0] == ' ';
  }

}
