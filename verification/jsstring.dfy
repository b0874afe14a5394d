/**
 * The handful of JavaScript string operations the feed script relies on,
 * over strings of Unicode characters: `trim`, the global tag-stripping
 * replacement `/<[^>]*>/g`, and `substring(0, n)`.
 */
module JsString {

  /** ECMAScript LineTerminator: what `trim` removes besides WhiteSpace, and what `.` never matches. */
  predicate IsLineTerminator(c: char) {
    c == '\n' || c == '\r' || c == '\U{2028}' || c == '\U{2029}'
  }

  /** ECMAScript WhiteSpace: TAB, VT, FF, ZWNBSP and the space separators (category Zs). */
  predicate IsWhiteSpace(c: char) {
    || c == '\t' || c == '\U{000B}' || c == '\U{000C}' || c == '\U{FEFF}'
    || c == ' ' || c == '\U{00A0}' || c == '\U{1680}'
    || ('\U{2000}' <= c <= '\U{200A}')
    || c == '\U{202F}' || c == '\U{205F}' || c == '\U{3000}'
  }

  /** The characters `String.prototype.trim` strips from both ends. */
  predicate IsTrimmable(c: char) {
    IsWhiteSpace(c) || IsLineTerminator(c)
  }

  /** `s.trimStart()`: the longest suffix of `s` that does not start with a trimmable character. */
  function TrimStart(s: string): (r: string)
    ensures |r| <= |s| && r == s[|s| - |r|..]
    ensures forall i :: 0 <= i < |s| - |r| ==> IsTrimmable(s[i])
    ensures r != [] ==> !IsTrimmable(r[0])
  {
    if s != [] && IsTrimmable(s[0]) then TrimStart(s[1..]) else s
  }

  /** `s.trimEnd()`: the longest prefix of `s` that does not end with a trimmable character. */
  function TrimEnd(s: string): (r: string)
    ensures |r| <= |s| && r == s[..|r|]
    ensures forall i :: |r| <= i < |s| ==> IsTrimmable(s[i])
    ensures r != [] ==> !IsTrimmable(r[|r| - 1])
  {
    if s != [] && IsTrimmable(s[|s| - 1]) then TrimEnd(s[..|s| - 1]) else s
  }

  /**
   * `r` is what trimming `s` leaves when `lead` characters are cut from the front:
   * a slice of `s`, everything cut away is trimmable, and `r` neither starts nor
   * ends with a trimmable character.
   */
  ghost predicate TrimsTo(s: string, lead: nat, r: string) {
    && lead + |r| <= |s|
    && r == s[lead..lead + |r|]
    && (forall i :: 0 <= i < lead ==> IsTrimmable(s[i]))
    && (forall i :: lead + |r| <= i < |s| ==> IsTrimmable(s[i]))
    && (r != [] ==> !IsTrimmable(r[0]) && !IsTrimmable(r[|r| - 1]))
  }

  /** `s.trim()`. */
  function Trim(s: string): (r: string)
    ensures TrimsTo(s, |s| - |TrimStart(s)|, r)
  {
    var t := TrimStart(s);
    TrimStartThenEnd(s, t, TrimEnd(t));
    TrimEnd(t)
  }

  /** Trimming the end of the trimmed start trims both ends. */
  lemma TrimStartThenEnd(s: string, t: string, r: string)
    requires |t| <= |s| && t == s[|s| - |t|..]
    requires forall i :: 0 <= i < |s| - |t| ==> IsTrimmable(s[i])
    requires t != [] ==> !IsTrimmable(t[0])
    requires |r| <= |t| && r == t[..|r|]
    requires forall i :: |r| <= i < |t| ==> IsTrimmable(t[i])
    requires r != [] ==> !IsTrimmable(r[|r| - 1])
    ensures TrimsTo(s, |s| - |t|, r)
  {
    var lead := |s| - |t|;
    forall i | lead + |r| <= i < |s| ensures IsTrimmable(s[i]) {
      assert s[i] == t[i - lead];
    }
    if r != [] {
      assert r[0] == t[0];
    }
  }

  /** Trimming a string whose ends are already not trimmable gives it back unchanged. */
  lemma TrimKeepsTrimmed(s: string)
    requires s != [] ==> !IsTrimmable(s[0]) && !IsTrimmable(s[|s| - 1])
    ensures Trim(s) == s
  {
  }

  /** `s.substring(0, n)`: the first `n` characters, or all of `s` when it is shorter. */
  function Take(s: string, n: nat): (r: string)
    ensures |r| == if |s| < n then |s| else n
    ensures r == s[..|r|]
  {
    if |s| <= n then s else s[..n]
  }

  /** Position of the first occurrence of `c` in `s`. */
  function IndexOf(s: string, c: char): (k: nat)
    requires c in s
    ensures k < |s| && s[k] == c && c !in s[..k]
  {
    if s[0] == c then 0 else 1 + IndexOf(s[1..], c)
  }

  /** No `<` is followed, anywhere later, by a `>`: no complete tag is left. */
  ghost predicate NoTag(s: string) {
    forall i, j :: 0 <= i < j < |s| && s[i] == '<' ==> s[j] != '>'
  }

  /**
   * `s.replace(/<[^>]*>/g, '')`. Scanning left to right, a `<` that has a `>`
   * somewhere after it starts a match that runs to the first such `>` and is
   * deleted, and the scan resumes after it; any other character is kept.
   */
  function StripTags(s: string): (r: string)
    ensures |r| <= |s|
    ensures NoTag(r)
    ensures forall c :: c in r ==> c in s
    ensures '<' !in s ==> r == s
    decreases |s|
  {
    if s == [] then []
    else if s[0] == '<' && '>' in s[1..] then StripTags(s[IndexOf(s[1..], '>') + 2..])
    else [s[0]] + StripTags(s[1..])
  }

  /** Stripping is idempotent: a string with no complete tag comes back unchanged. */
  lemma {:induction false} StripTagsKeepsTagFree(s: string)
    requires NoTag(s)
    ensures StripTags(s) == s
    decreases |s|
  {
    if s != [] {
      assert NoTag(s[1..]) by {
        forall i, j | 0 <= i < j < |s[1..]| && s[1..][i] == '<' ensures s[1..][j] != '>' {
          assert s[i + 1] == '<';
        }
      }
      StripTagsKeepsTagFree(s[1..]);
    }
  }

  /** Plain text followed by a complete tag: the text is kept and the tag dropped. */
  lemma {:induction false} StripTextThenTag(text: string, inner: string, rest: string)
    requires '<' !in text && '>' !in inner
    ensures StripTags(text + "<" + inner + ">" + rest) == text + StripTags(rest)
    decreases |text|
  {
    if text == [] {
      assert text + "<" + inner + ">" + rest == "<" + inner + ">" + rest;
      StripLeadingTag(inner, rest);
    } else {
      var tail := text[1..] + "<" + inner + ">" + rest;
      StripTextThenTag(text[1..], inner, rest);
      GroupTagWithRest(text, inner, rest);
      GroupTagWithRest(text[1..], inner, rest);
      SplitFirstChar(text, "<" + inner + ">" + rest);
      StripKeepsChar(text[0], tail);
      SplitFirstChar(text, StripTags(rest));
    }
  }

  /** A complete tag at the start is dropped. */
  lemma StripLeadingTag(inner: string, rest: string)
    requires '>' !in inner
    ensures StripTags("<" + inner + ">" + rest) == StripTags(rest)
  {
    var s := "<" + inner + ">" + rest;
    assert s[1..] == inner + ">" + rest;
    IndexOfAfter(inner, '>', rest);
    assert s[|inner| + 2..] == rest;
  }

  /** A character other than `<` is kept. */
  lemma StripKeepsChar(c: char, tail: string)
    requires c != '<'
    ensures StripTags([c] + tail) == [c] + StripTags(tail)
  {
    assert ([c] + tail)[1..] == tail;
  }

  /** The tag and what follows it, taken as one piece after the text. */
  lemma GroupTagWithRest(text: string, inner: string, rest: string)
    ensures text + "<" + inner + ">" + rest == text + ("<" + inner + ">" + rest)
  {
  }

  /** The first character of `text`, then the rest of `text` with `rest` after it. */
  lemma SplitFirstChar(text: string, rest: string)
    requires text != []
    ensures text + rest == [text[0]] + (text[1..] + rest)
  {
    assert text == [text[0]] + text[1..];
  }

  /** The first `c` in `prefix + [c] + rest` is the one right after `prefix`, when `prefix` has none. */
  lemma IndexOfAfter(prefix: string, c: char, rest: string)
    requires c !in prefix
    ensures c in prefix + [c] + rest && IndexOf(prefix + [c] + rest, c) == |prefix|
  {
    var s := prefix + [c] + rest;
    assert s[|prefix|] == c;
  }

  /** Every slice of a tag-free string is tag-free. */
  lemma NoTagSlice(s: string, a: nat, b: nat)
    requires NoTag(s) && a <= b <= |s|
    ensures NoTag(s[a..b])
  {
    forall i, j | 0 <= i < j < b - a && s[a..b][i] == '<' ensures s[a..b][j] != '>' {
      assert s[a + i] == '<' && s[a..b][j] == s[a + j];
    }
  }

}
