/**
 * Single-shot `String.prototype.replace` with the three fixed patterns of the
 * update script, each of the form `head[\s\S]*?close` or `head.*?close`: a
 * literal head, a lazy run of any characters (or of non-line-terminators),
 * and a literal close. Matching is by hand, not by a general regex engine.
 */
module Splicer {

  import opened Wrappers
  import opened JsString

  /** `head` then a lazy body then `close`; `dotAll` says whether the body may cross line terminators. */
  datatype Pattern = Pattern(head: string, close: string, dotAll: bool)

  predicate StartsWith(s: string, w: string) {
    |w| <= |s| && s[..|w|] == w
  }

  /** A character the lazy body may consume: anything for `[\s\S]`, no line terminator for `.`. */
  predicate Spans(p: Pattern, c: char) {
    p.dotAll || !IsLineTerminator(c)
  }

  /**
   * `t[..n]` is a lazy body followed by `close`: every body character may be
   * consumed and `close` starts at no earlier position.
   */
  ghost predicate IsLazyClose(p: Pattern, t: string, n: int) {
    && |p.close| <= n <= |t|
    && t[n - |p.close|..n] == p.close
    && forall j :: 0 <= j < n - |p.close| ==> Spans(p, t[j]) && !StartsWith(t[j..], p.close)
  }

  /** Length of the shortest `body + close` at the start of `t`, as the lazy quantifier finds it. */
  function CloseLength(p: Pattern, t: string): (r: Option<nat>)
    ensures r.Some? ==> |p.close| <= r.value <= |t|
    decreases |t|
  {
    if StartsWith(t, p.close) then Some(|p.close|)
    else if t == [] || !Spans(p, t[0]) then None
    else
      match CloseLength(p, t[1..])
      case None => None
      case Some(n) => Some(n + 1)
  }

  /**
   * The scan finds exactly the lazy end: what it returns is one, and when it
   * gives up there is none.
   */
  lemma {:induction false} CloseLengthIsLazy(p: Pattern, t: string)
    ensures CloseLength(p, t).Some? ==> IsLazyClose(p, t, CloseLength(p, t).value)
    ensures CloseLength(p, t).None? ==> forall n :: !IsLazyClose(p, t, n)
    decreases |t|
  {
    if StartsWith(t, p.close) {
      assert t[..|p.close|] == p.close;
    } else if t == [] || !Spans(p, t[0]) {
      NoLazyCloseHere(p, t);
    } else {
      CloseLengthIsLazy(p, t[1..]);
      match CloseLength(p, t[1..])
      case None => NoLazyCloseAfter(p, t);
      case Some(n) => LazyCloseAfter(p, t, n);
    }
  }

  lemma NoLazyCloseHere(p: Pattern, t: string)
    requires !StartsWith(t, p.close) && (t == [] || !Spans(p, t[0]))
    ensures forall n :: !IsLazyClose(p, t, n)
  {
  }

  lemma NoLazyCloseAfter(p: Pattern, t: string)
    requires t != [] && !StartsWith(t, p.close) && Spans(p, t[0])
    requires forall n :: !IsLazyClose(p, t[1..], n)
    ensures forall n :: !IsLazyClose(p, t, n)
  {
    forall n ensures !IsLazyClose(p, t, n) {
      if IsLazyClose(p, t, n) {
        LazyCloseBefore(p, t, n);
      }
    }
  }

  /** A lazy close that does not start at the front is one of the rest, one shorter. */
  lemma LazyCloseBefore(p: Pattern, t: string, n: int)
    requires t != [] && !StartsWith(t, p.close) && IsLazyClose(p, t, n)
    ensures IsLazyClose(p, t[1..], n - 1)
  {
    assert t[1..][n - 1 - |p.close|..n - 1] == t[n - |p.close|..n];
    forall j | 0 <= j < n - 1 - |p.close|
      ensures Spans(p, t[1..][j]) && !StartsWith(t[1..][j..], p.close)
    {
      assert t[1..][j..] == t[j + 1..];
    }
  }

  lemma LazyCloseAfter(p: Pattern, t: string, n: nat)
    requires t != [] && !StartsWith(t, p.close) && Spans(p, t[0])
    requires IsLazyClose(p, t[1..], n)
    ensures IsLazyClose(p, t, n + 1)
  {
    assert t[1..][n - |p.close|..n] == t[n + 1 - |p.close|..n + 1];
    forall j | 0 <= j < n + 1 - |p.close| ensures Spans(p, t[j]) && !StartsWith(t[j..], p.close) {
      if j > 0 {
        assert t[1..][j - 1..] == t[j..];
      }
    }
  }

  /** `t[..n]` matches `p`: the head, then a lazy body and the close. */
  ghost predicate IsMatch(p: Pattern, t: string, n: int) {
    StartsWith(t, p.head) && IsLazyClose(p, t[|p.head|..], n - |p.head|)
  }

  /** Length of the match of `p` at the start of `t`, if there is one. */
  function MatchLength(p: Pattern, t: string): (r: Option<nat>)
    ensures r.Some? ==> |p.head| + |p.close| <= r.value <= |t|
  {
    if StartsWith(t, p.head) then
      match CloseLength(p, t[|p.head|..])
      case None => None
      case Some(n) => Some(|p.head| + n)
    else None
  }

  /** A match is reported exactly when the head is followed by a lazy body and close. */
  lemma MatchLengthIsMatch(p: Pattern, t: string)
    ensures MatchLength(p, t).Some? ==> IsMatch(p, t, MatchLength(p, t).value)
    ensures MatchLength(p, t).None? ==> forall n :: !IsMatch(p, t, n)
  {
    if StartsWith(t, p.head) {
      CloseLengthIsLazy(p, t[|p.head|..]);
    }
  }

  /** No match of `p` starts anywhere in `s`. */
  ghost predicate NoMatchIn(p: Pattern, s: string) {
    forall i :: 0 <= i <= |s| ==> MatchLength(p, s[i..]).None?
  }

  /** The match at `b` of length `n` is the leftmost one in `s`. */
  ghost predicate IsFirstMatch(p: Pattern, s: string, b: nat, n: nat) {
    && b + n <= |s|
    && MatchLength(p, s[b..]) == Some(n)
    && forall i :: 0 <= i < b ==> MatchLength(p, s[i..]).None?
  }

  /** The leftmost match of `p` starting at or after `from`, as (start, length). */
  function FindFrom(p: Pattern, s: string, from: nat): (r: Option<(nat, nat)>)
    requires from <= |s|
    ensures r.Some? ==> from <= r.value.0 && r.value.0 + r.value.1 <= |s|
    ensures r.Some? ==> MatchLength(p, s[r.value.0..]) == Some(r.value.1)
    ensures r.Some? ==> forall i :: from <= i < r.value.0 ==> MatchLength(p, s[i..]).None?
    ensures r.None? ==> forall i :: from <= i <= |s| ==> MatchLength(p, s[i..]).None?
    decreases |s| - from
  {
    match MatchLength(p, s[from..])
    case Some(n) => Some((from, n))
    case None => if from == |s| then None else FindFrom(p, s, from + 1)
  }

  /** The leftmost match of `p` in `s`. */
  function Find(p: Pattern, s: string): (r: Option<(nat, nat)>)
    ensures r.Some? ==> IsFirstMatch(p, s, r.value.0, r.value.1)
    ensures r.None? ==> NoMatchIn(p, s)
  {
    FindFrom(p, s, 0)
  }

  /**
   * GetSubstitution of ECMA-262 for a pattern without capture groups: `$$`
   * gives `$`, `$&` the matched text, `` $` `` the text before the match and
   * `$'` the text after it; every other character, `$1` and `$<` included,
   * is copied as it is.
   */
  function Expand(template: string, before: string, matched: string, after: string): (r: string)
    ensures '$' !in template ==> r == template
  {
    if template == [] then []
    else if template[0] == '$' && |template| >= 2 && template[1] in "$&`'" then
      var insert := match template[1]
        case '$' => "$"
        case '&' => matched
        case '`' => before
        case _ => after;
      insert + Expand(template[2..], before, matched, after)
    else [template[0]] + Expand(template[1..], before, matched, after)
  }

  /**
   * `s.replace(pattern, template)` with a non-global pattern: only the
   * leftmost match is replaced; without a match `s` comes back unchanged.
   */
  function Replace(p: Pattern, s: string, template: string): (r: string)
    ensures NoMatchIn(p, s) ==> r == s
    ensures forall b: nat, n: nat :: IsFirstMatch(p, s, b, n) ==> r == Splice(s, b, n, template)
  {
    match Find(p, s)
    case None => s
    case Some((b, n)) =>
      FirstMatchUnique(p, s, b, n);
      Splice(s, b, n, template)
  }

  /** `s[b..b + n]` replaced by the expansion of `template` for that span. */
  function Splice(s: string, b: nat, n: nat, template: string): string
    requires b + n <= |s|
  {
    s[..b] + Expand(template, s[..b], s[b..b + n], s[b + n..]) + s[b + n..]
  }

  /** A replacement text without `$` is spliced in verbatim in place of the first match. */
  lemma ReplaceWithPlainText(p: Pattern, s: string, b: nat, n: nat, text: string)
    requires IsFirstMatch(p, s, b, n) && '$' !in text
    ensures Replace(p, s, text) == s[..b] + text + s[b + n..]
  {
  }

  lemma FirstMatchUnique(p: Pattern, s: string, b: nat, n: nat)
    requires IsFirstMatch(p, s, b, n)
    ensures forall b', n' :: IsFirstMatch(p, s, b', n') ==> b' == b && n' == n
  {
  }

  /**
   * Everything outside the replaced span is kept: the text before the first
   * match and the text after it survive unchanged around the substitution.
   */
  lemma ReplaceFrame(p: Pattern, s: string, template: string, b: nat, n: nat)
    requires IsFirstMatch(p, s, b, n)
    ensures var r := Replace(p, s, template);
      var inserted := Expand(template, s[..b], s[b..b + n], s[b + n..]);
      && |r| == |s| - n + |inserted|
      && r[..b] == s[..b]
      && r[b..b + |inserted|] == inserted
      && r[b + |inserted|..] == s[b + n..]
  {
  }

  /**
   * `$&` brings back the matched text: a template of `$`-free text around one
   * `$&` expands to that text around the match.
   */
  lemma {:induction false} ExpandMatchedText(pre: string, post: string, before: string, matched: string, after: string)
    requires '$' !in pre && '$' !in post
    ensures Expand(pre + "$&" + post, before, matched, after) == pre + matched + post
    decreases |pre|
  {
    if pre == [] {
      var template := "$&" + post;
      assert pre + "$&" + post == template && template[2..] == post;
    } else {
      assert '$' !in pre[1..] by {
        forall i | 0 <= i < |pre[1..]| ensures pre[1..][i] == pre[i + 1] { }
      }
      ExpandMatchedText(pre[1..], post, before, matched, after);
      var tail := pre[1..] + "$&" + post;
      ExpandPlainChar(pre[0], tail, before, matched, after);
      FirstCharThen(pre, "$&", post);
      FirstCharThen(pre, matched, post);
    }
  }

  /** A character other than `$` is copied to the expansion as it is. */
  lemma ExpandPlainChar(c: char, tail: string, before: string, matched: string, after: string)
    requires c != '$'
    ensures Expand([c] + tail, before, matched, after) == [c] + Expand(tail, before, matched, after)
  {
    assert ([c] + tail)[1..] == tail;
  }

  /** The first character of `s`, then the rest of `s` followed by `t` and `u`. */
  lemma FirstCharThen(s: string, t: string, u: string)
    requires s != []
    ensures s + t + u == [s[0]] + (s[1..] + t + u)
  {
    assert s == [s[0]] + s[1..];
  }

  /**
   * A replacement holding `$&` puts the matched text back into the result;
   * with a `[\s\S]` body the pattern then still matches there, so the marker
   * survives the replacement.
   */
  lemma MatchedTextKeepsMatch(p: Pattern, s: string, b: nat, n: nat, pre: string, post: string)
    requires p.dotAll && IsFirstMatch(p, s, b, n)
    requires '$' !in pre && '$' !in post
    ensures Replace(p, s, pre + "$&" + post) == s[..b] + pre + s[b..b + n] + post + s[b + n..]
    ensures !NoMatchIn(p, Replace(p, s, pre + "$&" + post))
  {
    var m := s[b..b + n];
    ExpandMatchedText(pre, post, s[..b], m, s[b + n..]);
    ReplaceExpandsTo(p, s, b, n, pre + "$&" + post, pre + m + post);
    var r := s[..b] + (pre + m + post) + s[b + n..];
    ReinsertedText(s[..b], pre, m, post, s[b + n..]);
    assert m == s[b..][..n];
    CopiedMatchMatches(p, s[b..], n, r[b + |pre|..]);
  }

  /** Where the template put the matched text back, the result starts with it. */
  lemma ReinsertedText(x: string, pre: string, m: string, post: string, y: string)
    ensures x + (pre + m + post) + y == x + pre + m + post + y
    ensures var r := x + (pre + m + post) + y;
      |x| + |pre| + |m| <= |r| && r[|x| + |pre|..][..|m|] == m
  {
    var r := x + (pre + m + post) + y;
    assert r[|x| + |pre|..][..|m|] == r[|x| + |pre|..|x| + |pre| + |m|];
  }

  /** The first match replaced by what the template expands to there. */
  lemma ReplaceExpandsTo(p: Pattern, s: string, b: nat, n: nat, template: string, e: string)
    requires IsFirstMatch(p, s, b, n)
    requires Expand(template, s[..b], s[b..b + n], s[b + n..]) == e
    ensures Replace(p, s, template) == s[..b] + e + s[b + n..]
  {
  }

  /** A text that starts with the same `n` characters as a match of length `n` matches too, with a `[\s\S]` body. */
  lemma CopiedMatchMatches(p: Pattern, u: string, n: nat, t: string)
    requires p.dotAll && MatchLength(p, u) == Some(n)
    requires n <= |t| && t[..n] == u[..n]
    ensures MatchLength(p, t).Some?
  {
    MatchEndsWithClose(p, u, n);
    assert StartsWith(t, p.head) by {
      assert u[..|p.head|] == p.head;
      assert t[..|p.head|] == t[..n][..|p.head|] == u[..n][..|p.head|];
    }
    assert t[n - |p.close|..n] == t[..n][n - |p.close|..] == u[..n][n - |p.close|..] == u[n - |p.close|..n];
    HeadThenCloseMatches(p, t, n - |p.close|);
  }

  // ---- A splice cannot re-create its own marker -----------------------

  /** `x` and `y` agree on their common length. */
  ghost predicate Compatible(x: string, y: string) {
    forall k :: 0 <= k < |x| && k < |y| ==> x[k] == y[k]
  }

  /** With a `[\s\S]` body, a head followed anywhere later by a close always matches. */
  lemma {:induction false} CloseFoundWhenDotAll(p: Pattern, t: string, j: nat)
    requires p.dotAll && j <= |t| && StartsWith(t[j..], p.close)
    ensures CloseLength(p, t).Some?
    decreases j
  {
    if !StartsWith(t, p.close) {
      assert j > 0;
      assert t[1..][j - 1..] == t[j..];
      CloseFoundWhenDotAll(p, t[1..], j - 1);
    }
  }

  /**
   * With a `[\s\S]` body, no copy of the head lies wholly before the first
   * match: the close that ends the match would complete an earlier one.
   */
  lemma FirstMatchHasNoEarlierHead(p: Pattern, s: string, b: nat, n: nat)
    requires p.dotAll && p.head != [] && IsFirstMatch(p, s, b, n)
    ensures forall i :: 0 <= i && i + |p.head| <= b ==> !StartsWith(s[i..], p.head)
  {
    MatchEndsWithClose(p, s[b..], n);
    var c := b + n - |p.close|;
    assert s[c..c + |p.close|] == p.close by {
      assert s[b..][n - |p.close|..n] == s[c..c + |p.close|];
    }
    forall i | 0 <= i && i + |p.head| <= b ensures !StartsWith(s[i..], p.head) {
      NoHeadBeforeClose(p, s, i, c);
    }
  }

  /** A head at `i` with a close at `c` later on would match there, with a `[\s\S]` body. */
  lemma NoHeadBeforeClose(p: Pattern, s: string, i: nat, c: nat)
    requires p.dotAll && i + |p.head| <= c && c + |p.close| <= |s| && s[c..c + |p.close|] == p.close
    requires MatchLength(p, s[i..]).None?
    ensures !StartsWith(s[i..], p.head)
  {
    if StartsWith(s[i..], p.head) {
      var t, j := s[i..], c - i;
      assert t[j..j + |p.close|] == s[c..c + |p.close|];
      HeadThenCloseMatches(p, t, j);
      assert false;
    }
  }

  /** A match ends with the close. */
  lemma MatchEndsWithClose(p: Pattern, t: string, n: nat)
    requires MatchLength(p, t) == Some(n)
    ensures |p.head| + |p.close| <= n <= |t| && t[n - |p.close|..n] == p.close
  {
    MatchLengthIsMatch(p, t);
    var u, k := t[|p.head|..], n - |p.head|;
    assert IsLazyClose(p, u, k);
    LazyCloseEnds(p, u, k);
    assert u[k - |p.close|..k] == t[n - |p.close|..n];
  }

  lemma LazyCloseEnds(p: Pattern, u: string, k: int)
    requires IsLazyClose(p, u, k)
    ensures |p.close| <= k <= |u| && u[k - |p.close|..k] == p.close
  {
  }

  /** With a `[\s\S]` body, a head followed anywhere later by the close matches. */
  lemma HeadThenCloseMatches(p: Pattern, t: string, j: nat)
    requires p.dotAll && StartsWith(t, p.head)
    requires |p.head| <= j && j + |p.close| <= |t| && t[j..j + |p.close|] == p.close
    ensures MatchLength(p, t).Some?
  {
    assert t[|p.head|..][j - |p.head|..] == t[j..];
    CloseFoundWhenDotAll(p, t[|p.head|..], j - |p.head|);
  }

  /**
   * After the first match is spliced out for `text`, `p` matches nowhere:
   * provided no copy of the head lies before the match, none is inside
   * `text`, none straddles either edge of `text`, and no later match follows.
   */
  lemma SpliceLeavesNoMatch(p: Pattern, s: string, b: nat, n: nat, text: string)
    requires IsFirstMatch(p, s, b, n)
    requires forall i :: 0 <= i && i + |p.head| <= b ==> !StartsWith(s[i..], p.head)
    requires NoMatchIn(p, s[b + n..])
    requires forall q :: 0 <= q <= |text| ==> !StartsWith(text[q..], p.head)
    requires forall l :: 0 < l < |p.head| ==> !Compatible(p.head[l..], text)
    requires text != [] && text[|text| - 1] !in p.head
    ensures NoMatchIn(p, s[..b] + text + s[b + n..])
  {
    var r := s[..b] + text + s[b + n..];
    var h := p.head;
    var m := b + |text|;
    forall i | 0 <= i < m ensures !StartsWith(r[i..], h) {
      if i + |h| <= |r| {
        if i + |h| <= b {
          assert r[i..i + |h|] == s[i..i + |h|];
          SameWindow(r, i, s, i, h);
        } else if i < b {
          Straddle(r, i, h, b, text);
        } else if i + |h| <= m {
          assert r[i..i + |h|] == text[i - b..i - b + |h|];
          SameWindow(r, i, text, i - b, h);
        } else {
          Overhang(r, i, h, b, text);
        }
      }
    }
    forall i | 0 <= i <= |r| ensures MatchLength(p, r[i..]).None? {
      if i >= m {
        assert r[i..] == s[b + n..][i - m..];
      }
    }
  }

  /** Two equal windows agree on whether they start with `w`. */
  lemma SameWindow(x: string, i: nat, y: string, j: nat, w: string)
    requires i + |w| <= |x| && j + |w| <= |y| && x[i..i + |w|] == y[j..j + |w|]
    ensures StartsWith(x[i..], w) == StartsWith(y[j..], w)
  {
    assert x[i..][..|w|] == x[i..i + |w|];
    assert y[j..][..|w|] == y[j..j + |w|];
  }

  /** A copy of `w` that starts before `text` and reaches into it agrees with `text` there. */
  lemma Straddle(r: string, i: nat, w: string, b: nat, text: string)
    requires i < b < i + |w| && b + |text| <= |r| && r[b..b + |text|] == text
    ensures StartsWith(r[i..], w) ==> Compatible(w[b - i..], text)
  {
    if StartsWith(r[i..], w) {
      forall k | 0 <= k < |w[b - i..]| && k < |text| ensures w[b - i..][k] == text[k] {
        assert r[i..][..|w|][b - i + k] == w[b - i + k];
        assert r[b..b + |text|][k] == text[k];
      }
    }
  }

  /** A copy of `w` that starts inside `text` and runs past its end contains its last character. */
  lemma Overhang(r: string, i: nat, w: string, b: nat, text: string)
    requires b <= i < b + |text| < i + |w| && b + |text| <= |r| && r[b..b + |text|] == text
    ensures StartsWith(r[i..], w) ==> text[|text| - 1] in w
  {
    if StartsWith(r[i..], w) {
      var k := b + |text| - 1 - i;
      assert r[i..][..|w|][k] == w[k];
      assert r[b..b + |text|][|text| - 1] == text[|text| - 1];
    }
  }

}
