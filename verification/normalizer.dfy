/**
 * The per-item normalisation of `fetchRSSPosts`: the first three feed items
 * become post records with fallback title, link and description.
 */
module Normalizer {

  import opened Wrappers
  import opened JsString

  /**
   * One `<item>` of the feed as the XML parser hands it over; an element the
   * item does not have is `None`.
   */
  datatype FeedItem = FeedItem(
    title: Option<string>,
    link: Option<string>,
    guid: Option<string>,
    pubDate: Option<string>,
    description: Option<string>)

  /** The record the component file stores for each post. */
  datatype Post = Post(title: string, date: string, link: string, description: string)

  const MaxPosts: nat := 3
  const MaxDescription: nat := 120
  const UntitledTitle := "Untitled Post"
  const DefaultDescription := "Click to read more..."

  /** JavaScript truthiness of an optional string: absent and `""` are falsy. */
  predicate Truthy(v: Option<string>) {
    v.Some? && v.value != ""
  }

  /** `v || fallback`: truthy when either side is, and one of the two sides. */
  function Or(v: Option<string>, fallback: string): (r: string)
    ensures r != "" <==> Truthy(v) || fallback != ""
    ensures v == Some(r) || r == fallback
  {
    if Truthy(v) then v.value else fallback
  }

  /** `(description || 'Click to read more...').replace(/<[^>]*>/g, '').substring(0, 120).trim()` */
  function Describe(description: Option<string>): (r: string)
    ensures |r| <= MaxDescription
    ensures r != [] ==> !IsTrimmable(r[0]) && !IsTrimmable(r[|r| - 1])
    ensures NoTag(r)
  {
    var stripped := StripTags(Or(description, DefaultDescription));
    var cut := Take(stripped, MaxDescription);
    var r := Trim(cut);
    CutThenTrimmed(stripped, cut, |cut| - |TrimStart(cut)|, r);
    r
  }

  /** A trimmed prefix of at most 120 characters of tag-free text is such a description. */
  lemma CutThenTrimmed(stripped: string, cut: string, lead: nat, r: string)
    requires NoTag(stripped) && |cut| <= MaxDescription && |cut| <= |stripped| && cut == stripped[..|cut|]
    requires TrimsTo(cut, lead, r)
    ensures |r| <= MaxDescription && NoTag(r)
    ensures r != [] ==> !IsTrimmable(r[0]) && !IsTrimmable(r[|r| - 1])
  {
    NoTagSlice(stripped, 0, |cut|);
    NoTagSlice(cut, lead, lead + |r|);
  }

  /**
   * The object literal built for one item; `formatDate` stands for
   * `new Date(pubDate).toLocaleDateString('en-US', { month: 'long', day: 'numeric', year: 'numeric' })`.
   */
  function NormalizeItem(item: FeedItem, formatDate: Option<string> -> string): (p: Post)
    ensures p.title != ""
    ensures p.date == formatDate(item.pubDate)
    ensures |p.description| <= MaxDescription
  {
    Post(
      Or(item.title, UntitledTitle),
      formatDate(item.pubDate),
      Or(item.link, Or(item.guid, "")),
      Describe(item.description))
  }

  function Min(a: nat, b: nat): nat {
    if a <= b then a else b
  }

  /** `items.map(normalize)`. */
  function MapItems(items: seq<FeedItem>, formatDate: Option<string> -> string): (r: seq<Post>)
    ensures |r| == |items|
    ensures forall k :: 0 <= k < |r| ==> r[k] == NormalizeItem(items[k], formatDate)
  {
    if items == [] then [] else [NormalizeItem(items[0], formatDate)] + MapItems(items[1..], formatDate)
  }

  /** `items.slice(0, 3).map(normalize)`: the first three items, in feed order. */
  function NormalizeAll(items: seq<FeedItem>, formatDate: Option<string> -> string): (r: seq<Post>)
    ensures |r| == Min(MaxPosts, |items|)
    ensures forall k :: 0 <= k < |r| ==> r[k] == NormalizeItem(items[k], formatDate)
  {
    MapItems(items[..Min(MaxPosts, |items|)], formatDate)
  }

  /**
   * The fallbacks: a missing or empty title becomes "Untitled Post"; the link is
   * the item's link, else its guid, else ""; a missing or empty description
   * becomes exactly "Click to read more...".
   */
  lemma Fallbacks(item: FeedItem, formatDate: Option<string> -> string)
    ensures var p := NormalizeItem(item, formatDate);
      && (p.title == if Truthy(item.title) then item.title.value else UntitledTitle)
      && (p.link == if Truthy(item.link) then item.link.value
                    else if Truthy(item.guid) then item.guid.value else "")
      && (!Truthy(item.description) ==> p.description == DefaultDescription)
  {
    if !Truthy(item.description) {
      assert '<' !in DefaultDescription && |DefaultDescription| == 21;
      assert !IsTrimmable(DefaultDescription[0]) && !IsTrimmable(DefaultDescription[20]);
      PlainDescriptionKept(DefaultDescription);
      assert Or(item.description, DefaultDescription) == Or(Some(DefaultDescription), DefaultDescription);
    }
  }

  /**
   * A description that is already plain text (no `<`), short enough and with
   * no surrounding whitespace is kept verbatim.
   */
  lemma PlainDescriptionKept(d: string)
    requires d != [] && '<' !in d && |d| <= MaxDescription
    requires !IsTrimmable(d[0]) && !IsTrimmable(d[|d| - 1])
    ensures Describe(Some(d)) == d
  {
    TrimKeepsTrimmed(d);
  }

  /** Stripping `<p>Hi <b>there</b></p>` leaves `Hi there`, which is then kept whole. */
  lemma MarkupExample(markup: string)
    requires markup == "<p>Hi <b>there</b></p>"
    ensures Describe(Some(markup)) == "Hi there"
  {
    StripExample(markup);
    assert markup != "";
    PlainExample("Hi there");
    StrippedDescription(markup, "Hi there");
  }

  lemma PlainExample(plain: string)
    requires plain == "Hi there"
    ensures '<' !in plain && |plain| <= MaxDescription
    ensures !IsTrimmable(plain[0]) && !IsTrimmable(plain[|plain| - 1])
  {
  }

  /** When the tag-stripped text is short, plain and trimmed, it is the description. */
  lemma StrippedDescription(d: string, plain: string)
    requires d != "" && StripTags(d) == plain
    requires '<' !in plain && |plain| <= MaxDescription
    requires plain != [] ==> !IsTrimmable(plain[0]) && !IsTrimmable(plain[|plain| - 1])
    ensures Describe(Some(d)) == plain
  {
    TrimKeepsTrimmed(plain);
  }

  lemma StripExample(markup: string)
    requires markup == "<p>Hi <b>there</b></p>"
    ensures StripTags(markup) == "Hi there"
  {
    var tail := "" + "<" + "/p" + ">" + "";
    var there := "there" + "<" + "/b" + ">" + tail;
    var hi := "Hi " + "<" + "b" + ">" + there;
    assert markup == "" + "<" + "p" + ">" + hi;
    StripPieces(hi, there, tail);
  }

  lemma StripPieces(hi: string, there: string, tail: string)
    requires tail == "" + "<" + "/p" + ">" + ""
    requires there == "there" + "<" + "/b" + ">" + tail
    requires hi == "Hi " + "<" + "b" + ">" + there
    ensures StripTags("" + "<" + "p" + ">" + hi) == "Hi there"
  {
    StripStep("", "/p", "", "");
    StripStep("there", "/b", tail, "");
    StripStep("Hi ", "b", there, "there");
    assert "Hi " + "there" == "Hi there";
    StripStep("", "p", hi, "Hi there");
  }

  lemma StripStep(text: string, inner: string, rest: string, stripped: string)
    requires '<' !in text && '>' !in inner && StripTags(rest) == stripped
    ensures StripTags(text + "<" + inner + ">" + rest) == text + stripped
    ensures text == "" ==> StripTags(text + "<" + inner + ">" + rest) == stripped
    ensures stripped == "" ==> StripTags(text + "<" + inner + ">" + rest) == text
  {
    StripTextThenTag(text, inner, rest);
  }

}
