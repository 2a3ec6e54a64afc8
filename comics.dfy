/**
 * The comic record, its extraction from a fetched xkcd page, and its rendering as an embed
 * (the `XKCD` data class, `applyEmbed` and the two `getXKCD` overloads).
 *
 * Fetching and HTML selection are outside the model: a fetched page is given as the `content`
 * attributes of its `meta` elements in document order (Jsoup yields "" for a missing attribute)
 * and the first `#comic img` element, if any. The network is a `Fetcher` from URL to response.
 */
module Comics {
  import opened Results
  import opened KotlinText

  /** One xkcd installment. */
  datatype Comic = Comic(num: int, title: String, alt: String, img: String)

  /** The attributes of the comic's `img` element. */
  datatype Image = Image(alt: String, title: String, src: String)

  /** What the bot reads from a fetched page. */
  datatype Page = Page(metaContents: seq<String>, image: Option<Image>)

  /** A page request either fails with a non-success HTTP status or yields a page. */
  datatype Response = StatusError | Fetched(page: Page)

  type Fetcher = String -> Response

  /** The fields an embed carries; nothing else is set on it. */
  datatype Embed = Embed(title: String, footer: String, image: String, description: String)

  const NO_TITLE: String := "no comic title found"
  const NO_ALT: String := "no alt text found"
  const NO_IMAGE: String := "https://imgs.xkcd.com/comics/not_available.png"
  const SITE: String := "https://xkcd.com/"
  const DESCRIPTION_PREFIX: String := "xkcd #"

  /** The page of comic `n`: `"https://xkcd.com/$n"`. */
  function ComicUrl(n: int): (u: String)
    ensures |u| > |SITE| && u[..|SITE|] == SITE && u[|SITE|..] == IntToString(n)
  {
    var u := SITE + IntToString(n);
    assert u[|SITE|..] == IntToString(n);
    u
  }

  /** Different `Int`s name different comic pages. */
  lemma ComicUrlInjective(m: int, n: int)
    requires IsInt(m) && IsInt(n) && ComicUrl(m) == ComicUrl(n)
    ensures m == n
  {
    IntToStringInjective(m, n);
  }

  /**
   * The comic number: the fourth meta tag's content, split on `/`, second-to-last piece,
   * parsed as an `Int`. A short meta list or a content with no `/` is an index error, a
   * piece that is not an integer a number-format error; none of these falls back to -1.
   */
  function ComicNumber(metaContents: seq<String>): (r: Outcome<int>)
    ensures r.Done? ==> IsInt(r.value)
    ensures |metaContents| < 4 ==> r == Threw(IndexOutOfBounds)
    ensures |metaContents| >= 4 && '/' !in metaContents[3] ==> r == Threw(IndexOutOfBounds)
    ensures r.Threw? ==> r.fault in {IndexOutOfBounds, NumberFormat}
    ensures |metaContents| >= 4 && '/' in metaContents[3] && r.Threw? ==> r.fault == NumberFormat
  {
    if |metaContents| < 4 then Threw(IndexOutOfBounds)
    else
      var pieces := Split(metaContents[3], '/');
      SplitSingle(metaContents[3], '/');
      if |pieces| < 2 then Threw(IndexOutOfBounds)
      else
        match ParseInt(pieces[|pieces| - 2])
        case None => Threw(NumberFormat)
        case Some(n) => Done(n)
  }

  /** The comic's title: the image's `alt` attribute, or a placeholder. */
  function TitleOf(image: Option<Image>): String
  {
    match image
    case Some(i) => i.alt
    case None => NO_TITLE
  }

  /** The comic's hover text: the image's `title` attribute, or a placeholder. */
  function AltOf(image: Option<Image>): String
  {
    match image
    case Some(i) => i.title
    case None => NO_ALT
  }

  /** The image URL: `"https:"` before the protocol-relative `src`, or the "not available" image. */
  function ImgOf(image: Option<Image>): String
  {
    match image
    case Some(i) => "https:" + i.src
    case None => NO_IMAGE
  }

  /**
   * `getXKCD(url)` given the response to the request for `url`: a non-success status is
   * caught and gives `null`; a number that cannot be extracted is an exception that escapes.
   */
  function GetXkcd(response: Response): (r: Outcome<Option<Comic>>)
    ensures r == Done(None) <==> response.StatusError?
    ensures r.Threw? ==> response.Fetched? && ComicNumber(response.page.metaContents) == Threw(r.fault)
    ensures r.Done? && r.value.Some? ==>
      && response.Fetched?
      && Done(r.value.value.num) == ComicNumber(response.page.metaContents)
      && (response.page.image.None? ==>
            r.value.value.title == NO_TITLE && r.value.value.alt == NO_ALT && r.value.value.img == NO_IMAGE)
      && (response.page.image.Some? ==>
            var i := response.page.image.value;
            r.value.value.title == i.alt && r.value.value.alt == i.title && r.value.value.img == "https:" + i.src)
  {
    match response
    case StatusError => Done(None)
    case Fetched(page) =>
      match ComicNumber(page.metaContents)
      case Threw(f) => Threw(f)
      case Done(n) => Done(Some(Comic(n, TitleOf(page.image), AltOf(page.image), ImgOf(page.image))))
  }

  /** `getXKCD(num)`: the comic at `"https://xkcd.com/$num"`. */
  function GetByNumber(fetch: Fetcher, n: int): (r: Outcome<Option<Comic>>)
    ensures r == Done(None) <==> fetch(ComicUrl(n)).StatusError?
    ensures r.Done? && r.value.Some? ==>
      Done(r.value.value.num) == ComicNumber(fetch(ComicUrl(n)).page.metaContents)
    ensures r.Threw? ==> r.fault in {IndexOutOfBounds, NumberFormat}
    ensures r == GetXkcd(fetch(ComicUrl(n)))
  {
    GetXkcd(fetch(ComicUrl(n)))
  }

  /** `applyEmbed`: the comic's title, hover text and image, and `"xkcd #$num"` as description. */
  function ApplyEmbed(c: Comic): (e: Embed)
    ensures e.title == c.title && e.footer == c.alt && e.image == c.img
    ensures e.description == DESCRIPTION_PREFIX + IntToString(c.num)
    ensures |e.description| > |DESCRIPTION_PREFIX| && e.description[..|DESCRIPTION_PREFIX|] == DESCRIPTION_PREFIX
  {
    Embed(c.title, c.alt, c.img, DESCRIPTION_PREFIX + IntToString(c.num))
  }

  // -----------------------------------------------------------------------------------------------
  // Properties

  /** A well-formed canonical URL `prefix/n/` in the fourth meta tag yields number `n`. */
  lemma NumberRoundTrip(metaContents: seq<String>, prefix: String, n: int)
    requires IsInt(n)
    requires |metaContents| >= 4 && metaContents[3] == prefix + "/" + IntToString(n) + "/"
    ensures ComicNumber(metaContents) == Done(n)
  {
    var d := IntToString(n);
    assert metaContents[3] == prefix + ['/'] + d + ['/'];
    SplitSecondToLast(prefix, d, '/');
    IntToStringRoundTrip(n);
  }

  /** Fetching comic `n` whose page carries its canonical URL gives a comic numbered `n`. */
  lemma FetchByNumberRoundTrip(fetch: Fetcher, n: int, page: Page)
    requires IsInt(n)
    requires fetch(ComicUrl(n)) == Fetched(page)
    requires |page.metaContents| >= 4 && page.metaContents[3] == ComicUrl(n) + "/"
    ensures GetByNumber(fetch, n).Done? && GetByNumber(fetch, n).value.Some?
    ensures GetByNumber(fetch, n).value.value.num == n
  {
    var host := "https://xkcd.com";
    assert SITE == host + "/";
    assert ComicUrl(n) + "/" == host + "/" + IntToString(n) + "/";
    NumberRoundTrip(page.metaContents, host, n);
  }

  /**
   * With a `/` in the fourth `meta` tag, the number is the second-to-last `/`-piece parsed as
   * an `Int`, whatever follows it: `https://xkcd.com/614` reads `xkcd.com` and fails.
   */
  lemma ComicNumberSecondToLast(metaContents: seq<String>)
    requires |metaContents| >= 4 && '/' in metaContents[3]
    ensures |Split(metaContents[3], '/')| >= 2
    ensures var p := Split(metaContents[3], '/');
      && (ComicNumber(metaContents).Done? <==> ParseInt(p[|p| - 2]).Some?)
      && (ComicNumber(metaContents).Done? ==> Some(ComicNumber(metaContents).value) == ParseInt(p[|p| - 2]))
  {
    SplitSingle(metaContents[3], '/');
  }

  /** A piece before the trailing `/` that is not an integer is a number-format error, not -1. */
  lemma NonIntegerSegmentThrows(metaContents: seq<String>, prefix: String, segment: String)
    requires |metaContents| >= 4 && metaContents[3] == prefix + "/" + segment + "/"
    requires '/' !in segment && ParseInt(segment).None?
    ensures ComicNumber(metaContents) == Threw(NumberFormat)
  {
    assert metaContents[3] == prefix + ['/'] + segment + ['/'];
    SplitSecondToLast(prefix, segment, '/');
  }

  /**
   * A missing or different image never makes the fetch fail: whether a comic is produced,
   * and its number, depend only on the HTTP status and the meta tags.
   */
  lemma ImageNeverFailsFetch(metaContents: seq<String>, a: Option<Image>, b: Option<Image>)
    ensures GetXkcd(Fetched(Page(metaContents, a))).Done? == GetXkcd(Fetched(Page(metaContents, b))).Done?
    ensures GetXkcd(Fetched(Page(metaContents, a))).Done? ==>
      GetXkcd(Fetched(Page(metaContents, a))).value.Some? &&
      GetXkcd(Fetched(Page(metaContents, a))).value.value.num == GetXkcd(Fetched(Page(metaContents, b))).value.value.num
  {
  }

  /** The number after `"xkcd #"` in the embed's description reads back as the comic's number. */
  lemma EmbedNumberRoundTrip(c: Comic)
    requires IsInt(c.num)
    ensures ParseInt(ApplyEmbed(c).description[|DESCRIPTION_PREFIX|..]) == Some(c.num)
  {
    assert ApplyEmbed(c).description[|DESCRIPTION_PREFIX|..] == IntToString(c.num);
    IntToStringRoundTrip(c.num);
  }

  /** The embed determines the comic it was rendered from. */
  lemma EmbedInjective(c: Comic, d: Comic)
    requires IsInt(c.num) && IsInt(d.num)
    requires ApplyEmbed(c) == ApplyEmbed(d)
    ensures c == d
  {
    EmbedNumberRoundTrip(c);
    EmbedNumberRoundTrip(d);
  }
}
