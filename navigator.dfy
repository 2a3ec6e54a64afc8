/**
 * The interactive navigator (`xkcdInteractiveMessage`): one `Int` cursor per message, moved by
 * the Previous, dice and Next buttons, and a re-render after every move that re-fetches the
 * comic under the cursor and rebuilds the two link buttons from the cursor.
 *
 * Discord itself is outside the model: a render is the embed and the two link URLs that the
 * message is rewritten with, or the exception that interrupts it.
 */
module Navigator {
  import opened Results
  import opened KotlinText
  import opened Comics

  /** The page the dice fetches to learn the latest comic number. */
  const FRONT_PAGE: String := "https://xkcd.com/"
  const EXPLAIN_SITE: String := "https://www.explainxkcd.com/"

  /** The targets of the "xkcd.com" and "explain" link buttons. */
  datatype Links = Links(comicPage: String, explanation: String)

  /** What one render writes into the message: a fresh embed and fresh link buttons. */
  datatype View = View(embed: Embed, links: Links)

  /** The link buttons for comic `n`. */
  function LinksFor(n: int): (l: Links)
    ensures |l.comicPage| > |SITE| && l.comicPage[..|SITE|] == SITE
    ensures |l.explanation| > |EXPLAIN_SITE| && l.explanation[..|EXPLAIN_SITE|] == EXPLAIN_SITE
    ensures l.comicPage[|SITE|..] == l.explanation[|EXPLAIN_SITE|..]
    ensures l.comicPage == ComicUrl(n) && l.explanation == EXPLAIN_SITE + IntToString(n)
  {
    Links(ComicUrl(n), EXPLAIN_SITE + IntToString(n))
  }

  /** `getXKCD(...)!!`: a `null` comic is a `NullPointerException`. */
  function Required(o: Outcome<Option<Comic>>): (r: Outcome<Comic>)
    ensures r.Done? <==> o.Done? && o.value.Some?
    ensures r.Done? ==> r.value == o.value.value
    ensures o == Done(None) ==> r == Threw(NullPointer)
    ensures o.Threw? ==> r == Threw(o.fault)
  {
    match o
    case Threw(f) => Threw(f)
    case Done(None) => Threw(NullPointer)
    case Done(Some(c)) => Done(c)
  }

  /**
   * `applyNew` with the cursor at `n`: the comic at `n` is fetched again and must exist; the
   * embed shows it and the link buttons point at `n`.
   */
  function Render(fetch: Fetcher, n: int): (r: Outcome<View>)
    ensures r.Done? <==> Required(GetByNumber(fetch, n)).Done?
    ensures r.Done? ==> r.value.embed == ApplyEmbed(Required(GetByNumber(fetch, n)).value)
    ensures r.Done? ==> r.value.links == LinksFor(n)
    ensures r.Threw? ==> Required(GetByNumber(fetch, n)) == Threw(r.fault)
  {
    match Required(GetByNumber(fetch, n))
    case Threw(f) => Threw(f)
    case Done(c) => Done(View(ApplyEmbed(c), LinksFor(n)))
  }

  /** `getXKCD("https://xkcd.com/")!!.num`: the upper bound the dice draws below. */
  function LatestNumber(fetch: Fetcher): (r: Outcome<int>)
    ensures r.Done? ==> IsInt(r.value)
    ensures fetch(FRONT_PAGE).StatusError? ==> r == Threw(NullPointer)
    ensures fetch(FRONT_PAGE).Fetched? ==> r == ComicNumber(fetch(FRONT_PAGE).page.metaContents)
  {
    match Required(GetXkcd(fetch(FRONT_PAGE)))
    case Threw(f) => Threw(f)
    case Done(c) => Done(c.num)
  }

  class Navigator {
    /** The comic the message currently shows. */
    var currentNum: int

    /** The cursor is a Kotlin `Int`. */
    predicate Valid()
      reads this
    {
      IsInt(currentNum)
    }

    /** `var currentNum = comic.num`. */
    constructor (comic: Comic)
      requires IsInt(comic.num)
      ensures Valid() && currentNum == comic.num
    {
      currentNum := comic.num;
    }

    /** The render made when the navigator is attached, before any button is pressed. */
    method Show(fetch: Fetcher) returns (view: Outcome<View>)
      requires Valid()
      ensures view == Render(fetch, currentNum)
    {
      view := Render(fetch, currentNum);
    }

    /** Previous: `currentNum--` (wrapping at `Int.MIN_VALUE`), then re-render. */
    method Previous(fetch: Fetcher) returns (view: Outcome<View>)
      requires Valid()
      modifies this
      ensures Valid() && currentNum == Wrap(old(currentNum) - 1)
      ensures view == Render(fetch, currentNum)
    {
      currentNum := Wrap(currentNum - 1);
      view := Render(fetch, currentNum);
    }

    /** Next: `currentNum++` (wrapping at `Int.MAX_VALUE`), then re-render. */
    method Next(fetch: Fetcher) returns (view: Outcome<View>)
      requires Valid()
      modifies this
      ensures Valid() && currentNum == Wrap(old(currentNum) + 1)
      ensures view == Render(fetch, currentNum)
    {
      currentNum := Wrap(currentNum + 1);
      view := Render(fetch, currentNum);
    }

    /**
     * The dice: `currentNum = Random.nextInt(1, latest)`, then re-render. The draw is any
     * number from 1 up to but excluding the latest; it is not made when the front page cannot
     * be read, and `nextInt` rejects a latest number of 1 or less. In both cases the cursor
     * keeps its value.
     */
    method Dice(fetch: Fetcher) returns (view: Outcome<View>)
      requires Valid()
      modifies this
      ensures Valid()
      ensures LatestNumber(fetch).Threw? ==>
        currentNum == old(currentNum) && view == Threw(LatestNumber(fetch).fault)
      ensures LatestNumber(fetch).Done? && LatestNumber(fetch).value <= 1 ==>
        currentNum == old(currentNum) && view == Threw(IllegalArgument)
      ensures LatestNumber(fetch).Done? && LatestNumber(fetch).value > 1 ==>
        1 <= currentNum < LatestNumber(fetch).value && view == Render(fetch, currentNum)
    {
      var latest := LatestNumber(fetch);
      match latest
      case Threw(f) =>
        view := Threw(f);
      case Done(until) =>
        if until <= 1 {
          view := Threw(IllegalArgument);
        } else {
          var pick :| 1 <= pick < until;
          currentNum := pick;
          view := Render(fetch, currentNum);
        }
    }
  }

  // -----------------------------------------------------------------------------------------------
  // Properties

  /** Next then Previous puts the cursor back, even across the `Int` wrap-around. */
  lemma NextPreviousCancel(n: int)
    requires IsInt(n)
    ensures Wrap(Wrap(n + 1) - 1) == n
    ensures Wrap(Wrap(n - 1) + 1) == n
  {
    if n == INT_MAX {
      assert Wrap(n + 1) == INT_MIN;
    }
    if n == INT_MIN {
      assert Wrap(n - 1) == INT_MAX;
    }
  }

  /**
   * Starting on a comic and pressing Next then Previous shows exactly what the first render
   * showed: the same comic fetch, the same embed, the same links.
   */
  method NextThenPrevious(comic: Comic, fetch: Fetcher) returns (first: Outcome<View>, last: Outcome<View>)
    requires IsInt(comic.num)
    ensures first == Render(fetch, comic.num)
    ensures last == first
  {
    var nav := new Navigator(comic);
    first := nav.Show(fetch);
    var _ := nav.Next(fetch);
    last := nav.Previous(fetch);
    NextPreviousCancel(comic.num);
  }

  /** Both link buttons name the cursor's number, which reads back from the end of each URL. */
  lemma LinksNameCursor(n: int)
    requires IsInt(n)
    ensures LinksFor(n).comicPage[..|SITE|] == SITE
    ensures ParseInt(LinksFor(n).comicPage[|SITE|..]) == Some(n)
    ensures LinksFor(n).explanation[..|EXPLAIN_SITE|] == EXPLAIN_SITE
    ensures ParseInt(LinksFor(n).explanation[|EXPLAIN_SITE|..]) == Some(n)
  {
    assert LinksFor(n).comicPage[|SITE|..] == IntToString(n);
    assert LinksFor(n).explanation[|EXPLAIN_SITE|..] == IntToString(n);
    IntToStringRoundTrip(n);
  }
}
