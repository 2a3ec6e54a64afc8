/**
 * The decision logic of the `/xkcd` subcommands `latest`, `random`, `range`, `get` and
 * `lookup`: which comics each one requests, which messages it posts, and which exception,
 * if any, ends it.
 *
 * A reply lists the comic numbers the command passed to `getXKCD(num)` in order (fetches of
 * the front page, and the re-fetch a navigator makes when it renders, are not listed), the
 * messages it posted in order, and the exception that escaped the command, if one did.
 */
module Commands {
  import opened Results
  import opened KotlinText
  import opened Comics
  import opened NameIndex
  import opened Navigator

  /** A posted message: plain text, a bare embed, or an embed under navigator control. */
  datatype Message = Text(content: String) | Posted(embed: Embed) | Interactive(view: View)

  datatype Reply = Reply(requested: seq<int>, messages: seq<Message>, fault: Option<Fault>)

  const LATEST_URL: String := "https://xkcd.com"
  const MAX_SPAN: int := 10
  const TOO_MANY: String := "Cannot get more than 10 comics at once!"
  const NO_SUCH_NUMBER: String := "Could not find comic #"
  const NO_SUCH_NAME: String := "Could not find comic!"

  /**
   * Post the comic's embed; with buttons, hand the message to a navigator, whose first render
   * rewrites it (and whose exception, if the re-fetch fails, escapes the command).
   */
  function Post(fetch: Fetcher, c: Comic, buttons: bool): (r: (Message, Option<Fault>))
    ensures !buttons ==> r == (Posted(ApplyEmbed(c)), None)
    ensures buttons && Render(fetch, c.num).Done? ==> r == (Interactive(Render(fetch, c.num).value), None)
    ensures buttons && Render(fetch, c.num).Threw? ==> r == (Posted(ApplyEmbed(c)), Some(Render(fetch, c.num).fault))
  {
    if !buttons then (Posted(ApplyEmbed(c)), None)
    else
      match Render(fetch, c.num)
      case Threw(f) => (Posted(ApplyEmbed(c)), Some(f))
      case Done(v) => (Interactive(v), None)
  }

  // -----------------------------------------------------------------------------------------------
  // latest and random

  /** `latest`: the front page's comic, which must exist, always with a navigator. */
  function Latest(fetch: Fetcher): (r: Reply)
    ensures r.requested == []
    ensures Required(GetXkcd(fetch(LATEST_URL))).Threw? ==>
      r.messages == [] && r.fault == Some(Required(GetXkcd(fetch(LATEST_URL))).fault)
    ensures Required(GetXkcd(fetch(LATEST_URL))).Done? ==>
      var c := Required(GetXkcd(fetch(LATEST_URL))).value;
      && r.messages == [Post(fetch, c, true).0] && r.fault == Post(fetch, c, true).1
      && (r.fault.None? <==> Render(fetch, c.num).Done?)
      && (Render(fetch, c.num).Done? ==> r.messages[0] == Interactive(Render(fetch, c.num).value))
  {
    match Required(GetXkcd(fetch(LATEST_URL)))
    case Threw(f) => Reply([], [], Some(f))
    case Done(c) =>
      var (m, f) := Post(fetch, c, true);
      Reply([], [m], f)
  }

  /** `random` after the draw: comic `n`, which must exist, always with a navigator. */
  function ShowDrawn(fetch: Fetcher, n: int): (r: Reply)
    ensures r.requested == [n]
    ensures Required(GetByNumber(fetch, n)).Threw? ==>
      r.messages == [] && r.fault == Some(Required(GetByNumber(fetch, n)).fault)
    ensures Required(GetByNumber(fetch, n)).Done? ==>
      var c := Required(GetByNumber(fetch, n)).value;
      r.messages == [Post(fetch, c, true).0] && r.fault == Post(fetch, c, true).1
  {
    match Required(GetByNumber(fetch, n))
    case Threw(f) => Reply([n], [], Some(f))
    case Done(c) =>
      var (m, f) := Post(fetch, c, true);
      Reply([n], [m], f)
  }

  /**
   * `random`: read the latest number from the front page, draw `Random.nextInt(1, latest)`
   * (any number from 1 up to but excluding the latest), and show that comic.
   */
  method RandomComic(fetch: Fetcher) returns (r: Reply)
    ensures LatestNumber(fetch).Threw? ==> r == Reply([], [], Some(LatestNumber(fetch).fault))
    ensures LatestNumber(fetch).Done? && LatestNumber(fetch).value <= 1 ==> r == Reply([], [], Some(IllegalArgument))
    ensures LatestNumber(fetch).Done? && LatestNumber(fetch).value > 1 ==>
      |r.requested| == 1 && 1 <= r.requested[0] < LatestNumber(fetch).value && r == ShowDrawn(fetch, r.requested[0])
  {
    match LatestNumber(fetch)
    case Threw(f) =>
      r := Reply([], [], Some(f));
    case Done(until) =>
      if until <= 1 {
        r := Reply([], [], Some(IllegalArgument));
      } else {
        var pick :| 1 <= pick < until;
        r := ShowDrawn(fetch, pick);
      }
  }

  // -----------------------------------------------------------------------------------------------
  // get and lookup

  /**
   * Fetch comic `n` and post it (the shared body of `get` and `lookup`): a `null` comic posts
   * `notFound` and nothing else, a comic is posted, an exception escapes before any post.
   */
  function FetchAndPost(fetch: Fetcher, n: int, buttons: bool, notFound: String): (r: Reply)
    ensures r.requested == [n]
    ensures GetByNumber(fetch, n) == Done(None) ==> r.messages == [Text(notFound)] && r.fault.None?
    ensures GetByNumber(fetch, n).Done? && GetByNumber(fetch, n).value.Some? ==>
      var c := GetByNumber(fetch, n).value.value;
      r.messages == [Post(fetch, c, buttons).0] && r.fault == Post(fetch, c, buttons).1
    ensures GetByNumber(fetch, n).Threw? ==> r.messages == [] && r.fault == Some(GetByNumber(fetch, n).fault)
  {
    match GetByNumber(fetch, n)
    case Threw(f) => Reply([n], [], Some(f))
    case Done(None) => Reply([n], [Text(notFound)], None)
    case Done(Some(c)) =>
      var (m, f) := Post(fetch, c, buttons);
      Reply([n], [m], f)
  }

  /** `get`: comic `num`; a failed fetch answers "Could not find comic #num" and posts no embed. */
  function Get(fetch: Fetcher, num: int, buttons: bool): (r: Reply)
    ensures r.requested == [num]
    ensures GetByNumber(fetch, num) == Done(None) <==>
      r.messages == [Text(NO_SUCH_NUMBER + IntToString(num))]
    ensures GetByNumber(fetch, num) == Done(None) ==> r.fault.None?
    ensures GetByNumber(fetch, num).Done? && GetByNumber(fetch, num).value.Some? ==>
      var c := GetByNumber(fetch, num).value.value;
      r.messages == [Post(fetch, c, buttons).0] && r.fault == Post(fetch, c, buttons).1
    ensures GetByNumber(fetch, num).Threw? ==> r.messages == [] && r.fault == Some(GetByNumber(fetch, num).fault)
  {
    FetchAndPost(fetch, num, buttons, NO_SUCH_NUMBER + IntToString(num))
  }

  /**
   * `lookup`: the number filed under the lower-cased name, or -1 when there is none, is
   * fetched; a failed fetch answers "Could not find comic!".
   */
  function Lookup(fetch: Fetcher, index: ComicNames, name: String, buttons: bool): (r: Reply)
    reads index
    ensures Lowercase(name) in index.names ==> r.requested == [index.names[Lowercase(name)]]
    ensures Lowercase(name) !in index.names ==> r.requested == [NOT_FOUND]
    ensures |r.requested| == 1
    ensures GetByNumber(fetch, r.requested[0]) == Done(None) <==> r.messages == [Text(NO_SUCH_NAME)]
    ensures GetByNumber(fetch, r.requested[0]) == Done(None) ==> r.fault.None?
    ensures GetByNumber(fetch, r.requested[0]).Done? && GetByNumber(fetch, r.requested[0]).value.Some? ==>
      var c := GetByNumber(fetch, r.requested[0]).value.value;
      r.messages == [Post(fetch, c, buttons).0] && r.fault == Post(fetch, c, buttons).1
    ensures GetByNumber(fetch, r.requested[0]).Threw? ==>
      r.messages == [] && r.fault == Some(GetByNumber(fetch, r.requested[0]).fault)
  {
    FetchAndPost(fetch, index.Lookup(name), buttons, NO_SUCH_NAME)
  }

  // -----------------------------------------------------------------------------------------------
  // range

  /** `first..last`: the numbers from `first` to `last` inclusive, ascending; empty when `first > last`. */
  function Span(first: int, last: int): (s: seq<int>)
    ensures |s| == if first <= last then last - first + 1 else 0
    ensures forall i :: 0 <= i < |s| ==> s[i] == first + i
    decreases last - first
  {
    if first > last then [] else Span(first, last - 1) + [last]
  }

  /**
   * The range check with exact arithmetic: the bounds are more than ten apart in either
   * direction, that is, an ascending range holds more than eleven numbers.
   */
  function SpanTooLarge(first: int, last: int): (r: bool)
    ensures first <= last ==> (r <==> |Span(first, last)| > MAX_SPAN + 1)
    ensures first > last ==> (r <==> first - last > MAX_SPAN)
  {
    last - first > MAX_SPAN || first - last > MAX_SPAN
  }

  /**
   * One pass of the `range` loop after `before`: fetch `n`; a failed fetch is skipped without
   * a message, a comic is posted, an exception ends the command.
   */
  function VisitOne(fetch: Fetcher, before: Reply, n: int, buttons: bool): (r: Reply)
    ensures r.requested == before.requested + [n]
    ensures before.messages <= r.messages && |r.messages| <= |before.messages| + 1
    ensures forall i :: |before.messages| <= i < |r.messages| ==> !r.messages[i].Text?
    ensures GetByNumber(fetch, n).Threw? ==>
      r.messages == before.messages && r.fault == Some(GetByNumber(fetch, n).fault)
    ensures GetByNumber(fetch, n) == Done(None) ==> r.messages == before.messages && r.fault.None?
    ensures GetByNumber(fetch, n).Done? && GetByNumber(fetch, n).value.Some? ==>
      var c := GetByNumber(fetch, n).value.value;
      r.messages == before.messages + [Post(fetch, c, buttons).0] && r.fault == Post(fetch, c, buttons).1
  {
    match GetByNumber(fetch, n)
    case Threw(f) => Reply(before.requested + [n], before.messages, Some(f))
    case Done(None) => Reply(before.requested + [n], before.messages, None)
    case Done(Some(c)) =>
      var (m, f) := Post(fetch, c, buttons);
      Reply(before.requested + [n], before.messages + [m], f)
  }

  /** The `range` loop over `nums`, until the first exception. */
  function Visit(fetch: Fetcher, nums: seq<int>, buttons: bool): (r: Reply)
    ensures r.requested <= nums
    ensures r.fault.None? ==> r.requested == nums
    ensures forall i :: 0 <= i < |r.messages| ==> !r.messages[i].Text?
    ensures |r.messages| <= |r.requested|
  {
    if nums == [] then Reply([], [], None)
    else
      var init, n := nums[..|nums| - 1], nums[|nums| - 1];
      assert init + [n] == nums;
      var prev := Visit(fetch, init, buttons);
      if prev.fault.Some? then prev else VisitOne(fetch, prev, n, buttons)
  }

  /**
   * `range` as line 216 writes it: refuse with "Cannot get more than 10 comics at once!" when
   * `abs(last - first) > 10` in 32-bit `Int` arithmetic; otherwise visit `first..last` in
   * ascending order. The bound of eleven requests holds whenever `last - first <= Int.MAX_VALUE`;
   * past that the check can wrap and let a huge range through.
   */
  function RangeReply(fetch: Fetcher, first: int, last: int, buttons: bool): (r: Reply)
    requires IsInt(first) && IsInt(last)
    ensures SpanTooLargeAsWritten(first, last) <==> r.messages == [Text(TOO_MANY)]
    ensures SpanTooLargeAsWritten(first, last) ==> r.requested == [] && r.fault.None?
    ensures !SpanTooLargeAsWritten(first, last) ==> r.requested <= Span(first, last)
    ensures !SpanTooLargeAsWritten(first, last) && r.fault.None? ==> r.requested == Span(first, last)
    ensures last - first <= INT_MAX ==> |r.requested| <= MAX_SPAN + 1
  {
    if SpanTooLargeAsWritten(first, last) then Reply([], [Text(TOO_MANY)], None)
    else
      var r := Visit(fetch, Span(first, last), buttons);
      assert r.messages != [] ==> !r.messages[0].Text?;
      r
  }

  /**
   * `range` as evidently intended: the same loop behind the exact check, which never lets
   * more than eleven comics through.
   */
  function RangeReplyIntended(fetch: Fetcher, first: int, last: int, buttons: bool): (r: Reply)
    ensures SpanTooLarge(first, last) <==> r.messages == [Text(TOO_MANY)]
    ensures SpanTooLarge(first, last) ==> r.requested == [] && r.fault.None?
    ensures !SpanTooLarge(first, last) ==> r.requested <= Span(first, last)
    ensures !SpanTooLarge(first, last) && r.fault.None? ==> r.requested == Span(first, last)
    ensures |r.requested| <= MAX_SPAN + 1
  {
    if SpanTooLarge(first, last) then Reply([], [Text(TOO_MANY)], None)
    else
      var r := Visit(fetch, Span(first, last), buttons);
      assert r.messages != [] ==> !r.messages[0].Text?;
      r
  }

  /** A visit that has ended in an exception ignores the next number. */
  lemma VisitAfterFault(fetch: Fetcher, nums: seq<int>, buttons: bool)
    requires nums != [] && Visit(fetch, nums[..|nums| - 1], buttons).fault.Some?
    ensures Visit(fetch, nums, buttons) == Visit(fetch, nums[..|nums| - 1], buttons)
  {
  }

  /** Visiting one more number is one more pass, as long as no exception has ended the visit. */
  lemma VisitExtend(fetch: Fetcher, nums: seq<int>, i: int, buttons: bool)
    requires 0 <= i < |nums| && Visit(fetch, nums[..i], buttons).fault.None?
    ensures Visit(fetch, nums[..i + 1], buttons) == VisitOne(fetch, Visit(fetch, nums[..i], buttons), nums[i], buttons)
  {
    assert nums[..i + 1][..i] == nums[..i];
  }

  /** Once the visit of a prefix has ended in an exception, the rest of `nums` changes nothing. */
  lemma {:induction false} VisitStopsAt(fetch: Fetcher, nums: seq<int>, k: int, buttons: bool)
    requires 0 <= k <= |nums| && Visit(fetch, nums[..k], buttons).fault.Some?
    ensures Visit(fetch, nums, buttons) == Visit(fetch, nums[..k], buttons)
    decreases |nums|
  {
    if k < |nums| {
      var init := nums[..|nums| - 1];
      assert init[..k] == nums[..k];
      VisitStopsAt(fetch, init, k, buttons);
      VisitAfterFault(fetch, nums, buttons);
    } else {
      assert nums[..k] == nums;
    }
  }

  /** After the pass for `nums[i]`, the reply is either final (an exception) or the visit so far. */
  lemma VisitPass(fetch: Fetcher, nums: seq<int>, i: int, buttons: bool)
    requires 0 <= i < |nums| && Visit(fetch, nums[..i], buttons).fault.None?
    ensures var r := VisitOne(fetch, Visit(fetch, nums[..i], buttons), nums[i], buttons);
      && (r.fault.Some? ==> r == Visit(fetch, nums, buttons))
      && (r.fault.None? ==> r == Visit(fetch, nums[..i + 1], buttons))
  {
    VisitExtend(fetch, nums, i, buttons);
    if Visit(fetch, nums[..i + 1], buttons).fault.Some? {
      VisitStopsAt(fetch, nums, i + 1, buttons);
    }
  }

  /**
   * One pass of the `range` loop body: fetch `num`; post it if there is a comic; an exception
   * is recorded and ends the command.
   */
  method VisitNumber(fetch: Fetcher, before: Reply, num: int, buttons: bool) returns (r: Reply)
    requires before.fault.None?
    ensures r == VisitOne(fetch, before, num, buttons)
  {
    r := before.(requested := before.requested + [num]);
    match GetByNumber(fetch, num) {
      case Threw(f) =>
        r := r.(fault := Some(f));
      case Done(None) =>
      case Done(Some(c)) =>
        var (m, f) := Post(fetch, c, buttons);
        r := r.(messages := r.messages + [m], fault := f);
    }
  }

  /**
   * The `range` command as the source runs it: the 32-bit check of line 216, then a loop over
   * `first..last`.
   */
  method Range(fetch: Fetcher, first: int, last: int, buttons: bool) returns (r: Reply)
    requires IsInt(first) && IsInt(last)
    ensures r == RangeReply(fetch, first, last, buttons)
  {
    if SpanTooLargeAsWritten(first, last) {
      return Reply([], [Text(TOO_MANY)], None);
    }
    var nums := Span(first, last);
    r := Reply([], [], None);
    var i := 0;
    while i < |nums|
      invariant 0 <= i <= |nums|
      invariant r == Visit(fetch, nums[..i], buttons) && r.fault.None?
    {
      VisitPass(fetch, nums, i, buttons);
      r := VisitNumber(fetch, r, nums[i], buttons);
      if r.fault.Some? {
        return;
      }
      i := i + 1;
    }
    assert nums[..i] == nums;
  }

  // -----------------------------------------------------------------------------------------------
  // The range check as the source writes it

  /** `kotlin.math.abs` on an `Int`: the negation wraps, so `abs(Int.MIN_VALUE)` is negative. */
  function KotlinAbs(x: int): (r: int)
    requires IsInt(x)
    ensures IsInt(r)
    ensures x != INT_MIN ==> r >= 0 && (r == x || r == -x)
    ensures x == INT_MIN ==> r == INT_MIN
  {
    if x < 0 then Wrap(-x) else x
  }

  /**
   * `abs(last - first) > 10` evaluated in 32-bit `Int` arithmetic, as line 216 does. In exact
   * arithmetic on `d = last - first`: the honest check while `d` and `-d` fit in an `Int`; a
   * wrapped difference is judged by its distance to 2^32; and at `d = ±2^31` the negative
   * `abs(Int.MIN_VALUE)` lets the range through.
   */
  function SpanTooLargeAsWritten(first: int, last: int): (r: bool)
    requires IsInt(first) && IsInt(last)
    ensures r <==> var d := last - first;
      if -INT_MAX <= d <= INT_MAX then d > MAX_SPAN || d < -MAX_SPAN
      else if d > -INT_MIN then d < INT_RANGE - MAX_SPAN
      else if d < INT_MIN then d + INT_RANGE > MAX_SPAN
      else false
  {
    KotlinAbs(Wrap(last - first)) > MAX_SPAN
  }

  /** When neither the subtraction nor `abs` overflows, the source's check is the exact one. */
  lemma AsWrittenAgreesWithoutOverflow(first: int, last: int)
    requires IsInt(first) && IsInt(last) && -INT_MAX <= last - first <= INT_MAX
    ensures SpanTooLargeAsWritten(first, last) == SpanTooLarge(first, last)
  {
  }

  /** The `range` command as written and as intended agree unless `last - first` or its `abs` overflows. */
  lemma RangeAgreesWithIntended(fetch: Fetcher, first: int, last: int, buttons: bool)
    requires IsInt(first) && IsInt(last) && -INT_MAX <= last - first <= INT_MAX
    ensures RangeReply(fetch, first, last, buttons) == RangeReplyIntended(fetch, first, last, buttons)
  {
    AsWrittenAgreesWithoutOverflow(first, last);
  }

  /**
   * The source's check lets `first = Int.MIN_VALUE, last = Int.MAX_VALUE` through: the
   * difference wraps to -1, no refusal is posted, and the loop requests all 2^32 comics
   * unless an exception stops it. The intended command refuses.
   */
  lemma AsWrittenAdmitsHugeRange(fetch: Fetcher, buttons: bool)
    ensures RangeReply(fetch, INT_MIN, INT_MAX, buttons).messages != [Text(TOO_MANY)]
    ensures RangeReply(fetch, INT_MIN, INT_MAX, buttons).fault.None? ==>
      |RangeReply(fetch, INT_MIN, INT_MAX, buttons).requested| == INT_RANGE
    ensures RangeReplyIntended(fetch, INT_MIN, INT_MAX, buttons).messages == [Text(TOO_MANY)]
  {
    assert !SpanTooLargeAsWritten(INT_MIN, INT_MAX);
  }

  /**
   * For `first = 0, last = Int.MIN_VALUE` the difference is `Int.MIN_VALUE`, whose `abs` is
   * negative: the source accepts the range, requests nothing and posts nothing, where the
   * intended command refuses.
   */
  lemma AsWrittenSilentOnReversedRange(fetch: Fetcher, buttons: bool)
    ensures RangeReply(fetch, 0, INT_MIN, buttons) == Reply([], [], None)
    ensures RangeReplyIntended(fetch, 0, INT_MIN, buttons).messages == [Text(TOO_MANY)]
  {
    assert !SpanTooLargeAsWritten(0, INT_MIN);
    assert Span(0, INT_MIN) == [];
  }
}
