# xkcd Discord bot — a Dafny model of its command logic

This project models the core of the xkcd Discord bot, `XKCDExtension.kt`. The bot
scrapes xkcd.com for comics and posts them as Discord embeds, optionally with
navigation buttons. It also keeps a name-to-number index built from the archive page.

The model covers:

- **Comic extraction.** `getXKCD(url)` reads the comic number from the fourth `meta` tag.
  It splits the tag's content on `/`, takes the second-to-last piece and parses it as an
  `Int`. It takes the title, hover text and image from the `#comic img` element, with
  placeholders when that element is missing. `getXKCD(num)` fetches
  `https://xkcd.com/<num>`. `applyEmbed` renders a comic as an embed.
- **The name index.** `updateComicNames` clears the `comicNames` map and files every
  archive anchor under its lower-cased text. The number comes from the second `/`-piece
  of the anchor's `href`. The `lookup` command reads the map back.
- **The interactive navigator.** `xkcdInteractiveMessage` keeps an `Int` cursor. The
  Previous and Next buttons move it with 32-bit wrap-around, and the dice redraws it.
  After every move the navigator re-fetches and re-renders the comic under the cursor.
- **The subcommands** `latest`, `random`, `range`, `get` and `lookup`. For each one the
  model gives the comic numbers it requests, the messages it posts and the exception
  that ends it, if any.

Kotlin's behaviour is modelled explicitly where the bot relies on it:

- `String.split` keeps empty pieces.
- `String.toInt` is Java's `Integer.parseInt`.
- `Int` arithmetic wraps around at 32 bits.
- `abs(Int.MIN_VALUE)` is negative.
- `!!` throws on `null`.
- `Random.nextInt(1, until)` excludes its upper bound and throws when `until <= 1`.

Exceptions are values: `Outcome.Threw(fault)`. Within the commands, only the
`HttpStatusException` of `getXKCD(url)` is caught; every other exception escapes the command.
The rebuild of the name index also catches the `NumberFormatException` of an anchor whose
number does not parse, and skips that anchor (line 175).

Files:

| file | contents |
|---|---|
| `results.dfy` | `Option`, `Outcome` and the exceptions (`Fault`) |
| `kotlin_text.dfy` | `Int` wrap-around, `split`/join, `toInt`, the decimal rendering of an `Int`, `lowercase` |
| `comics.dfy` | the comic record, `getXKCD` and `applyEmbed` |
| `name_index.dfy` | the `ComicNames` class (rebuild and lookup) and the properties of the rebuilt map |
| `navigator.dfy` | the `Navigator` class (the cursor and its buttons) |
| `commands.dfy` | the subcommands, the `range` check as written, and the corrected `range` |

Where the documented behaviour and the code disagree, the model follows the code:

- A `lookup` miss does not skip the fetch. `comicNames[...] ?: -1` requests comic `-1`
  (line 249). "Could not find comic!" is posted only because that fetch fails.
- An archive anchor whose `href` has no `/` does not get skipped. `split("/")[1]` throws
  an index error, which the `catch (NumberFormatException)` does not catch, so the
  rebuild stops there (line 174). The entries filed before that anchor stay in the map.
- The comic number never falls back to -1. The Jsoup call chain on line 90 either yields
  a value or throws: a short `meta` list, or a `content` with no `/`, is an index error,
  and a non-integer piece is a number-format error. The `?: -1` is unreachable.

All source paths below are relative to
`src/main/kotlin/io/github/trainb0y/xkcdbot/extensions/`; the table cells give them in full.

## Model

| member | source | states |
|---|---|---|
| KotlinText.Wrap | src/main/kotlin/io/github/trainb0y/xkcdbot/extensions/XKCDExtension.kt:129-146 | `currentNum--` / `currentNum++` give an `Int`, equal to the exact result or off by exactly 2^32 |
| KotlinText.JoinSplit | src/main/kotlin/io/github/trainb0y/xkcdbot/extensions/XKCDExtension.kt:90 | `split("/")` loses nothing: joining the pieces with `/` gives back the string |
| KotlinText.Split | src/main/kotlin/io/github/trainb0y/xkcdbot/extensions/XKCDExtension.kt:90 | `split` yields at least one piece, and no piece contains the separator |
| KotlinText.SplitSingle | src/main/kotlin/io/github/trainb0y/xkcdbot/extensions/XKCDExtension.kt:174 | a split has exactly one piece if and only if the string has no separator, which is when indexing piece 1 throws |
| KotlinText.SplitLast | src/main/kotlin/io/github/trainb0y/xkcdbot/extensions/XKCDExtension.kt:90 | the last piece of `x + "/" + d` is `d` when `d` has no `/`, and there are at least two pieces |
| KotlinText.SplitSecondToLast | src/main/kotlin/io/github/trainb0y/xkcdbot/extensions/XKCDExtension.kt:90 | in `x/d/` with no `/` in `d`, the second-to-last piece is `d` |
| KotlinText.SplitNoSeparator | src/main/kotlin/io/github/trainb0y/xkcdbot/extensions/XKCDExtension.kt:174 | a string without `/` splits into itself alone, so `split("/")[1]` has nothing to index |
| KotlinText.SplitConcat | src/main/kotlin/io/github/trainb0y/xkcdbot/extensions/XKCDExtension.kt:174 | splitting `s + "/" + t` gives the pieces of `s` followed by the pieces of `t` |
| KotlinText.SplitSecondPiece | src/main/kotlin/io/github/trainb0y/xkcdbot/extensions/XKCDExtension.kt:174 | in `x/y/z` with no `/` in `x` or `y`, `split("/")[1]` is `y` |
| KotlinText.ParseInt | src/main/kotlin/io/github/trainb0y/xkcdbot/extensions/XKCDExtension.kt:90 | `toInt` succeeds if and only if the string is an optional `+` or `-` followed by one or more decimal digits whose signed value is in `Int` range, and then yields that signed value |
| KotlinText.IntToString | src/main/kotlin/io/github/trainb0y/xkcdbot/extensions/XKCDExtension.kt:100 | `"$num"` is the decimal digits of `num` without leading zeros (0 renders as `0`), after a `-` when it is negative, and holds no `/` |
| KotlinText.IntToStringRoundTrip | src/main/kotlin/io/github/trainb0y/xkcdbot/extensions/XKCDExtension.kt:100 | the `$num` in a URL parses back to `num` for every `Int` |
| KotlinText.IntToStringInjective | src/main/kotlin/io/github/trainb0y/xkcdbot/extensions/XKCDExtension.kt:100 | different comic numbers give different URLs |
| KotlinText.Lowercase | src/main/kotlin/io/github/trainb0y/xkcdbot/extensions/XKCDExtension.kt:172 | lower-casing keeps the length, maps each upper-case letter to the letter 32 code points above it, leaves every other character alone, and leaves no upper-case letter |
| KotlinText.LowercaseIdempotent | src/main/kotlin/io/github/trainb0y/xkcdbot/extensions/XKCDExtension.kt:249 | lower-casing the query again does not change it, so a lower-cased key is found by its own lookup |
| Comics.ComicNumber | src/main/kotlin/io/github/trainb0y/xkcdbot/extensions/XKCDExtension.kt:90 | fewer than four `meta` tags, or a fourth `content` with no `/`, throws an index error; with a `/` present the only failure is a number-format error; a success is an `Int` |
| Comics.ComicNumberSecondToLast | src/main/kotlin/io/github/trainb0y/xkcdbot/extensions/XKCDExtension.kt:90 | with a `/` in the fourth `meta` tag, extraction succeeds exactly when the second-to-last `/`-piece parses as an `Int`, and yields that value (so `https://xkcd.com/614` fails on `xkcd.com`) |
| Comics.GetXkcd | src/main/kotlin/io/github/trainb0y/xkcdbot/extensions/XKCDExtension.kt:77-95 | `null` exactly on an HTTP status error; an exception only when number extraction throws; otherwise the comic carries the extracted number and either the image's alt/title/`https:`+src or all three placeholders |
| Comics.ComicUrl | src/main/kotlin/io/github/trainb0y/xkcdbot/extensions/XKCDExtension.kt:100 | the page of comic `n` is `https://xkcd.com/` followed by the rendering of `n` |
| Comics.ComicUrlInjective | src/main/kotlin/io/github/trainb0y/xkcdbot/extensions/XKCDExtension.kt:100 | different `Int`s name different comic pages |
| Comics.GetByNumber | src/main/kotlin/io/github/trainb0y/xkcdbot/extensions/XKCDExtension.kt:100 | comic `num` is `getXKCD` of `https://xkcd.com/num`: `null` exactly when that page answers with an HTTP status error, otherwise its number, title, hover text and image as `Comics.GetXkcd` gives them, or its index or number-format error |
| Comics.ApplyEmbed | src/main/kotlin/io/github/trainb0y/xkcdbot/extensions/XKCDExtension.kt:64-71 | the embed's title, footer and image are the comic's title, alt text and image; the description is `xkcd #` followed by the rendering of the comic's number |
| Comics.NumberRoundTrip | src/main/kotlin/io/github/trainb0y/xkcdbot/extensions/XKCDExtension.kt:90 | a canonical URL `prefix/n/` in the fourth `meta` tag yields exactly `n` |
| Comics.FetchByNumberRoundTrip | src/main/kotlin/io/github/trainb0y/xkcdbot/extensions/XKCDExtension.kt:100 | fetching comic `n` whose page names its own URL gives a comic numbered `n` |
| Comics.NonIntegerSegmentThrows | src/main/kotlin/io/github/trainb0y/xkcdbot/extensions/XKCDExtension.kt:90 | a non-integer piece before the trailing `/` is a number-format error, not -1 |
| Comics.ImageNeverFailsFetch | src/main/kotlin/io/github/trainb0y/xkcdbot/extensions/XKCDExtension.kt:87-94 | the image element never decides whether a comic is produced or which number it has |
| Comics.EmbedNumberRoundTrip | src/main/kotlin/io/github/trainb0y/xkcdbot/extensions/XKCDExtension.kt:70 | the number after `xkcd #` in the description parses back to the comic's number |
| Comics.EmbedInjective | src/main/kotlin/io/github/trainb0y/xkcdbot/extensions/XKCDExtension.kt:64-71 | two comics with the same embed are the same comic |
| NameIndex.HrefNumber | src/main/kotlin/io/github/trainb0y/xkcdbot/extensions/XKCDExtension.kt:174 | reading an `href` throws if and only if it has no `/`, and then it is an index error; a parsed number is an `Int` |
| NameIndex.HrefNumberSecondPiece | src/main/kotlin/io/github/trainb0y/xkcdbot/extensions/XKCDExtension.kt:174 | an `href` with a `/` reads as its second `/`-piece parsed as an `Int`, `None` when that does not parse |
| NameIndex.HrefNonNumberSkipped | src/main/kotlin/io/github/trainb0y/xkcdbot/extensions/XKCDExtension.kt:174-176 | a link such as `/archive/` or `https://xkcd.com/`, whose second piece is not an integer, reads as `None`, so the anchor is skipped |
| NameIndex.HrefNumberRoundTrip | src/main/kotlin/io/github/trainb0y/xkcdbot/extensions/XKCDExtension.kt:174 | an archive link `prefix/n/rest` with no `/` in `prefix` yields exactly `n` |
| NameIndex.File | src/main/kotlin/io/github/trainb0y/xkcdbot/extensions/XKCDExtension.kt:172-178 | a numbered anchor sets its lower-cased text to its number and leaves every other entry as it was; an anchor without a number changes nothing |
| NameIndex.Rebuilt | src/main/kotlin/io/github/trainb0y/xkcdbot/extensions/XKCDExtension.kt:171-179 | every number in the map the rebuild loop leaves is an `Int` (the `Rebuilt*` lemmas give its keys and entries) |
| NameIndex.LookupIn | src/main/kotlin/io/github/trainb0y/xkcdbot/extensions/XKCDExtension.kt:249 | the number filed under the lower-cased name, or -1 when there is none |
| NameIndex.ComicNames.constructor | src/main/kotlin/io/github/trainb0y/xkcdbot/extensions/XKCDExtension.kt:39 | the index starts empty |
| NameIndex.ComicNames.Update | src/main/kotlin/io/github/trainb0y/xkcdbot/extensions/XKCDExtension.kt:166-181 | a failed archive request leaves the map empty and escapes; otherwise the map is the rebuilt map of the anchors, and an index error escapes exactly when some anchor stops the loop |
| NameIndex.ComicNames.Lookup | src/main/kotlin/io/github/trainb0y/xkcdbot/extensions/XKCDExtension.kt:249 | the lookup reads the current map, and any answer other than -1 comes from a key in it |
| NameIndex.RebuiltStep | src/main/kotlin/io/github/trainb0y/xkcdbot/extensions/XKCDExtension.kt:171-178 | an anchor whose `href` has a `/` is filed and the loop goes on |
| NameIndex.RebuiltStopsAtEscape | src/main/kotlin/io/github/trainb0y/xkcdbot/extensions/XKCDExtension.kt:173-174 | anchors after one without `/` change nothing |
| NameIndex.RebuiltKeysFromArchive | src/main/kotlin/io/github/trainb0y/xkcdbot/extensions/XKCDExtension.kt:168-179 | every key of the rebuilt map is the lower-cased text of an anchor that the loop reached and that had a number; nothing from a previous index survives |
| NameIndex.RebuiltKeysComplete | src/main/kotlin/io/github/trainb0y/xkcdbot/extensions/XKCDExtension.kt:171-178 | every reached anchor that had a number has its key in the map |
| NameIndex.RebuiltLastKeeps | src/main/kotlin/io/github/trainb0y/xkcdbot/extensions/XKCDExtension.kt:178 | an anchor that does not set a key leaves that key's entry as it was |
| NameIndex.RebuiltLastWins | src/main/kotlin/io/github/trainb0y/xkcdbot/extensions/XKCDExtension.kt:178 | for duplicate titles the last reached, numbered anchor wins |
| NameIndex.LookupUnknownName | src/main/kotlin/io/github/trainb0y/xkcdbot/extensions/XKCDExtension.kt:249 | after a rebuild, a name that no reached, numbered anchor carries looks up as -1 |
| NameIndex.LookupFindsLastMatch | src/main/kotlin/io/github/trainb0y/xkcdbot/extensions/XKCDExtension.kt:249 | after a rebuild, a name looks up as the number of its last case-insensitive match |
| Navigator.Required | src/main/kotlin/io/github/trainb0y/xkcdbot/extensions/XKCDExtension.kt:123 | `!!` passes a comic through, turns `null` into a `NullPointerException` and lets an exception escape unchanged |
| Navigator.Render | src/main/kotlin/io/github/trainb0y/xkcdbot/extensions/XKCDExtension.kt:114-158 | a render succeeds exactly when the re-fetch of the cursor's comic yields one; the embed is that comic's and both links name the cursor |
| Navigator.LinksFor | src/main/kotlin/io/github/trainb0y/xkcdbot/extensions/XKCDExtension.kt:148-155 | the `xkcd.com` link is `https://xkcd.com/` followed by the rendering of the cursor, and the `explain` link is `https://www.explainxkcd.com/` followed by the same rendering |
| Navigator.LatestNumber | src/main/kotlin/io/github/trainb0y/xkcdbot/extensions/XKCDExtension.kt:137 | the dice's upper bound is the number read from the front page; a status error there is a `NullPointerException` from `!!`, and a number-extraction failure escapes as it is |
| Navigator.Navigator.constructor | src/main/kotlin/io/github/trainb0y/xkcdbot/extensions/XKCDExtension.kt:111 | the cursor starts on the posted comic |
| Navigator.Navigator.Show | src/main/kotlin/io/github/trainb0y/xkcdbot/extensions/XKCDExtension.kt:160 | the first render shows the cursor's comic |
| Navigator.Navigator.Previous | src/main/kotlin/io/github/trainb0y/xkcdbot/extensions/XKCDExtension.kt:127-133 | the cursor moves down by one, wrapping at `Int.MIN_VALUE`, then the new comic renders |
| Navigator.Navigator.Next | src/main/kotlin/io/github/trainb0y/xkcdbot/extensions/XKCDExtension.kt:141-147 | the cursor moves up by one, wrapping at `Int.MAX_VALUE`, then the new comic renders |
| Navigator.Navigator.Dice | src/main/kotlin/io/github/trainb0y/xkcdbot/extensions/XKCDExtension.kt:134-140 | the new cursor is in `[1, latest)`; a failed front-page read or a latest number of at most 1 throws and leaves the cursor alone |
| Navigator.NextPreviousCancel | src/main/kotlin/io/github/trainb0y/xkcdbot/extensions/XKCDExtension.kt:130-144 | Next then Previous, or Previous then Next, restores every cursor, even across the wrap-around |
| Navigator.NextThenPrevious | src/main/kotlin/io/github/trainb0y/xkcdbot/extensions/XKCDExtension.kt:129-146 | pressing Next then Previous shows exactly what the first render showed |
| Navigator.LinksNameCursor | src/main/kotlin/io/github/trainb0y/xkcdbot/extensions/XKCDExtension.kt:148-155 | both link buttons end in the cursor's number, which parses back from the URL |
| Commands.Post | src/main/kotlin/io/github/trainb0y/xkcdbot/extensions/XKCDExtension.kt:224-225 | without buttons the bare embed is posted; with buttons the navigator's first render replaces it, or its exception escapes |
| Commands.Latest | src/main/kotlin/io/github/trainb0y/xkcdbot/extensions/XKCDExtension.kt:195-199 | `latest` posts the front page's comic as `Commands.Post` renders it with a navigator: the render, or the bare embed and the render's exception; a missing front page throws before posting |
| Commands.ShowDrawn | src/main/kotlin/io/github/trainb0y/xkcdbot/extensions/XKCDExtension.kt:206-208 | `random` requests the drawn number; a missing comic (`!!`) or an exception posts nothing and escapes; a comic is posted with a navigator, as `Commands.Post` renders it |
| Commands.RandomComic | src/main/kotlin/io/github/trainb0y/xkcdbot/extensions/XKCDExtension.kt:205-209 | the drawn number is in `[1, latest)`; a failed front-page read, or a latest number of at most 1, throws before any comic is requested |
| Commands.FetchAndPost | src/main/kotlin/io/github/trainb0y/xkcdbot/extensions/XKCDExtension.kt:234-241 | fetch comic `n` once: `null` posts the not-found text and nothing else, a comic is posted as `Commands.Post` renders it, an exception posts nothing and escapes |
| Commands.Get | src/main/kotlin/io/github/trainb0y/xkcdbot/extensions/XKCDExtension.kt:233-242 | `get` requests exactly `num`; "Could not find comic #num" is posted if and only if the fetch yields `null`, and nothing escapes then; a comic is posted as `Commands.Post` renders it; an exception posts nothing and escapes |
| Commands.Lookup | src/main/kotlin/io/github/trainb0y/xkcdbot/extensions/XKCDExtension.kt:248-257 | `lookup` requests the filed number, or -1 for an unknown name; "Could not find comic!" is posted if and only if that fetch yields `null`; a comic is posted as `Commands.Post` renders it; an exception posts nothing and escapes |
| Commands.Span | src/main/kotlin/io/github/trainb0y/xkcdbot/extensions/XKCDExtension.kt:222 | `first..last` is `first, first + 1, ...`, with `last - first + 1` numbers, or none when `first > last` |
| Commands.SpanTooLarge | src/main/kotlin/io/github/trainb0y/xkcdbot/extensions/XKCDExtension.kt:216 | the exact check refuses an ascending range of more than eleven numbers, or bounds more than ten apart in reverse |
| Commands.VisitOne | src/main/kotlin/io/github/trainb0y/xkcdbot/extensions/XKCDExtension.kt:223-225 | one loop pass requests its number; a missing comic posts nothing and the loop goes on; a comic is appended to the posts as `Commands.Post` renders it; an exception posts nothing and ends the loop with that exception |
| Commands.Visit | src/main/kotlin/io/github/trainb0y/xkcdbot/extensions/XKCDExtension.kt:222-226 | the loop requests the numbers in order, stops at the first exception, and requests every number when none is thrown |
| Commands.VisitStopsAt | src/main/kotlin/io/github/trainb0y/xkcdbot/extensions/XKCDExtension.kt:222-225 | once an exception has ended the loop, the remaining numbers are not visited |
| Commands.VisitPass | src/main/kotlin/io/github/trainb0y/xkcdbot/extensions/XKCDExtension.kt:222-225 | after each pass, the reply is either final (an exception) or the visit of the numbers so far |
| Commands.RangeReply | src/main/kotlin/io/github/trainb0y/xkcdbot/extensions/XKCDExtension.kt:216-226 | with the 32-bit check of line 216: "Cannot get more than 10 comics at once!" is posted if and only if that check fails, and nothing is requested then; otherwise the requests are an in-order prefix of `first..last`, and all of it when nothing throws; at most eleven comics are requested whenever `last - first <= Int.MAX_VALUE` |
| Commands.RangeReplyIntended | src/main/kotlin/io/github/trainb0y/xkcdbot/extensions/XKCDExtension.kt:216-226 | with the exact check: the same reply shape, and never more than eleven comics requested |
| Commands.VisitNumber | src/main/kotlin/io/github/trainb0y/xkcdbot/extensions/XKCDExtension.kt:223-225 | the loop body computes one pass |
| Commands.Range | src/main/kotlin/io/github/trainb0y/xkcdbot/extensions/XKCDExtension.kt:215-227 | the `range` command's 32-bit check and loop reply exactly `RangeReply` |
| Commands.KotlinAbs | src/main/kotlin/io/github/trainb0y/xkcdbot/extensions/XKCDExtension.kt:216 | `abs` is the magnitude, except that `abs(Int.MIN_VALUE)` is `Int.MIN_VALUE` |
| Commands.SpanTooLargeAsWritten | src/main/kotlin/io/github/trainb0y/xkcdbot/extensions/XKCDExtension.kt:216 | `abs(last - first) > 10` in `Int` arithmetic: the exact check while neither operation overflows; a wrapped difference is judged by its distance to 2^32; a difference of exactly ±2^31 passes because `abs(Int.MIN_VALUE)` is negative |
| Commands.AsWrittenAgreesWithoutOverflow | src/main/kotlin/io/github/trainb0y/xkcdbot/extensions/XKCDExtension.kt:216 | when neither `last - first` nor its `abs` overflows, the check as written is the exact one |
| Commands.RangeAgreesWithIntended | src/main/kotlin/io/github/trainb0y/xkcdbot/extensions/XKCDExtension.kt:216-226 | the `range` reply as written and as intended are equal unless `last - first` or its `abs` overflows |
| Commands.AsWrittenAdmitsHugeRange | src/main/kotlin/io/github/trainb0y/xkcdbot/extensions/XKCDExtension.kt:216-222 | `range` as written accepts `Int.MIN_VALUE..Int.MAX_VALUE` and, unless an exception stops it, requests all 2^32 comics; the intended command refuses |
| Commands.AsWrittenSilentOnReversedRange | src/main/kotlin/io/github/trainb0y/xkcdbot/extensions/XKCDExtension.kt:216-222 | `range` as written accepts `0..Int.MIN_VALUE` and replies with nothing at all; the intended command refuses |

## Findings

| source | as written | input that shows it | evidently intended | confidence | as-written member | corrected member |
|---|---|---|---|---|---|---|
| src/main/kotlin/io/github/trainb0y/xkcdbot/extensions/XKCDExtension.kt:216 | `abs(last - first) > 10` in 32-bit `Int`: the subtraction wraps | `first = -2147483648`, `last = 2147483647`: the difference wraps to -1, `abs` gives 1, the check passes, and the loop on line 222 would request 2^32 comics | refuse any range whose bounds are more than ten apart | not executed | Commands.AsWrittenAdmitsHugeRange | Commands.RangeReplyIntended |
| src/main/kotlin/io/github/trainb0y/xkcdbot/extensions/XKCDExtension.kt:216 | `abs` of a difference equal to `Int.MIN_VALUE` is negative | `first = 0`, `last = -2147483648`: the difference is `Int.MIN_VALUE`, `abs` keeps it negative, the check passes, and the empty range posts no reply at all | refuse, answering "Cannot get more than 10 comics at once!" | not executed | Commands.AsWrittenSilentOnReversedRange | Commands.RangeReplyIntended |

`Commands.RangeReply` and `Commands.Range` follow the code: they branch on
`SpanTooLargeAsWritten`, the check in `Int` arithmetic. `Commands.RangeReplyIntended` is the
same command behind the exact check, `SpanTooLarge`. `Commands.RangeAgreesWithIntended`
shows that the two replies differ only when `last - first` or its `abs` overflows.

## Left out

- HTTP and HTML parsing (Jsoup) are outside the model. A fetch is a `Fetcher` from URL to
  either an HTTP status error or the page's `meta` contents and its `#comic img`
  attributes. Timeouts and I/O errors other than a status error are not modelled.
- Discord plumbing is left out: the permission check, `respond` and `message.edit`, the
  clearing of embeds and components, and button registration. A posted message is its
  embed or its navigator render. A button press is a method call on `Navigator`.
- The 12-hour `Scheduler` and concurrency are left out. The race between a rebuild
  clearing the map and a concurrent lookup is not modelled; rebuilds and lookups are
  sequential calls on one `ComicNames`.
- Logging, the `help` subcommand, the argument classes and `XKCDBot.kt` are not part of
  this model.
- `Random.nextInt` is a nondeterministic choice (`:|`) in `[1, until)`. Both
  `Navigator.Navigator.Dice` and `Commands.RandomComic` state the range only.
- KotlinText.Lowercase: modelled on ASCII only. Kotlin's `lowercase` lower-cases every
  Unicode letter.
- KotlinText.ParseInt: modelled on ASCII digits only. `Integer.parseInt` accepts every
  Unicode decimal digit.
- Commands.Visit: the comic re-fetches a navigator makes when it renders are not listed
  in `requested`. Their effect is in the posted message or in the escaped exception.
- The site is a fixed function from URL to response: two fetches of the same URL within
  one scenario get the same answer. A comic that changes between the first render and a
  later button press is not modelled; `Navigator.NextThenPrevious` relies on this.
