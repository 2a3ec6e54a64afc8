/**
 * The comic name index: the map from lower-cased comic title to comic number that
 * `updateComicNames` rebuilds from the archive page's anchors, and the lookup the `lookup`
 * command makes in it.
 *
 * The archive page is given as its anchors, each reduced to its text and its `href`.
 */
module NameIndex {
  import opened Results
  import opened KotlinText

  datatype Anchor = Anchor(text: String, href: String)

  /** The archive request either fails with a non-success HTTP status or yields its anchors. */
  datatype Archive = ArchiveStatusError | ArchiveFetched(anchors: seq<Anchor>)

  /** The number a lookup falls back to when the name is not in the index. */
  const NOT_FOUND: int := -1

  /** The key an anchor is filed under: its text, lower-cased. */
  function Key(a: Anchor): String
  {
    Lowercase(a.text)
  }

  /**
   * `href.split("/")[1].toInt()`: an index error when the `href` holds no `/`, otherwise the
   * second piece parsed as an `Int`, `None` standing for a `NumberFormatException`.
   */
  function HrefNumber(href: String): (r: Outcome<Option<int>>)
    ensures r.Threw? <==> '/' !in href
    ensures r.Threw? ==> r.fault == IndexOutOfBounds
    ensures r.Done? && r.value.Some? ==> IsInt(r.value.value)
  {
    var pieces := Split(href, '/');
    SplitSingle(href, '/');
    if |pieces| < 2 then Threw(IndexOutOfBounds) else Done(ParseInt(pieces[1]))
  }

  /**
   * An archive link `prefix/n/rest`, with no `/` in `prefix`, carries comic number `n`:
   * rendering a number into the second piece and reading it back gives the number.
   */
  lemma HrefNumberRoundTrip(prefix: String, n: int, rest: String)
    requires IsInt(n) && '/' !in prefix
    ensures HrefNumber(prefix + "/" + IntToString(n) + "/" + rest) == Done(Some(n))
  {
    SplitSecondPiece(prefix, IntToString(n), rest, '/');
    IntToStringRoundTrip(n);
  }

  /** With a `/` in the `href`, the number is its second `/`-piece parsed as an `Int`, or `None`. */
  lemma HrefNumberSecondPiece(href: String)
    requires '/' in href
    ensures |Split(href, '/')| >= 2
    ensures HrefNumber(href) == Done(ParseInt(Split(href, '/')[1]))
  {
    SplitSingle(href, '/');
  }

  /**
   * A navigation link whose second piece is not an integer, such as `/archive/` or
   * `https://xkcd.com/`, reads as `None` (the anchor is skipped), whether or not another `/`
   * follows that piece.
   */
  lemma HrefNonNumberSkipped(prefix: String, segment: String, rest: String)
    requires '/' !in prefix && '/' !in segment && ParseInt(segment).None?
    ensures HrefNumber(prefix + "/" + segment + "/" + rest) == Done(None)
    ensures HrefNumber(prefix + "/" + segment) == Done(None)
  {
    SplitSecondPiece(prefix, segment, rest, '/');
    SplitConcat(prefix, '/', segment);
    SplitNoSeparator(prefix, '/');
    SplitNoSeparator(segment, '/');
  }

  /** Some anchor's `href` holds no `/`, so the rebuild loop ends in an exception there. */
  predicate Escapes(anchors: seq<Anchor>)
  {
    exists j :: 0 <= j < |anchors| && '/' !in anchors[j].href
  }

  /**
   * The map that the rebuild loop leaves after visiting `anchors`, starting from an empty map:
   * each anchor with a numeric second piece sets its key, an anchor without one is skipped,
   * and nothing after an anchor whose `href` has no `/` is visited.
   */
  function Rebuilt(anchors: seq<Anchor>): (r: map<String, int>)
    ensures forall k :: k in r ==> IsInt(r[k])
  {
    if anchors == [] then map[]
    else
      var init, a := anchors[..|anchors| - 1], anchors[|anchors| - 1];
      if Escapes(init) then Rebuilt(init) else File(Rebuilt(init), a)
  }

  /** One pass of the loop body: file the anchor's number under its key, if it has one. */
  function File(names: map<String, int>, a: Anchor): (r: map<String, int>)
    ensures HrefNumber(a.href).Done? && HrefNumber(a.href).value.Some? ==>
      && r.Keys == names.Keys + {Key(a)}
      && r[Key(a)] == HrefNumber(a.href).value.value
      && (forall k :: k in names && k != Key(a) ==> r[k] == names[k])
    ensures !(HrefNumber(a.href).Done? && HrefNumber(a.href).value.Some?) ==> r == names
  {
    match HrefNumber(a.href)
    case Done(Some(n)) => names[Key(a) := n]
    case _ => names
  }

  /** Anchor `i` is reached by the loop and carries a number, so it sets an entry. */
  predicate Counted(anchors: seq<Anchor>, i: int)
    requires 0 <= i < |anchors|
  {
    !Escapes(anchors[..i + 1]) && HrefNumber(anchors[i].href).Done? && HrefNumber(anchors[i].href).value.Some?
  }

  /** The number a counted anchor files under its key. */
  function CountedNumber(a: Anchor): int
    requires HrefNumber(a.href).Done? && HrefNumber(a.href).value.Some?
  {
    HrefNumber(a.href).value.value
  }

  /** The number filed under `name` in `names`, or `NOT_FOUND`; the name is lower-cased first. */
  function LookupIn(names: map<String, int>, name: String): (n: int)
    ensures Lowercase(name) in names ==> n == names[Lowercase(name)]
    ensures Lowercase(name) !in names ==> n == NOT_FOUND
  {
    if Lowercase(name) in names then names[Lowercase(name)] else NOT_FOUND
  }

  /** The mutable index that the bot holds in its `comicNames` field. */
  class ComicNames {
    var names: map<String, int>

    constructor ()
      ensures names == map[]
    {
      names := map[];
    }

    /**
     * `updateComicNames`: clear the index, fetch the archive, then file every anchor in order.
     * A failed archive request, or an anchor whose `href` has no `/`, ends the rebuild with an
     * exception, leaving whatever was filed before it.
     */
    method Update(archive: Archive) returns (escaped: Option<Fault>)
      modifies this
      ensures archive.ArchiveStatusError? ==> names == map[] && escaped == Some(HttpStatus)
      ensures archive.ArchiveFetched? ==> names == Rebuilt(archive.anchors)
      ensures archive.ArchiveFetched? ==>
        escaped == (if Escapes(archive.anchors) then Some(IndexOutOfBounds) else None)
    {
      names := map[];
      if archive.ArchiveStatusError? {
        return Some(HttpStatus);
      }
      var anchors := archive.anchors;
      var i := 0;
      while i < |anchors|
        invariant 0 <= i <= |anchors|
        invariant !Escapes(anchors[..i])
        invariant names == Rebuilt(anchors[..i])
      {
        var link := anchors[i];
        var name := Lowercase(link.text);
        var pieces := Split(link.href, '/');
        SplitSingle(link.href, '/');
        if |pieces| < 2 {
          RebuiltStopsAtEscape(anchors, i);
          return Some(IndexOutOfBounds);
        }
        RebuiltStep(anchors, i);
        var parsed := ParseInt(pieces[1]);
        assert HrefNumber(link.href) == Done(parsed);
        if parsed.Some? {
          names := names[name := parsed.value];
        }
        i := i + 1;
      }
      assert anchors[..i] == anchors;
      escaped := None;
    }

    /** `comicNames[name.lowercase()] ?: -1`. */
    function Lookup(name: String): (n: int)
      reads this
      ensures n == LookupIn(names, name)
      ensures n != NOT_FOUND ==> Lowercase(name) in names
    {
      LookupIn(names, name)
    }
  }

  // -----------------------------------------------------------------------------------------------
  // Properties of the rebuilt index

  /** An anchor whose `href` holds a `/` is filed, and the loop goes on. */
  lemma RebuiltStep(anchors: seq<Anchor>, i: int)
    requires 0 <= i < |anchors| && !Escapes(anchors[..i]) && '/' in anchors[i].href
    ensures !Escapes(anchors[..i + 1])
    ensures Rebuilt(anchors[..i + 1]) == File(Rebuilt(anchors[..i]), anchors[i])
  {
    var prefix := anchors[..i + 1];
    assert prefix[..i] == anchors[..i];
    assert forall j :: 0 <= j < i ==> prefix[j] == anchors[..i][j];
  }

  /** Once the loop hits an anchor without `/`, nothing after it changes the map. */
  lemma {:induction false} RebuiltStopsAtEscape(anchors: seq<Anchor>, i: int)
    requires 0 <= i < |anchors| && '/' !in anchors[i].href
    ensures Rebuilt(anchors) == Rebuilt(anchors[..i])
    ensures Escapes(anchors)
    decreases |anchors|
  {
    if i < |anchors| - 1 {
      var init := anchors[..|anchors| - 1];
      assert init[i] == anchors[i];
      assert init[..i] == anchors[..i];
      RebuiltStopsAtEscape(init, i);
    }
    assert anchors[..|anchors| - 1][..i] == anchors[..i];
  }

  /** Dropping the last anchor does not change whether an earlier one is counted. */
  lemma CountedInInit(anchors: seq<Anchor>, j: int)
    requires 0 <= j < |anchors| - 1
    ensures Counted(anchors, j) == Counted(anchors[..|anchors| - 1], j)
  {
    assert anchors[..j + 1] == anchors[..|anchors| - 1][..j + 1];
  }

  /** The last anchor is counted when every earlier `href` holds a `/` and its own gives a number. */
  lemma CountedLast(anchors: seq<Anchor>)
    requires |anchors| > 0
    ensures var n := |anchors| - 1;
      Counted(anchors, n) <==>
        !Escapes(anchors[..n]) && HrefNumber(anchors[n].href).Done? && HrefNumber(anchors[n].href).value.Some?
  {
    var n := |anchors| - 1;
    var init := anchors[..n];
    assert anchors[..n + 1] == anchors;
    assert forall j :: 0 <= j < n ==> init[j] == anchors[j];
  }

  /**
   * Every key of the rebuilt map comes from an anchor of this archive that the loop reached
   * and that carried a number: nothing from an earlier index survives the rebuild.
   */
  lemma {:induction false} RebuiltKeysFromArchive(anchors: seq<Anchor>, k: String)
    requires k in Rebuilt(anchors)
    ensures exists i :: 0 <= i < |anchors| && Counted(anchors, i) && Key(anchors[i]) == k
    decreases |anchors|
  {
    var n := |anchors| - 1;
    var init := anchors[..n];
    CountedLast(anchors);
    if k in Rebuilt(init) {
      RebuiltKeysFromArchive(init, k);
      var i :| 0 <= i < |init| && Counted(init, i) && Key(init[i]) == k;
      CountedInInit(anchors, i);
      assert Counted(anchors, i) && Key(anchors[i]) == k;
    } else {
      assert Counted(anchors, n) && Key(anchors[n]) == k;
    }
  }

  /** Every anchor that the loop reached and that carried a number has its key in the map. */
  lemma {:induction false} RebuiltKeysComplete(anchors: seq<Anchor>, i: int)
    requires 0 <= i < |anchors| && Counted(anchors, i)
    ensures Key(anchors[i]) in Rebuilt(anchors)
    decreases |anchors|
  {
    var n := |anchors| - 1;
    CountedLast(anchors);
    if i < n {
      CountedInInit(anchors, i);
      RebuiltKeysComplete(anchors[..n], i);
    }
  }

  /**
   * Last occurrence wins: a counted anchor that no later counted anchor with the same key
   * follows has its number filed under its key.
   */
  lemma {:induction false} RebuiltLastWins(anchors: seq<Anchor>, i: int)
    requires 0 <= i < |anchors| && Counted(anchors, i)
    requires forall j :: i < j < |anchors| && Counted(anchors, j) ==> Key(anchors[j]) != Key(anchors[i])
    ensures Key(anchors[i]) in Rebuilt(anchors)
    ensures Rebuilt(anchors)[Key(anchors[i])] == CountedNumber(anchors[i])
    decreases |anchors|
  {
    var n := |anchors| - 1;
    var init := anchors[..n];
    CountedLast(anchors);
    if i < n {
      var k := Key(anchors[i]);
      CountedInInit(anchors, i);
      forall j | i < j < n && Counted(init, j)
        ensures Key(init[j]) != k
      {
        CountedInInit(anchors, j);
      }
      RebuiltLastWins(init, i);
      RebuiltLastKeeps(anchors, k);
    }
  }

  /** An entry that the last anchor does not set is the one the earlier anchors left. */
  lemma RebuiltLastKeeps(anchors: seq<Anchor>, k: String)
    requires |anchors| > 0
    requires !Counted(anchors, |anchors| - 1) || Key(anchors[|anchors| - 1]) != k
    requires k in Rebuilt(anchors[..|anchors| - 1])
    ensures k in Rebuilt(anchors)
    ensures Rebuilt(anchors)[k] == Rebuilt(anchors[..|anchors| - 1])[k]
  {
    CountedLast(anchors);
  }

  /** Looking up a name that no reached, numbered anchor carries gives -1. */
  lemma LookupUnknownName(anchors: seq<Anchor>, name: String)
    requires forall i :: 0 <= i < |anchors| && Counted(anchors, i) ==> Key(anchors[i]) != Lowercase(name)
    ensures LookupIn(Rebuilt(anchors), name) == NOT_FOUND
  {
    if Lowercase(name) in Rebuilt(anchors) {
      RebuiltKeysFromArchive(anchors, Lowercase(name));
    }
  }

  /**
   * Looking up a name finds the number of the last reached, numbered anchor whose text
   * matches it ignoring case.
   */
  lemma LookupFindsLastMatch(anchors: seq<Anchor>, name: String, i: int)
    requires 0 <= i < |anchors| && Counted(anchors, i) && Key(anchors[i]) == Lowercase(name)
    requires forall j :: i < j < |anchors| && Counted(anchors, j) ==> Key(anchors[j]) != Lowercase(name)
    ensures LookupIn(Rebuilt(anchors), name) == CountedNumber(anchors[i])
  {
    RebuiltLastWins(anchors, i);
  }
}
