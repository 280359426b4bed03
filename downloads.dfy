/**
 * The filter of scraped buttons (source/index.ts, line 79) and the download
 * loop that follows it (lines 81-97). The page scrape, the file-system
 * listing and the HTTP transfer are inputs: the raw `(link, title)` pairs,
 * the set of names already in the output folder, and the outcome of each
 * transfer, given by its position among the transfers started.
 */
module Downloads {
  import opened Optional
  import opened FileNames

  /** One scraped download button: its `href` and the title from its metrics attribute (lines 72-77). */
  datatype RawItem = RawItem(link: Option<string>, title: Option<string>)

  /** One transfer the download loop starts: the link and the file name it is saved under. */
  datatype Fetch = Fetch(link: string, fileName: string)

  /** A started transfer and whether it finished without error. */
  datatype Attempt = Attempt(fetch: Fetch, succeeded: bool)

  /** The filter's test `link && title`. */
  predicate Keep(item: RawItem) {
    Truthy(item.link) && Truthy(item.title)
  }

  /** `rawButtonData.filter(({ link, title }) => link && title)` */
  function FilterItems(raw: seq<RawItem>): (r: seq<RawItem>)
    ensures forall k :: 0 <= k < |r| ==> Keep(r[k])
  {
    if raw == [] then []
    else (if Keep(raw[0]) then [raw[0]] else []) + FilterItems(raw[1..])
  }

  /**
   * The filter passes on exactly the items with a truthy link and title, each
   * as many times as it was scraped.
   */
  lemma {:induction false} FilterItemsCount(raw: seq<RawItem>, x: RawItem)
    ensures multiset(FilterItems(raw))[x] == if Keep(x) then multiset(raw)[x] else 0
  {
    if raw != [] {
      assert raw == [raw[0]] + raw[1..];
      FilterItemsCount(raw[1..], x);
    }
  }

  /** The filter keeps the relative order of the items it keeps. */
  lemma {:induction false} FilterItemsConcat(a: seq<RawItem>, b: seq<RawItem>)
    ensures FilterItems(a + b) == FilterItems(a) + FilterItems(b)
  {
    if a == [] {
      assert a + b == b;
    } else {
      assert (a + b)[1..] == a[1..] + b;
      FilterItemsConcat(a[1..], b);
    }
  }

  /** Every item the filter passes on has a link. */
  predicate AllLinked(items: seq<RawItem>) {
    forall k :: 0 <= k < |items| ==> items[k].link.Some?
  }

  /** The file name `getFileName` gives a title, as a function of the title alone. */
  function NamingOf(decode: string -> string): (nameOf: Option<string> -> string)
  {
    t => FileName(t, decode)
  }

  /** The transfer the loop would start for an item (lines 86 and 95). */
  function Request(item: RawItem, nameOf: Option<string> -> string): Fetch
    requires item.link.Some?
  {
    Fetch(item.link.value, nameOf(item.title))
  }

  /** The transfer for every item, in order, before any is skipped. */
  function Requests(items: seq<RawItem>, nameOf: Option<string> -> string): (r: seq<Fetch>)
    requires AllLinked(items)
    ensures |r| == |items|
    ensures forall k :: 0 <= k < |r| ==> r[k] == Request(items[k], nameOf)
  {
    if items == [] then [] else [Request(items[0], nameOf)] + Requests(items[1..], nameOf)
  }

  /**
   * The transfers the download loop starts, in order: one per item whose
   * file name is not in the snapshot `existing` taken before the loop.
   */
  function Planned(items: seq<RawItem>, existing: set<string>, nameOf: Option<string> -> string): (r: seq<Fetch>)
    requires AllLinked(items)
    ensures forall k :: 0 <= k < |r| ==> r[k].fileName !in existing
  {
    if items == [] then []
    else
      var f := Request(items[0], nameOf);
      (if f.fileName in existing then [] else [f]) + Planned(items[1..], existing, nameOf)
  }

  /**
   * Each transfer is started exactly as many times as an item asks for it,
   * unless its file name is in the snapshot, in which case never.
   */
  lemma {:induction false} PlannedCount(items: seq<RawItem>, existing: set<string>, nameOf: Option<string> -> string, f: Fetch)
    requires AllLinked(items)
    ensures multiset(Planned(items, existing, nameOf))[f] ==
      if f.fileName in existing then 0 else multiset(Requests(items, nameOf))[f]
  {
    if items != [] {
      assert Requests(items, nameOf) == [Request(items[0], nameOf)] + Requests(items[1..], nameOf);
      PlannedCount(items[1..], existing, nameOf, f);
    }
  }

  /** The loop handles the items in order: planning a concatenation plans each part in turn. */
  lemma {:induction false} PlannedConcat(a: seq<RawItem>, b: seq<RawItem>, existing: set<string>, nameOf: Option<string> -> string)
    requires AllLinked(a) && AllLinked(b)
    ensures AllLinked(a + b)
    ensures Planned(a + b, existing, nameOf) == Planned(a, existing, nameOf) + Planned(b, existing, nameOf)
  {
    if a == [] {
      assert a + b == b;
    } else {
      assert (a + b)[1..] == a[1..] + b;
      PlannedConcat(a[1..], b, existing, nameOf);
    }
  }

  /** An item is fetched exactly when its file name is not in the snapshot. */
  lemma ItemFetchedIffNew(items: seq<RawItem>, existing: set<string>, nameOf: Option<string> -> string, k: nat)
    requires AllLinked(items) && k < |items|
    ensures Request(items[k], nameOf) in Planned(items, existing, nameOf) <==> nameOf(items[k].title) !in existing
  {
    var f := Request(items[k], nameOf);
    assert Requests(items, nameOf)[k] == f;
    assert f in multiset(Requests(items, nameOf));
    PlannedCount(items, existing, nameOf, f);
  }

  /**
   * The snapshot is never refreshed, so two items with the same file name
   * that is not in it are both fetched, the second into the file the first
   * wrote.
   */
  lemma SameNameFetchedTwice(items: seq<RawItem>, existing: set<string>, nameOf: Option<string> -> string, i: nat, j: nat)
    requires AllLinked(items) && i < j < |items|
    requires nameOf(items[i].title) == nameOf(items[j].title)
    requires nameOf(items[i].title) !in existing
    ensures exists p, q ::
      && 0 <= p < q < |Planned(items, existing, nameOf)|
      && Planned(items, existing, nameOf)[p] == Request(items[i], nameOf)
      && Planned(items, existing, nameOf)[q] == Request(items[j], nameOf)
  {
    var front, back := items[..j], items[j..];
    assert items == front + back;
    PlannedConcat(front, back, existing, nameOf);
    ItemFetchedIffNew(front, existing, nameOf, i);
    var first := Planned(front, existing, nameOf);
    var p :| 0 <= p < |first| && first[p] == Request(items[i], nameOf);
    var second := Planned(back, existing, nameOf);
    assert back[0] == items[j];
    assert second == [Request(items[j], nameOf)] + Planned(back[1..], existing, nameOf);
    var all := Planned(items, existing, nameOf);
    assert all == first + second;
    assert all[p] == Request(items[i], nameOf);
    assert all[|first|] == Request(items[j], nameOf);
  }

  /**
   * The download loop (lines 84-97) over the raw scrape: filter, then for each
   * kept item skip it if its name is in `existing`, else start the transfer
   * and count it. The `k`-th transfer started ends as `outcomeOf(k)` says, so
   * two transfers of the same link can end differently; a failure is caught
   * (line 95) and the loop goes on. `downloadCount` is
   * `currentDownloadCount`, which starts at 1 and grows by one per started
   * transfer whether it succeeded or not. `nameOf` is the naming function;
   * the source passes `getFileName`, which is `NamingOf(he.decode)`.
   */
  method DownloadAll(raw: seq<RawItem>, existing: set<string>, nameOf: Option<string> -> string, outcomeOf: nat -> bool)
    returns (attempts: seq<Attempt>, downloadCount: nat)
    ensures AllLinked(FilterItems(raw))
    ensures |attempts| == |Planned(FilterItems(raw), existing, nameOf)|
    ensures forall k :: 0 <= k < |attempts| ==>
      attempts[k].fetch == Planned(FilterItems(raw), existing, nameOf)[k] &&
      attempts[k].succeeded == outcomeOf(k)
    ensures downloadCount == |attempts| + 1
  {
    var buttonData := FilterItems(raw);
    attempts := [];
    downloadCount := 1;
    for i := 0 to |buttonData|
      invariant |attempts| == |Planned(buttonData[..i], existing, nameOf)|
      invariant forall k :: 0 <= k < |attempts| ==>
        attempts[k].fetch == Planned(buttonData[..i], existing, nameOf)[k] &&
        attempts[k].succeeded == outcomeOf(k)
      invariant downloadCount == |attempts| + 1
    {
      assert buttonData[..i + 1] == buttonData[..i] + [buttonData[i]];
      PlannedConcat(buttonData[..i], [buttonData[i]], existing, nameOf);
      var fileName := nameOf(buttonData[i].title);
      if fileName in existing {
        continue;
      }
      var fetch := Fetch(buttonData[i].link.value, fileName);
      var succeeded := outcomeOf(|attempts|);
      attempts := attempts + [Attempt(fetch, succeeded)];
      downloadCount := downloadCount + 1;
    }
    assert buttonData[..|buttonData|] == buttonData;
  }

  /** Planning two items decides each on its own, in order. */
  lemma PlannedPair(x: RawItem, y: RawItem, existing: set<string>, nameOf: Option<string> -> string)
    requires x.link.Some? && y.link.Some?
    ensures AllLinked([x, y])
    ensures Planned([x, y], existing, nameOf) ==
      (if nameOf(x.title) in existing then [] else [Request(x, nameOf)]) +
      (if nameOf(y.title) in existing then [] else [Request(y, nameOf)])
  {
    assert [x, y] == [x] + [y];
    PlannedConcat([x], [y], existing, nameOf);
  }

  /** Of three items, the filter keeps the first two when they pass and the third does not. */
  lemma FilterDropsLast(x: RawItem, y: RawItem, z: RawItem)
    requires Keep(x) && Keep(y) && !Keep(z)
    ensures FilterItems([x, y, z]) == [x, y]
  {
    assert [x, y, z] == [x] + ([y] + [z]);
    FilterItemsConcat([x], [y] + [z]);
    FilterItemsConcat([y], [z]);
  }

  /**
   * Three buttons, the last without a title, and nothing on disk: the
   * untitled one is dropped by the filter, so only the two titled ones are
   * fetched, in order, and `Unknown_Title.mp3` is not.
   */
  lemma {:induction false} UntitledButtonNotDownloaded(decode: string -> string, a: string, b: string, c: string, ta: string, tb: string)
    requires a != "" && b != "" && c != ""
    requires PlainTitle(ta, decode) && PlainTitle(tb, decode)
    ensures Planned(FilterItems([RawItem(Some(a), Some(ta)), RawItem(Some(b), Some(tb)), RawItem(Some(c), None)]), {}, NamingOf(decode))
      == [Fetch(a, ta + Extension), Fetch(b, tb + Extension)]
  {
    var x, y := RawItem(Some(a), Some(ta)), RawItem(Some(b), Some(tb));
    FilterDropsLast(x, y, RawItem(Some(c), None));
    var nameOf := NamingOf(decode);
    assert nameOf(x.title) == ta + Extension by { PlainTitleKept(ta, decode); }
    assert nameOf(y.title) == tb + Extension by { PlainTitleKept(tb, decode); }
    PlannedPair(x, y, {}, nameOf);
  }

  /** An item whose file name is already in the folder is skipped; the next one is fetched. */
  lemma {:induction false} ExistingFileSkipped(decode: string -> string, a: string, b: string, ta: string, tb: string)
    requires a != "" && b != "" && ta != tb
    requires PlainTitle(ta, decode) && PlainTitle(tb, decode)
    ensures Planned([RawItem(Some(a), Some(ta)), RawItem(Some(b), Some(tb))], {ta + Extension}, NamingOf(decode))
      == [Fetch(b, tb + Extension)]
  {
    var x, y := RawItem(Some(a), Some(ta)), RawItem(Some(b), Some(tb));
    var nameOf := NamingOf(decode);
    assert nameOf(x.title) == ta + Extension by { PlainTitleKept(ta, decode); }
    assert nameOf(y.title) == tb + Extension by { PlainTitleKept(tb, decode); }
    assert tb + Extension != ta + Extension by {
      assert (ta + Extension)[..|ta|] == ta;
      assert (tb + Extension)[..|tb|] == tb;
    }
    PlannedPair(x, y, {ta + Extension}, nameOf);
  }
}
