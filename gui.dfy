/**
 * The waystone viewer: the accessible waystones split into favourites and
 * the rest, shown 45 to a page with a page of its own for the favourites,
 * circular page navigation, the click callback on a waystone (teleport, or
 * toggle favourite with shift), the claim option, and the access-settings
 * menu with its toggles.
 */
module Gui {
  import opened Wrappers
  import opened Sequences
  import opened Waystones
  import opened Storage

  /** Five rows of nine slots. */
  const ITEMS_PER_PAGE: nat := 9 * 5

  // ---------------------------------------------------------------------
  // Splitting the accessible waystones
  // ---------------------------------------------------------------------

  /**
   * The waystones of `accessible`, in their order, whose hash is among
   * `hashes` (`favorite`) or is not (`!favorite`).
   */
  function Select(accessible: seq<WaystoneRecord>, hashes: seq<string>, favorite: bool): (r: seq<WaystoneRecord>)
    ensures |r| <= |accessible|
    decreases |accessible|
  {
    if accessible == [] then []
    else
      var last := accessible[|accessible| - 1];
      Select(accessible[..|accessible| - 1], hashes, favorite)
        + (if (last.hash in hashes) == favorite then [last] else [])
  }

  /** Selecting from two lists one after the other is selecting from each: the order is kept. */
  lemma {:induction false} SelectAppend(a: seq<WaystoneRecord>, b: seq<WaystoneRecord>, hashes: seq<string>, favorite: bool)
    ensures Select(a + b, hashes, favorite) == Select(a, hashes, favorite) + Select(b, hashes, favorite)
    decreases |b|
  {
    if b != [] {
      var b' := b[..|b| - 1];
      assert (a + b)[..|a + b| - 1] == a + b';
      SelectAppend(a, b', hashes, favorite);
    } else {
      assert a + b == a;
    }
  }

  /** A waystone is selected exactly when it is accessible and its favourite status matches. */
  lemma {:induction false} SelectMembers(accessible: seq<WaystoneRecord>, hashes: seq<string>, favorite: bool, r: WaystoneRecord)
    ensures r in Select(accessible, hashes, favorite) <==> r in accessible && (r.hash in hashes) == favorite
    decreases |accessible|
  {
    if accessible != [] {
      var init := accessible[..|accessible| - 1];
      assert accessible == init + [accessible[|accessible| - 1]];
      SelectMembers(init, hashes, favorite, r);
    }
  }

  /** Favourites followed by the rest is a rearrangement of the accessible list: nothing lost, nothing doubled. */
  lemma {:induction false} SelectPartitions(accessible: seq<WaystoneRecord>, hashes: seq<string>)
    ensures multiset(Select(accessible, hashes, true) + Select(accessible, hashes, false)) == multiset(accessible)
    decreases |accessible|
  {
    if accessible != [] {
      var init := accessible[..|accessible| - 1];
      assert accessible == init + [accessible[|accessible| - 1]];
      SelectPartitions(init, hashes);
    }
  }

  /** The viewer's two lists. */
  datatype FavoriteLists = FavoriteLists(favorites: seq<WaystoneRecord>, nonFavorites: seq<WaystoneRecord>)

  /** Every listed favourite has its hash among `hashes`, every other listed waystone does not. */
  ghost predicate SplitBy(lists: FavoriteLists, hashes: seq<string>) {
    && (forall r :: r in lists.favorites ==> r.hash in hashes)
    && (forall r :: r in lists.nonFavorites ==> r.hash !in hashes)
  }

  /** No two listed waystones share a hash. */
  ghost predicate DistinctHashes(s: seq<WaystoneRecord>) {
    forall i, j :: 0 <= i < j < |s| ==> s[i].hash != s[j].hash
  }

  /** The split the viewer starts from is a split by the player's favourites. */
  lemma SelectSplits(accessible: seq<WaystoneRecord>, hashes: seq<string>)
    ensures SplitBy(FavoriteLists(Select(accessible, hashes, true), Select(accessible, hashes, false)), hashes)
  {
    forall r | r in Select(accessible, hashes, true)
      ensures r.hash in hashes
    {
      SelectMembers(accessible, hashes, true, r);
    }
    forall r | r in Select(accessible, hashes, false)
      ensures r.hash !in hashes
    {
      SelectMembers(accessible, hashes, false, r);
    }
  }

  /** The hashes of a list of waystones. */
  ghost function Hashes(s: seq<WaystoneRecord>): set<string> {
    set r | r in s :: r.hash
  }

  lemma DistinctHashesAppend(s: seq<WaystoneRecord>, x: WaystoneRecord)
    requires DistinctHashes(s) && forall r :: r in s ==> r.hash != x.hash
    ensures DistinctHashes(s + [x])
  {
    forall i, j | 0 <= i < j < |s + [x]|
      ensures (s + [x])[i].hash != (s + [x])[j].hash
    {
      assert (s + [x])[i] == s[i];
      if j < |s| {
        assert (s + [x])[j] == s[j];
      }
    }
  }

  /** The last waystone of a list with distinct hashes shares its hash with none before it. */
  lemma DistinctHashesLast(s: seq<WaystoneRecord>)
    requires DistinctHashes(s) && s != []
    ensures var init := s[..|s| - 1];
      DistinctHashes(init) && forall r :: r in init ==> r.hash != s[|s| - 1].hash
  {
    var init := s[..|s| - 1];
    forall r | r in init
      ensures r.hash != s[|s| - 1].hash
    {
      var i :| 0 <= i < |init| && init[i] == r;
      assert s[i] == r;
    }
  }

  /** Selecting from a list with distinct hashes gives a list with distinct hashes. */
  lemma {:induction false} SelectKeepsDistinct(accessible: seq<WaystoneRecord>, hashes: seq<string>, favorite: bool)
    requires DistinctHashes(accessible)
    ensures DistinctHashes(Select(accessible, hashes, favorite))
    decreases |accessible|
  {
    if accessible != [] {
      var init := accessible[..|accessible| - 1];
      var last := accessible[|accessible| - 1];
      DistinctHashesLast(accessible);
      SelectKeepsDistinct(init, hashes, favorite);
      var selected := Select(init, hashes, favorite);
      if (last.hash in hashes) == favorite {
        forall r | r in selected
          ensures r.hash != last.hash
        {
          SelectMembers(init, hashes, favorite, r);
        }
        DistinctHashesAppend(selected, last);
      }
    }
  }

  /** A list with distinct hashes has as many hashes as waystones. */
  lemma {:induction false} DistinctHashesCount(s: seq<WaystoneRecord>)
    requires DistinctHashes(s)
    ensures |Hashes(s)| == |s|
    decreases |s|
  {
    if s != [] {
      var init := s[..|s| - 1];
      DistinctHashesLast(s);
      DistinctHashesCount(init);
      assert s == init + [s[|s| - 1]];
      assert Hashes(s) == Hashes(init) + {s[|s| - 1].hash};
    }
  }

  /** A sequence has no more distinct elements than entries. */
  lemma {:induction false} DistinctElementsBound(hashes: seq<string>)
    ensures |set h | h in hashes| <= |hashes|
    decreases |hashes|
  {
    if hashes != [] {
      var init := hashes[..|hashes| - 1];
      DistinctElementsBound(init);
      assert hashes == init + [hashes[|hashes| - 1]];
      assert (set h | h in hashes) == (set h | h in init) + {hashes[|hashes| - 1]};
    }
  }

  /** A subset is no larger than its superset. */
  lemma {:induction false} SubsetNoLarger(a: set<string>, b: set<string>)
    requires a <= b
    ensures |a| <= |b|
    decreases a
  {
    if a != {} {
      var x :| x in a;
      SubsetNoLarger(a - {x}, b - {x});
    }
  }

  /**
   * The cap on favourites is one page: when the player's favourites are
   * well formed and no two accessible waystones share a hash, at most 45
   * waystones are favourites, and the favourites page shows every one of them.
   */
  lemma FavoritesFitOnePage(accessible: seq<WaystoneRecord>, hashes: seq<string>)
    requires DistinctHashes(accessible) && WellFormed(hashes)
    ensures var lists := FavoriteLists(Select(accessible, hashes, true), Select(accessible, hashes, false));
      && |lists.favorites| <= ITEMS_PER_PAGE
      && (lists.favorites != [] ==> Page(lists, true, 0) == lists.favorites)
  {
    var favorites := Select(accessible, hashes, true);
    SelectKeepsDistinct(accessible, hashes, true);
    DistinctHashesCount(favorites);
    forall h | h in Hashes(favorites)
      ensures h in hashes
    {
      var r :| r in favorites && r.hash == h;
      SelectMembers(accessible, hashes, true, r);
    }
    SubsetNoLarger(Hashes(favorites), set h | h in hashes);
    DistinctElementsBound(hashes);
  }

  /** The constructor's loop: one pass over `accessible`, asking the player's data about each hash. */
  method Partition(accessible: seq<WaystoneRecord>, playerData: PlayerData) returns (favorites: seq<WaystoneRecord>, nonFavorites: seq<WaystoneRecord>)
    ensures favorites == Select(accessible, playerData.favoriteWaystones, true)
    ensures nonFavorites == Select(accessible, playerData.favoriteWaystones, false)
  {
    favorites, nonFavorites := [], [];
    for i := 0 to |accessible|
      invariant favorites == Select(accessible[..i], playerData.favoriteWaystones, true)
      invariant nonFavorites == Select(accessible[..i], playerData.favoriteWaystones, false)
    {
      var record := accessible[i];
      var isFavorite := playerData.IsFavorite(record.hash);
      if isFavorite {
        favorites := favorites + [record];
      } else {
        nonFavorites := nonFavorites + [record];
      }
      assert accessible[..i + 1][..i] == accessible[..i];
    }
    assert accessible[..|accessible|] == accessible;
  }

  // ---------------------------------------------------------------------
  // Pages
  // ---------------------------------------------------------------------

  /** `Math.ceilDiv` on non-negative operands. */
  function CeilDiv(a: nat, b: nat): nat
    requires b > 0
  {
    (a + b - 1) / b
  }

  /** Pages needed for `total` waystones: at least one, even for none. */
  function RegularPageCount(total: nat): nat {
    var pages := CeilDiv(total, ITEMS_PER_PAGE);
    if pages > 1 then pages else 1
  }

  /** Just enough pages: they hold all `total` waystones, and one page fewer would not. */
  lemma RegularPagesFit(total: nat)
    ensures var n := RegularPageCount(total);
      n >= 1 && total <= n * ITEMS_PER_PAGE && (total > 0 ==> (n - 1) * ITEMS_PER_PAGE < total)
  {
    var q := (total + ITEMS_PER_PAGE - 1) / ITEMS_PER_PAGE;
    var m := (total + ITEMS_PER_PAGE - 1) % ITEMS_PER_PAGE;
    assert total + ITEMS_PER_PAGE - 1 == q * ITEMS_PER_PAGE + m;
  }

  /** The waystones shown on the regular (non-favourites) pages. */
  function RegularList(lists: FavoriteLists, hasFavorites: bool): seq<WaystoneRecord> {
    if hasFavorites then lists.nonFavorites else lists.favorites + lists.nonFavorites
  }

  /** The page count: the regular pages, plus page 0 for the favourites when there are any. */
  function PageCount(lists: FavoriteLists, hasFavorites: bool): (n: nat)
    ensures n >= 1
    ensures hasFavorites ==> n >= 2
  {
    var regular := RegularPageCount(|RegularList(lists, hasFavorites)|);
    if hasFavorites then regular + 1 else regular
  }

  predicate IsFavoritesPage(hasFavorites: bool, pageIndex: int) {
    hasFavorites && pageIndex == 0
  }

  /** Index, within `RegularList`, of the first waystone of a regular page. */
  function Offset(hasFavorites: bool, pageIndex: nat): (r: nat)
    requires !IsFavoritesPage(hasFavorites, pageIndex)
    ensures r % ITEMS_PER_PAGE == 0 && PageOf(hasFavorites, r) == pageIndex
  {
    ITEMS_PER_PAGE * (if hasFavorites then pageIndex - 1 else pageIndex)
  }

  /** At most one page's worth of `list`, starting at `offset`. */
  function Window(list: seq<WaystoneRecord>, offset: nat): (r: seq<WaystoneRecord>)
    ensures |r| == if offset >= |list| then 0 else if |list| - offset < ITEMS_PER_PAGE then |list| - offset else ITEMS_PER_PAGE
    ensures forall s :: 0 <= s < |r| ==> r[s] == list[offset + s]
  {
    if offset >= |list| then []
    else if offset + ITEMS_PER_PAGE <= |list| then list[offset..offset + ITEMS_PER_PAGE]
    else list[offset..]
  }

  /** The waystones shown on page `pageIndex`, slot by slot. */
  function Page(lists: FavoriteLists, hasFavorites: bool, pageIndex: nat): (r: seq<WaystoneRecord>)
    ensures |r| <= ITEMS_PER_PAGE
    ensures IsFavoritesPage(hasFavorites, pageIndex) && |lists.favorites| <= ITEMS_PER_PAGE ==> r == lists.favorites
    ensures IsFavoritesPage(hasFavorites, pageIndex) ==>
      r == lists.favorites[..if |lists.favorites| < ITEMS_PER_PAGE then |lists.favorites| else ITEMS_PER_PAGE]
  {
    if IsFavoritesPage(hasFavorites, pageIndex) then Window(lists.favorites, 0)
    else Window(RegularList(lists, hasFavorites), Offset(hasFavorites, pageIndex))
  }

  /** The regular page that shows the `i`-th waystone of `RegularList`. */
  function PageOf(hasFavorites: bool, i: nat): nat {
    (if hasFavorites then 1 else 0) + i / ITEMS_PER_PAGE
  }

  /** Every waystone of the regular list is on some page, at slot `i % 45` of page `PageOf(i)`. */
  lemma EveryWaystoneListed(lists: FavoriteLists, hasFavorites: bool, i: nat)
    requires i < |RegularList(lists, hasFavorites)|
    ensures var p := PageOf(hasFavorites, i);
      && p < PageCount(lists, hasFavorites)
      && !IsFavoritesPage(hasFavorites, p)
      && i % ITEMS_PER_PAGE < |Page(lists, hasFavorites, p)|
      && Page(lists, hasFavorites, p)[i % ITEMS_PER_PAGE] == RegularList(lists, hasFavorites)[i]
  {
    var list := RegularList(lists, hasFavorites);
    RegularPagesFit(|list|);
    var q, m := i / ITEMS_PER_PAGE, i % ITEMS_PER_PAGE;
    assert i == q * ITEMS_PER_PAGE + m;
    var p := PageOf(hasFavorites, i);
    assert Offset(hasFavorites, p) == q * ITEMS_PER_PAGE;
  }

  /** No regular page within the count is empty, unless there is nothing to show. */
  lemma NoEmptyRegularPage(lists: FavoriteLists, hasFavorites: bool, p: nat)
    requires p < PageCount(lists, hasFavorites) && !IsFavoritesPage(hasFavorites, p)
    requires RegularList(lists, hasFavorites) != []
    ensures Page(lists, hasFavorites, p) != []
  {
    RegularPagesFit(|RegularList(lists, hasFavorites)|);
  }

  // ---------------------------------------------------------------------
  // Navigation
  // ---------------------------------------------------------------------

  /** The page after `pageIndex`, back to 0 after the last. */
  function NextIndex(pageIndex: int, maxPages: int): (r: int)
    ensures 0 <= pageIndex < maxPages ==> 0 <= r < maxPages
    ensures 0 <= pageIndex < maxPages ==> (r == 0 <==> pageIndex == maxPages - 1)
  {
    if pageIndex + 1 >= maxPages then 0 else pageIndex + 1
  }

  /** The page before `pageIndex`, round to the last before 0. */
  function PreviousIndex(pageIndex: int, maxPages: int): (r: int)
    ensures 0 <= pageIndex < maxPages ==> 0 <= r < maxPages
    ensures 0 <= pageIndex < maxPages ==> (r == maxPages - 1 <==> pageIndex == 0)
  {
    if pageIndex - 1 < 0 then maxPages - 1 else pageIndex - 1
  }

  /** Both moves stay in range, wrap at the ends and undo each other. */
  lemma NavigationWraps(pageIndex: int, maxPages: int)
    requires 0 <= pageIndex < maxPages
    ensures 0 <= NextIndex(pageIndex, maxPages) < maxPages
    ensures 0 <= PreviousIndex(pageIndex, maxPages) < maxPages
    ensures NextIndex(pageIndex, maxPages) == (pageIndex + 1) % maxPages
    ensures PreviousIndex(pageIndex, maxPages) == (pageIndex - 1) % maxPages
    ensures PreviousIndex(NextIndex(pageIndex, maxPages), maxPages) == pageIndex
    ensures NextIndex(PreviousIndex(pageIndex, maxPages), maxPages) == pageIndex
  {
  }

  /** The page reached by `steps` presses of "next". */
  function Advance(pageIndex: int, maxPages: int, steps: nat): int {
    if steps == 0 then pageIndex else NextIndex(Advance(pageIndex, maxPages, steps - 1), maxPages)
  }

  /**
   * Pressing "next" `steps` times, up to a full round, moves `steps` pages
   * round the circle; a full round comes back to the start.
   */
  lemma {:induction false} AdvanceWraps(pageIndex: int, maxPages: int, steps: nat)
    requires 0 <= pageIndex < maxPages && steps <= maxPages
    ensures Advance(pageIndex, maxPages, steps) ==
      if pageIndex + steps < maxPages then pageIndex + steps else pageIndex + steps - maxPages
    ensures steps == maxPages ==> Advance(pageIndex, maxPages, steps) == pageIndex
  {
    if steps > 0 {
      AdvanceWraps(pageIndex, maxPages, steps - 1);
    }
  }

  // ---------------------------------------------------------------------
  // Clicks on a waystone
  // ---------------------------------------------------------------------

  /**
   * The shift-click move: a favourite goes to the front of the other list, a
   * non-favourite to the end of the favourites when there is room, and
   * otherwise nothing moves.
   */
  function MoveOnShiftClick(lists: FavoriteLists, record: WaystoneRecord, wasFavorite: bool, canAdd: bool): (r: FavoriteLists)
    ensures (wasFavorite ==> record in lists.favorites) && (!wasFavorite && canAdd ==> record in lists.nonFavorites) ==>
      multiset(r.favorites + r.nonFavorites) == multiset(lists.favorites + lists.nonFavorites)
    ensures wasFavorite ==> record in r.nonFavorites && r.nonFavorites[0] == record
    ensures !wasFavorite && canAdd ==> record in r.favorites && r.favorites[|r.favorites| - 1] == record
    ensures !wasFavorite && !canAdd ==> r == lists
  {
    if wasFavorite then FavoriteLists(RemoveFirst(lists.favorites, record), [record] + lists.nonFavorites)
    else if canAdd then FavoriteLists(lists.favorites + [record], RemoveFirst(lists.nonFavorites, record))
    else lists
  }

  lemma DistinctHashesNoDuplicates(s: seq<WaystoneRecord>)
    requires DistinctHashes(s)
    ensures NoDuplicates(s)
  {
  }

  lemma DistinctHashesParts(a: seq<WaystoneRecord>, b: seq<WaystoneRecord>)
    requires DistinctHashes(a + b)
    ensures DistinctHashes(a) && DistinctHashes(b)
  {
    assert forall i :: 0 <= i < |a| ==> (a + b)[i] == a[i];
    assert forall i :: 0 <= i < |b| ==> (a + b)[|a| + i] == b[i];
  }

  /** Two different listed waystones have different hashes. */
  lemma DistinctHashesDiffer(s: seq<WaystoneRecord>, r: WaystoneRecord, r': WaystoneRecord)
    requires DistinctHashes(s) && r in s && r' in s && r != r'
    ensures r.hash != r'.hash
  {
    var i :| 0 <= i < |s| && s[i] == r;
    var j :| 0 <= j < |s| && s[j] == r';
    assert i != j;
  }

  /** Unmarking a listed favourite moves it to the non-favourites and keeps the split. */
  lemma UnfavoriteKeepsSplit(lists: FavoriteLists, record: WaystoneRecord, hashes: seq<string>)
    requires SplitBy(lists, hashes) && NoDuplicates(hashes)
    requires DistinctHashes(lists.favorites) && record in lists.favorites
    ensures SplitBy(FavoriteLists(RemoveFirst(lists.favorites, record), [record] + lists.nonFavorites),
                    RemoveFirst(hashes, record.hash))
  {
    var h := record.hash;
    var toggled := RemoveFirst(hashes, h);
    RemoveFirstNoDuplicates(hashes, h);
    forall r | r in RemoveFirst(lists.favorites, record)
      ensures r.hash in toggled
    {
      DistinctHashesNoDuplicates(lists.favorites);
      RemoveFirstNoDuplicates(lists.favorites, record);
      RemoveFirstKeepsOthers(lists.favorites, record, r);
      DistinctHashesDiffer(lists.favorites, r, record);
      RemoveFirstKeepsOthers(hashes, h, r.hash);
    }
    forall r | r in [record] + lists.nonFavorites
      ensures r.hash !in toggled
    {
      if r != record {
        RemoveFirstKeepsOthers(hashes, h, r.hash);
      }
    }
  }

  /** Marking a listed non-favourite moves it to the end of the favourites and keeps the split. */
  lemma FavoriteKeepsSplit(lists: FavoriteLists, record: WaystoneRecord, hashes: seq<string>)
    requires SplitBy(lists, hashes)
    requires DistinctHashes(lists.nonFavorites) && record in lists.nonFavorites
    ensures SplitBy(FavoriteLists(lists.favorites + [record], RemoveFirst(lists.nonFavorites, record)),
                    hashes + [record.hash])
  {
    forall r | r in RemoveFirst(lists.nonFavorites, record)
      ensures r.hash !in hashes + [record.hash]
    {
      DistinctHashesNoDuplicates(lists.nonFavorites);
      RemoveFirstNoDuplicates(lists.nonFavorites, record);
      RemoveFirstKeepsOthers(lists.nonFavorites, record, r);
      DistinctHashesDiffer(lists.nonFavorites, r, record);
    }
  }

  /**
   * A shift-click on a listed waystone keeps the two lists a split by the
   * player's favourites (after the toggle) and moves the waystone between
   * them without losing or duplicating any.
   */
  lemma ShiftClickKeepsSplit(lists: FavoriteLists, record: WaystoneRecord, hashes: seq<string>)
    requires SplitBy(lists, hashes) && NoDuplicates(hashes)
    requires DistinctHashes(lists.favorites + lists.nonFavorites)
    requires record in lists.favorites + lists.nonFavorites
    ensures var moved := MoveOnShiftClick(lists, record, record.hash in hashes, CanAdd(hashes));
      && SplitBy(moved, Toggle(hashes, record.hash).favorites)
      && multiset(moved.favorites + moved.nonFavorites) == multiset(lists.favorites + lists.nonFavorites)
  {
    DistinctHashesParts(lists.favorites, lists.nonFavorites);
    if record.hash in hashes {
      assert record in lists.favorites;
      UnfavoriteKeepsSplit(lists, record, hashes);
    } else if CanAdd(hashes) {
      assert record in lists.nonFavorites;
      FavoriteKeepsSplit(lists, record, hashes);
    }
  }

  /** A click other than a shift-click teleports unless it is on the waystone the viewer was opened from. */
  predicate Teleports(waystone: Option<WaystoneRecord>, record: WaystoneRecord) {
    !(waystone.Some? && record.hash == waystone.value.hash)
  }

  datatype ClickOutcome = FavoriteToggled | FavoritesFull | Teleported | Ignored

  // ---------------------------------------------------------------------
  // The viewer
  // ---------------------------------------------------------------------

  datatype PageLabel = FavoritesStar | PageNumber(n: int)

  /** The title: the page label out of the page count, after the waystone's name and owner when opened from one. */
  datatype Title =
    | WaystoneTitle(waystoneName: string, ownerName: string, pageLabel: PageLabel, pages: int)
    | ListTitle(pageLabel: PageLabel, pages: int)

  function Label(hasFavorites: bool, pageIndex: int): PageLabel {
    if IsFavoritesPage(hasFavorites, pageIndex) then FavoritesStar else PageNumber(pageIndex + 1)
  }

  /** Slot `s` holds the `s`-th waystone of the page. */
  function SlotMap(page: seq<WaystoneRecord>): map<int, WaystoneRecord> {
    map s | 0 <= s < |page| :: page[s]
  }

  /**
   * The slot loop of the menu update: `list[offset]` goes to slot 0 and so
   * on, stopping at the end of the list or after slot 44.
   */
  method FillPage(list: seq<WaystoneRecord>, offset: nat) returns (filled: map<int, WaystoneRecord>)
    ensures filled == SlotMap(Window(list, offset))
  {
    filled := map[];
    var i := offset;
    while i < |list|
      invariant offset <= i <= offset + ITEMS_PER_PAGE
      invariant i == offset || i <= |list|
      invariant forall s :: s in filled <==> 0 <= s < i - offset
      invariant forall s :: 0 <= s < i - offset ==> filled[s] == list[offset + s]
    {
      var slot := i - offset;
      if slot >= 45 {
        break;
      }
      filled := filled[slot := list[i]];
      i := i + 1;
    }
    ghost var page := Window(list, offset);
    assert |page| == i - offset;
    assert forall s :: 0 <= s < |page| ==> page[s] == list[offset + s];
  }

  /** The "claim" option: an editor holding the manager permission, over a waystone somebody else owns. */
  predicate ClaimOffered(canEdit: bool, isManager: bool, ownerId: string, playerId: string) {
    canEdit && isManager && ownerId != playerId
  }

  class JavaViewerGui {
    const player: Player
    const playerData: PlayerData
    /** The waystone the viewer was opened from, if any. */
    var waystone: Option<WaystoneRecord>
    var pageIndex: int
    var favorites: seq<WaystoneRecord>
    var nonFavorites: seq<WaystoneRecord>
    const hasFavorites: bool
    const maxPages: int

    var title: Title
    /** The waystone slots 0 to 44. */
    var slots: map<int, WaystoneRecord>
    /** Slot 50. */
    var claimOffered: bool
    /** Slots 51 to 53: icon, name and access settings. */
    var settingsOffered: bool

    ghost predicate Valid()
      reads this
    {
      1 <= maxPages && 0 <= pageIndex < maxPages && (claimOffered ==> waystone.Some?)
    }

    function Lists(): FavoriteLists
      reads this
    {
      FavoriteLists(favorites, nonFavorites)
    }

    /** The menu shows page `pageIndex` of the current lists, and the options the permissions allow. */
    ghost predicate Shows(canEdit: bool, isManager: bool)
      reads this
      requires Valid()
    {
      && slots == SlotMap(Page(Lists(), hasFavorites, pageIndex))
      && title == (if waystone.Some?
                   then WaystoneTitle(waystone.value.name, waystone.value.ownerName, Label(hasFavorites, pageIndex), maxPages)
                   else ListTitle(Label(hasFavorites, pageIndex), maxPages))
      && claimOffered == (waystone.Some? && ClaimOffered(canEdit, isManager, waystone.value.ownerId, player.id))
      && settingsOffered == (waystone.Some? && canEdit)
    }

    /** Opens on page 0 with the accessible waystones split by the player's favourites. */
    constructor (player: Player, playerData: PlayerData, waystone: Option<WaystoneRecord>,
                 accessible: seq<WaystoneRecord>, canEdit: bool, isManager: bool)
      ensures this.player == player && this.playerData == playerData && this.waystone == waystone
      ensures favorites == Select(accessible, playerData.favoriteWaystones, true)
      ensures nonFavorites == Select(accessible, playerData.favoriteWaystones, false)
      ensures hasFavorites <==> favorites != []
      ensures maxPages == PageCount(Lists(), hasFavorites)
      ensures pageIndex == 0
      ensures Valid() && Shows(canEdit, isManager)
    {
      this.player := player;
      this.playerData := playerData;
      this.waystone := waystone;
      var favs, nonFavs := Partition(accessible, playerData);
      favorites, nonFavorites := favs, nonFavs;
      hasFavorites := favs != [];
      maxPages := PageCount(FavoriteLists(favs, nonFavs), favs != []);
      pageIndex := 0;
      claimOffered, settingsOffered := false, false;
      new;
      UpdateMenu(canEdit, isManager);
    }

    /** Redraws the title, the waystone slots and the options. */
    method UpdateMenu(canEdit: bool, isManager: bool)
      requires Valid()
      modifies this`title, this`slots, this`claimOffered, this`settingsOffered
      ensures Valid() && Shows(canEdit, isManager)
    {
      var isFavoritesPage := hasFavorites && pageIndex == 0;
      var pageLabel := if isFavoritesPage then FavoritesStar else PageNumber(pageIndex + 1);
      if waystone.Some? {
        title := WaystoneTitle(waystone.value.name, waystone.value.ownerName, pageLabel, maxPages);
      } else {
        title := ListTitle(pageLabel, maxPages);
      }

      var displayList: seq<WaystoneRecord>;
      var offset: nat;
      if isFavoritesPage {
        displayList, offset := favorites, 0;
      } else {
        displayList := if hasFavorites then nonFavorites else favorites + nonFavorites;
        var regularPageIndex := if hasFavorites then pageIndex - 1 else pageIndex;
        offset := ITEMS_PER_PAGE * regularPageIndex;
      }
      var filled := FillPage(displayList, offset);
      slots := filled;
      assert Page(Lists(), hasFavorites, pageIndex) == Window(displayList, offset);

      claimOffered, settingsOffered := false, false;
      if waystone.Some? && canEdit {
        if isManager && waystone.value.ownerId != player.id {
          claimOffered := true;
        }
        settingsOffered := true;
      }
    }

    method PreviousPage(canEdit: bool, isManager: bool)
      requires Valid()
      modifies this`pageIndex, this`title, this`slots, this`claimOffered, this`settingsOffered
      ensures pageIndex == PreviousIndex(old(pageIndex), maxPages)
      ensures Valid() && Shows(canEdit, isManager)
    {
      pageIndex := pageIndex - 1;
      if pageIndex < 0 {
        pageIndex := maxPages - 1;
      }
      UpdateMenu(canEdit, isManager);
    }

    method NextPage(canEdit: bool, isManager: bool)
      requires Valid()
      modifies this`pageIndex, this`title, this`slots, this`claimOffered, this`settingsOffered
      ensures pageIndex == NextIndex(old(pageIndex), maxPages)
      ensures Valid() && Shows(canEdit, isManager)
    {
      pageIndex := pageIndex + 1;
      if pageIndex >= maxPages {
        pageIndex := 0;
      }
      UpdateMenu(canEdit, isManager);
    }

    /** Every accessible waystone: the favourites, then the rest. */
    function AllAccessible(): (all: seq<WaystoneRecord>)
      reads this
      ensures multiset(all) == multiset(favorites) + multiset(nonFavorites)
    {
      favorites + nonFavorites
    }

    /** The claim option: the player becomes the owner, and the option is gone. */
    method Claim(canEdit: bool, isManager: bool)
      requires Valid() && claimOffered
      modifies this`waystone, this`title, this`slots, this`claimOffered, this`settingsOffered
      ensures waystone == Some(old(waystone).value.(ownerId := player.id, ownerName := player.name))
      ensures Valid() && Shows(canEdit, isManager)
      ensures !claimOffered
    {
      waystone := Some(waystone.value.(ownerId := player.id, ownerName := player.name));
      UpdateMenu(canEdit, isManager);
    }

    /**
     * The callback of a waystone's slot. A shift-click toggles the favourite
     * and moves the waystone between the lists (the view is then rebuilt); any
     * other click teleports, unless the waystone is the one the viewer was
     * opened from.
     */
    method ClickRecord(record: WaystoneRecord, shift: bool) returns (outcome: ClickOutcome)
      modifies this`favorites, this`nonFavorites, playerData`favoriteWaystones
      ensures shift ==>
        var wasFavorite := record.hash in old(playerData.favoriteWaystones);
        var canAdd := CanAdd(old(playerData.favoriteWaystones));
        && Lists() == MoveOnShiftClick(old(Lists()), record, wasFavorite, canAdd)
        && playerData.favoriteWaystones == Toggle(old(playerData.favoriteWaystones), record.hash).favorites
        && outcome == (if wasFavorite || canAdd then FavoriteToggled else FavoritesFull)
      ensures !shift ==>
        && Lists() == old(Lists())
        && playerData.favoriteWaystones == old(playerData.favoriteWaystones)
        && outcome == (if Teleports(waystone, record) then Teleported else Ignored)
    {
      if shift {
        var hash := record.hash;
        var wasFavorite := playerData.IsFavorite(hash);
        if wasFavorite {
          var _ := playerData.ToggleFavorite(hash);
          var removed;
          favorites, removed := Remove(favorites, record);
          nonFavorites := [record] + nonFavorites;
          outcome := FavoriteToggled;
        } else {
          var canAdd := playerData.CanAddFavorite();
          if canAdd {
            var _ := playerData.ToggleFavorite(hash);
            var removed;
            nonFavorites, removed := Remove(nonFavorites, record);
            favorites := favorites + [record];
            outcome := FavoriteToggled;
          } else {
            outcome := FavoritesFull;
          }
        }
      } else {
        var clickedCurrentWaystone := waystone.Some? && record.hash == waystone.value.hash;
        outcome := if clickedCurrentWaystone then Ignored else Teleported;
      }
    }
  }

  // ---------------------------------------------------------------------
  // Access settings
  // ---------------------------------------------------------------------

  datatype SettingsButton = GlobalToggle | TeamToggle(teamName: string) | ServerToggle | BackButton

  /** The `create.global`, `create.team` and `create.server` permissions of the player. */
  datatype SettingsGrants = SettingsGrants(createGlobal: bool, createTeam: bool, createServer: bool)

  /** The toggles offered, in slot order: global, team (only for a player in a team), server. */
  function OfferedToggles(grants: SettingsGrants, team: TeamName): (r: seq<SettingsButton>)
    ensures |r| <= 3 && BackButton !in r
    ensures GlobalToggle in r <==> grants.createGlobal
    ensures ServerToggle in r <==> grants.createServer
    ensures team.Team? && grants.createTeam ==> TeamToggle(team.name) in r
    ensures forall i :: 0 <= i < |r| && r[i].TeamToggle? ==> team.Team? && grants.createTeam && r[i].teamName == team.name
  {
    (if grants.createGlobal then [GlobalToggle] else [])
      + (if team.Team? && grants.createTeam then [TeamToggle(team.name)] else [])
      + (if grants.createServer then [ServerToggle] else [])
  }

  /** Offered toggles fill slots 10, 11, ...; with none offered, a back button sits at slot 13. */
  function SettingsLayout(offered: seq<SettingsButton>): (r: map<int, SettingsButton>)
    ensures forall i :: 0 <= i < |offered| ==> 10 + i in r && r[10 + i] == offered[i]
    ensures offered != [] ==> forall s :: s in r ==> 10 <= s < 10 + |offered|
    ensures offered == [] ==> r == map[13 := BackButton]
  {
    if offered == [] then map[13 := BackButton]
    else map s | 10 <= s < 10 + |offered| :: ButtonAt(offered, s)
  }

  /** The offered toggle placed at slot `s`, counting from slot 10. */
  function ButtonAt(offered: seq<SettingsButton>, s: int): SettingsButton
    requires 10 <= s < 10 + |offered|
  {
    offered[s - 10]
  }

  /** What pressing a button does to the settings. */
  function Apply(settings: AccessSettings, button: SettingsButton): (r: AccessSettings)
    ensures (r.global != settings.global) <==> button == GlobalToggle
    ensures (r.serverOwned != settings.serverOwned) <==> button == ServerToggle
    ensures !button.TeamToggle? ==> r.team == settings.team
    ensures button.TeamToggle? ==> (HasTeam(r) <==> !HasTeam(settings) && button.teamName != "")
  {
    match button
    case GlobalToggle => settings.(global := !settings.global)
    case TeamToggle(name) => settings.(team := if HasTeam(settings) then "" else name)
    case ServerToggle => settings.(serverOwned := !settings.serverOwned)
    case BackButton => settings
  }

  /** The global and server toggles undo themselves when pressed twice. */
  lemma FlagTogglesUndo(settings: AccessSettings)
    ensures Apply(Apply(settings, GlobalToggle), GlobalToggle) == settings
    ensures Apply(Apply(settings, ServerToggle), ServerToggle) == settings
  {
  }

  /**
   * The team toggle pressed twice restores the settings exactly when no
   * team was set or the set team is the player's: another team is replaced.
   */
  lemma TeamToggleTwice(settings: AccessSettings, name: string)
    ensures Apply(Apply(settings, TeamToggle(name)), TeamToggle(name)) == settings
      <==> !HasTeam(settings) || settings.team == name
  {
  }

  class AccessSettingsGui {
    const player: Player
    var settings: AccessSettings
    var slots: map<int, SettingsButton>

    constructor (player: Player, settings: AccessSettings, grants: SettingsGrants)
      ensures this.player == player && this.settings == settings
      ensures slots == SettingsLayout(OfferedToggles(grants, player.team))
    {
      this.player := player;
      this.settings := settings;
      new;
      UpdateMenu(grants);
    }

    method UpdateMenu(grants: SettingsGrants)
      modifies this`slots
      ensures slots == SettingsLayout(OfferedToggles(grants, player.team))
    {
      slots := map[];
      var slot := 10;
      if grants.createGlobal {
        slots := slots[slot := GlobalToggle];
        slot := slot + 1;
      }
      if player.team.Team? && grants.createTeam {
        slots := slots[slot := TeamToggle(player.team.name)];
        slot := slot + 1;
      }
      if grants.createServer {
        slots := slots[slot := ServerToggle];
        slot := slot + 1;
      }
      if slot == 10 {
        slots := slots[13 := BackButton];
      }
      ghost var offered := OfferedToggles(grants, player.team);
      assert slot == 10 + |offered|;
      assert forall s :: s in slots <==> s in SettingsLayout(offered);
    }

    /** Pressing a button of the menu; the back button closes it. */
    method Click(button: SettingsButton, grants: SettingsGrants) returns (closed: bool)
      requires button in slots.Values
      modifies this`settings, this`slots
      ensures settings == Apply(old(settings), button)
      ensures closed <==> button == BackButton
      ensures !closed ==> slots == SettingsLayout(OfferedToggles(grants, player.team))
      ensures closed ==> slots == old(slots)
    {
      closed := false;
      match button {
        case GlobalToggle =>
          settings := settings.(global := !settings.global);
        case TeamToggle(teamName) =>
          settings := settings.(team := if HasTeam(settings) then "" else teamName);
        case ServerToggle =>
          settings := settings.(serverOwned := !settings.serverOwned);
        case BackButton =>
          closed := true;
      }
      if !closed {
        UpdateMenu(grants);
      }
    }
  }
}
