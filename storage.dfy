/**
 * Per-player data: the waystones a player has discovered and the ordered,
 * capacity-bounded list of the waystones they marked as favourites, each
 * waystone named by its hash.
 */
module Storage {
  import opened Wrappers
  import opened Sequences

  /** One page of waystones. */
  const MAX_FAVORITES: nat := 45

  /** There is room for one more favourite. */
  predicate CanAdd(favorites: seq<string>) {
    |favorites| < MAX_FAVORITES
  }

  /** What every favourites list built by toggling looks like: within capacity, no hash twice. */
  ghost predicate WellFormed(favorites: seq<string>) {
    |favorites| <= MAX_FAVORITES && NoDuplicates(favorites)
  }

  /** The favourites after a toggle, and whether the toggle added the hash. */
  datatype Toggled = Toggled(favorites: seq<string>, added: bool)

  /**
   * Toggling a hash: a present hash is removed (its first occurrence), an
   * absent one is appended when there is room, and otherwise nothing happens.
   * Only an append reports `true`.
   */
  function Toggle(favorites: seq<string>, hash: string): (r: Toggled)
    ensures r.added <==> hash !in favorites && CanAdd(favorites)
    ensures multiset(r.favorites) ==
      if hash in favorites then multiset(favorites) - multiset{hash}
      else if r.added then multiset(favorites) + multiset{hash}
      else multiset(favorites)
    ensures hash !in favorites && !CanAdd(favorites) ==> r == Toggled(favorites, false)
  {
    if hash in favorites then Toggled(RemoveFirst(favorites, hash), false)
    else if CanAdd(favorites) then Toggled(favorites + [hash], true)
    else Toggled(favorites, false)
  }

  /** A present hash, first found at `k`, is cut out at `k`; the others keep their order. */
  lemma ToggleRemoves(favorites: seq<string>, hash: string, k: nat)
    requires k < |favorites| && favorites[k] == hash && hash !in favorites[..k]
    ensures Toggle(favorites, hash) == Toggled(favorites[..k] + favorites[k + 1..], false)
  {
    RemoveFirstAt(favorites, hash, k);
  }

  /** Toggling keeps a list within capacity and free of duplicates. */
  lemma ToggleKeepsWellFormed(favorites: seq<string>, hash: string)
    requires WellFormed(favorites)
    ensures WellFormed(Toggle(favorites, hash).favorites)
  {
    if hash in favorites {
      RemoveFirstNoDuplicates(favorites, hash);
    } else if CanAdd(favorites) {
      var r := favorites + [hash];
      assert forall i :: 0 <= i < |favorites| ==> r[i] == favorites[i];
    }
  }

  /** The favourites after toggling each hash of `hashes` in turn. */
  function ToggleAll(favorites: seq<string>, hashes: seq<string>): seq<string>
    decreases |hashes|
  {
    if hashes == [] then favorites
    else ToggleAll(Toggle(favorites, hashes[0]).favorites, hashes[1..])
  }

  /** However many toggles a well-formed list goes through, it stays within capacity and duplicate-free. */
  lemma {:induction false} ToggleAllKeepsWellFormed(favorites: seq<string>, hashes: seq<string>)
    requires WellFormed(favorites)
    ensures WellFormed(ToggleAll(favorites, hashes))
    decreases |hashes|
  {
    if hashes != [] {
      ToggleKeepsWellFormed(favorites, hashes[0]);
      ToggleAllKeepsWellFormed(Toggle(favorites, hashes[0]).favorites, hashes[1..]);
    }
  }

  /** An absent hash toggled twice, with room for it, leaves the list as it was. */
  lemma ToggleTwiceAbsent(favorites: seq<string>, hash: string)
    requires hash !in favorites && CanAdd(favorites)
    ensures Toggle(favorites, hash) == Toggled(favorites + [hash], true)
    ensures Toggle(favorites + [hash], hash) == Toggled(favorites, false)
  {
    RemoveFirstOfAppended(favorites, hash);
  }

  /**
   * A present hash toggled twice is not put back where it was: it ends up at
   * the end of the list.
   */
  lemma ToggleTwicePresent(favorites: seq<string>, hash: string, k: nat)
    requires WellFormed(favorites) && k < |favorites| && favorites[k] == hash
    ensures var once := favorites[..k] + favorites[k + 1..];
      Toggle(favorites, hash) == Toggled(once, false) &&
      Toggle(once, hash) == Toggled(once + [hash], true)
  {
    assert hash !in favorites[..k];
    RemoveFirstAt(favorites, hash, k);
    NoDuplicatesCut(favorites, k);
  }

  /**
   * On a duplicate-free list, a toggle that changes anything flips whether
   * the hash is a favourite; one rejected for lack of room changes nothing.
   */
  lemma ToggleFlipsFavorite(favorites: seq<string>, hash: string)
    requires NoDuplicates(favorites)
    ensures var r := Toggle(favorites, hash);
      (hash in favorites || CanAdd(favorites)) ==> (hash in r.favorites <==> hash !in favorites)
    ensures hash !in favorites && !CanAdd(favorites) ==> Toggle(favorites, hash) == Toggled(favorites, false)
  {
    RemoveFirstNoDuplicates(favorites, hash);
  }

  /** The saved form of a player's data; the favourites field may be missing in old saves. */
  datatype StoredPlayerData = StoredPlayerData(discoveredWaystones: seq<string>, favoriteWaystones: Option<seq<string>>)

  /** The favourites a saved form decodes to: the field, or the empty default when it is missing. */
  function FavoritesOf(stored: StoredPlayerData): seq<string> {
    stored.favoriteWaystones.GetOr([])
  }

  class PlayerData {
    var discoveredWaystones: seq<string>
    var favoriteWaystones: seq<string>

    ghost predicate Valid()
      reads this
    {
      WellFormed(favoriteWaystones)
    }

    /** A new player: nothing discovered, no favourites. */
    constructor ()
      ensures discoveredWaystones == [] && favoriteWaystones == []
      ensures Valid()
    {
      discoveredWaystones, favoriteWaystones := [], [];
    }

    /** Data saved before favourites existed. */
    constructor WithDiscovered(discovered: seq<string>)
      ensures discoveredWaystones == discovered && favoriteWaystones == []
      ensures Valid()
    {
      discoveredWaystones, favoriteWaystones := discovered, [];
    }

    /** Copies of both lists. */
    constructor WithLists(discovered: seq<string>, favorites: seq<string>)
      ensures discoveredWaystones == discovered && favoriteWaystones == favorites
    {
      discoveredWaystones, favoriteWaystones := discovered, favorites;
    }

    /**
     * The saved form that `Decode` reads back. The favourites field has the
     * empty list as its default, and a field equal to its default is not
     * written: no favourites means no field.
     */
    function Encode(): (stored: StoredPlayerData)
      reads this
      ensures stored.discoveredWaystones == discoveredWaystones
      ensures FavoritesOf(stored) == favoriteWaystones
      ensures stored.favoriteWaystones.Some? <==> favoriteWaystones != []
    {
      StoredPlayerData(discoveredWaystones, if favoriteWaystones == [] then None else Some(favoriteWaystones))
    }

    method IsFavorite(hash: string) returns (b: bool)
      ensures b <==> hash in favoriteWaystones
    {
      var i := IndexOf(favoriteWaystones, hash);
      b := i >= 0;
    }

    method CanAddFavorite() returns (b: bool)
      ensures b <==> CanAdd(favoriteWaystones)
    {
      b := |favoriteWaystones| < MAX_FAVORITES;
    }

    /** Toggles `hash` in place and reports whether it was added. */
    method ToggleFavorite(hash: string) returns (added: bool)
      modifies this`favoriteWaystones
      ensures Toggled(favoriteWaystones, added) == Toggle(old(favoriteWaystones), hash)
      ensures old(Valid()) ==> Valid()
    {
      var present := IsFavorite(hash);
      if present {
        var removed;
        favoriteWaystones, removed := Remove(favoriteWaystones, hash);
        added := false;
      } else if |favoriteWaystones| < MAX_FAVORITES {
        favoriteWaystones := favoriteWaystones + [hash];
        added := true;
      } else {
        added := false;
      }
      if old(Valid()) {
        ToggleKeepsWellFormed(old(favoriteWaystones), hash);
      }
    }
  }

  /**
   * Reads saved data back; a missing favourites field gives no favourites.
   * Encoding the result gives the saved data back unless it spelled out an
   * empty favourites field, which is then left out.
   */
  method Decode(stored: StoredPlayerData) returns (p: PlayerData)
    ensures fresh(p)
    ensures p.discoveredWaystones == stored.discoveredWaystones
    ensures p.favoriteWaystones == FavoritesOf(stored)
    ensures stored.favoriteWaystones.None? ==> p.favoriteWaystones == []
    ensures p.Encode() == stored <==> stored.favoriteWaystones != Some([])
  {
    p := new PlayerData.WithLists(stored.discoveredWaystones, stored.favoriteWaystones.GetOr([]));
  }
}
