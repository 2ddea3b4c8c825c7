/**
  Favorites (inc/favorites.php): each user's `favorite_properties` meta is
  a list of property ids, read, changed and written back by add, remove and
  toggle.  The meta table is the field `meta`; `get_current_user_id()` is
  the constant `currentUser`, 0 standing for a guest; a `userId` of 0 stands
  for the omitted argument.  Ids are integers, so `in_array` and
  `array_search` compare them exactly.
*/
module Favorites {
  /** What `get_user_meta(..., 'favorite_properties', true)` returns: an id list, or something that is not an array. */
  datatype Stored = IdList(ids: seq<int>) | NotAList

  predicate NoDuplicates(favs: seq<int>)
  {
    forall i, j | 0 <= i < j < |favs| :: favs[i] != favs[j]
  }

  /** `array_search` + `unset` + `array_values`: the first occurrence goes, the rest keep their order. */
  function RemoveFirst(favs: seq<int>, id: int): (r: seq<int>)
    ensures id !in favs ==> r == favs
    ensures id in favs ==> |r| == |favs| - 1
    ensures multiset(r) == multiset(favs) - multiset{id}
  {
    if favs == [] then []
    else if favs[0] == id then
      assert favs == [favs[0]] + favs[1..];
      favs[1..]
    else
      assert favs == [favs[0]] + favs[1..];
      [favs[0]] + RemoveFirst(favs[1..], id)
  }

  /** The list without the id is the list cut at its first occurrence. */
  lemma {:induction false} RemoveFirstAt(favs: seq<int>, id: int, k: nat)
    requires k < |favs| && favs[k] == id && id !in favs[..k]
    ensures RemoveFirst(favs, id) == favs[..k] + favs[k + 1..]
  {
    if k == 0 {
      assert favs[..0] + favs[1..] == favs[1..];
    } else {
      var tail := favs[1..];
      assert favs[0] != id by { assert favs[0] in favs[..k]; }
      assert id !in tail[..k - 1] by { assert tail[..k - 1] == favs[1..k]; }
      RemoveFirstAt(tail, id, k - 1);
      RemoveFirstCons(favs, id);
      SplitAround(favs, k);
    }
  }

  lemma RemoveFirstCons(favs: seq<int>, id: int)
    requires favs != [] && favs[0] != id
    ensures RemoveFirst(favs, id) == [favs[0]] + RemoveFirst(favs[1..], id)
  {
  }

  lemma SplitAround(favs: seq<int>, k: nat)
    requires 0 < k < |favs|
    ensures [favs[0]] + (favs[1..][..k - 1] + favs[1..][k..]) == favs[..k] + favs[k + 1..]
  {
    assert [favs[0]] + favs[1..][..k - 1] == favs[..k];
    assert favs[1..][k..] == favs[k + 1..];
  }

  /** Without duplicates, the id is gone afterwards and nothing else is. */
  lemma RemoveFirstDistinct(favs: seq<int>, id: int)
    requires NoDuplicates(favs)
    ensures id !in RemoveFirst(favs, id)
    ensures forall x | x != id :: x in RemoveFirst(favs, id) <==> x in favs
    ensures NoDuplicates(RemoveFirst(favs, id))
  {
    var r := RemoveFirst(favs, id);
    assert multiset(favs)[id] <= 1 by { DistinctCount(favs, id); }
    assert multiset(r)[id] == 0;
    forall x | x != id ensures x in r <==> x in favs {
      assert multiset(r)[x] == multiset(favs)[x];
    }
    forall i, j | 0 <= i < j < |r| ensures r[i] != r[j] {
      if r[i] == r[j] {
        assert multiset(r)[r[i]] >= 2 by { TwoOccurrences(r, i, j); }
        DistinctCount(favs, r[i]);
        assert false;
      }
    }
  }

  lemma {:induction false} DistinctCount(favs: seq<int>, x: int)
    requires NoDuplicates(favs)
    ensures multiset(favs)[x] <= 1
  {
    if favs != [] {
      assert favs == [favs[0]] + favs[1..];
      assert NoDuplicates(favs[1..]) by {
        forall i, j | 0 <= i < j < |favs[1..]| ensures favs[1..][i] != favs[1..][j] {
          assert favs[1..][i] == favs[i + 1] && favs[1..][j] == favs[j + 1];
        }
      }
      DistinctCount(favs[1..], x);
      if favs[0] == x {
        assert x !in favs[1..] by {
          forall k | 0 <= k < |favs[1..]| ensures favs[1..][k] != x { assert favs[1..][k] == favs[k + 1]; }
        }
      }
    }
  }

  lemma TwoOccurrences(s: seq<int>, i: nat, j: nat)
    requires i < j < |s| && s[i] == s[j]
    ensures multiset(s)[s[i]] >= 2
  {
    assert s == s[..i] + [s[i]] + s[i + 1..j] + [s[j]] + s[j + 1..];
  }

  /** What toggling does to a list: remove the first occurrence if present, else append. */
  function ToggleList(favs: seq<int>, id: int): seq<int>
  {
    if id in favs then RemoveFirst(favs, id) else favs + [id]
  }

  /**
    Toggling twice restores membership; when the id was absent, it restores
    the list itself (a present id comes back at the end).
  */
  lemma ToggleTwice(favs: seq<int>, id: int)
    requires NoDuplicates(favs)
    ensures id in ToggleList(ToggleList(favs, id), id) <==> id in favs
    ensures id !in favs ==> ToggleList(ToggleList(favs, id), id) == favs
  {
    if id in favs {
      RemoveFirstDistinct(favs, id);
    } else {
      var k := |favs|;
      assert (favs + [id])[..k] == favs;
      RemoveFirstAt(favs + [id], id, k);
      assert (favs + [id])[k + 1..] == [];
    }
  }

  /** `array_search($property_id, $favorites)`: the first index holding the id, if any. */
  method Search(favs: seq<int>, propertyId: int) returns (found: bool, key: nat)
    ensures found ==> key < |favs| && favs[key] == propertyId && propertyId !in favs[..key]
    ensures !found ==> propertyId !in favs
  {
    key := 0;
    while key < |favs|
      invariant key <= |favs| && propertyId !in favs[..key]
    {
      if favs[key] == propertyId {
        return true, key;
      }
      assert favs[..key + 1] == favs[..key] + [favs[key]];
      key := key + 1;
    }
    assert favs[..key] == favs;
    found := false;
  }

  /** The `favorite_properties` meta of every user, and the signed-in user. */
  class FavoriteStore {
    var meta: map<nat, Stored>
    const currentUser: nat

    constructor (meta: map<nat, Stored>, currentUser: nat)
      ensures this.meta == meta && this.currentUser == currentUser
    {
      this.meta := meta;
      this.currentUser := currentUser;
    }

    /** `$user_id ?: get_current_user_id()`. */
    function Resolve(userId: nat): nat
      reads this
    {
      if userId != 0 then userId else currentUser
    }

    /** `homebio_get_user_favorites($user_id)`: the stored list, or empty for a guest, a missing entry or a non-array. */
    function Favorites(userId: nat): (favs: seq<int>)
      reads this
      ensures Resolve(userId) == 0 || Resolve(userId) !in meta || meta[Resolve(userId)].NotAList? ==> favs == []
      ensures Resolve(userId) != 0 && Resolve(userId) in meta && meta[Resolve(userId)].IdList? ==> favs == meta[Resolve(userId)].ids
    {
      var user := Resolve(userId);
      if user == 0 || user !in meta then []
      else match meta[user]
        case IdList(ids) => ids
        case NotAList => []
    }

    /** `homebio_is_favorite`. */
    predicate IsFavorite(propertyId: int, userId: nat)
      reads this
    {
      propertyId in Favorites(userId)
    }

    /** `homebio_get_favorites_count`. */
    function Count(userId: nat): (n: nat)
      reads this
      ensures n == |Favorites(userId)|
    {
      |Favorites(userId)|
    }

    /**
      `homebio_add_favorite`: appends the id and writes the list back iff
      there is a user and the id is absent; returns whether it did.
    */
    method Add(propertyId: int, userId: nat) returns (added: bool)
      modifies this
      ensures added <==> old(Resolve(userId)) != 0 && propertyId !in old(Favorites(userId))
      ensures added ==> meta == old(meta)[Resolve(userId) := IdList(old(Favorites(userId)) + [propertyId])]
      ensures !added ==> meta == old(meta)
      ensures Favorites(userId) == if added then old(Favorites(userId)) + [propertyId] else old(Favorites(userId))
      ensures NoDuplicates(old(Favorites(userId))) ==> NoDuplicates(Favorites(userId))
      ensures Count(userId) == old(Count(userId)) + (if added then 1 else 0)
    {
      var user := Resolve(userId);
      if user == 0 {
        return false;
      }
      var favorites := Favorites(user);
      if propertyId !in favorites {
        favorites := favorites + [propertyId];
        meta := meta[user := IdList(favorites)];
        return true;
      }
      return false;
    }

    /**
      `homebio_remove_favorite`: drops the first occurrence, re-indexes and
      writes the list back iff there is a user and the id is present;
      returns whether it did.
    */
    method Remove(propertyId: int, userId: nat) returns (removed: bool)
      modifies this
      ensures removed <==> old(Resolve(userId)) != 0 && propertyId in old(Favorites(userId))
      ensures removed ==> meta == old(meta)[Resolve(userId) := IdList(RemoveFirst(old(Favorites(userId)), propertyId))]
      ensures !removed ==> meta == old(meta)
      ensures Favorites(userId) == RemoveFirst(old(Favorites(userId)), propertyId)
      ensures Count(userId) == old(Count(userId)) - (if removed then 1 else 0)
    {
      var user := Resolve(userId);
      if user == 0 {
        return false;
      }
      var favorites := Favorites(user);
      var found, key := Search(favorites, propertyId);
      if found {
        RemoveFirstAt(favorites, propertyId, key);
        favorites := favorites[..key] + favorites[key + 1..];
        meta := meta[user := IdList(favorites)];
        return true;
      }
      return false;
    }

    /**
      `homebio_toggle_favorite`: removes a favorite, adds anything else, and
      returns the negation of the earlier membership.  For a guest nothing
      is written and the answer is still `true`.
    */
    method Toggle(propertyId: int, userId: nat) returns (isFavorite: bool)
      modifies this
      ensures isFavorite == !old(IsFavorite(propertyId, userId))
      ensures old(Resolve(userId)) != 0 ==> Favorites(userId) == ToggleList(old(Favorites(userId)), propertyId)
      ensures old(Resolve(userId)) != 0 ==> meta == old(meta)[Resolve(userId) := IdList(ToggleList(old(Favorites(userId)), propertyId))]
      ensures old(Resolve(userId)) == 0 ==> meta == old(meta)
      ensures old(Resolve(userId)) != 0 && NoDuplicates(old(Favorites(userId))) ==> isFavorite == IsFavorite(propertyId, userId)
    {
      if IsFavorite(propertyId, userId) {
        var _ := Remove(propertyId, userId);
        if Resolve(userId) != 0 {
          RemoveFirstDistinctIfAny(old(Favorites(userId)), propertyId);
        }
        return false;
      } else {
        var _ := Add(propertyId, userId);
        return true;
      }
    }
  }

  /** Removing an id from a list without duplicates leaves it absent. */
  lemma RemoveFirstDistinctIfAny(favs: seq<int>, id: int)
    ensures NoDuplicates(favs) ==> id !in RemoveFirst(favs, id)
  {
    if NoDuplicates(favs) {
      RemoveFirstDistinct(favs, id);
    }
  }
}
