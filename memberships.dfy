/** The two membership toggles of the server: POST /save-artwork over the UserSavedArtworks
    table and POST /follow-artist over the UserFollowedArtists table. Both tables are UNIQUE
    on their pair, so each is modelled as a set of pairs; database failures are flags. */
module Memberships {
  import opened Js

  /** Membership of `p` flipped, everything else kept. */
  function ToggleSet<T(!new)>(s: set<T>, p: T): (r: set<T>)
    ensures p in r <==> p !in s
    ensures forall q :: q != p ==> (q in r <==> q in s)
  {
    if p in s then s - {p} else s + {p}
  }

  /** Toggling twice restores the set. */
  lemma ToggleToggle<T(!new)>(s: set<T>, p: T)
    ensures ToggleSet(ToggleSet(s, p), p) == s
  {
    var t := ToggleSet(ToggleSet(s, p), p);
    forall q ensures q in t <==> q in s {
      if q == p {
      } else {
        assert q in ToggleSet(s, p) <==> q in s;
      }
    }
  }

  datatype SaveReply = SaveUnauthorized | SaveDbError | Saved(saved: bool)

  /** UserSavedArtworks as the set of (user_id, artwork_id) pairs. */
  class SavedArtworks {
    var pairs: set<(int, int)>

    constructor ()
      ensures pairs == {}
    {
      pairs := {};
    }

    /** parseInt of both ids (NaN answers 401), then INSERT OR IGNORE: a new pair is saved;
        an ignored insert (no change) means the pair was there, and it is deleted. */
    method Toggle(userHeader: Value, artworkId: Value, insertFails: bool, deleteFails: bool)
      returns (reply: SaveReply)
      modifies this
      ensures ParseInt(userHeader).None? || ParseInt(artworkId).None? ==>
                reply == SaveUnauthorized && pairs == old(pairs)
      ensures ParseInt(userHeader).Some? && ParseInt(artworkId).Some? ==>
                var p := (ParseInt(userHeader).value, ParseInt(artworkId).value);
                if insertFails || (p in old(pairs) && deleteFails) then
                  reply == SaveDbError && pairs == old(pairs)
                else
                  reply == Saved(p !in old(pairs)) && pairs == ToggleSet(old(pairs), p)
      ensures reply.Saved? ==> exists p :: pairs == ToggleSet(old(pairs), p) && (reply.saved <==> p in pairs)
    {
      var artwork := ParseInt(artworkId);
      var user := ParseInt(userHeader);
      if user.None? || artwork.None? {
        return SaveUnauthorized;
      }
      var p := (user.value, artwork.value);
      if insertFails {
        return SaveDbError;
      }
      var changes := if p in pairs then 0 else 1;
      if changes == 0 {
        if deleteFails {
          return SaveDbError;
        }
        pairs := pairs - {p};
        return Saved(false);
      }
      pairs := pairs + {p};
      return Saved(true);
    }
  }

  datatype FollowReply = FollowUnauthorized | FollowDbError | Followed(followed: bool)

  /** UserFollowedArtists as the set of (user-id header, artist_id) pairs. */
  class FollowedArtists {
    var pairs: set<(string, int)>

    constructor ()
      ensures pairs == {}
    {
      pairs := {};
    }

    /** A missing or empty `user-id` header answers 401. Otherwise the pair is looked up: a
        present pair is deleted (followed: false), an absent one inserted (followed: true).
        A missing `artist_id` (None) matches no row and its insert breaks NOT NULL. */
    method Toggle(userHeader: Option<string>, artistId: Option<int>, selectFails: bool, writeFails: bool)
      returns (reply: FollowReply)
      modifies this
      ensures userHeader.None? || userHeader.value == "" ==> reply == FollowUnauthorized && pairs == old(pairs)
      ensures userHeader.Some? && userHeader.value != "" && (selectFails || writeFails || artistId.None?) ==>
                reply == FollowDbError && pairs == old(pairs)
      ensures userHeader.Some? && userHeader.value != "" && !selectFails && !writeFails && artistId.Some? ==>
                var p := (userHeader.value, artistId.value);
                reply == Followed(p !in old(pairs)) && pairs == ToggleSet(old(pairs), p)
    {
      if userHeader.None? || userHeader.value == "" {
        return FollowUnauthorized;
      }
      if selectFails {
        return FollowDbError;
      }
      var user := userHeader.value;
      if artistId.Some? && (user, artistId.value) in pairs {
        if writeFails {
          return FollowDbError;
        }
        pairs := pairs - {(user, artistId.value)};
        return Followed(false);
      }
      if writeFails || artistId.None? {
        return FollowDbError;
      }
      pairs := pairs + {(user, artistId.value)};
      return Followed(true);
    }
  }

  /** Saving the same artwork twice, with no failure, leaves the saved set as it was and
      answers saved: true then saved: false, or the other way round. */
  method SaveTwice(store: SavedArtworks, user: nat, artwork: nat) returns (first: SaveReply, second: SaveReply)
    modifies store
    ensures store.pairs == old(store.pairs)
    ensures first.Saved? && second.Saved? && first.saved != second.saved
  {
    ParseIntOfDecimal(user);
    ParseIntOfDecimal(artwork);
    first := store.Toggle(Str(NatToString(user)), Str(NatToString(artwork)), false, false);
    second := store.Toggle(Str(NatToString(user)), Str(NatToString(artwork)), false, false);
    ToggleToggle(old(store.pairs), (user as int, artwork as int));
  }

  /** Following the same artist twice, with no failure, restores the followed set. */
  method FollowTwice(store: FollowedArtists, user: string, artist: int) returns (first: FollowReply, second: FollowReply)
    requires user != ""
    modifies store
    ensures store.pairs == old(store.pairs)
    ensures first.Followed? && second.Followed? && first.followed != second.followed
  {
    first := store.Toggle(Some(user), Some(artist), false, false);
    second := store.Toggle(Some(user), Some(artist), false, false);
    ToggleToggle(old(store.pairs), (user, artist));
  }
}
