/**
 * The MusicBrainz client: resolving an artist name to an MBID, and turning
 * an artist's relation list into its de-duplicated list of tribute artists.
 *
 * The two remote calls (artist search and artist lookup) are parameters:
 * total functions from the request to the already-parsed response, so a
 * result that does not depend on them is a call that was never made.
 */
module MusicBrainzClient {
  import opened Wrappers
  import opened PyStr
  import opened Artists

  // ---------------------------------------------------------------------
  // Artist search: find_artist_mbid
  // ---------------------------------------------------------------------

  /** One entry of a search response's `artist-list`. */
  datatype Candidate = Candidate(id: Option<string>, name: Option<string>)

  /** A search response; `artistList` is `None` when the key is absent. */
  datatype SearchResponse = SearchResponse(artistList: Option<seq<Candidate>>)

  /** The `limit` passed with every search request. */
  const SearchLimit: nat := 1

  /** `res.get("artist-list", [])` */
  function Candidates(res: SearchResponse): seq<Candidate>
  {
    res.artistList.GetOr([])
  }

  /**
   * `find_artist_mbid`: a blank name yields `None` without searching;
   * otherwise the stripped name is searched for (at most one result), and
   * the answer is the first candidate's `id`, which may itself be absent.
   */
  function FindArtistMbid(artistName: string, search: (string, nat) -> SearchResponse): (r: Option<string>)
    ensures AllSpace(artistName) ==> r == None
    ensures !AllSpace(artistName) && Candidates(search(Strip(artistName), SearchLimit)) == [] ==> r == None
    ensures !AllSpace(artistName) && Candidates(search(Strip(artistName), SearchLimit)) != [] ==>
              r == Candidates(search(Strip(artistName), SearchLimit))[0].id
  {
    StripEmptyIffAllSpace(artistName);
    var query := Strip(artistName);
    if query == [] then
      None
    else
      var artists := Candidates(search(query, SearchLimit));
      if artists == [] then None else artists[0].id
  }

  /** A blank name is answered without consulting the search service at all. */
  lemma BlankNameNeverSearched(artistName: string, search1: (string, nat) -> SearchResponse,
                               search2: (string, nat) -> SearchResponse)
    requires AllSpace(artistName)
    ensures FindArtistMbid(artistName, search1) == FindArtistMbid(artistName, search2) == None
  {
  }

  /** The answer depends only on the stripped name: the search sees nothing else. */
  lemma FindIgnoresSurroundingSpace(artistName: string, search: (string, nat) -> SearchResponse)
    ensures FindArtistMbid(Strip(artistName), search) == FindArtistMbid(artistName, search)
  {
    StripIdempotent(artistName);
    StripEmptyIffAllSpace(artistName);
    StripEmptyIffAllSpace(Strip(artistName));
  }

  /** White space padded around a name on either side never changes the answer. */
  lemma FindIgnoresPadding(pre: string, artistName: string, post: string,
                           search: (string, nat) -> SearchResponse)
    requires AllSpace(pre) && AllSpace(post)
    ensures FindArtistMbid(pre + artistName + post, search) == FindArtistMbid(artistName, search)
  {
    StripPadded(pre, artistName, post);
    StripEmptyIffAllSpace(pre + artistName + post);
    StripEmptyIffAllSpace(artistName);
  }

  /** A search answering without candidates, or without an `artist-list`, resolves nothing. */
  lemma MissingOrEmptyArtistListNone(artistName: string, search: (string, nat) -> SearchResponse)
    requires search(Strip(artistName), SearchLimit).artistList in {None, Some([])}
    ensures FindArtistMbid(artistName, search) == None
  {
  }

  // ---------------------------------------------------------------------
  // Artist lookup: get_tribute_artists_for_original
  // ---------------------------------------------------------------------

  /** The artist on the other side of a relation (`rel["artist"]`). */
  datatype Other = Other(id: Option<string>, name: Option<string>)

  /** One element of `artist-relation-list`. */
  datatype Rel = Rel(typ: Option<string>, artist: Option<Other>)

  /** The `artist` record of a lookup response. */
  datatype ArtistDetails = ArtistDetails(artistRelationList: Option<seq<Rel>>)

  /** A lookup response; `artist` is `None` when the key is absent. */
  datatype LookupResponse = LookupResponse(artist: Option<ArtistDetails>)

  /** The `includes` passed with every lookup request. */
  const ArtistIncludes: seq<string> := ["artist-rels"]

  /** `details.get("artist", {}).get("artist-relation-list", [])` */
  function Relations(details: LookupResponse): seq<Rel>
  {
    match details.artist
    case None => []
    case Some(a) => a.artistRelationList.GetOr([])
  }

  /** Python truthiness of an optional string: present and non-empty. */
  predicate Truthy(s: Option<string>)
  {
    s.Some? && s.value != []
  }

  /** `(rel.get("type") or "").lower()` contains `"tribute"`. */
  predicate IsTributeRel(rel: Rel)
    ensures IsTributeRel(rel) ==> rel.typ.Some? && |rel.typ.value| >= 7
  {
    Contains(Lower(rel.typ.GetOr("")), "tribute")
  }

  /** A relation the first loop keeps: a tribute with a usable other artist. */
  predicate Qualifies(rel: Rel)
    ensures Qualifies(rel) ==> rel.typ.Some? && rel.artist.Some? &&
                               rel.artist.value.id.Some? && rel.artist.value.name.Some?
  {
    IsTributeRel(rel) && rel.artist.Some? && Truthy(rel.artist.value.id) && Truthy(rel.artist.value.name)
  }

  /** What one pass of the first loop appends for `rel`, if anything. */
  function Pick(rel: Rel): (r: Option<ArtistRef>)
    ensures r.Some? <==> Qualifies(rel)
    ensures r.Some? ==> r.value.mbid != [] && r.value.name != [] &&
                        rel.artist == Some(Other(Some(r.value.mbid), Some(r.value.name)))
  {
    if !IsTributeRel(rel) then None
    else match rel.artist
      case None => None
      case Some(other) =>
        if !Truthy(other.id) || !Truthy(other.name) then None
        else Some(ArtistRef(other.id.value, other.name.value))
  }

  /** The entry `rel` contributes to the first loop's list: none or one. */
  function Picked(rel: Rel): seq<ArtistRef> {
    match Pick(rel)
    case Some(a) => [a]
    case None => []
  }

  /** The first loop's result: the picked entries of `rels`, in relation order. */
  function Extract(rels: seq<Rel>): (r: seq<ArtistRef>)
    ensures forall e :: e in r ==> e.mbid != [] && e.name != []
  {
    if rels == [] then [] else Extract(Init(rels)) + Picked(Last(rels))
  }

  /** A lookup without an artist record or without a relation list has no tributes. */
  lemma NoRelationListNoTributes(details: LookupResponse)
    requires details.artist.None? || details.artist.value.artistRelationList.None?
    ensures TributeArtists(Relations(details)) == []
  {
  }

  /** Every entry of the first loop's list is what some relation yields. */
  lemma {:induction false} ExtractSound(rels: seq<Rel>)
    ensures forall e :: e in Extract(rels) ==> exists k :: 0 <= k < |rels| && Pick(rels[k]) == Some(e)
  {
    if rels != [] {
      var init := Init(rels);
      ExtractSound(init);
      assert forall k :: 0 <= k < |init| ==> init[k] == rels[k];
      assert forall e :: e in Picked(Last(rels)) ==> Pick(rels[|rels| - 1]) == Some(e);
    }
  }

  /** `get_tribute_artists_for_original` on an already fetched relation list. */
  function TributeArtists(rels: seq<Rel>): (r: seq<ArtistRef>)
    ensures NoDupMbids(r)
    ensures Mbids(r) == Mbids(Extract(rels))
    ensures forall e :: e in r ==> e.mbid != [] && e.name != []
  {
    Dedup(Extract(rels))
  }

  /** The relation at `rel` yields an entry with identifier `m`. */
  predicate PicksMbid(rel: Rel, m: string) {
    Pick(rel).Some? && Pick(rel).value.mbid == m
  }

  /** The first loop keeps relation order: extraction distributes over concatenation. */
  lemma {:induction false} ExtractAppend(a: seq<Rel>, b: seq<Rel>)
    ensures Extract(a + b) == Extract(a) + Extract(b)
    decreases |b|
  {
    if b != [] {
      calc {
        Extract(a + b);
        { assert Init(a + b) == a + Init(b) && Last(a + b) == Last(b); }
        Extract(a + Init(b)) + Picked(Last(b));
        { ExtractAppend(a, Init(b)); }
        Extract(a) + Extract(Init(b)) + Picked(Last(b));
        Extract(a) + Extract(b);
      }
    } else {
      assert a + b == a;
    }
  }

  /** A relation that does not qualify can be removed without changing the result. */
  lemma UnqualifiedRelationIgnored(a: seq<Rel>, rel: Rel, b: seq<Rel>)
    requires !Qualifies(rel)
    ensures TributeArtists(a + [rel] + b) == TributeArtists(a + b)
  {
    assert Extract([rel]) == [] by {
      assert Init([rel]) == [];
    }
    calc {
      Extract(a + [rel] + b);
      { ExtractAppend(a + [rel], b); }
      Extract(a + [rel]) + Extract(b);
      { ExtractAppend(a, [rel]); }
      Extract(a) + Extract(b);
      { ExtractAppend(a, b); }
      Extract(a + b);
    }
  }

  /** Every qualifying relation contributes its entry to the first loop's list. */
  lemma {:induction false} ExtractComplete(rels: seq<Rel>)
    ensures forall k :: 0 <= k < |rels| && Qualifies(rels[k]) ==> Pick(rels[k]).value in Extract(rels)
  {
    if rels != [] {
      ExtractComplete(Init(rels));
      assert forall k :: 0 <= k < |rels| - 1 ==> Init(rels)[k] == rels[k];
    }
  }

  /**
   * `e` is the entry of relation `k`, and no relation before `k` yields an
   * entry with identifier `m`.
   */
  predicate FirstYieldAt(rels: seq<Rel>, m: string, e: ArtistRef, k: int) {
    0 <= k < |rels| && Pick(rels[k]) == Some(e) && forall j :: 0 <= j < k ==> !PicksMbid(rels[j], m)
  }

  /** Appending a relation keeps an earlier first yield first. */
  lemma FirstYieldExtend(rels: seq<Rel>, m: string, e: ArtistRef, k: int)
    requires rels != [] && FirstYieldAt(Init(rels), m, e, k)
    ensures FirstYieldAt(rels, m, e, k)
  {
    assert forall j :: 0 <= j <= k ==> Init(rels)[j] == rels[j];
  }

  /**
   * The first entry of the first loop's list with identifier `m` comes from
   * the first relation that yields an entry with that identifier.
   */
  lemma {:induction false} ExtractFirstEntry(rels: seq<Rel>, m: string)
    requires m in Mbids(Extract(rels))
    ensures exists k :: FirstYieldAt(rels, m, Extract(rels)[FirstIndex(Extract(rels), m)], k)
  {
    var init, rel := Init(rels), Last(rels);
    var front := Extract(init);
    var xs := Extract(rels);
    if Pick(rel).None? || m in Mbids(front) {
      assert m in Mbids(front) && FirstIndex(xs, m) == FirstIndex(front, m) by {
        if Pick(rel).None? {
          assert xs == front;
        } else {
          assert xs == front + [Pick(rel).value];
          FirstIndexAppend(front, Pick(rel).value, m);
        }
      }
      ExtractFirstEntry(init, m);
      var k :| FirstYieldAt(init, m, front[FirstIndex(front, m)], k);
      FirstYieldExtend(rels, m, front[FirstIndex(front, m)], k);
      assert front[FirstIndex(front, m)] == xs[FirstIndex(xs, m)];
    } else {
      var a := Pick(rel).value;
      assert xs == front + [a];
      MbidsAppend(front, a);
      FirstIndexAppend(front, a, m);
      ExtractNewMbidFirst(rels, m);
      assert FirstYieldAt(rels, m, xs[FirstIndex(xs, m)], |init|);
    }
  }

  /** Helper: the last relation yields an MBID no earlier relation yields. */
  lemma ExtractNewMbidFirst(rels: seq<Rel>, m: string)
    requires rels != [] && PicksMbid(Last(rels), m)
    requires m !in Mbids(Extract(Init(rels)))
    ensures forall j :: 0 <= j < |rels| - 1 ==> !PicksMbid(rels[j], m)
  {
    var init := Init(rels);
    ExtractComplete(init);
    forall j | 0 <= j < |init| ensures !PicksMbid(rels[j], m) {
      assert init[j] == rels[j];
    }
  }

  /** Every returned entry comes from a tribute relation and has a non-empty MBID and name. */
  lemma TributeArtistsSound(rels: seq<Rel>)
    ensures forall e :: e in TributeArtists(rels) ==>
              (e.mbid != [] && e.name != [] &&
               exists k :: 0 <= k < |rels| && IsTributeRel(rels[k]) &&
                           rels[k].artist == Some(Other(Some(e.mbid), Some(e.name))))
  {
    ExtractSound(rels);
  }

  /** No two returned entries share an MBID. */
  lemma TributeArtistsUnique(rels: seq<Rel>)
    ensures NoDupMbids(TributeArtists(rels))
  {
  }

  /**
   * Completeness: the MBID of every qualifying relation is returned, and the
   * entry returned for it is that of the first relation yielding that MBID.
   */
  lemma TributeArtistsComplete(rels: seq<Rel>)
    ensures forall k :: 0 <= k < |rels| && Qualifies(rels[k]) ==>
              rels[k].artist.value.id.value in Mbids(TributeArtists(rels))
    ensures forall e :: e in TributeArtists(rels) ==>
              exists k :: 0 <= k < |rels| && Pick(rels[k]) == Some(e) &&
                          forall j :: 0 <= j < k ==> !PicksMbid(rels[j], e.mbid)
  {
    var xs := Extract(rels);
    ExtractComplete(rels);
    DedupKeepsFirstEntry(xs);
    forall k | 0 <= k < |rels| && Qualifies(rels[k])
      ensures rels[k].artist.value.id.value in Mbids(TributeArtists(rels))
    {
      assert Pick(rels[k]).value.mbid in Mbids(xs);
    }
    forall e | e in TributeArtists(rels)
      ensures exists k :: 0 <= k < |rels| && Pick(rels[k]) == Some(e) &&
                          forall j :: 0 <= j < k ==> !PicksMbid(rels[j], e.mbid)
    {
      assert e.mbid in Mbids(Dedup(xs));
      ExtractFirstEntry(rels, e.mbid);
      var k :| FirstYieldAt(rels, e.mbid, xs[FirstIndex(xs, e.mbid)], k);
      assert FirstYieldAt(rels, e.mbid, e, k);
    }
  }

  /**
   * Ordering: the result is the first loop's list with later duplicates
   * dropped, a subsequence of it in order of first appearance.
   */
  lemma TributeArtistsOrder(rels: seq<Rel>)
    ensures TributeArtists(rels) == Select(Extract(rels), FirstMask(Extract(rels)))
    ensures IsSubsequence(TributeArtists(rels), Extract(rels))
  {
    DedupKeepsFirstOccurrences(Extract(rels));
  }

  /** The first loop, as the source runs it: skip with `continue`, else append. */
  method CollectTributes(rels: seq<Rel>) returns (tributes: seq<ArtistRef>)
    ensures tributes == Extract(rels)
  {
    tributes := [];
    for i := 0 to |rels|
      invariant tributes == Extract(rels[..i])
    {
      assert Init(rels[..i + 1]) == rels[..i];
      var rel := rels[i];
      var relType := Lower(rel.typ.GetOr(""));
      if !Contains(relType, "tribute") {
        continue;
      }
      var other := rel.artist;
      if other.None? {
        continue;
      }
      var mbid := other.value.id;
      var name := other.value.name;
      if !Truthy(mbid) || !Truthy(name) {
        continue;
      }
      tributes := tributes + [ArtistRef(mbid.value, name.value)];
    }
    assert rels[..|rels|] == rels;
  }

  /** The second loop: a `seen` set of identifiers and the `unique` list. */
  method DedupByMbid(tributes: seq<ArtistRef>) returns (unique: seq<ArtistRef>)
    ensures unique == Dedup(tributes)
  {
    var seen: set<string> := {};
    unique := [];
    for i := 0 to |tributes|
      invariant unique == Dedup(tributes[..i])
      invariant seen == Mbids(unique)
    {
      assert Init(tributes[..i + 1]) == tributes[..i];
      var a := tributes[i];
      if a.mbid !in seen {
        MbidsAppend(unique, a);
        seen := seen + {a.mbid};
        unique := unique + [a];
      }
    }
    assert tributes[..|tributes|] == tributes;
  }

  /**
   * `get_tribute_artists_for_original`: an empty MBID yields `[]` without a
   * lookup; otherwise the artist is looked up with its artist relations and
   * the relation list is filtered and de-duplicated.
   */
  method GetTributeArtistsForOriginal(originalMbid: string, lookup: (string, seq<string>) -> LookupResponse)
    returns (result: seq<ArtistRef>)
    ensures originalMbid == [] ==> result == []
    ensures originalMbid != [] ==> result == TributeArtists(Relations(lookup(originalMbid, ArtistIncludes)))
  {
    if originalMbid == [] {
      return [];
    }
    var details := lookup(originalMbid, ArtistIncludes);
    var tributes := CollectTributes(Relations(details));
    result := DedupByMbid(tributes);
  }
}
