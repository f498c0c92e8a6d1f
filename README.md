# Tribute-artist lookup client, modelled in Dafny

The client resolves an artist's name to a MusicBrainz identifier (MBID). It
then lists the artists related to an MBID by a "tribute" relationship.
This project models the two public operations of
`src/services/musicbrainz_client.py` and proves what they promise:

- `find_artist_mbid` answers a blank name with `None` and makes no search.
  Otherwise it searches for the stripped name with a limit of one result.
  It answers with the first candidate's `id`, or `None` when there is no
  candidate.
- `get_tribute_artists_for_original` answers an empty MBID with `[]` and
  makes no lookup. Otherwise it looks the artist up with its artist
  relations and makes two passes over the relation list:
  - The first loop keeps the relations whose lower-cased type contains
    `"tribute"` and whose other artist has a non-empty `id` and `name`.
    For each one it appends `{mbid, name}`.
  - The second loop drops every entry whose MBID was already seen.

The remote search and lookup are parameters of the model. Each is a total
function from the request (query and limit, or MBID and includes) to the
already parsed response. A result that is the same for every such function
is therefore a call that was never made. A missing dictionary key is `None`
in an `Option` field. A missing `artist` or `artist-relation-list` reads as
the empty relation list, as the source's `.get(..., [])` defaults do.

Files:

- `wrappers.dfy`: `Option`.
- `pystr.dfy`: the Python string operations used. These are `str.lower`,
  `str.strip` with Python's exact white-space set, and substring `in`.
- `artists.dfy`: the returned entry type and de-duplication by MBID. The
  de-duplication is specified by a function, with its properties proved.
- `musicbrainz_client.dfy`: the responses, both operations, and the two loops
  as methods proved against the specification functions. It also holds the
  properties of the combined tribute list.
- `scenarios.dfy`: properties proved about concrete responses, one per
  behaviour of the source: the type test ignores case, other or missing
  types are skipped, a nameless other artist is dropped, repeated edges
  collapse, and a one-candidate search resolves to its `id`.

A relation is skipped when its other artist's `id` or `name` is missing or
empty (`not mbid or not name`, line 73). `Truthy` is that test.

## Model

| member | source | states |
|---|---|---|
| `PyStr.Lower` | src/services/musicbrainz_client.py:63 | lower-casing keeps the length, maps each letter A-Z to its lower-case counterpart, leaves no upper-case letter and changes nothing else |
| `PyStr.Contains` | src/services/musicbrainz_client.py:64 | `pat in s` holds exactly when `pat` occurs in `s` at some offset |
| `PyStr.StripLeft` | src/services/musicbrainz_client.py:34 | the result is a suffix of `s`, everything cut off is white space, and it does not start with white space |
| `PyStr.StripRight` | src/services/musicbrainz_client.py:34 | the result is a prefix of `s`, everything cut off is white space, and it does not end with white space |
| `PyStr.StripIsTrimmedSlice` | src/services/musicbrainz_client.py:38 | `strip()` returns a contiguous slice of the name, with only white space around it |
| `PyStr.IsSpace` | src/services/musicbrainz_client.py:34 | space, tab, newline and carriage return are white space; no ASCII letter or digit is |
| `PyStr.Strip` | src/services/musicbrainz_client.py:34-38 | a non-empty stripped name neither starts nor ends with white space |
| `PyStr.StripEmptyIffAllSpace` | src/services/musicbrainz_client.py:34-35 | `not name.strip()` holds exactly when the name is empty or all white space |
| `PyStr.StripOfUnpadded` | src/services/musicbrainz_client.py:38 | a name without surrounding white space is searched for unchanged |
| `PyStr.StripIdempotent` | src/services/musicbrainz_client.py:34-38 | stripping the stripped name changes nothing |
| `PyStr.StripPadded` | src/services/musicbrainz_client.py:34-38 | white space added before and after a name does not change its strip |
| `MusicBrainzClient.FindArtistMbid` | src/services/musicbrainz_client.py:29-42 | a blank name gives `None`; otherwise a missing or empty `artist-list` gives `None` and a non-empty one gives its first candidate's `id`, possibly absent |
| `MusicBrainzClient.BlankNameNeverSearched` | src/services/musicbrainz_client.py:34-35 | for a blank name the answer is `None` whatever the search would return |
| `MusicBrainzClient.FindIgnoresSurroundingSpace` | src/services/musicbrainz_client.py:34-38 | the answer depends only on the stripped name: a name and its strip get the same answer |
| `MusicBrainzClient.FindIgnoresPadding` | src/services/musicbrainz_client.py:34-38 | padding the name with white space on either side never changes the answer |
| `MusicBrainzClient.MissingOrEmptyArtistListNone` | src/services/musicbrainz_client.py:38-41 | a search response without an `artist-list`, or with an empty one, gives `None` |
| `MusicBrainzClient.NoRelationListNoTributes` | src/services/musicbrainz_client.py:59-62 | a lookup response without an `artist` record, or whose record has no `artist-relation-list`, gives no tribute artists |
| `MusicBrainzClient.IsTributeRel` | src/services/musicbrainz_client.py:63-64 | a tribute relation has a type of at least seven characters, so a missing type never qualifies |
| `MusicBrainzClient.Qualifies` | src/services/musicbrainz_client.py:63-74 | a kept relation has a type, an other artist, and an id and a name on it |
| `MusicBrainzClient.Pick` | src/services/musicbrainz_client.py:63-76 | a relation yields an entry exactly when it is a tribute with an other artist whose id and name are non-empty, and the entry is that id and name |
| `MusicBrainzClient.Extract` | src/services/musicbrainz_client.py:61-76 | every entry the first loop appends has a non-empty MBID and name |
| `MusicBrainzClient.TributeArtists` | src/services/musicbrainz_client.py:61-85 | the post-processed list has no MBID twice, has exactly the MBIDs the first loop collected, and only entries with a non-empty MBID and name |
| `MusicBrainzClient.ExtractSound` | src/services/musicbrainz_client.py:61-76 | every entry of the first loop's list is the entry of some relation |
| `MusicBrainzClient.ExtractAppend` | src/services/musicbrainz_client.py:61-76 | the first loop keeps relation order: extraction distributes over concatenation |
| `MusicBrainzClient.UnqualifiedRelationIgnored` | src/services/musicbrainz_client.py:63-74 | removing a relation that is skipped leaves the result unchanged |
| `MusicBrainzClient.ExtractComplete` | src/services/musicbrainz_client.py:61-76 | every qualifying relation's entry is in the first loop's list |
| `MusicBrainzClient.ExtractFirstEntry` | src/services/musicbrainz_client.py:61-76 | the first entry with an MBID in that list is the entry of the first relation yielding that MBID |
| `MusicBrainzClient.TributeArtistsSound` | src/services/musicbrainz_client.py:63-76 | every returned entry has a non-empty MBID and name, and comes from a tribute relation whose other artist has exactly that id and name |
| `MusicBrainzClient.TributeArtistsUnique` | src/services/musicbrainz_client.py:79-84 | no two returned entries share an MBID |
| `MusicBrainzClient.TributeArtistsComplete` | src/services/musicbrainz_client.py:61-85 | every qualifying relation's MBID is returned, and each returned entry is that of the first relation yielding its MBID |
| `MusicBrainzClient.TributeArtistsOrder` | src/services/musicbrainz_client.py:79-85 | the result is the first loop's list restricted to first occurrences, in order, and so a subsequence of it |
| `MusicBrainzClient.CollectTributes` | src/services/musicbrainz_client.py:61-76 | the first loop, with its `continue` skips, computes `Extract` of the relation list |
| `MusicBrainzClient.DedupByMbid` | src/services/musicbrainz_client.py:79-85 | the second loop, with its `seen` set, computes `Dedup` of the extracted list |
| `MusicBrainzClient.GetTributeArtistsForOriginal` | src/services/musicbrainz_client.py:45-86 | an empty MBID gives `[]` whatever the lookup would return; otherwise the result is the filtered and de-duplicated relation list of the lookup |
| `Artists.FirstIndex` | src/services/musicbrainz_client.py:79-85 | the position of the first entry with a given MBID |
| `Artists.Dedup` | src/services/musicbrainz_client.py:79-85 | de-duplication keeps the set of MBIDs, leaves no MBID twice and only keeps input entries |
| `Artists.DedupKeepsFirstOccurrences` | src/services/musicbrainz_client.py:79-85 | de-duplication keeps exactly the entries that are the first of their MBID, in input order |
| `Artists.DedupIsSubsequence` | src/services/musicbrainz_client.py:79-85 | the de-duplicated list is a subsequence of its input |
| `Artists.DedupKeepsFirstEntry` | src/services/musicbrainz_client.py:79-85 | for every MBID of the input, the entry kept is the first input entry with that MBID |
| `Artists.DedupOfUnique` | src/services/musicbrainz_client.py:79-85 | a list whose MBIDs are already distinct comes back unchanged |
| `Artists.DedupIdempotent` | src/services/musicbrainz_client.py:79-85 | de-duplicating twice is de-duplicating once |
| `Scenarios.DuplicateEdgesCollapse` | src/services/musicbrainz_client.py:79-85 | two tribute edges to artist A yield one entry for A |
| `Scenarios.MixedCaseTypeMatches` | src/services/musicbrainz_client.py:63-64 | the type "Tribute Band" counts as a tribute |
| `Scenarios.OtherTypeExcluded` | src/services/musicbrainz_client.py:63-65 | the type "collaboration" does not count as a tribute |
| `Scenarios.MissingTypeExcluded` | src/services/musicbrainz_client.py:63-65 | a relation without a type does not count as a tribute |
| `Scenarios.MissingNameDropped` | src/services/musicbrainz_client.py:71-74 | a tribute whose other artist has no name yields nothing |
| `Scenarios.SearchResolvesFirstId` | src/services/musicbrainz_client.py:38-42 | a search answering one candidate with id "mb-1" resolves "Example" to "mb-1" |
| `Scenarios.LookupYieldsOneTribute` | src/services/musicbrainz_client.py:59-86 | one tribute and one other relation yield exactly the tribute's entry |

## Left out

- `_throttle` and its global `_last_request_ts` (src/services/musicbrainz_client.py:15-26) are not modelled. The spacing they enforce depends on wall-clock time, a floating-point gap of 1.1 seconds and a blocking sleep.
- `musicbrainzngs.set_useragent` (line 12) is not modelled: it only configures request headers.
- The model's typed responses cannot hold a value of the wrong type, so what the source does with one is not modelled. The source raises on most such values, for example: `"artist": None` (`.get` on `None`, line 62), a null `artist-relation-list` (iterating `None`, line 62), a relation element that is not a dict (`rel.get`, line 63), a truthy non-string `type` (`.lower()`, line 63), a truthy relation `artist` that is not a dict (`.get`, lines 71-72), a truthy `artist-list` that is not a list of dicts, or a candidate that is not a dict (`artists[0].get`, line 42).
- A truthy hashable non-string `id` (an integer, say), or any truthy non-string `name`, is appended at line 76 and returned unchanged by the source. An unhashable `id` (a list or a dict) is appended too, but then makes line 82 raise `TypeError` when it is looked up in `seen`. The model's string fields cannot represent either.
- A null `type`, relation `artist`, `id`, `name` or `artist-list` does not raise: the source treats it as absent, and so does the model, which reads an absent key as the `.get` default.
- The network calls themselves are not modelled. The model receives their parsed responses through function parameters. An exception a call raises propagates unchanged in the source; the model has no error path for it.
- The model does not use the search `limit` of 1 to bound the response. It reads only the first candidate, as the source does.
- `PyStr.Lower`: lower-cases only ASCII A-Z. Python's `str.lower` also maps non-ASCII letters, some of them to longer strings.
- src/services/config.py (environment and `.env` loading) is not part of this model.
- src/scripts/smoke_test.py (a demonstration that prints) is not part of this model.
- Calling the lookup twice for the same MBID against unchanged data gives the same list. This holds because every operation is a function of its inputs; no separate lemma states it.
