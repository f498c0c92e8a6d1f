/** Properties proved about concrete responses, one per behaviour of the source. */
module Scenarios {
  import opened Wrappers
  import opened PyStr
  import opened Artists
  import opened MusicBrainzClient

  /** A string with no upper-case letter is its own lower-case form. */
  lemma LowerOfLowerCase(s: string)
    requires forall c :: c in s ==> !('A' <= c <= 'Z')
    ensures Lower(s) == s
  {
    assert forall i :: 0 <= i < |s| ==> s[i] in s;
  }

  /** Lower-casing a prefix is taking the prefix of the lower-cased string. */
  lemma LowerPrefix(s: string, n: nat)
    requires n <= |s|
    ensures Lower(s)[..n] == Lower(s[..n])
  {
  }

  /** A label containing the lower-case word counts as a tribute. */
  lemma TributeWordAt(s: string, i: nat)
    requires forall c :: c in s ==> !('A' <= c <= 'Z')
    requires i + 7 <= |s| && s[i..i + 7] == "tribute"
    ensures Contains(Lower(s), "tribute")
  {
    LowerOfLowerCase(s);
    assert OccursAt(Lower(s), "tribute", i);
  }

  /** `pat` cannot occur where its first character does not. */
  lemma NoOccurrence(s: string, pat: string)
    requires |pat| > 0 && |s| + 1 >= |pat|
    requires pat[0] !in s[..|s| + 1 - |pat|]
    ensures !Contains(s, pat)
  {
    forall i | OccursAt(s, pat, i) ensures false {
    }
  }

  /** A type label without the word "tribute" in it, even ignoring case. */
  lemma NotTributeLabel(typeLabel: string)
    requires forall c :: c in typeLabel ==> !('A' <= c <= 'Z')
    requires |typeLabel| >= 6 && 't' !in typeLabel[..|typeLabel| - 6]
    ensures !Contains(Lower(typeLabel), "tribute")
  {
    LowerOfLowerCase(typeLabel);
    NoOccurrence(typeLabel, "tribute");
  }

  /** The first loop on two relations appends what each yields, in order. */
  lemma ExtractPair(r1: Rel, r2: Rel)
    ensures Extract([r1, r2]) == Picked(r1) + Picked(r2)
  {
    assert Extract([r1]) == Picked(r1) by {
      assert Init([r1]) == [];
      assert Extract([r1]) == Extract([]) + Picked(Last([r1]));
    }
    assert Init([r1, r2]) == [r1];
    assert Extract([r1, r2]) == Extract([r1]) + Picked(Last([r1, r2]));
  }

  /** The same entry twice is kept once. */
  lemma DedupRepeated(e: ArtistRef)
    ensures Dedup([e, e]) == [e]
  {
    assert Init([e, e]) == [e];
    DedupOfUnique([e]);
  }

  /** Two tribute edges to the same artist yield a single entry. */
  lemma DuplicateEdgesCollapse(rels: seq<Rel>)
    requires rels == [Rel(Some("tribute"), Some(Other(Some("A"), Some("X")))),
                      Rel(Some("is tribute to"), Some(Other(Some("A"), Some("X"))))]
    ensures TributeArtists(rels) == [ArtistRef("A", "X")]
  {
    var e := ArtistRef("A", "X");
    assert Pick(rels[0]) == Some(e) by {
      TributeWordAt("tribute", 0);
    }
    assert Pick(rels[1]) == Some(e) by {
      var t := "is tribute to";
      assert t[3..10] == "tribute";
      TributeWordAt(t, 3);
    }
    assert Extract(rels) == [e, e] by {
      assert rels == [rels[0], rels[1]];
      ExtractPair(rels[0], rels[1]);
    }
    DedupRepeated(e);
  }

  /** The type label is compared after lower-casing: "Tribute Band" matches. */
  lemma MixedCaseTypeMatches(other: Other)
    ensures IsTributeRel(Rel(Some("Tribute Band"), Some(other)))
  {
    var t := "Tribute Band";
    LowerPrefix(t, 7);
    assert t[..7] == "Tribute";
    assert Lower("Tribute") == "tribute";
    assert OccursAt(Lower(t), "tribute", 0);
  }

  /** A label without the word is no tribute: "collaboration" does not match. */
  lemma OtherTypeExcluded(other: Other)
    ensures !IsTributeRel(Rel(Some("collaboration"), Some(other)))
  {
    NotTributeLabel("collaboration");
  }

  /** A missing type label is treated as "" and excluded. */
  lemma MissingTypeExcluded(other: Option<Other>)
    ensures !IsTributeRel(Rel(None, other))
  {
  }

  /** A tribute relation whose other artist has no name is dropped, not an error. */
  lemma MissingNameDropped(id: Option<string>)
    ensures Pick(Rel(Some("tribute"), Some(Other(id, None)))) == None
  {
  }

  /** A name without surrounding white space is searched for as it is. */
  lemma SearchUnpaddedName(name: string, search: (string, nat) -> SearchResponse, cands: seq<Candidate>)
    requires name != [] && !IsSpace(name[0]) && !IsSpace(name[|name| - 1])
    requires search(name, SearchLimit) == SearchResponse(Some(cands)) && cands != []
    ensures FindArtistMbid(name, search) == cands[0].id
  {
    StripOfUnpadded(name);
    assert !AllSpace(name);
  }

  /** A search that returns one candidate resolves to its `id`. */
  lemma SearchResolvesFirstId(search: (string, nat) -> SearchResponse)
    requires search("Example", SearchLimit) == SearchResponse(Some([Candidate(Some("mb-1"), Some("Example"))]))
    ensures FindArtistMbid("Example", search) == Some("mb-1")
  {
    var name := "Example";
    assert name[0] == 'E' && name[|name| - 1] == 'e';
    SearchUnpaddedName(name, search, [Candidate(Some("mb-1"), Some("Example"))]);
  }

  /** One matching and one non-matching relation: a single-element result. */
  lemma LookupYieldsOneTribute(lookup: (string, seq<string>) -> LookupResponse)
    requires lookup("mb-1", ArtistIncludes) ==
      LookupResponse(Some(ArtistDetails(Some([
        Rel(Some("tribute"), Some(Other(Some("mb-2"), Some("Example Tribute Band")))),
        Rel(Some("member of band"), Some(Other(Some("mb-3"), Some("Someone"))))]))))
    ensures TributeArtists(Relations(lookup("mb-1", ArtistIncludes))) ==
            [ArtistRef("mb-2", "Example Tribute Band")]
  {
    var r1 := Rel(Some("tribute"), Some(Other(Some("mb-2"), Some("Example Tribute Band"))));
    var r2 := Rel(Some("member of band"), Some(Other(Some("mb-3"), Some("Someone"))));
    var e := ArtistRef("mb-2", "Example Tribute Band");
    assert Relations(lookup("mb-1", ArtistIncludes)) == [r1, r2];
    assert Pick(r1) == Some(e) by {
      TributeWordAt("tribute", 0);
    }
    assert Pick(r2) == None by {
      NotTributeLabel("member of band");
    }
    ExtractPair(r1, r2);
    DedupOfUnique([e]);
  }
}
