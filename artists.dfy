/**
 * The tribute entries the client returns, `{"mbid": ..., "name": ...}`, and
 * the de-duplication by MBID that the client applies to them, specified as
 * functions on sequences together with the properties the client relies on.
 */
module Artists {

  /** One returned entry: a MusicBrainz artist identifier and a display name. */
  datatype ArtistRef = ArtistRef(mbid: string, name: string)

  /** All but the last element. */
  function Init<T>(s: seq<T>): seq<T>
    requires |s| > 0
  {
    s[..|s| - 1]
  }

  /** The last element. */
  function Last<T>(s: seq<T>): T
    requires |s| > 0
  {
    s[|s| - 1]
  }

  /** The identifiers occurring in a list of entries. */
  function Mbids(xs: seq<ArtistRef>): set<string> {
    set e | e in xs :: e.mbid
  }

  lemma MbidsAppend(xs: seq<ArtistRef>, x: ArtistRef)
    ensures Mbids(xs + [x]) == Mbids(xs) + {x.mbid}
  {
    assert forall e :: e in xs + [x] <==> e in xs || e == x;
  }

  /** No two entries share an identifier. */
  predicate NoDupMbids(xs: seq<ArtistRef>) {
    forall i, j :: 0 <= i < j < |xs| ==> xs[i].mbid != xs[j].mbid
  }

  /** The entry at `i` is the first one carrying its identifier. */
  predicate IsFirst(xs: seq<ArtistRef>, i: int)
    requires 0 <= i < |xs|
  {
    forall j :: 0 <= j < i ==> xs[j].mbid != xs[i].mbid
  }

  /** The position of the first entry with identifier `m`. */
  function FirstIndex(xs: seq<ArtistRef>, m: string): (k: nat)
    requires m in Mbids(xs)
    ensures k < |xs| && xs[k].mbid == m
    ensures forall j :: 0 <= j < k ==> xs[j].mbid != m
  {
    MbidsAppend(Init(xs), Last(xs));
    assert xs == Init(xs) + [Last(xs)];
    if m in Mbids(Init(xs)) then FirstIndex(Init(xs), m) else |xs| - 1
  }

  /** Appending an entry leaves earlier first positions alone and may add one at the end. */
  lemma FirstIndexAppend(xs: seq<ArtistRef>, x: ArtistRef, m: string)
    requires m in Mbids(xs) || x.mbid == m
    ensures m in Mbids(xs + [x])
    ensures FirstIndex(xs + [x], m) == if m in Mbids(xs) then FirstIndex(xs, m) else |xs|
  {
    MbidsAppend(xs, x);
    assert Init(xs + [x]) == xs;
  }

  /**
   * De-duplication by identifier: walking the list in order, an entry is
   * kept unless an entry with the same identifier was already kept.
   */
  function Dedup(xs: seq<ArtistRef>): (r: seq<ArtistRef>)
    ensures Mbids(r) == Mbids(xs)
    ensures NoDupMbids(r)
    ensures forall e :: e in r ==> e in xs
  {
    if xs == [] then
      []
    else
      var d := Dedup(Init(xs));
      var x := Last(xs);
      MbidsAppend(Init(xs), x);
      MbidsAppend(d, x);
      assert xs == Init(xs) + [x];
      if x.mbid in Mbids(d) then
        d
      else
        assert forall i :: 0 <= i < |d| ==> d[i].mbid in Mbids(d);
        d + [x]
  }

  /** The elements of `xs` whose position is marked in `keep`, in order. */
  function Select<T>(xs: seq<T>, keep: seq<bool>): (r: seq<T>)
    requires |keep| == |xs|
  {
    if xs == [] then []
    else Select(Init(xs), Init(keep)) + (if Last(keep) then [Last(xs)] else [])
  }

  /** `sub` is a subsequence of `xs`: it keeps some of its elements, in order. */
  ghost predicate IsSubsequence<T>(sub: seq<T>, xs: seq<T>) {
    exists keep :: |keep| == |xs| && Select(xs, keep) == sub
  }

  /** Marks the positions that hold the first entry of their identifier. */
  function FirstMask(xs: seq<ArtistRef>): (keep: seq<bool>)
    ensures |keep| == |xs|
  {
    seq(|xs|, i requires 0 <= i < |xs| => IsFirst(xs, i))
  }

  /**
   * Reference definition: the de-duplicated list consists of exactly the
   * entries that are the first of their identifier, in their original order.
   */
  lemma {:induction false} DedupKeepsFirstOccurrences(xs: seq<ArtistRef>)
    ensures Dedup(xs) == Select(xs, FirstMask(xs))
  {
    if xs != [] {
      var init, x := Init(xs), Last(xs);
      DedupKeepsFirstOccurrences(init);
      assert Init(FirstMask(xs)) == FirstMask(init) by {
        forall i | 0 <= i < |init| ensures IsFirst(xs, i) == IsFirst(init, i) {
        }
      }
      assert Last(FirstMask(xs)) <==> x.mbid !in Mbids(init) by {
        if x.mbid in Mbids(init) {
          var k := FirstIndex(init, x.mbid);
          assert xs[k].mbid == xs[|xs| - 1].mbid;
        }
      }
      var d := Dedup(init);
      assert Mbids(d) == Mbids(init);
      assert Dedup(xs) == if x.mbid in Mbids(d) then d else d + [x];
      assert Select(xs, FirstMask(xs)) ==
             Select(init, FirstMask(init)) + (if Last(FirstMask(xs)) then [x] else []);
    }
  }

  /** The de-duplicated list is a subsequence of its input. */
  lemma DedupIsSubsequence(xs: seq<ArtistRef>)
    ensures IsSubsequence(Dedup(xs), xs)
  {
    DedupKeepsFirstOccurrences(xs);
  }

  /**
   * For each identifier of the input, the entry kept is the first entry of
   * the input with that identifier.
   */
  lemma {:induction false} DedupKeepsFirstEntry(xs: seq<ArtistRef>)
    ensures forall m :: m in Mbids(xs) ==> xs[FirstIndex(xs, m)] in Dedup(xs)
    ensures forall e :: e in Dedup(xs) ==> e == xs[FirstIndex(xs, e.mbid)]
  {
    if xs != [] {
      var init, x := Init(xs), Last(xs);
      DedupKeepsFirstEntry(init);
      MbidsAppend(init, x);
      assert xs == init + [x];
    }
  }

  /** A list whose identifiers are already distinct comes back unchanged. */
  lemma {:induction false} DedupOfUnique(xs: seq<ArtistRef>)
    requires NoDupMbids(xs)
    ensures Dedup(xs) == xs
  {
    if xs != [] {
      var init, x := Init(xs), Last(xs);
      assert NoDupMbids(init) by {
        forall i, j | 0 <= i < j < |init| ensures init[i].mbid != init[j].mbid {
          assert init[i] == xs[i] && init[j] == xs[j];
        }
      }
      DedupOfUnique(init);
      assert x.mbid !in Mbids(init) by {
        forall i | 0 <= i < |init| ensures init[i].mbid != x.mbid {
          assert init[i] == xs[i];
        }
      }
      assert Dedup(xs) == Dedup(init) + [x];
      assert xs == init + [x];
    }
  }

  /** De-duplicating twice is de-duplicating once. */
  lemma DedupIdempotent(xs: seq<ArtistRef>)
    ensures Dedup(Dedup(xs)) == Dedup(xs)
  {
    DedupOfUnique(Dedup(xs));
  }
}
