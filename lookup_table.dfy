/**
 * The dictionary `_buildSGLookupTable` fills from the ordered list of space
 * groups, stated as a function of that list, and the first-writer-wins rule
 * that characterises it: every key maps to the earliest group offering it.
 */
module LookupTable {
  import opened Wrappers
  import opened PyStr

  /** A space-group definition, reduced to the four fields the resolver reads.
      The names may be missing (`None`). */
  datatype SpaceGroup = SpaceGroup(
    number: int,
    shortName: Option<string>,
    pdbName: Option<string>,
    altName: Option<string>)

  /** A key of the lookup dictionary, which is also what a caller may pass as
      an identifier: a Python `int`, a `str`, or `None`. */
  datatype Key = IntKey(n: int) | StrKey(s: string) | NoneKey

  type Table = map<Key, SpaceGroup>

  /** The key a name produces; a missing name produces the `None` key. */
  function NameKey(name: Option<string>): Key {
    match name
    case Some(s) => StrKey(s)
    case None => NoneKey
  }

  /** The five keys a group offers, in the order they are offered: its
      number, the number's decimal text, and its three names. */
  function CandidateKeys(g: SpaceGroup): seq<Key> {
    [IntKey(g.number), StrKey(IntToDecimal(g.number)),
     NameKey(g.shortName), NameKey(g.pdbName), NameKey(g.altName)]
  }

  predicate Offers(g: SpaceGroup, k: Key) {
    k in CandidateKeys(g)
  }

  /** Only the number yields an integer key. */
  lemma OffersIntKey(g: SpaceGroup, n: int)
    ensures Offers(g, IntKey(n)) <==> g.number == n
  {
  }

  /** `t.setdefault(k, g)`, on the dictionary's contents: a key already
      present keeps its group. */
  function SetDefault(t: Table, k: Key, g: SpaceGroup): Table {
    if k in t then t else t[k := g]
  }

  /** What `setdefault` does to each key. */
  lemma SetDefaultAt(t: Table, k: Key, g: SpaceGroup, k': Key)
    ensures k' in SetDefault(t, k, g) <==> k' in t || k' == k
    ensures k' in t ==> SetDefault(t, k, g)[k'] == t[k']
    ensures k' !in t && k' == k ==> SetDefault(t, k, g)[k'] == g
  {
  }

  /** One iteration of the build loop: the five `setdefault` calls for `g`,
      in order. Keys already present keep their groups; the keys `g` offers
      that were missing now map to `g`. */
  function OfferAll(t: Table, g: SpaceGroup): (r: Table)
    ensures forall k :: k in r <==> k in t || Offers(g, k)
    ensures forall k :: k in t ==> r[k] == t[k]
    ensures forall k :: k in r && k !in t ==> r[k] == g
  {
    var ks := CandidateKeys(g);
    var t1 := SetDefault(t, ks[0], g);
    var t2 := SetDefault(t1, ks[1], g);
    var t3 := SetDefault(t2, ks[2], g);
    var t4 := SetDefault(t3, ks[3], g);
    var r := SetDefault(t4, ks[4], g);
    assert forall k :: Offers(g, k) <==> k in [ks[0], ks[1], ks[2], ks[3], ks[4]];
    assert forall k ::
      && (k in r <==> k in t || k in [ks[0], ks[1], ks[2], ks[3], ks[4]])
      && (k in t ==> r[k] == t[k])
      && (k in r && k !in t ==> r[k] == g)
    by {
      forall k
        ensures k in r <==> k in t || k in [ks[0], ks[1], ks[2], ks[3], ks[4]]
        ensures k in t ==> r[k] == t[k]
        ensures k in r && k !in t ==> r[k] == g
      {
        SetDefaultAt(t, ks[0], g, k);
        SetDefaultAt(t1, ks[1], g, k);
        SetDefaultAt(t2, ks[2], g, k);
        SetDefaultAt(t3, ks[3], g, k);
        SetDefaultAt(t4, ks[4], g, k);
      }
    }
    r
  }

  /** Some group of the list offers `k`. */
  ghost predicate SomeOffer(groups: seq<SpaceGroup>, k: Key) {
    exists i :: 0 <= i < |groups| && Offers(groups[i], k)
  }

  /** `groups[i]` offers `k` and no earlier group does. */
  ghost predicate FirstOffer(groups: seq<SpaceGroup>, k: Key, i: int) {
    && 0 <= i < |groups|
    && Offers(groups[i], k)
    && forall j :: 0 <= j < i ==> !Offers(groups[j], k)
  }

  /** A key is offered by a list exactly when it is offered by all but the
      last group, or by the last group. */
  lemma SomeOfferLast(groups: seq<SpaceGroup>, k: Key)
    requires groups != []
    ensures SomeOffer(groups, k)
        <==> SomeOffer(groups[..|groups| - 1], k) || Offers(groups[|groups| - 1], k)
  {
    var n := |groups| - 1;
    if i :| 0 <= i < |groups| && Offers(groups[i], k) {
      if i < n {
        assert groups[..n][i] == groups[i];
      }
    }
    if i :| 0 <= i < n && Offers(groups[..n][i], k) {
      assert groups[i] == groups[..n][i];
    }
  }

  /** The dictionary after the loop over `groups`, before `None` is purged.
      Its keys are exactly the offered keys, and its groups come from the list. */
  function Filled(groups: seq<SpaceGroup>): (t: Table)
    ensures forall k :: k in t <==> SomeOffer(groups, k)
    ensures forall k :: k in t ==> t[k] in groups
  {
    if groups == [] then map[]
    else
      var n := |groups| - 1;
      var prev := Filled(groups[..n]);
      assert forall k :: k in prev ==> prev[k] in groups;
      var t := OfferAll(prev, groups[n]);
      assert forall k :: k in t <==> SomeOffer(groups, k) by {
        forall k ensures k in t <==> SomeOffer(groups, k) {
          SomeOfferLast(groups, k);
        }
      }
      t
  }

  /** One more iteration of the build loop offers the next group's keys. */
  lemma FilledStep(groups: seq<SpaceGroup>, i: int)
    requires 0 <= i < |groups|
    ensures Filled(groups[..i + 1]) == OfferAll(Filled(groups[..i]), groups[i])
  {
    assert groups[..i + 1][..i] == groups[..i];
  }

  /** `del t[None]` when `None` is a key: every other key keeps its group. */
  function PurgeNone(t: Table): (r: Table)
    ensures forall k :: k in r <==> k in t && k != NoneKey
    ensures forall k :: k in r ==> r[k] == t[k]
  {
    if NoneKey in t then t - {NoneKey} else t
  }

  /** The dictionary `_buildSGLookupTable` leaves behind: the filled
      dictionary with the `None` key deleted. */
  function BuildTable(groups: seq<SpaceGroup>): (t: Table)
    ensures NoneKey !in t
    ensures forall k :: k in t <==> k != NoneKey && SomeOffer(groups, k)
    ensures forall k :: k in t ==> t[k] in groups
  {
    PurgeNone(Filled(groups))
  }

  /** A first offer in all but the last group stays a first offer. */
  lemma FirstOfferExtends(groups: seq<SpaceGroup>, k: Key, i: int)
    requires groups != [] && FirstOffer(groups[..|groups| - 1], k, i)
    ensures FirstOffer(groups, k, i)
  {
    assert forall j :: 0 <= j <= i ==> groups[..|groups| - 1][j] == groups[j];
  }

  /** When no earlier group offers `k`, the last group's offer is the first. */
  lemma FirstOfferAtLast(groups: seq<SpaceGroup>, k: Key)
    requires groups != [] && !SomeOffer(groups[..|groups| - 1], k)
    requires Offers(groups[|groups| - 1], k)
    ensures FirstOffer(groups, k, |groups| - 1)
  {
    var n := |groups| - 1;
    forall j | 0 <= j < n ensures !Offers(groups[j], k) {
      assert groups[..n][j] == groups[j];
    }
  }

  /** First writer wins, before the purge: every key maps to the earliest
      group of the list that offers it. */
  lemma {:induction false} FilledFirstWins(groups: seq<SpaceGroup>, k: Key)
    requires k in Filled(groups)
    ensures exists i :: FirstOffer(groups, k, i) && Filled(groups)[k] == groups[i]
  {
    var n := |groups| - 1;
    var prev := Filled(groups[..n]);
    assert Filled(groups) == OfferAll(prev, groups[n]);
    if k in prev {
      FilledFirstWins(groups[..n], k);
      var i :| FirstOffer(groups[..n], k, i) && prev[k] == groups[..n][i];
      FirstOfferExtends(groups, k, i);
      assert Filled(groups)[k] == groups[i];
    } else {
      SomeOfferLast(groups, k);
      FirstOfferAtLast(groups, k);
      assert Filled(groups)[k] == groups[n];
    }
  }

  /** First writer wins: after a build, every key of the table maps to the
      earliest group of the list that offers it. */
  lemma TableFirstWins(groups: seq<SpaceGroup>, k: Key)
    requires k in BuildTable(groups)
    ensures exists i :: FirstOffer(groups, k, i) && BuildTable(groups)[k] == groups[i]
  {
    FilledFirstWins(groups, k);
  }

  /** Only one group can be the first to offer a key. */
  lemma FirstOfferUnique(groups: seq<SpaceGroup>, k: Key, i: int, j: int)
    requires FirstOffer(groups, k, i) && FirstOffer(groups, k, j)
    ensures i == j
  {
  }

  /** The table value of `k` is determined by the first group offering it. */
  lemma TableAtFirstOffer(groups: seq<SpaceGroup>, k: Key, i: int)
    requires FirstOffer(groups, k, i) && k != NoneKey
    ensures k in BuildTable(groups) && BuildTable(groups)[k] == groups[i]
  {
    TableFirstWins(groups, k);
    var j :| FirstOffer(groups, k, j) && BuildTable(groups)[k] == groups[j];
    FirstOfferUnique(groups, k, i, j);
  }

  /** Each group's number and the number's decimal text are keys. */
  lemma NumberKeysPresent(groups: seq<SpaceGroup>, i: int)
    requires 0 <= i < |groups|
    ensures IntKey(groups[i].number) in BuildTable(groups)
    ensures StrKey(IntToDecimal(groups[i].number)) in BuildTable(groups)
  {
    assert Offers(groups[i], IntKey(groups[i].number));
    assert Offers(groups[i], StrKey(IntToDecimal(groups[i].number)));
  }

  /** An integer key maps to the earliest group with that number. */
  lemma IntKeyFirstNumber(groups: seq<SpaceGroup>, n: int)
    requires IntKey(n) in BuildTable(groups)
    ensures exists j ::
      && 0 <= j < |groups|
      && BuildTable(groups)[IntKey(n)] == groups[j]
      && groups[j].number == n
      && forall j' :: 0 <= j' < j ==> groups[j'].number != n
  {
    TableFirstWins(groups, IntKey(n));
    var j :| FirstOffer(groups, IntKey(n), j) && BuildTable(groups)[IntKey(n)] == groups[j];
    OffersIntKey(groups[j], n);
    forall j' | 0 <= j' < j ensures groups[j'].number != n {
      OffersIntKey(groups[j'], n);
    }
  }

  /** The earlier catalogue takes precedence: every key the first catalogue
      offers resolves, in the table of the concatenation, exactly as in the
      table of the first catalogue alone. */
  lemma CataloguePrecedence(first: seq<SpaceGroup>, second: seq<SpaceGroup>, k: Key)
    requires k in BuildTable(first)
    ensures k in BuildTable(first + second)
    ensures BuildTable(first + second)[k] == BuildTable(first)[k]
  {
    var all := first + second;
    TableFirstWins(first, k);
    var i :| FirstOffer(first, k, i) && BuildTable(first)[k] == first[i];
    assert forall j :: 0 <= j < |first| ==> all[j] == first[j];
    assert FirstOffer(all, k, i);
    TableAtFirstOffer(all, k, i);
  }
}
