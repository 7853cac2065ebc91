/**
 * The space-group identifier resolver: the lazily built lookup table, the
 * lookup with its ordered fallback spellings, and the non-raising probe.
 */
module SpaceGroups {
  import opened Wrappers
  import opened PyStr
  import opened LookupTable

  // ------------------------------------------------------------------ errors

  /** The `ValueError` raised for an identifier that resolves to nothing; it
      carries the identifier exactly as the caller gave it. */
  datatype LookupError = UnknownIdentifier(sgid: Key)

  /** `repr` of an identifier. */
  function Repr(k: Key): (r: string)
    ensures r != []
  {
    match k
    case IntKey(n) => IntToDecimal(n)
    case StrKey(s) => StrRepr(s)
    case NoneKey => "None"
  }

  /** The text of the `ValueError`: a fixed prefix and the `repr` of the
      identifier. */
  function ErrorMessage(e: LookupError): (m: string)
    ensures |m| > |"Unknown space group identifier "|
    ensures m[..|"Unknown space group identifier "|] == "Unknown space group identifier "
  {
    "Unknown space group identifier " + Repr(e.sgid)
  }

  /** The message names the identifier unambiguously: two errors with the
      same message were raised for the same identifier. */
  lemma ErrorMessageIdentifies(e1: LookupError, e2: LookupError)
    requires ErrorMessage(e1) == ErrorMessage(e2)
    ensures e1 == e2
  {
    var prefix := "Unknown space group identifier ";
    var r1, r2 := Repr(e1.sgid), Repr(e2.sgid);
    assert r1 == ErrorMessage(e1)[|prefix|..] == ErrorMessage(e2)[|prefix|..] == r2;
    match e1.sgid
    case IntKey(m) =>
      match e2.sgid {
        case IntKey(n) => DecimalInjective(m, n);
        case StrKey(t) =>
        case NoneKey =>
      }
    case StrKey(s) =>
      match e2.sgid {
        case IntKey(n) =>
        case StrKey(t) => StrReprInjective(s, t);
        case NoneKey =>
      }
    case NoneKey =>
      match e2.sgid {
        case IntKey(n) =>
        case StrKey(t) =>
        case NoneKey =>
      }
  }

  // -------------------------------------------------------------- resolution

  /** The keys tried for an identifier, in order: the identifier itself, and
      for a string then its stripped title-cased spelling, its stripped
      upper-cased spelling, and the original with every U+0020 space removed. */
  function Attempts(sgid: Key): (ks: seq<Key>)
    ensures ks != [] && ks[0] == sgid
    ensures |ks| > 1 <==> sgid.StrKey?
  {
    match sgid
    case StrKey(s) =>
      [sgid, StrKey(TitleCase(Strip(s))), StrKey(Upper(Strip(s))), StrKey(RemoveSpaces(s))]
    case _ => [sgid]
  }

  /** What `GetSpaceGroup` returns or raises, given the built table `t`. */
  function Resolve(t: Table, sgid: Key): (r: Result<SpaceGroup, LookupError>)
    ensures r.Failure? ==> r.error == UnknownIdentifier(sgid)
    ensures r.Success? ==> r.value in t.Values
  {
    if sgid in t then Success(t[sgid])
    else if !sgid.StrKey? then Failure(UnknownIdentifier(sgid))
    else
      var title := StrKey(TitleCase(Strip(sgid.s)));
      if title in t then Success(t[title])
      else
        var upper := StrKey(Upper(Strip(sgid.s)));
        if upper in t then Success(t[upper])
        else
          var unblanked := StrKey(RemoveSpaces(sgid.s));
          if unblanked in t then Success(t[unblanked])
          else Failure(UnknownIdentifier(sgid))
  }

  /** An ordered fallback over the keys `ks`: the group of the first key
      present in `t`, or the error for `sgid` when none is. */
  function Fallback(t: Table, ks: seq<Key>, sgid: Key): (r: Result<SpaceGroup, LookupError>)
    ensures r.Success? <==> exists k :: k in ks && k in t
    ensures r.Failure? ==> r == Failure(UnknownIdentifier(sgid))
  {
    if ks == [] then Failure(UnknownIdentifier(sgid))
    else if ks[0] in t then Success(t[ks[0]])
    else
      assert forall k :: k in ks <==> k == ks[0] || k in ks[1..];
      Fallback(t, ks[1..], sgid)
  }

  /** `ks[i]` is a key of `t` and no earlier key of `ks` is. */
  ghost predicate FirstHit(t: Table, ks: seq<Key>, i: int) {
    0 <= i < |ks| && ks[i] in t && forall j :: 0 <= j < i ==> ks[j] !in t
  }

  /** The fallback returns the group of the first key present. */
  lemma {:induction false} FallbackFirstHit(t: Table, ks: seq<Key>, sgid: Key, i: int)
    requires FirstHit(t, ks, i)
    ensures Fallback(t, ks, sgid) == Success(t[ks[i]])
  {
    if i > 0 {
      assert ks[0] !in t;
      assert FirstHit(t, ks[1..], i - 1);
      FallbackFirstHit(t, ks[1..], sgid, i - 1);
    }
  }

  /** The fallback over four keys, unfolded. */
  lemma FallbackOverFour(t: Table, k0: Key, k1: Key, k2: Key, k3: Key, sgid: Key)
    ensures Fallback(t, [k0, k1, k2, k3], sgid)
         == if k0 in t then Success(t[k0])
            else if k1 in t then Success(t[k1])
            else if k2 in t then Success(t[k2])
            else if k3 in t then Success(t[k3])
            else Failure(UnknownIdentifier(sgid))
  {
    assert [k0, k1, k2, k3][1..] == [k1, k2, k3];
    assert [k1, k2, k3][1..] == [k2, k3];
    assert [k2, k3][1..] == [k3];
    assert [k3][1..] == [];
    var failed := Failure(UnknownIdentifier(sgid));
    assert Fallback(t, [k3], sgid) == if k3 in t then Success(t[k3]) else failed;
    assert Fallback(t, [k2, k3], sgid)
        == if k2 in t then Success(t[k2]) else Fallback(t, [k3], sgid);
    assert Fallback(t, [k1, k2, k3], sgid)
        == if k1 in t then Success(t[k1]) else Fallback(t, [k2, k3], sgid);
  }

  /** Resolution is the ordered fallback over the attempted keys: the exact
      identifier first, and only for a string the three spellings after it. */
  lemma ResolveIsFallback(t: Table, sgid: Key)
    ensures Resolve(t, sgid) == Fallback(t, Attempts(sgid), sgid)
  {
    match sgid
    case StrKey(s) =>
      FallbackOverFour(t, sgid, StrKey(TitleCase(Strip(s))), StrKey(Upper(Strip(s))),
        StrKey(RemoveSpaces(s)), sgid);
    case _ =>
      assert Attempts(sgid)[1..] == [];
  }

  /** Every group the resolver returns is one of the catalogue's groups. */
  lemma ResolvedGroupInCatalogue(groups: seq<SpaceGroup>, sgid: Key)
    requires Resolve(BuildTable(groups), sgid).Success?
    ensures Resolve(BuildTable(groups), sgid).value in groups
  {
  }

  /** `None` is never resolved: the build purges it, and it is not a string. */
  lemma NoneNeverResolves(groups: seq<SpaceGroup>)
    ensures Resolve(BuildTable(groups), NoneKey) == Failure(UnknownIdentifier(NoneKey))
  {
  }

  /** Every group's number resolves, to the earliest group with that number. */
  lemma NumberResolves(groups: seq<SpaceGroup>, i: int)
    requires 0 <= i < |groups|
    ensures Resolve(BuildTable(groups), IntKey(groups[i].number)).Success?
    ensures var h := Resolve(BuildTable(groups), IntKey(groups[i].number)).value;
      && h.number == groups[i].number
      && exists j ::
        && 0 <= j <= i
        && h == groups[j]
        && forall j' :: 0 <= j' < j ==> groups[j'].number != groups[i].number
  {
    var n := groups[i].number;
    NumberKeysPresent(groups, i);
    IntKeyFirstNumber(groups, n);
    var j :| 0 <= j < |groups| && BuildTable(groups)[IntKey(n)] == groups[j]
      && groups[j].number == n && forall j' :: 0 <= j' < j ==> groups[j'].number != n;
  }

  /** Some group of the list has the key `k` among its names. */
  ghost predicate NamedBy(groups: seq<SpaceGroup>, k: Key) {
    exists j :: 0 <= j < |groups| &&
      k in [NameKey(groups[j].shortName), NameKey(groups[j].pdbName), NameKey(groups[j].altName)]
  }

  /** A text a group offers, but not as one of its names, is its number's
      decimal text. */
  lemma OfferedUnnamedText(g: SpaceGroup, s: string)
    requires Offers(g, StrKey(s))
    requires StrKey(s) !in [NameKey(g.shortName), NameKey(g.pdbName), NameKey(g.altName)]
    ensures s == IntToDecimal(g.number)
  {
  }

  /** When no group has a number's decimal text as a name, the first group
      offering that text offers it as its own number. */
  lemma DecimalKeyNumber(groups: seq<SpaceGroup>, i: int)
    requires 0 <= i < |groups|
    requires !NamedBy(groups, StrKey(IntToDecimal(groups[i].number)))
    ensures StrKey(IntToDecimal(groups[i].number)) in BuildTable(groups)
    ensures BuildTable(groups)[StrKey(IntToDecimal(groups[i].number))].number == groups[i].number
  {
    var k := StrKey(IntToDecimal(groups[i].number));
    NumberKeysPresent(groups, i);
    TableFirstWins(groups, k);
    var j :| FirstOffer(groups, k, j) && BuildTable(groups)[k] == groups[j];
    OfferedUnnamedText(groups[j], IntToDecimal(groups[i].number));
    DecimalInjective(groups[i].number, groups[j].number);
  }

  /** Every group's decimal number text resolves; when no group has that text
      as a name, it resolves to a group with that number. */
  lemma DecimalNumberResolves(groups: seq<SpaceGroup>, i: int)
    requires 0 <= i < |groups|
    ensures Resolve(BuildTable(groups), StrKey(IntToDecimal(groups[i].number))).Success?
    ensures !NamedBy(groups, StrKey(IntToDecimal(groups[i].number))) ==>
      Resolve(BuildTable(groups), StrKey(IntToDecimal(groups[i].number))).value.number
        == groups[i].number
  {
    var t := BuildTable(groups);
    var k := StrKey(IntToDecimal(groups[i].number));
    NumberKeysPresent(groups, i);
    assert Resolve(t, k) == Success(t[k]);
    if !NamedBy(groups, k) {
      DecimalKeyNumber(groups, i);
    }
  }

  /** A number written with surrounding whitespace resolves, through the
      stripped title-cased spelling, to the group stored under its bare
      decimal text. */
  lemma PaddedNumberResolves(t: Table, n: int, s: string)
    requires Strip(s) == IntToDecimal(n)
    requires StrKey(s) !in t && StrKey(IntToDecimal(n)) in t
    ensures Resolve(t, StrKey(s)) == Success(t[StrKey(IntToDecimal(n))])
  {
    InertIsNormal(IntToDecimal(n));
  }

  /** Two strings that differ only in the case of ASCII letters resolve alike
      when neither is itself a key and one of the case normalisations hits. */
  lemma ResolveIgnoresCase(t: Table, s: string, s': string)
    requires Lower(s) == Lower(s')
    requires StrKey(s) !in t && StrKey(s') !in t
    requires StrKey(TitleCase(Strip(s))) in t || StrKey(Upper(Strip(s))) in t
    ensures Resolve(t, StrKey(s)) == Resolve(t, StrKey(s'))
  {
    StripLower(s);
    StripLower(s');
    CaseNormalisationsIgnoreCase(Strip(s), Strip(s'));
  }

  /** "pnma" resolves to the group stored under "Pnma" by title-casing. */
  lemma LowerCaseNameResolves(t: Table)
    requires StrKey("Pnma") in t && StrKey("pnma") !in t
    ensures Resolve(t, StrKey("pnma")) == Success(t[StrKey("Pnma")])
  {
    assert StripLeft("pnma") == "pnma";
    assert StripRight("pnma") == "pnma";
    assert TitleCase("pnma") == "Pnma";
  }

  /** The title-cased spellings of "P 21" and "p 21". */
  lemma TitleCasedP21()
    ensures TitleCase("P 21") == "P 21" && TitleCase("p 21") == "P 21"
  {
    assert Upper("P") == "P" && Upper("p") == "P";
    assert LowerChar(' ') == ' ' && LowerChar('2') == '2' && LowerChar('1') == '1';
    assert Lower(" 21") == " 21";
    assert Suffix("P 21", 1) == " 21" && Suffix("p 21", 1) == " 21";
  }

  /** The upper-cased spellings of "P 21" and "p 21". */
  lemma UpperCasedP21()
    ensures Upper("P 21") == "P 21" && Upper("p 21") == "P 21"
  {
    assert UpperChar('p') == 'P' && UpperChar('P') == 'P';
    assert UpperChar(' ') == ' ' && UpperChar('2') == '2' && UpperChar('1') == '1';
  }

  /** Blank removal on "P 21" and "p 21" keeps the first letter's case. */
  lemma UnblankedP21()
    ensures RemoveSpaces("P 21") == "P21" && RemoveSpaces("p 21") == "p21"
  {
    assert "P 21" == "P" + " " + "21" && "p 21" == "p" + " " + "21";
    RemoveSpaceBetween("P", "21");
    RemoveSpaceBetween("p", "21");
  }

  /** Neither spelling has whitespace to strip. */
  lemma StrippedP21(s: string)
    requires s == "P 21" || s == "p 21"
    ensures Strip(s) == s
  {
    assert !IsSpace(s[0]) && !IsSpace(s[3]);
    assert StripLeft(s) == s;
    assert StripRight(s) == s;
  }

  /** Blanks are removed from the original spelling, whose case is kept:
      when "P21" is stored and the other spellings are not, "P 21" resolves
      to it but "p 21" is unknown. */
  lemma BlankRemovalKeepsCase(t: Table)
    requires StrKey("P21") in t
    requires StrKey("P 21") !in t && StrKey("p 21") !in t && StrKey("p21") !in t
    ensures Resolve(t, StrKey("P 21")) == Success(t[StrKey("P21")])
    ensures Resolve(t, StrKey("p 21")) == Failure(UnknownIdentifier(StrKey("p 21")))
  {
    StrippedP21("P 21");
    StrippedP21("p 21");
    TitleCasedP21();
    UpperCasedP21();
    UnblankedP21();
  }

  /** Only `None` is purged, so a group with an empty name makes the empty
      string a key, and any all-whitespace identifier then resolves to it. */
  lemma BlankIdentifierResolves(groups: seq<SpaceGroup>, i: int, s: string)
    requires 0 <= i < |groups| && groups[i].shortName == Some("")
    requires Strip(s) == [] && StrKey(s) !in BuildTable(groups)
    ensures StrKey("") in BuildTable(groups)
    ensures Resolve(BuildTable(groups), StrKey(s)) == Success(BuildTable(groups)[StrKey("")])
  {
    assert Offers(groups[i], StrKey(""));
    assert TitleCase(Strip(s)) == [];
  }

  // ------------------------------------------------------------ module state

  /**
   * The module's state: the catalogue `SpaceGroupList` and the dictionary
   * `_sg_lookup_table`, which stays empty until the first lookup builds it.
   */
  class Resolver {
    /** The mmLib catalogue followed by the sgtbx catalogue. */
    const groups: seq<SpaceGroup>
    var table: Table

    /** The dictionary is either not built yet or built from the catalogue. */
    ghost predicate Valid()
      reads this
    {
      table == map[] || table == BuildTable(groups)
    }

    /** Module load: the two catalogues concatenated, the dictionary empty. */
    constructor (mmLib: seq<SpaceGroup>, sgtbx: seq<SpaceGroup>)
      ensures groups == mmLib + sgtbx
      ensures table == map[]
      ensures Valid()
    {
      groups := mmLib + sgtbx;
      table := map[];
    }

    /** One iteration of the build loop: `setdefault` for the group's number,
        the number's decimal text and its three names, in that order. */
    method OfferGroup(g: SpaceGroup)
      modifies this
      ensures table == OfferAll(old(table), g)
    {
      table := SetDefault(table, IntKey(g.number), g);
      table := SetDefault(table, StrKey(IntToDecimal(g.number)), g);
      table := SetDefault(table, NameKey(g.shortName), g);
      table := SetDefault(table, NameKey(g.pdbName), g);
      table := SetDefault(table, NameKey(g.altName), g);
    }

    /** `_buildSGLookupTable`: clear the dictionary, offer every group's five
        keys in catalogue order with `setdefault`, then delete `None`. The
        result does not depend on what the dictionary held before. */
    method Build()
      modifies this
      ensures table == BuildTable(groups)
    {
      table := map[];
      for i := 0 to |groups|
        invariant table == Filled(groups[..i])
      {
        OfferGroup(groups[i]);
        FilledStep(groups, i);
      }
      assert groups[..|groups|] == groups;
      ghost var filled := table;
      if NoneKey in table {
        table := table - {NoneKey};
      }
      assert table == PurgeNone(filled);
    }

    /** `GetSpaceGroup`: build the dictionary if it is empty, then try the
        identifier and, for a string, its three normalised spellings in turn. */
    method Get(sgid: Key) returns (r: Result<SpaceGroup, LookupError>)
      requires Valid()
      modifies this
      ensures table == BuildTable(groups)
      ensures r == Resolve(table, sgid)
    {
      if table == map[] {
        Build();
      }
      if sgid in table {
        return Success(table[sgid]);
      }
      var err := UnknownIdentifier(sgid);
      if !sgid.StrKey? {
        return Failure(err);
      }
      var key := StrKey(TitleCase(Strip(sgid.s)));
      if key in table {
        return Success(table[key]);
      }
      key := StrKey(Upper(Strip(sgid.s)));
      if key in table {
        return Success(table[key]);
      }
      key := StrKey(RemoveSpaces(sgid.s));
      if key in table {
        return Success(table[key]);
      }
      return Failure(err);
    }

    /** `IsSpaceGroupIdentifier`: whether `GetSpaceGroup` would return
        rather than raise; it never raises itself. */
    method IsIdentifier(sgid: Key) returns (b: bool)
      requires Valid()
      modifies this
      ensures table == BuildTable(groups)
      ensures b <==> Resolve(table, sgid).Success?
    {
      var r := Get(sgid);
      b := r.Success?;
    }
  }
}
