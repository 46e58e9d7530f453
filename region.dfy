/**
 * The region registry: a closed enumeration of region codes whose values are
 * their own names (the enum's `_generate_next_value_` returns the member
 * name), and the derived list of two-letter country codes.
 */
module Regions {
  import opened Wrappers
  import opened Seqs

  /** The members of the enumeration, in declaration order. */
  datatype Region =
    | AL | AM | AT | AZ | BE | BG | BY | CH
    | CY | CZ | DE | DE_TOT | DK | EA18 | EA19 | EE
    | EEA30_2007 | EEA31 | EFTA | EL | ES | EU27_2007 | EU27_2020 | EU28
    | FI | FR | FX | GE | HR | HU | IE | IS
    | IT | LI | LT | LU | LV | MD | ME | MK
    | MT | NL | NO | PL | PT | RO | RS | RU
    | SE | SI | SK | SM | TR | UA | UK | XK

  /** `Region.X.name`: the identifier the member was declared with. */
  function Name(r: Region): (n: string)
    ensures 2 <= |n|
  {
    match r
    case AL => "AL"
    case AM => "AM"
    case AT => "AT"
    case AZ => "AZ"
    case BE => "BE"
    case BG => "BG"
    case BY => "BY"
    case CH => "CH"
    case CY => "CY"
    case CZ => "CZ"
    case DE => "DE"
    case DE_TOT => "DE_TOT"
    case DK => "DK"
    case EA18 => "EA18"
    case EA19 => "EA19"
    case EE => "EE"
    case EEA30_2007 => "EEA30_2007"
    case EEA31 => "EEA31"
    case EFTA => "EFTA"
    case EL => "EL"
    case ES => "ES"
    case EU27_2007 => "EU27_2007"
    case EU27_2020 => "EU27_2020"
    case EU28 => "EU28"
    case FI => "FI"
    case FR => "FR"
    case FX => "FX"
    case GE => "GE"
    case HR => "HR"
    case HU => "HU"
    case IE => "IE"
    case IS => "IS"
    case IT => "IT"
    case LI => "LI"
    case LT => "LT"
    case LU => "LU"
    case LV => "LV"
    case MD => "MD"
    case ME => "ME"
    case MK => "MK"
    case MT => "MT"
    case NL => "NL"
    case NO => "NO"
    case PL => "PL"
    case PT => "PT"
    case RO => "RO"
    case RS => "RS"
    case RU => "RU"
    case SE => "SE"
    case SI => "SI"
    case SK => "SK"
    case SM => "SM"
    case TR => "TR"
    case UA => "UA"
    case UK => "UK"
    case XK => "XK"
  }

  /** The class body, eight declarations at a time. */
  const Block0: seq<Region> := [AL, AM, AT, AZ]
  const Block1: seq<Region> := [BE, BG, BY, CH]
  const Block2: seq<Region> := [CY, CZ, DE, DE_TOT]
  const Block3: seq<Region> := [DK, EA18, EA19, EE]
  const Block4: seq<Region> := [EEA30_2007, EEA31, EFTA, EL]
  const Block5: seq<Region> := [ES, EU27_2007, EU27_2020, EU28]
  const Block6: seq<Region> := [FI, FR, FX, GE]
  const Block7: seq<Region> := [HR, HU, IE, IS]
  const Block8: seq<Region> := [IT, LI, LT, LU]
  const Block9: seq<Region> := [LV, MD, ME, MK]
  const Block10: seq<Region> := [MT, NL, NO, PL]
  const Block11: seq<Region> := [PT, RO, RS, RU]
  const Block12: seq<Region> := [SE, SI, SK, SM]
  const Block13: seq<Region> := [TR, UA, UK, XK]

  /** Iteration over the enumeration visits the members in declaration order. */
  const Members: seq<Region> :=
    Block0 + Block1 + Block2 + Block3 + Block4 + Block5 + Block6
    + Block7 + Block8 + Block9 + Block10 + Block11 + Block12 + Block13

  /**
   * `Region[s]`: the member named `s`, looked up among the declared members;
   * any other text raises a KeyError, None here.
   */
  function FromName(s: string): (r: Option<Region>)
    ensures r.Some? ==> r.value in Members && Name(r.value) == s
    ensures r.None? ==> forall m :: m in Members ==> Name(m) != s
  {
    FindName(Members, s)
  }

  /** The first member of `rs` named `s`. */
  function FindName(rs: seq<Region>, s: string): (r: Option<Region>)
    ensures r.Some? ==> r.value in rs && Name(r.value) == s
    ensures r.None? ==> forall m :: m in rs ==> Name(m) != s
  {
    if rs == [] then None
    else if Name(rs[0]) == s then Some(rs[0])
    else FindName(rs[1..], s)
  }

  /**
   * A second reading of the names, character by character, used to show that
   * a name determines its member.
   */
  ghost function Decode(s: string): Option<Region>
  {
    if |s| == 2 then FromLetters(s[0], s[1]) else FromLongName(s)
  }

  ghost function FromLetters(a: char, b: char): Option<Region>
  {
    match a
    case 'A' =>
      (match b
      case 'L' => Some(AL)
      case 'M' => Some(AM)
      case 'T' => Some(AT)
      case 'Z' => Some(AZ)
      case _ => None)
    case 'B' =>
      (match b
      case 'E' => Some(BE)
      case 'G' => Some(BG)
      case 'Y' => Some(BY)
      case _ => None)
    case 'C' =>
      (match b
      case 'H' => Some(CH)
      case 'Y' => Some(CY)
      case 'Z' => Some(CZ)
      case _ => None)
    case 'D' =>
      (match b
      case 'E' => Some(DE)
      case 'K' => Some(DK)
      case _ => None)
    case 'E' =>
      (match b
      case 'E' => Some(EE)
      case 'L' => Some(EL)
      case 'S' => Some(ES)
      case _ => None)
    case 'F' =>
      (match b
      case 'I' => Some(FI)
      case 'R' => Some(FR)
      case 'X' => Some(FX)
      case _ => None)
    case 'G' =>
      (match b
      case 'E' => Some(GE)
      case _ => None)
    case 'H' =>
      (match b
      case 'R' => Some(HR)
      case 'U' => Some(HU)
      case _ => None)
    case 'I' =>
      (match b
      case 'E' => Some(IE)
      case 'S' => Some(IS)
      case 'T' => Some(IT)
      case _ => None)
    case 'L' =>
      (match b
      case 'I' => Some(LI)
      case 'T' => Some(LT)
      case 'U' => Some(LU)
      case 'V' => Some(LV)
      case _ => None)
    case 'M' =>
      (match b
      case 'D' => Some(MD)
      case 'E' => Some(ME)
      case 'K' => Some(MK)
      case 'T' => Some(MT)
      case _ => None)
    case 'N' =>
      (match b
      case 'L' => Some(NL)
      case 'O' => Some(NO)
      case _ => None)
    case 'P' =>
      (match b
      case 'L' => Some(PL)
      case 'T' => Some(PT)
      case _ => None)
    case 'R' =>
      (match b
      case 'O' => Some(RO)
      case 'S' => Some(RS)
      case 'U' => Some(RU)
      case _ => None)
    case 'S' =>
      (match b
      case 'E' => Some(SE)
      case 'I' => Some(SI)
      case 'K' => Some(SK)
      case 'M' => Some(SM)
      case _ => None)
    case 'T' =>
      (match b
      case 'R' => Some(TR)
      case _ => None)
    case 'U' =>
      (match b
      case 'A' => Some(UA)
      case 'K' => Some(UK)
      case _ => None)
    case 'X' =>
      (match b
      case 'K' => Some(XK)
      case _ => None)
    case _ => None
  }

  ghost function FromLongName(s: string): Option<Region>
  {
    match s
    case "DE_TOT" => Some(DE_TOT)
    case "EA18" => Some(EA18)
    case "EA19" => Some(EA19)
    case "EEA30_2007" => Some(EEA30_2007)
    case "EEA31" => Some(EEA31)
    case "EFTA" => Some(EFTA)
    case "EU27_2007" => Some(EU27_2007)
    case "EU27_2020" => Some(EU27_2020)
    case "EU28" => Some(EU28)
    case _ => None
  }

  /** The names of `rs`, position by position. */
  function NamesOf(rs: seq<Region>): (ns: seq<string>)
    ensures |ns| == |rs|
    decreases |rs|
  {
    if rs == [] then [] else [Name(rs[0])] + NamesOf(rs[1..])
  }

  lemma {:induction false} NamesOfAt(rs: seq<Region>, i: nat)
    requires i < |rs|
    ensures NamesOf(rs)[i] == Name(rs[i])
    decreases i
  {
    if i > 0 {
      NamesOfAt(rs[1..], i - 1);
    }
  }

  /** The member names in declaration order. */
  function DeclaredNames(): seq<string> { NamesOf(Members) }

  /** The declaration lists every member of the enumeration, 56 entries in all. */
  lemma AllDeclared(r: Region)
    ensures r in Members
    ensures |Members| == 56
  {
  }

  /**
   * What each member's name says about it: the name decodes back to the
   * member, and it is two characters long exactly when the member is not an
   * aggregate.
   */
  lemma MemberFacts(r: Region)
    ensures Decode(Name(r)) == Some(r)
    ensures IsAggregate(r) <==> !IsCountryCode(Name(r))
  {
    NameDecodes(r);
    DecodedAggregates(Name(r));
  }

  /** Every member's name decodes back to it. */
  lemma NameDecodes(r: Region)
    ensures Decode(Name(r)) == Some(r)
  {
    AllDeclared(r);
    if r in Block0 { NameDecodes0(r); }
    else if r in Block1 { NameDecodes1(r); }
    else if r in Block2 { NameDecodes2(r); }
    else if r in Block3 { NameDecodes3(r); }
    else if r in Block4 { NameDecodes4(r); }
    else if r in Block5 { NameDecodes5(r); }
    else if r in Block6 { NameDecodes6(r); }
    else if r in Block7 { NameDecodes7(r); }
    else if r in Block8 { NameDecodes8(r); }
    else if r in Block9 { NameDecodes9(r); }
    else if r in Block10 { NameDecodes10(r); }
    else if r in Block11 { NameDecodes11(r); }
    else if r in Block12 { NameDecodes12(r); }
    else { NameDecodes13(r); }
  }

  lemma NameDecodes0(r: Region)
    requires r in Block0
    ensures Decode(Name(r)) == Some(r)
  {
  }

  lemma NameDecodes1(r: Region)
    requires r in Block1
    ensures Decode(Name(r)) == Some(r)
  {
  }

  lemma NameDecodes2(r: Region)
    requires r in Block2
    ensures Decode(Name(r)) == Some(r)
  {
  }

  lemma NameDecodes3(r: Region)
    requires r in Block3
    ensures Decode(Name(r)) == Some(r)
  {
  }

  lemma NameDecodes4(r: Region)
    requires r in Block4
    ensures Decode(Name(r)) == Some(r)
  {
  }

  lemma NameDecodes5(r: Region)
    requires r in Block5
    ensures Decode(Name(r)) == Some(r)
  {
  }

  lemma NameDecodes6(r: Region)
    requires r in Block6
    ensures Decode(Name(r)) == Some(r)
  {
  }

  lemma NameDecodes7(r: Region)
    requires r in Block7
    ensures Decode(Name(r)) == Some(r)
  {
  }

  lemma NameDecodes8(r: Region)
    requires r in Block8
    ensures Decode(Name(r)) == Some(r)
  {
  }

  lemma NameDecodes9(r: Region)
    requires r in Block9
    ensures Decode(Name(r)) == Some(r)
  {
  }

  lemma NameDecodes10(r: Region)
    requires r in Block10
    ensures Decode(Name(r)) == Some(r)
  {
  }

  lemma NameDecodes11(r: Region)
    requires r in Block11
    ensures Decode(Name(r)) == Some(r)
  {
  }

  lemma NameDecodes12(r: Region)
    requires r in Block12
    ensures Decode(Name(r)) == Some(r)
  {
  }

  lemma NameDecodes13(r: Region)
    requires r in Block13
    ensures Decode(Name(r)) == Some(r)
  {
  }

  /** The decoder yields an aggregate exactly for the names that are not two characters long. */
  lemma DecodedAggregates(s: string)
    ensures Decode(s).Some? ==> (IsAggregate(Decode(s).value) <==> |s| != 2)
  {
  }

  /** No two members share a name. */
  lemma NamesUnique(r1: Region, r2: Region)
    ensures Name(r1) == Name(r2) ==> r1 == r2
  {
    MemberFacts(r1);
    MemberFacts(r2);
  }

  /** Looking a code up by name succeeds exactly for the name of a declared member. */
  lemma FromNameIsInverse(s: string, r: Region)
    ensures FromName(s) == Some(r) <==> Name(r) == s
  {
    AllDeclared(r);
    if FromName(s).Some? {
      NamesUnique(FromName(s).value, r);
    }
  }

  /** Text that names no member is not a region. */
  lemma FromNameFails(s: string)
    requires forall r :: Name(r) != s
    ensures FromName(s) == None
  {
  }

  /**
   * `_generate_next_value_(name, start, count, last_values)`, the hook that
   * `auto()` calls for each member: it returns the member name.
   */
  function GenerateNextValue(name: string, start: int, count: nat, lastValues: seq<string>): (v: string)
    ensures v == name
  {
    name
  }

  /**
   * The values `auto()` assigns while the class body is executed: member
   * `i` gets `GenerateNextValue(names[i], 1, i, values of members 0..i-1)`.
   */
  function AutoValues(names: seq<string>, given: seq<string>): (vs: seq<string>)
    requires |given| <= |names|
    ensures |vs| == |names|
    decreases |names| - |given|
  {
    if |given| == |names| then given
    else AutoValues(names, given + [GenerateNextValue(names[|given|], 1, |given|, given)])
  }

  /** Every value given by `auto()` is the member's own name. */
  lemma {:induction false} AutoValuesAreNames(names: seq<string>, given: seq<string>)
    requires |given| <= |names| && given == names[..|given|]
    ensures AutoValues(names, given) == names
    decreases |names| - |given|
  {
    if |given| < |names| {
      var next := given + [GenerateNextValue(names[|given|], 1, |given|, given)];
      assert next == names[..|next|];
      AutoValuesAreNames(names, next);
    }
  }

  /** `Region.X.value`: the value `auto()` gave the member at its place in the declaration. */
  function Value(r: Region): (v: string)
    ensures v in DeclaredNames()
  {
    AllDeclared(r);
    AutoValuesAreNames(DeclaredNames(), []);
    AutoValues(DeclaredNames(), [])[IndexOf(Members, r)]
  }

  /** Each member's value equals its name, so values are as unique as names. */
  lemma ValueIsName(r: Region)
    ensures Value(r) == Name(r)
    ensures forall r' :: Value(r') == Value(r) ==> r' == r
  {
    forall r' ensures Value(r') == Name(r') {
      AllDeclared(r');
      AutoValuesAreNames(DeclaredNames(), []);
      NamesOfAt(Members, IndexOf(Members, r'));
    }
    forall r' | Value(r') == Value(r) ensures r' == r {
      NamesUnique(r', r);
    }
  }

  predicate IsCountryCode(name: string) { |name| == 2 }

  /**
   * `Region.get_country_list()`: the names of exactly two characters, in
   * declaration order. This is a naming convention, not a separate field.
   */
  function CountryList(): (cs: seq<string>)
    ensures |cs| <= |DeclaredNames()|
  {
    Filter(DeclaredNames(), IsCountryCode)
  }

  /** A text is a declared name exactly when looking it up succeeds. */
  lemma DeclaredNamesMembership(s: string)
    ensures s in DeclaredNames() <==> FromName(s).Some?
  {
    if s in DeclaredNames() {
      var i :| 0 <= i < |DeclaredNames()| && DeclaredNames()[i] == s;
      NamesOfAt(Members, i);
    }
    if FromName(s).Some? {
      NamesOfAt(Members, IndexOf(Members, FromName(s).value));
    }
  }

  /** A text is in the country list exactly when it names a member and has two characters. */
  lemma CountryListMembership(s: string)
    ensures s in CountryList() <==> |s| == 2 && FromName(s).Some?
  {
    DeclaredNamesMembership(s);
    FilterContains(DeclaredNames(), IsCountryCode);
  }

  /** The country list keeps the declaration order: a subsequence of all names. */
  lemma CountryListOrder()
    ensures IsSubsequence(CountryList(), DeclaredNames())
  {
    FilterIsSubsequence(DeclaredNames(), IsCountryCode);
  }

  /** No aggregate code, nor anything longer than two characters, is a country. */
  lemma CountryListExcludesAggregates()
    ensures forall s :: s in CountryList() ==> |s| <= 2
    ensures "DE_TOT" !in CountryList() && "EEA30_2007" !in CountryList() && "EU27_2007" !in CountryList()
  {
    forall s | s in CountryList() ensures |s| <= 2 {
      CountryListMembership(s);
    }
    CountryListMembership("DE_TOT");
    CountryListMembership("EEA30_2007");
    CountryListMembership("EU27_2007");
  }

  /**
   * The nine aggregate members: national totals, euro-area, EEA, EFTA and EU
   * groupings. Their names are the ones that are not two characters long.
   */
  predicate IsAggregate(r: Region)
  {
    r in {DE_TOT, EA18, EA19, EEA30_2007, EEA31, EFTA, EU27_2007, EU27_2020, EU28}
  }

  /** Whatever the member list, its country names and its aggregates add up to its length. */
  lemma {:induction false} CountryNamesCount(rs: seq<Region>)
    ensures |Filter(NamesOf(rs), IsCountryCode)| + Count(rs, IsAggregate) == |rs|
    decreases |rs|
  {
    if rs != [] {
      CountryNamesCount(rs[1..]);
      MemberFacts(rs[0]);
      assert NamesOf(rs)[1..] == NamesOf(rs[1..]);
    }
  }

  lemma AggregatesInBlock0()
    ensures Count(Block0, IsAggregate) == 0
  {
    assert Count([AL, AM, AT, AZ], IsAggregate) == 0;
  }

  lemma AggregatesInBlock1()
    ensures Count(Block1, IsAggregate) == 0
  {
    assert Count([BE, BG, BY, CH], IsAggregate) == 0;
  }

  lemma AggregatesInBlock2()
    ensures Count(Block2, IsAggregate) == 1
  {
    assert Count([CY, CZ, DE, DE_TOT], IsAggregate) == 1;
  }

  lemma AggregatesInBlock3()
    ensures Count(Block3, IsAggregate) == 2
  {
    assert Count([DK, EA18, EA19, EE], IsAggregate) == 2;
  }

  lemma AggregatesInBlock4()
    ensures Count(Block4, IsAggregate) == 3
  {
    assert Count([EEA30_2007, EEA31, EFTA, EL], IsAggregate) == 3;
  }

  lemma AggregatesInBlock5()
    ensures Count(Block5, IsAggregate) == 3
  {
    assert Count([ES, EU27_2007, EU27_2020, EU28], IsAggregate) == 3;
  }

  lemma AggregatesInBlock6()
    ensures Count(Block6, IsAggregate) == 0
  {
    assert Count([FI, FR, FX, GE], IsAggregate) == 0;
  }

  lemma AggregatesInBlock7()
    ensures Count(Block7, IsAggregate) == 0
  {
    assert Count([HR, HU, IE, IS], IsAggregate) == 0;
  }

  lemma AggregatesInBlock8()
    ensures Count(Block8, IsAggregate) == 0
  {
    assert Count([IT, LI, LT, LU], IsAggregate) == 0;
  }

  lemma AggregatesInBlock9()
    ensures Count(Block9, IsAggregate) == 0
  {
    assert Count([LV, MD, ME, MK], IsAggregate) == 0;
  }

  lemma AggregatesInBlock10()
    ensures Count(Block10, IsAggregate) == 0
  {
    assert Count([MT, NL, NO, PL], IsAggregate) == 0;
  }

  lemma AggregatesInBlock11()
    ensures Count(Block11, IsAggregate) == 0
  {
    assert Count([PT, RO, RS, RU], IsAggregate) == 0;
  }

  lemma AggregatesInBlock12()
    ensures Count(Block12, IsAggregate) == 0
  {
    assert Count([SE, SI, SK, SM], IsAggregate) == 0;
  }

  lemma AggregatesInBlock13()
    ensures Count(Block13, IsAggregate) == 0
  {
    assert Count([TR, UA, UK, XK], IsAggregate) == 0;
  }

  /** The declaration holds 56 members, 9 of them aggregates. */
  lemma MembersCount()
    ensures |Members| == 56
    ensures Count(Members, IsAggregate) == 9
  {
    AllDeclared(AL);
    AggregatesInBlock0();
    AggregatesInBlock1();
    AggregatesInBlock2();
    AggregatesInBlock3();
    AggregatesInBlock4();
    AggregatesInBlock5();
    AggregatesInBlock6();
    AggregatesInBlock7();
    AggregatesInBlock8();
    AggregatesInBlock9();
    AggregatesInBlock10();
    AggregatesInBlock11();
    AggregatesInBlock12();
    AggregatesInBlock13();
    var prefix := Block0;
    CountAppend(prefix, Block1, IsAggregate);
    prefix := prefix + Block1;
    CountAppend(prefix, Block2, IsAggregate);
    prefix := prefix + Block2;
    CountAppend(prefix, Block3, IsAggregate);
    prefix := prefix + Block3;
    CountAppend(prefix, Block4, IsAggregate);
    prefix := prefix + Block4;
    CountAppend(prefix, Block5, IsAggregate);
    prefix := prefix + Block5;
    CountAppend(prefix, Block6, IsAggregate);
    prefix := prefix + Block6;
    CountAppend(prefix, Block7, IsAggregate);
    prefix := prefix + Block7;
    CountAppend(prefix, Block8, IsAggregate);
    prefix := prefix + Block8;
    CountAppend(prefix, Block9, IsAggregate);
    prefix := prefix + Block9;
    CountAppend(prefix, Block10, IsAggregate);
    prefix := prefix + Block10;
    CountAppend(prefix, Block11, IsAggregate);
    prefix := prefix + Block11;
    CountAppend(prefix, Block12, IsAggregate);
    prefix := prefix + Block12;
    CountAppend(prefix, Block13, IsAggregate);
    prefix := prefix + Block13;
  }

  /**
   * Counting the declaration: 47 of the 56 members are in the country list,
   * and a member's name is listed exactly when it is not an aggregate.
   */
  lemma CountryListCount()
    ensures |CountryList()| == 47
    ensures forall r :: Name(r) in CountryList() <==> !IsAggregate(r)
  {
    MembersCount();
    CountryNamesCount(Members);
    forall r ensures Name(r) in CountryList() <==> !IsAggregate(r) {
      CountryListMembership(Name(r));
      FromNameIsInverse(Name(r), r);
      MemberFacts(r);
    }
  }
}
