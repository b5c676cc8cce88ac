/**
  The exit status: one flag per problem category, combined with bitwise OR.
 */
module ErrorBits {

  /** The fourteen categories, in the order of their bits. */
  datatype Category =
    | MissingArgs
    | MissingBin
    | MissingFromJson
    | MissingImage
    | MissingGameSeries
    | MissingAmiiboSeries
    | NoAmiiboInGameSeries
    | NoAmiiboInSeries
    | NoAmiiboForCharacter
    | InvalidAmiiboSeriesId
    | InvalidAmiiboId
    | InvalidCharacterId
    | InvalidGameSeriesId
    | InvalidTypeId

  const AllCategories: seq<Category> := [
    MissingArgs, MissingBin, MissingFromJson, MissingImage,
    MissingGameSeries, MissingAmiiboSeries,
    NoAmiiboInGameSeries, NoAmiiboInSeries, NoAmiiboForCharacter,
    InvalidAmiiboSeriesId, InvalidAmiiboId, InvalidCharacterId,
    InvalidGameSeriesId, InvalidTypeId
  ]

  /** The position of a category's flag. */
  function Bit(c: Category): (i: nat)
    ensures i < |AllCategories| && AllCategories[i] == c
  {
    match c
    case MissingArgs => 0
    case MissingBin => 1
    case MissingFromJson => 2
    case MissingImage => 3
    case MissingGameSeries => 4
    case MissingAmiiboSeries => 5
    case NoAmiiboInGameSeries => 6
    case NoAmiiboInSeries => 7
    case NoAmiiboForCharacter => 8
    case InvalidAmiiboSeriesId => 9
    case InvalidAmiiboId => 10
    case InvalidCharacterId => 11
    case InvalidGameSeriesId => 12
    case InvalidTypeId => 13
  }

  /** The enumeration value of each category, as the program declares it. */
  function Flag(c: Category): (f: bv32)
    ensures f == 1 << Bit(c)
  {
    match c
    case MissingArgs => 0x1
    case MissingBin => 0x2
    case MissingFromJson => 0x4
    case MissingImage => 0x8
    case MissingGameSeries => 0x10
    case MissingAmiiboSeries => 0x20
    case NoAmiiboInGameSeries => 0x40
    case NoAmiiboInSeries => 0x80
    case NoAmiiboForCharacter => 0x100
    case InvalidAmiiboSeriesId => 0x200
    case InvalidAmiiboId => 0x400
    case InvalidCharacterId => 0x800
    case InvalidGameSeriesId => 0x1000
    case InvalidTypeId => 0x2000
  }

  /** Every category appears exactly once in AllCategories. */
  lemma AllCategoriesDistinct()
    ensures forall i, j :: 0 <= i < j < |AllCategories| ==> AllCategories[i] != AllCategories[j]
    ensures forall c :: c in AllCategories
  {
    forall c ensures c in AllCategories {
      assert AllCategories[Bit(c)] == c;
    }
  }

  /** The flags are one-hot: two flags share a bit exactly when they are the same flag. */
  lemma FlagsOneHot(a: Category, b: Category)
    ensures (Flag(a) & Flag(b) != 0) <==> a == b
    ensures Flag(a) < 0x4000
  {
  }

  /** OR of the flags of the categories in `cats`, visiting `cs` in order. */
  function MaskOf(cs: seq<Category>, cats: set<Category>): bv32
  {
    if cs == [] then 0
    else (if cs[0] in cats then Flag(cs[0]) else 0) | MaskOf(cs[1..], cats)
  }

  /** The exit status for a set of raised categories. */
  function ToMask(cats: set<Category>): bv32
  {
    MaskOf(AllCategories, cats)
  }

  /** The categories whose flag is set in an exit status. */
  function FromMask(m: bv32): (cats: set<Category>)
  {
    set c: Category | c in AllCategories && m & Flag(c) != 0
  }

  /** A flag is set in the OR exactly when its category was visited and raised. */
  lemma {:induction false} MaskOfBit(cs: seq<Category>, cats: set<Category>, c: Category)
    ensures (MaskOf(cs, cats) & Flag(c) != 0) <==> (c in cs && c in cats)
    ensures MaskOf(cs, cats) < 0x4000
  {
    if cs != [] {
      MaskOfBit(cs[1..], cats, c);
      FlagsOneHot(cs[0], c);
      assert c in cs <==> c == cs[0] || c in cs[1..];
    }
  }

  /** The exit status has a category's bit set iff that category was raised. */
  lemma ToMaskBit(cats: set<Category>, c: Category)
    ensures (ToMask(cats) & Flag(c) != 0) <==> c in cats
    ensures ToMask(cats) < 0x4000
  {
    AllCategoriesDistinct();
    MaskOfBit(AllCategories, cats, c);
  }

  /** Nothing raised gives the empty mask. */
  lemma {:induction false} MaskOfNone(cs: seq<Category>)
    ensures MaskOf(cs, {}) == 0
  {
    if cs != [] {
      MaskOfNone(cs[1..]);
    }
  }

  /** The exit status is zero exactly when no category was raised. */
  lemma ToMaskZero(cats: set<Category>)
    ensures ToMask(cats) == 0 <==> cats == {}
  {
    if cats != {} {
      var c :| c in cats;
      ToMaskBit(cats, c);
    } else {
      MaskOfNone(AllCategories);
    }
  }

  /** Reading the raised categories back from the exit status gives them all and only them. */
  lemma FromToMask(cats: set<Category>)
    ensures FromMask(ToMask(cats)) == cats
  {
    forall c ensures c in FromMask(ToMask(cats)) <==> c in cats {
      ToMaskBit(cats, c);
      AllCategoriesDistinct();
    }
  }

  /** Raising one category alone gives exactly its flag. */
  lemma {:induction false} MaskOfSingle(cs: seq<Category>, c: Category)
    requires forall i, j :: 0 <= i < j < |cs| ==> cs[i] != cs[j]
    ensures MaskOf(cs, {c}) == if c in cs then Flag(c) else 0
  {
    if cs != [] {
      MaskOfSingle(cs[1..], c);
      if cs[0] == c {
        assert c !in cs[1..];
      }
    }
  }

  /** The exit status of a single raised category is that category's flag. */
  lemma ToMaskSingle(c: Category)
    ensures ToMask({c}) == Flag(c)
  {
    AllCategoriesDistinct();
    MaskOfSingle(AllCategories, c);
  }
}
