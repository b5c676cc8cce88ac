/**
  The checks that run after the scan: icon existence, categories implied by
  amiibo keys but not declared, declared categories no amiibo key refers to,
  and the format of every catalog key.
 */
module Checks {
  import opened AmiiboId
  import Hex

  /** Every key is long enough for the positional slices. */
  predicate AllSliceable(keys: set<string>) {
    forall k :: k in keys ==> |k| >= AmiiboIdLength
  }

  /** Every key has the "0x" prefix and the full amiibo length. */
  predicate AllFullLength(keys: set<string>) {
    forall k :: k in keys ==> |k| == AmiiboIdLength && k[..2] == "0x"
  }

  // ---------------------------------------------------------------- images

  /** "Missing Image": entries of the merged map whose icon is not an existing image. */
  function MissingImages(merged: map<string, string>, images: set<string>): (missing: map<string, string>)
    requires AllSliceable(merged.Keys)
    ensures missing.Keys <= merged.Keys
    ensures forall k :: k in missing ==> missing[k] == merged[k] && ImageName(k) !in images
    ensures forall k :: k in merged && ImageName(k) in images ==> k !in missing
  {
    map k | k in merged && ImageName(k) !in images :: merged[k]
  }

  /** The icon names of a set of keys. */
  function IconsOf(keys: set<string>): set<string>
    requires AllSliceable(keys)
  {
    set k | k in keys :: ImageName(k)
  }

  /**
    An entry is reported with its own value exactly when its icon is absent, so
    the reported icons are exactly the absent ones; for keys of 18 characters
    starting with "0x" no icon is reported twice.
   */
  lemma MissingImagesExact(merged: map<string, string>, images: set<string>)
    requires AllSliceable(merged.Keys)
    ensures var missing := MissingImages(merged, images);
      && (forall k :: k in merged ==> (k in missing <==> ImageName(k) !in images))
      && (forall k :: k in missing ==> missing[k] == merged[k])
      && IconsOf(missing.Keys) == IconsOf(merged.Keys) - images
    ensures AllFullLength(merged.Keys) ==>
      var missing := MissingImages(merged, images);
      forall a, b :: a in missing && b in missing && ImageName(a) == ImageName(b) ==> a == b
  {
    var missing := MissingImages(merged, images);
    assert IconsOf(missing.Keys) == IconsOf(merged.Keys) - images by {
      forall n | n in IconsOf(merged.Keys) - images ensures n in IconsOf(missing.Keys) {
        var k :| k in merged.Keys && ImageName(k) == n;
        assert k in missing.Keys;
      }
    }
    if AllFullLength(merged.Keys) {
      forall a, b | a in missing && b in missing && ImageName(a) == ImageName(b) ensures a == b {
        ImageNameInjective(a, b);
      }
    }
  }

  // ------------------------------------------------- implied but undeclared

  /** The catalog keys a set of amiibo keys implies for a segment. */
  function ImpliedKeys(seg: Segment, keys: set<string>): set<string>
    requires AllSliceable(keys)
  {
    set k | k in keys :: ImpliedKey(seg, k)
  }

  /**
    "Missing Game Series" / "Missing Amiibo Series": each implied key that is
    not declared, with the amiibo keys that imply it.
   */
  function MissingGroups(seg: Segment, keys: set<string>, declared: set<string>): (groups: map<string, set<string>>)
    requires AllSliceable(keys)
    ensures groups.Keys !! declared
    ensures forall k :: k in keys && ImpliedKey(seg, k) !in declared ==> ImpliedKey(seg, k) in groups
    ensures forall p :: p in groups ==> groups[p] <= keys
  {
    map p | p in ImpliedKeys(seg, keys) - declared :: set k | k in keys && ImpliedKey(seg, k) == p
  }

  /**
    The groups partition the amiibos whose implied key is undeclared: every such
    amiibo lies in the group of its implied key, every group is non-empty and
    holds only amiibos implying its key, and no declared key has a group.
   */
  lemma MissingGroupsPartition(seg: Segment, keys: set<string>, declared: set<string>)
    requires AllSliceable(keys)
    ensures var groups := MissingGroups(seg, keys, declared);
      && (forall k :: k in keys ==> (ImpliedKey(seg, k) in groups <==> ImpliedKey(seg, k) !in declared))
      && (forall k :: k in keys && ImpliedKey(seg, k) in groups ==> k in groups[ImpliedKey(seg, k)])
      && (forall p :: p in groups ==> p !in declared && groups[p] != {})
      && (forall p, k :: p in groups && k in groups[p] ==> k in keys && ImpliedKey(seg, k) == p)
  {
    var groups := MissingGroups(seg, keys, declared);
    forall p | p in groups ensures groups[p] != {} {
      var k :| k in keys && ImpliedKey(seg, k) == p;
      assert k in groups[p];
    }
  }

  // ------------------------------------------------- declared but unused

  /** Some amiibo key carries the declared key's code (the declared key without its first two characters). */
  predicate Referenced(seg: Segment, d: string, keys: set<string>)
    requires AllSliceable(keys)
    requires keys != {} ==> |d| >= 2
  {
    exists k :: k in keys && Slice(seg, k) == d[2..]
  }

  /** The declared keys are sliceable whenever there is an amiibo to compare them with. */
  predicate DeclaredSliceable(declared: set<string>, keys: set<string>) {
    keys != {} ==> forall d :: d in declared ==> |d| >= 2
  }

  /** "No amiibo part of game series" / "No amiibo part series" / "No amiibo for character". */
  function Orphans(seg: Segment, declared: set<string>, keys: set<string>): (orphans: set<string>)
    requires AllSliceable(keys) && DeclaredSliceable(declared, keys)
    ensures orphans <= declared
    ensures keys == {} ==> orphans == declared
    ensures forall k, d :: k in keys && d in orphans ==> d[2..] != Slice(seg, k)
  {
    set d | d in declared && !Referenced(seg, d, keys)
  }

  /**
    The nested scan of the source: for each declared key, look through the
    amiibo keys until one carries its code, and report it when none does.
   */
  method FindOrphans(seg: Segment, declared: set<string>, keys: set<string>) returns (orphans: set<string>)
    requires AllSliceable(keys) && DeclaredSliceable(declared, keys)
    ensures orphans <= declared
    ensures forall d :: d in declared && keys != {} ==>
      (d in orphans <==> forall k :: k in keys ==> Slice(seg, k) != d[2..])
    ensures keys == {} ==> orphans == declared
    ensures orphans == Orphans(seg, declared, keys)
  {
    orphans := {};
    var pending := declared;
    while pending != {}
      invariant pending <= declared
      invariant orphans == Orphans(seg, declared - pending, keys)
      decreases pending
    {
      var d :| d in pending;
      var inSeries := false;
      var rest := keys;
      while rest != {}
        invariant rest <= keys
        invariant inSeries ==> Referenced(seg, d, keys)
        invariant !inSeries ==> forall k :: k in keys - rest ==> Slice(seg, k) != d[2..]
        decreases rest
      {
        var k :| k in rest;
        if d[2..] == Slice(seg, k) {
          inSeries := true;
          break;
        }
        rest := rest - {k};
      }
      if !inSeries {
        orphans := orphans + {d};
      }
      pending := pending - {d};
    }
  }

  /**
    For "0x"-prefixed keys the two directions agree: a declared key is unused
    exactly when no amiibo implies it.
   */
  lemma OrphansAreUnimplied(seg: Segment, declared: set<string>, keys: set<string>)
    requires AllSliceable(keys) && DeclaredSliceable(declared, keys)
    requires forall k :: k in keys ==> k[..2] == "0x"
    requires forall d :: d in declared ==> |d| >= 2 && d[..2] == "0x"
    ensures Orphans(seg, declared, keys) == declared - ImpliedKeys(seg, keys)
  {
    forall d | d in declared ensures Referenced(seg, d, keys) <==> d in ImpliedKeys(seg, keys) {
      assert d == "0x" + d[2..];
      if Referenced(seg, d, keys) {
        var k :| k in keys && Slice(seg, k) == d[2..];
        ImpliedKeyIsPrefixedSlice(seg, k);
      }
      if d in ImpliedKeys(seg, keys) {
        var k :| k in keys && ImpliedKey(seg, k) == d;
        ImpliedKeyIsPrefixedSlice(seg, k);
      }
    }
  }

  // ------------------------------------------------------------ key format

  /** "Invalid ... ID": keys of one collection without its length or the hex form. */
  function InvalidKeys(len: nat, keys: set<string>): (invalid: set<string>)
    ensures invalid <= keys
    ensures forall k :: k in keys && |k| != len ==> k in invalid
    ensures forall k :: k in keys && '\n' in k ==> k in invalid
    ensures forall k :: k in keys && k !in invalid ==> |k| >= 3 && k[..2] == "0x"
  {
    set k | k in keys && !IsValidKey(len, k)
  }

  /** The same check with the pattern as the .NET engine evaluates it. */
  function InvalidKeysAsWritten(len: nat, keys: set<string>): (invalid: set<string>)
    ensures invalid <= keys
    ensures forall k :: k in keys && |k| != len ==> k in invalid
    ensures forall k :: k in keys && k !in invalid ==> |k| >= 3 && k[..2] == "0x"
  {
    set k | k in keys && (|k| != len || !MatchesAsWritten(k))
  }

  /**
    The engine's check misses exactly the keys of the right length that are a
    hex identifier followed by one line feed; it reports nothing extra.
   */
  lemma AsWrittenMissesOnlyTrailingLineFeed(len: nat, keys: set<string>)
    ensures InvalidKeysAsWritten(len, keys) <= InvalidKeys(len, keys)
    ensures forall k :: k in InvalidKeys(len, keys) - InvalidKeysAsWritten(len, keys) <==>
      k in keys && |k| == len && |k| >= 1 && k[|k| - 1] == '\n' && IsHexId(k[..|k| - 1])
  {
    forall k | k in keys && |k| >= 1 && k[|k| - 1] == '\n' ensures !IsHexId(k) {
      assert !Hex.IsLowerHexDigit(k[|k| - 1]);
    }
  }

  /**
    `reported` holds every key the engine's check reports, and beyond those
    only keys of the right length that are a valid key followed by one line feed.
   */
  predicate CoversAsWritten(len: nat, keys: set<string>, reported: set<string>) {
    && InvalidKeysAsWritten(len, keys) <= reported
    && forall k :: k in reported && k !in InvalidKeysAsWritten(len, keys) ==>
      |k| == len && |k| >= 1 && k[|k| - 1] == '\n' && IsHexId(k[..|k| - 1])
  }

  /** The intended check reports what the engine's does, and otherwise only keys with a final line feed. */
  lemma InvalidKeysCoverAsWritten(len: nat, keys: set<string>)
    ensures CoversAsWritten(len, keys, InvalidKeys(len, keys))
  {
    AsWrittenMissesOnlyTrailingLineFeed(len, keys);
  }

  /** A catalog whose amiibo keys were all read from full dumps has no invalid amiibo key. */
  lemma DumpKeysAreValid(contents: seq<seq<Hex.byte>>)
    requires forall c :: c in contents ==> |c| >= DumpIdOffset + DumpIdBytes
    ensures InvalidKeys(AmiiboIdLength, set c | c in contents :: DumpId(c)) == {}
  {
    forall c | c in contents ensures IsValidKey(AmiiboIdLength, DumpId(c)) {
      FullDumpIdIsValid(c);
    }
  }
}
