/** Chains of the duplicate and the mirror filter: which candidates' flags reach the results
    in either order, and how the mirror filter relates to its documentation. */
module MirrorFlags {
  import opened Bits
  import opened Text
  import opened Records
  import opened Chains
  import opened Dedup

  function BothFilters(mirrorFirst: bool): seq<Kind> {
    if mirrorFirst then [Mirror, Duplicate] else [Duplicate, Mirror]
  }

  /** The candidates that neither equal nor mirror one kept before them. */
  function Kept(xs: seq<Info>): seq<Info> {
    if xs == [] then [] else
      var ys, x := xs[..|xs| - 1], xs[|xs| - 1];
      if Holds(Kept(ys), x) || HasMirror(Kept(ys), x) then Kept(ys) else Kept(ys) + [x]
  }

  /** A candidate's flags count: behind the duplicate filter when an equal record is there or
      nothing mirrors it, behind the mirror filter only when nothing mirrors it. */
  predicate Counts(mirrorFirst: bool, kept: seq<Info>, x: Info) {
    !HasMirror(kept, x) || (!mirrorFirst && Holds(kept, x))
  }

  /** The bitwise or of the flags of the candidates that equal r and count. */
  function CountedFlags(mirrorFirst: bool, xs: seq<Info>, r: Info): uint32 {
    if xs == [] then 0 else
      var ys, x := xs[..|xs| - 1], xs[|xs| - 1];
      Or32(CountedFlags(mirrorFirst, ys, r), if Same(x, r) && Counts(mirrorFirst, Kept(ys), x) then Flags(x) else 0)
  }

  lemma CountedSnoc(mirrorFirst: bool, ys: seq<Info>, x: Info, r: Info)
    ensures CountedFlags(mirrorFirst, ys + [x], r)
         == Or32(CountedFlags(mirrorFirst, ys, r),
                 if Same(x, r) && Counts(mirrorFirst, Kept(ys), x) then Flags(x) else 0)
  {
    assert (ys + [x])[..|ys|] == ys;
  }

  /** The candidate at q equals r, counts at its place and has the bit. */
  ghost predicate CountedAt(mirrorFirst: bool, xs: seq<Info>, r: Info, b: nat, q: nat) {
    q < |xs| && Same(xs[q], r) && Bit(Flags(xs[q]), b) && Counts(mirrorFirst, Kept(xs[..q]), xs[q])
  }

  lemma CountedAtPrefix(mirrorFirst: bool, xs: seq<Info>, r: Info, b: nat, n: nat, q: nat)
    requires n <= |xs|
    ensures CountedAt(mirrorFirst, xs[..n], r, b, q) <==> q < n && CountedAt(mirrorFirst, xs, r, b, q)
  {
    if q < n {
      assert xs[..n][..q] == xs[..q];
    }
  }

  /** A flag bit is counted exactly when an equal candidate that counts at its place has it. */
  lemma {:induction false} BitOfCounted(mirrorFirst: bool, xs: seq<Info>, r: Info, b: nat)
    ensures Bit(CountedFlags(mirrorFirst, xs, r), b) <==>
      exists q: nat :: CountedAt(mirrorFirst, xs, r, b, q)
  {
    hide Same, Counts, Kept, Flags;
    BitOfZero(b);
    if xs != [] {
      var n := |xs| - 1;
      var ys, x := xs[..n], xs[n];
      BitOfCounted(mirrorFirst, ys, r, b);
      BitOfOr(CountedFlags(mirrorFirst, ys, r),
              if Same(x, r) && Counts(mirrorFirst, Kept(ys), x) then Flags(x) else 0, b);
      assert CountedAt(mirrorFirst, xs, r, b, n) <==>
        Same(x, r) && Counts(mirrorFirst, Kept(ys), x) && Bit(Flags(x), b);
      forall q: nat | CountedAt(mirrorFirst, xs, r, b, q) ensures q <= n {
      }
      hide Bit, CountedAt;
      forall q: nat ensures CountedAt(mirrorFirst, ys, r, b, q) <==> q < n && CountedAt(mirrorFirst, xs, r, b, q) {
        CountedAtPrefix(mirrorFirst, xs, r, b, n, q);
      }
    }
  }

  lemma CountedHasBit(mirrorFirst: bool, xs: seq<Info>, r: Info, b: nat, q: nat)
    requires CountedAt(mirrorFirst, xs, r, b, q)
    ensures Bit(CountedFlags(mirrorFirst, xs, r), b)
  {
    hide CountedAt;
    BitOfCounted(mirrorFirst, xs, r, b);
  }

  lemma SomeCounted(mirrorFirst: bool, xs: seq<Info>, r: Info, b: nat) returns (q: nat)
    requires Bit(CountedFlags(mirrorFirst, xs, r), b)
    ensures CountedAt(mirrorFirst, xs, r, b, q)
  {
    hide CountedAt;
    BitOfCounted(mirrorFirst, xs, r, b);
    q :| CountedAt(mirrorFirst, xs, r, b, q);
  }

  // ---------- the kept records ----------

  lemma KeptGrows(ys: seq<Info>, x: Info)
    ensures var rs := Kept(ys);
      Kept(ys + [x]) == if Holds(rs, x) || HasMirror(rs, x) then rs else rs + [x]
    ensures Holds(Kept(ys + [x]), x) || HasMirror(Kept(ys), x)
    ensures forall z :: Holds(Kept(ys), z) ==> Holds(Kept(ys + [x]), z)
  {
    assert (ys + [x])[..|ys|] == ys;
    forall z ensures Holds(Kept(ys) + [x], z) <==> Holds(Kept(ys), z) || Same(x, z) {
      HoldsSnoc(Kept(ys), x, z);
    }
  }

  lemma FindHolds(rs: seq<Info>, x: Info)
    ensures Find(rs, x) == |rs| <==> !Holds(rs, x)
  {
  }

  lemma MirrorsAreGpus(rs: seq<Info>, x: Info)
    ensures HasMirror(rs, x) ==> x.Gpu?
  {
  }

  // ---------- the flags of the results ----------

  /** What one candidate does to the results. */
  lemma PushEffect(mirrorFirst: bool, rs: seq<Info>, x: Info)
    ensures Push(BothFilters(mirrorFirst), rs, x)
         == if !Holds(rs, x) && !HasMirror(rs, x) then rs + [x]
            else if Holds(rs, x) && Counts(mirrorFirst, rs, x) then
              var k := Find(rs, x);
              rs[k := Merge(rs[k], x)]
            else rs
  {
    PushPair(BothFilters(mirrorFirst)[0], BothFilters(mirrorFirst)[1], rs, x);
    FindHolds(rs, x);
    MirrorsAreGpus(rs, x);
    assert BothFilters(mirrorFirst) == [BothFilters(mirrorFirst)[0], BothFilters(mirrorFirst)[1]];
    hide Push, Find, Merge, HasMirror, Holds;
  }

  lemma MergeKeepsRest(rs: seq<Info>, k: nat, x: Info)
    requires k < |rs|
    ensures WithoutFlags(rs[k := Merge(rs[k], x)]) == WithoutFlags(rs)
  {
  }

  lemma SameSnoc(rs: seq<Info>, ss: seq<Info>, x: Info)
    requires WithoutFlags(rs) == WithoutFlags(ss)
    ensures WithoutFlags(rs + [x]) == WithoutFlags(ss + [x])
  {
    assert WithoutFlags(rs + [x]) == WithoutFlags(rs) + [NoFlags(x)];
    assert WithoutFlags(ss + [x]) == WithoutFlags(ss) + [NoFlags(x)];
  }

  /** In both orders exactly the kept candidates are accepted. */
  lemma {:induction false} SameKept(mirrorFirst: bool, xs: seq<Info>)
    ensures WithoutFlags(Collect(BothFilters(mirrorFirst), xs)) == WithoutFlags(Kept(xs))
  {
    if xs != [] {
      var ys, x := xs[..|xs| - 1], xs[|xs| - 1];
      var rs, kept := Collect(BothFilters(mirrorFirst), ys), Kept(ys);
      hide WithoutFlags, Push, Holds, HasMirror, Merge, NoFlags, Counts;
      SameKept(mirrorFirst, ys);
      HoldAlike(rs, kept, x);
      PushEffect(mirrorFirst, rs, x);
      FindHolds(rs, x);
      SameSnoc(rs, kept, x);
      if Holds(rs, x) {
        MergeKeepsRest(rs, Find(rs, x), x);
      }
    }
  }

  /** Lists that agree but for flags hold and mirror the same records. */
  lemma HoldAlike(rs: seq<Info>, ss: seq<Info>, x: Info)
    requires WithoutFlags(rs) == WithoutFlags(ss)
    ensures Holds(rs, x) <==> Holds(ss, x)
    ensures HasMirror(rs, x) <==> HasMirror(ss, x)
  {
    assert |rs| == |WithoutFlags(rs)| == |ss|;
    forall i | 0 <= i < |rs| ensures NoFlags(rs[i]) == NoFlags(ss[i]) {
      assert WithoutFlags(rs)[i] == WithoutFlags(ss)[i];
    }
    assert Begins(rs, ss) && Begins(ss, rs);
    KeptHolds(rs, ss, x);
    KeptHolds(ss, rs, x);
  }

  /** Nothing counts for a record that was not accepted. */
  lemma {:induction false} NothingCounted(mirrorFirst: bool, xs: seq<Info>, r: Info)
    requires !Holds(Kept(xs), r)
    ensures CountedFlags(mirrorFirst, xs, r) == 0
  {
    if xs != [] {
      var ys, x := xs[..|xs| - 1], xs[|xs| - 1];
      assert xs == ys + [x];
      KeptGrows(ys, x);
      NothingCounted(mirrorFirst, ys, r);
      if Same(x, r) {
        HeldAlike(Kept(xs), x, r);
        HeldAlike(Kept(ys), x, r);
      }
      hide Kept, Holds, HasMirror, Same;
    }
  }

  lemma HeldAlike(rs: seq<Info>, x: Info, r: Info)
    requires Same(x, r)
    ensures Holds(rs, x) <==> Holds(rs, r)
  {
    if Holds(rs, x) {
      var i :| 0 <= i < |rs| && Same(rs[i], x);
      assert Same(rs[i], r);
    }
    if Holds(rs, r) {
      var i :| 0 <= i < |rs| && Same(rs[i], r);
      assert Same(rs[i], x);
    }
  }

  /** The flags of the results are those counted for them so far. */
  ghost predicate FlagsCounted(mirrorFirst: bool, xs: seq<Info>, rs: seq<Info>) {
    forall i :: 0 <= i < |rs| ==> Flags(rs[i]) == CountedFlags(mirrorFirst, xs, rs[i])
  }

  lemma CountedOfEqual(mirrorFirst: bool, xs: seq<Info>, r: Info, s: Info)
    requires Same(r, s)
    ensures CountedFlags(mirrorFirst, xs, r) == CountedFlags(mirrorFirst, xs, s)
  {
    if xs != [] {
      CountedOfEqual(mirrorFirst, xs[..|xs| - 1], r, s);
    }
  }

  lemma CountAccepted(mirrorFirst: bool, ys: seq<Info>, x: Info, rs: seq<Info>)
    requires FlagsCounted(mirrorFirst, ys, rs) && !Holds(rs, x)
    requires CountedFlags(mirrorFirst, ys, x) == 0 && Counts(mirrorFirst, Kept(ys), x)
    ensures FlagsCounted(mirrorFirst, ys + [x], rs + [x])
  {
    hide Kept, HasMirror, CountedFlags;
    forall i | 0 <= i < |rs| ensures Flags(rs[i]) == CountedFlags(mirrorFirst, ys + [x], rs[i]) {
      CountedSnoc(mirrorFirst, ys, x, rs[i]);
      assert !Same(rs[i], x);
    }
    CountedSnoc(mirrorFirst, ys, x, x);
  }

  lemma CountMerged(mirrorFirst: bool, ys: seq<Info>, x: Info, rs: seq<Info>, k: nat)
    requires FlagsCounted(mirrorFirst, ys, rs) && Distinct(rs) && k < |rs| && Same(rs[k], x)
    requires Counts(mirrorFirst, Kept(ys), x)
    ensures FlagsCounted(mirrorFirst, ys + [x], rs[k := Merge(rs[k], x)])
  {
    hide Kept, HasMirror, CountedFlags;
    var ss := rs[k := Merge(rs[k], x)];
    forall i | 0 <= i < |ss| ensures Flags(ss[i]) == CountedFlags(mirrorFirst, ys + [x], ss[i]) {
      CountedSnoc(mirrorFirst, ys, x, rs[i]);
      if i == k {
        CountedOfEqual(mirrorFirst, ys + [x], rs[k], Merge(rs[k], x));
      } else {
        assert !Same(rs[i], rs[k]);
      }
    }
  }

  lemma CountDropped(mirrorFirst: bool, ys: seq<Info>, x: Info, rs: seq<Info>)
    requires FlagsCounted(mirrorFirst, ys, rs)
    requires !Counts(mirrorFirst, Kept(ys), x)
    ensures FlagsCounted(mirrorFirst, ys + [x], rs)
  {
    hide Kept, HasMirror, CountedFlags, Counts;
    forall i | 0 <= i < |rs| ensures Flags(rs[i]) == CountedFlags(mirrorFirst, ys + [x], rs[i]) {
      CountedSnoc(mirrorFirst, ys, x, rs[i]);
    }
  }

  /** In either order of the two filters each result carries exactly the flags of the equal
      candidates that count: behind the duplicate filter those from the accepted one on,
      behind the mirror filter those of them that mirror no record accepted before. */
  lemma {:induction false} FlagsAreCounted(mirrorFirst: bool, xs: seq<Info>)
    ensures FlagsCounted(mirrorFirst, xs, Collect(BothFilters(mirrorFirst), xs))
  {
    if xs != [] {
      var ys, x := xs[..|xs| - 1], xs[|xs| - 1];
      var rs := Collect(BothFilters(mirrorFirst), ys);
      assert xs == ys + [x];
      FlagsAreCounted(mirrorFirst, ys);
      CollectSnoc(BothFilters(mirrorFirst), ys, x);
      SameKept(mirrorFirst, ys);
      HoldAlike(rs, Kept(ys), x);
      NoDuplicatesNoMirrors(BothFilters(mirrorFirst), ys);
      PushEffect(mirrorFirst, rs, x);
      assert Counts(mirrorFirst, rs, x) <==> Counts(mirrorFirst, Kept(ys), x);
      FindHolds(rs, x);
      hide Collect, Kept, Holds, HasMirror, FlagsCounted, CountedFlags, Distinct;
      if !Holds(rs, x) && !HasMirror(rs, x) {
        NothingCounted(mirrorFirst, ys, x);
        CountAccepted(mirrorFirst, ys, x, rs);
      } else if Holds(rs, x) && Counts(mirrorFirst, rs, x) {
        CountMerged(mirrorFirst, ys, x, rs, Find(rs, x));
      } else {
        CountDropped(mirrorFirst, ys, x, rs);
      }
    }
  }

  // ---------- when flags are conserved ----------

  /** All bits of b are among those of a. */
  predicate Absorbs(a: uint32, b: uint32) {
    Or32(a, b) == a
  }

  ghost predicate BitsAmong(b: nat, a: nat) {
    forall i: nat :: Bit(b, i) ==> Bit(a, i)
  }

  lemma AbsorbsBits(a: uint32, b: uint32)
    ensures Absorbs(a, b) <==> BitsAmong(b, a)
  {
    if Absorbs(a, b) {
      forall i: nat | Bit(b, i) ensures Bit(a, i) {
        BitOfOr(a, b, i);
      }
    }
    if BitsAmong(b, a) {
      forall i: nat ensures Bit(Or(a, b), i) <==> Bit(a, i) {
        BitOfOr(a, b, i);
      }
      BitsDetermine(Or(a, b), a);
      assert Or32(a, b) == a;
    }
  }

  /** The candidate equals a record accepted before it, but its flags do not count. */
  predicate Loses(mirrorFirst: bool, xs: seq<Info>, q: nat)
    requires q < |xs|
  {
    Holds(Kept(xs), xs[q]) && !Counts(mirrorFirst, Kept(xs[..q]), xs[q])
  }

  /** No candidate loses flags that do not reach its result otherwise. */
  ghost predicate NothingLost(mirrorFirst: bool, xs: seq<Info>) {
    forall q :: 0 <= q < |xs| && Loses(mirrorFirst, xs, q) ==>
      Absorbs(CountedFlags(mirrorFirst, xs, xs[q]), Flags(xs[q]))
  }

  lemma CountedIsPart(mirrorFirst: bool, xs: seq<Info>, r: Info, b: nat)
    requires Bit(CountedFlags(mirrorFirst, xs, r), b)
    ensures Bit(FlagsOf(xs, r), b)
  {
    BitOfFlags(xs, r, b);
    hide Bit, Flags, Same, Counts, Kept;
    var q := SomeCounted(mirrorFirst, xs, r, b);
    assert xs[q] in xs;
  }

  lemma AllAreCounted(mirrorFirst: bool, xs: seq<Info>, r: Info, b: nat)
    requires NothingLost(mirrorFirst, xs) && Holds(Kept(xs), r)
    requires Bit(FlagsOf(xs, r), b)
    ensures Bit(CountedFlags(mirrorFirst, xs, r), b)
  {
    BitOfFlags(xs, r, b);
    hide Bit, Flags, Same, Counts, Kept, Absorbs, CountedFlags, FlagsOf;
    var x :| x in xs && Same(x, r) && Bit(Flags(x), b);
    var q :| 0 <= q < |xs| && xs[q] == x;
    HeldAlike(Kept(xs), x, r);
    if Counts(mirrorFirst, Kept(xs[..q]), x) {
      CountedHasBit(mirrorFirst, xs, r, b, q);
    } else {
      assert Loses(mirrorFirst, xs, q);
      CountedOfEqual(mirrorFirst, xs, x, r);
      AbsorbsBits(CountedFlags(mirrorFirst, xs, x), Flags(x));
    }
  }

  /** For a kept record the counted flags are those of all its equals exactly when none of
      the equals loses flags. */
  lemma CountedIsAll(mirrorFirst: bool, xs: seq<Info>, r: Info)
    requires NothingLost(mirrorFirst, xs) && Holds(Kept(xs), r)
    ensures CountedFlags(mirrorFirst, xs, r) == FlagsOf(xs, r)
  {
    hide Bit, Kept, CountedFlags, FlagsOf, NothingLost;
    forall b: nat ensures Bit(CountedFlags(mirrorFirst, xs, r), b) <==> Bit(FlagsOf(xs, r), b) {
      if Bit(CountedFlags(mirrorFirst, xs, r), b) {
        CountedIsPart(mirrorFirst, xs, r, b);
      }
      if Bit(FlagsOf(xs, r), b) {
        AllAreCounted(mirrorFirst, xs, r, b);
      }
    }
    BitsDetermine(CountedFlags(mirrorFirst, xs, r), FlagsOf(xs, r));
  }

  lemma AllAbsorbEach(xs: seq<Info>, q: nat)
    requires q < |xs|
    ensures Absorbs(FlagsOf(xs, xs[q]), Flags(xs[q]))
  {
    var a, b := FlagsOf(xs, xs[q]), Flags(xs[q]);
    assert xs[q] in xs;
    AbsorbsBits(a, b);
    hide Absorbs, FlagsOf;
    forall i: nat | Bit(b, i) ensures Bit(a, i) {
      BitOfFlags(xs, xs[q], i);
    }
  }

  /** The result that equals a held record. */
  lemma ResultOf(mirrorFirst: bool, xs: seq<Info>, x: Info) returns (i: nat)
    requires Holds(Kept(xs), x)
    ensures i < |Collect(BothFilters(mirrorFirst), xs)| && Same(Collect(BothFilters(mirrorFirst), xs)[i], x)
  {
    SameKept(mirrorFirst, xs);
    HoldAlike(Collect(BothFilters(mirrorFirst), xs), Kept(xs), x);
    i :| 0 <= i < |Collect(BothFilters(mirrorFirst), xs)| && Same(Collect(BothFilters(mirrorFirst), xs)[i], x);
  }

  /** The results of the two filters carry the flags of all their equals, as behind the
      duplicate filter alone, exactly when no candidate loses flags: each that equals a result
      but is not counted has only flags that are counted elsewhere. */
  lemma FlagsConservedExactly(mirrorFirst: bool, xs: seq<Info>)
    ensures var rs := Collect(BothFilters(mirrorFirst), xs);
      (forall i :: 0 <= i < |rs| ==> Flags(rs[i]) == FlagsOf(xs, rs[i])) <==> NothingLost(mirrorFirst, xs)
  {
    var rs := Collect(BothFilters(mirrorFirst), xs);
    FlagsAreCounted(mirrorFirst, xs);
    SameKept(mirrorFirst, xs);
    if NothingLost(mirrorFirst, xs) {
      forall i | 0 <= i < |rs| ensures Flags(rs[i]) == FlagsOf(xs, rs[i]) {
        HoldAlike(rs, Kept(xs), rs[i]);
        assert Same(rs[i], rs[i]);
        CountedIsAll(mirrorFirst, xs, rs[i]);
      }
    }
    if forall i :: 0 <= i < |rs| ==> Flags(rs[i]) == FlagsOf(xs, rs[i]) {
      forall q | 0 <= q < |xs| && Loses(mirrorFirst, xs, q)
        ensures Absorbs(CountedFlags(mirrorFirst, xs, xs[q]), Flags(xs[q]))
      {
        var i := ResultOf(mirrorFirst, xs, xs[q]);
        CountedOfEqual(mirrorFirst, xs, rs[i], xs[q]);
        FlagsOfEqual(xs, rs[i], xs[q]);
        AllAbsorbEach(xs, q);
      }
    }
  }

  /** Equal candidates have equal ids. */
  ghost predicate EqualIds(xs: seq<Info>) {
    forall x, y :: x in xs && y in xs && Same(x, y) ==> x.node.id == y.node.id
  }

  lemma MirroredNext(rs: seq<Info>, y: Info, x: Info)
    requires HasMirror(rs, x) && !Holds(rs, x) && (Same(y, x) ==> y.node.id == x.node.id)
    ensures var qs := if Holds(rs, y) || HasMirror(rs, y) then rs else rs + [y];
      HasMirror(qs, x) && !Holds(qs, x)
  {
    var i :| 0 <= i < |rs| && Mirrors(rs[i], x);
    assert Same(y, x) && y.node.id == x.node.id ==> Mirrors(rs[i], y);
    assert (rs + [y])[i] == rs[i];
    HoldsSnoc(rs, y, x);
  }

  /** A candidate that is dropped as a mirror is not accepted later under equal ids. */
  lemma {:induction false} MirroredStaysOut(xs: seq<Info>, q: nat, x: Info)
    requires q <= |xs| && HasMirror(Kept(xs[..q]), x) && !Holds(Kept(xs[..q]), x)
    requires forall y :: y in xs && Same(y, x) ==> y.node.id == x.node.id
    ensures HasMirror(Kept(xs), x) && !Holds(Kept(xs), x)
    decreases |xs|
  {
    hide Kept, HasMirror, Holds, Same;
    if q == |xs| {
      assert xs[..q] == xs;
    } else {
      var ys, y := xs[..|xs| - 1], xs[|xs| - 1];
      assert xs == ys + [y] && ys[..q] == xs[..q];
      MirroredStaysOut(ys, q, x);
      KeptGrows(ys, y);
      MirroredNext(Kept(ys), y, x);
    }
  }

  /** Then the duplicate filter in front loses nothing: a record dropped as a mirror before its
      equal is accepted would be an equal under another id. */
  lemma EqualIdsConserve(xs: seq<Info>)
    requires EqualIds(xs)
    ensures NothingLost(false, xs)
    ensures var rs := Collect([Duplicate, Mirror], xs);
      forall i :: 0 <= i < |rs| ==> Flags(rs[i]) == FlagsOf(xs, rs[i])
  {
    forall q | 0 <= q < |xs| ensures !Loses(false, xs, q) {
      if HasMirror(Kept(xs[..q]), xs[q]) && !Holds(Kept(xs[..q]), xs[q]) {
        MirroredStaysOut(xs, q, xs[q]);
      }
    }
    FlagsConservedExactly(false, xs);
  }

  // ---------- when the order does not matter ----------

  /** A candidate behind the mirror filter that the duplicate filter would have merged. */
  predicate Shadowed(xs: seq<Info>, q: nat)
    requires q < |xs|
  {
    Holds(Kept(xs[..q]), xs[q]) && HasMirror(Kept(xs[..q]), xs[q])
  }

  /** The flags of every shadowed candidate reach its result by another one. */
  ghost predicate ShadowsAreIdle(xs: seq<Info>) {
    forall q :: 0 <= q < |xs| && Shadowed(xs, q) ==> Absorbs(CountedFlags(true, xs, xs[q]), Flags(xs[q]))
  }

  lemma MirrorFirstCountsLess(xs: seq<Info>, r: Info, b: nat)
    requires Bit(CountedFlags(true, xs, r), b)
    ensures Bit(CountedFlags(false, xs, r), b)
  {
    hide Bit, Same, Flags, Kept;
    var q := SomeCounted(true, xs, r, b);
    CountedHasBit(false, xs, r, b, q);
  }

  lemma IdleShadowsCount(xs: seq<Info>, r: Info, b: nat)
    requires ShadowsAreIdle(xs) && Bit(CountedFlags(false, xs, r), b)
    ensures Bit(CountedFlags(true, xs, r), b)
  {
    hide Bit, Same, Flags, Kept, CountedFlags, Absorbs, HasMirror;
    var q := SomeCounted(false, xs, r, b);
    if Shadowed(xs, q) {
      AbsorbsBits(CountedFlags(true, xs, xs[q]), Flags(xs[q]));
      CountedOfEqual(true, xs, xs[q], r);
    } else {
      CountedHasBit(true, xs, r, b, q);
    }
  }

  lemma IdleShadowsAgree(xs: seq<Info>, r: Info)
    requires ShadowsAreIdle(xs)
    ensures CountedFlags(true, xs, r) == CountedFlags(false, xs, r)
  {
    hide Bit, CountedFlags, ShadowsAreIdle;
    forall b: nat ensures Bit(CountedFlags(true, xs, r), b) <==> Bit(CountedFlags(false, xs, r), b) {
      if Bit(CountedFlags(true, xs, r), b) {
        MirrorFirstCountsLess(xs, r, b);
      }
      if Bit(CountedFlags(false, xs, r), b) {
        IdleShadowsCount(xs, r, b);
      }
    }
    BitsDetermine(CountedFlags(true, xs, r), CountedFlags(false, xs, r));
  }

  lemma {:induction false} KeptPrefix(xs: seq<Info>, q: nat, z: Info)
    requires q <= |xs| && Holds(Kept(xs[..q]), z)
    ensures Holds(Kept(xs), z)
    decreases |xs|
  {
    hide Kept, Holds;
    if q < |xs| {
      var ys, x := xs[..|xs| - 1], xs[|xs| - 1];
      assert xs == ys + [x] && ys[..q] == xs[..q];
      KeptPrefix(ys, q, z);
      KeptGrows(ys, x);
    } else {
      assert xs[..q] == xs;
    }
  }

  lemma ShadowedCounts(xs: seq<Info>, q: nat)
    requires q < |xs| && Shadowed(xs, q)
    ensures Absorbs(CountedFlags(false, xs, xs[q]), Flags(xs[q]))
  {
    var a, b := CountedFlags(false, xs, xs[q]), Flags(xs[q]);
    AbsorbsBits(a, b);
    assert Counts(false, Kept(xs[..q]), xs[q]);
    assert Same(xs[q], xs[q]);
    hide Absorbs, CountedFlags, Kept, Counts, Same, Bit;
    forall i: nat | Bit(b, i) ensures Bit(a, i) {
      CountedHasBit(false, xs, xs[q], i, q);
    }
  }

  /** The two orders of the filters give the same results, flags included, exactly when the
      flags of every candidate that both would drop reach its result by another one. */
  lemma OrdersAgreeExactly(xs: seq<Info>)
    ensures Collect([Mirror, Duplicate], xs) == Collect([Duplicate, Mirror], xs) <==> ShadowsAreIdle(xs)
  {
    var rs, ss := Collect(BothFilters(true), xs), Collect(BothFilters(false), xs);
    FlagsAreCounted(true, xs);
    FlagsAreCounted(false, xs);
    SameKept(true, xs);
    SameKept(false, xs);
    hide Collect, CountedFlags, HasMirror, Holds, Kept;
    if ShadowsAreIdle(xs) {
      assert |rs| == |WithoutFlags(rs)| == |ss|;
      forall i | 0 <= i < |rs| ensures rs[i] == ss[i] {
        assert NoFlags(rs[i]) == WithoutFlags(rs)[i] == WithoutFlags(ss)[i] == NoFlags(ss[i]);
        CountedOfEqual(true, xs, rs[i], ss[i]);
        IdleShadowsAgree(xs, ss[i]);
      }
    }
    if rs == ss {
      forall q | 0 <= q < |xs| && Shadowed(xs, q) ensures Absorbs(CountedFlags(true, xs, xs[q]), Flags(xs[q])) {
        KeptPrefix(xs, q, xs[q]);
        var i := ResultOf(true, xs, xs[q]);
        CountedOfEqual(true, xs, rs[i], xs[q]);
        CountedOfEqual(false, xs, rs[i], xs[q]);
        ShadowedCounts(xs, q);
      }
    }
  }

  /** The duplicate filter in front can lose flags, too: x is dropped as a mirror of m before
      its equal r is accepted. */
  lemma DuplicateFirstLosesFlags(m: Info, x: Info, r: Info)
    requires Mirrors(m, x) && !Same(m, x) && Same(x, r) && !Mirrors(m, r)
    ensures Collect([Duplicate, Mirror], [m, x, r]) == [m, r]
    ensures Dedupe([x, r]) == [Merge(x, r)]
  {
    MergesPair(x, r);
    hide Collect, Push, Merge, Same, Mirrors, Dedupe;
    FirstOfTwo(m, x);
    PushBehindOne(m, r);
    CollectSnoc(BothFilters(false), [m, x], r);
    assert [m, x] + [r] == [m, x, r];
  }

  lemma FirstOfTwo(m: Info, x: Info)
    requires Mirrors(m, x) && !Same(m, x)
    ensures Collect(BothFilters(false), [m, x]) == [m]
  {
    CollectPair(BothFilters(false), m, x);
    hide Collect, Push, Same, Mirrors;
    PushEffect(false, [], m);
    PushBehindOne(m, x);
    assert [] + [m] == [m];
  }

  lemma PushBehindOne(m: Info, x: Info)
    requires !Same(m, x)
    ensures Push(BothFilters(false), [m], x) == if Mirrors(m, x) then [m] else [m, x]
  {
    PushEffect(false, [m], x);
    assert [m][0] == m;
    hide Push, Same, Mirrors;
    assert [m] + [x] == [m, x];
  }

  lemma MergesPair(x: Info, r: Info)
    requires Same(x, r)
    ensures Dedupe([x, r]) == [Merge(x, r)]
  {
    CollectPair([Duplicate], x, r);
    PushDuplicate([], x);
    PushDuplicate([x], r);
    EqualIsRejected(x, r);
  }

  // ---------- the documented mirror filter ----------

  /** What filter.h says MirrorFilter compares: the host name in place of the id. */
  predicate Alike(a: Info, b: Info) {
    && a.Gpu? && b.Gpu?
    && a.node.session == b.node.session
    && a.port == b.port && a.device == b.device
    && a.pvp.x == b.pvp.x && a.pvp.y == b.pvp.y
  }

  predicate MirrorsAsDocumented(a: Info, b: Info) {
    Alike(a, b) && a.node.nodeName == b.node.nodeName
  }

  predicate HasDocumentedMirror(xs: seq<Info>, c: Info) {
    exists i :: 0 <= i < |xs| && MirrorsAsDocumented(xs[i], c)
  }

  /** Discovery through the mirror filter as documented. */
  function CollectAsDocumented(xs: seq<Info>): seq<Info> {
    if xs == [] then [] else
      var ys, x := xs[..|xs| - 1], xs[|xs| - 1];
      var rs := CollectAsDocumented(ys);
      if HasDocumentedMirror(rs, x) then rs else rs + [x]
  }

  /** A record of the same host and place under another id is kept, against the documentation. */
  lemma MirrorFilterComparesIds(a: Info, id: Id)
    requires a.Gpu? && id != a.node.id
    ensures Collect([Mirror], [a, WithId(a, id)]) == [a, WithId(a, id)]
    ensures CollectAsDocumented([a, WithId(a, id)]) == [a]
  {
    var b := WithId(a, id);
    MirrorDecides([], a);
    MirrorDecides([a], b);
    CollectPair([Mirror], a, b);
    assert MirrorsAsDocumented([a][0], b);
    assert [a, b][..1] == [a] && [a][..0] == [];
    assert CollectAsDocumented([a]) == [a];
  }

  lemma MirrorDecides(rs: seq<Info>, x: Info)
    ensures Push([Mirror], rs, x) == if HasMirror(rs, x) then rs else rs + [x]
  {
    MirrorsAreGpus(rs, x);
    assert Run([Mirror][1..], rs, x) == (true, rs);
  }

  /** Among records of the same session, port, device and position, ids and host names tell
      the same ones apart. */
  ghost predicate IdsAreNames(xs: seq<Info>) {
    forall a, b :: a in xs && b in xs && Alike(a, b) ==>
      (a.node.id == b.node.id <==> a.node.nodeName == b.node.nodeName)
  }

  ghost predicate Within(rs: seq<Info>, xs: seq<Info>) {
    forall r :: r in rs ==> r in xs
  }

  /** The code's verdicts are the documented ones, whatever records of a list were accepted
      before, exactly when ids are as good as host names among them. */
  lemma DocumentedExactly(xs: seq<Info>)
    ensures (forall rs, c :: Within(rs, xs) && c in xs ==> (HasMirror(rs, c) <==> HasDocumentedMirror(rs, c)))
      <==> IdsAreNames(xs)
  {
    if IdsAreNames(xs) {
      forall rs, c | Within(rs, xs) && c in xs ensures HasMirror(rs, c) <==> HasDocumentedMirror(rs, c) {
        forall i | 0 <= i < |rs| ensures Mirrors(rs[i], c) <==> MirrorsAsDocumented(rs[i], c) {
          assert rs[i] in rs;
        }
      }
    }
    if forall rs, c :: Within(rs, xs) && c in xs ==> (HasMirror(rs, c) <==> HasDocumentedMirror(rs, c)) {
      forall a, b | a in xs && b in xs && Alike(a, b)
        ensures a.node.id == b.node.id <==> a.node.nodeName == b.node.nodeName
      {
        assert Within([a], xs);
        assert HasMirror([a], b) <==> Mirrors([a][0], b);
        assert HasDocumentedMirror([a], b) <==> MirrorsAsDocumented([a][0], b);
      }
    }
  }

  // ---------- when the documented list comes out ----------

  /** Every candidate gets the documented verdict on the records accepted before it. */
  ghost predicate VerdictsAgree(xs: seq<Info>) {
    forall q :: 0 <= q < |xs| ==>
      (HasMirror(Collect([Mirror], xs[..q]), xs[q]) <==> HasDocumentedMirror(Collect([Mirror], xs[..q]), xs[q]))
  }

  lemma VerdictsSnoc(ys: seq<Info>, x: Info)
    ensures var rs := Collect([Mirror], ys);
      VerdictsAgree(ys + [x]) <==> VerdictsAgree(ys) && (HasMirror(rs, x) <==> HasDocumentedMirror(rs, x))
  {
    hide Collect, HasMirror, HasDocumentedMirror;
    var xs := ys + [x];
    assert xs[|ys|] == x && xs[..|ys|] == ys;
    forall q | 0 <= q < |ys| ensures xs[q] == ys[q] && xs[..q] == ys[..q] {
    }
  }

  lemma MirrorSnoc(ys: seq<Info>, x: Info)
    ensures var rs := Collect([Mirror], ys);
      Collect([Mirror], ys + [x]) == if HasMirror(rs, x) then rs else rs + [x]
    ensures var ss := CollectAsDocumented(ys);
      CollectAsDocumented(ys + [x]) == if HasDocumentedMirror(ss, x) then ss else ss + [x]
  {
    CollectSnoc([Mirror], ys, x);
    MirrorDecides(Collect([Mirror], ys), x);
    assert (ys + [x])[..|ys|] == ys;
  }

  lemma MirrorsOfMore(rs: seq<Info>, y: Info, x: Info)
    ensures HasMirror(rs, x) ==> HasMirror(rs + [y], x)
    ensures x.Gpu? ==> HasMirror(rs + [x], x) && HasDocumentedMirror(rs + [x], x)
    ensures HasDocumentedMirror(rs, x) ==> HasDocumentedMirror(rs + [y], x)
  {
    var ss, ts := rs + [y], rs + [x];
    assert ts[|rs|] == x;
    assert forall i :: 0 <= i < |rs| ==> ss[i] == rs[i];
    assert x.Gpu? ==> Mirrors(ts[|rs|], x) && MirrorsAsDocumented(ts[|rs|], x);
  }

  /** No GPU that was offered before is accepted again, by either filter. */
  lemma {:induction false} OfferedIsRejected(xs: seq<Info>, x: Info)
    requires x in xs && x.Gpu?
    ensures HasMirror(Collect([Mirror], xs), x) && HasDocumentedMirror(CollectAsDocumented(xs), x)
  {
    var ys, y := xs[..|xs| - 1], xs[|xs| - 1];
    assert xs == ys + [y];
    hide Collect, CollectAsDocumented, HasMirror, HasDocumentedMirror;
    MirrorSnoc(ys, y);
    MirrorsOfMore(Collect([Mirror], ys), y, x);
    MirrorsOfMore(CollectAsDocumented(ys), y, x);
    if x in ys {
      OfferedIsRejected(ys, x);
    }
  }

  lemma {:induction false} OnlyCandidates(xs: seq<Info>)
    ensures Within(Collect([Mirror], xs), xs) && Within(CollectAsDocumented(xs), xs)
  {
    if xs != [] {
      var ys, x := xs[..|xs| - 1], xs[|xs| - 1];
      assert xs == ys + [x];
      OnlyCandidates(ys);
      MirrorSnoc(ys, x);
      hide Collect, CollectAsDocumented, HasMirror, HasDocumentedMirror;
    }
  }

  lemma NetsAreKept(rs: seq<Info>, x: Info)
    requires x.Net?
    ensures !HasMirror(rs, x) && !HasDocumentedMirror(rs, x)
  {
  }

  /** Lists that end up the same were the same before the last candidate. */
  lemma SameBefore(ys: seq<Info>, x: Info)
    requires Collect([Mirror], ys + [x]) == CollectAsDocumented(ys + [x])
    ensures Collect([Mirror], ys) == CollectAsDocumented(ys)
  {
    var rs, ss := Collect([Mirror], ys), CollectAsDocumented(ys);
    MirrorSnoc(ys, x);
    OnlyCandidates(ys);
    if x.Gpu? && x in ys {
      OfferedIsRejected(ys, x);
    }
    if x.Net? {
      NetsAreKept(rs, x);
      NetsAreKept(ss, x);
    }
    hide Collect, CollectAsDocumented, HasMirror, HasDocumentedMirror;
    AppendedOnce(rs, ss, x);
  }

  lemma AppendedOnce(rs: seq<Info>, ss: seq<Info>, x: Info)
    ensures rs + [x] == ss + [x] ==> rs == ss
    ensures rs + [x] == ss ==> x in ss
    ensures rs == ss + [x] ==> x in rs
  {
    assert (rs + [x])[..|rs|] == rs && (ss + [x])[..|ss|] == ss;
    assert (rs + [x])[|rs|] == x && (ss + [x])[|ss|] == x;
  }

  /** Discovery through the mirror filter gives the documented list exactly when every
      candidate gets the documented verdict on the records accepted before it. */
  lemma {:induction false} ListsAgreeExactly(xs: seq<Info>)
    ensures Collect([Mirror], xs) == CollectAsDocumented(xs) <==> VerdictsAgree(xs)
  {
    if xs != [] {
      var ys, x := xs[..|xs| - 1], xs[|xs| - 1];
      assert xs == ys + [x];
      hide Collect, CollectAsDocumented, VerdictsAgree, HasMirror, HasDocumentedMirror;
      ListsAgreeExactly(ys);
      VerdictsSnoc(ys, x);
      MirrorSnoc(ys, x);
      if Collect([Mirror], xs) == CollectAsDocumented(xs) {
        SameBefore(ys, x);
      }
    }
  }

  /** When ids are as good as host names the documented list comes out. */
  lemma MirrorAsDocumented(xs: seq<Info>)
    requires IdsAreNames(xs)
    ensures Collect([Mirror], xs) == CollectAsDocumented(xs)
  {
    ListsAgreeExactly(xs);
    DocumentedExactly(xs);
    hide Collect, HasMirror, HasDocumentedMirror;
    forall q | 0 <= q < |xs| ensures Within(Collect([Mirror], xs[..q]), xs) {
      OnlyCandidates(xs[..q]);
    }
  }
}
