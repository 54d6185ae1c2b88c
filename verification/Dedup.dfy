/** What discovery through the duplicate filter returns: the first occurrences, each with
    the flags of all candidates equal to it. */
module Dedup {
  import opened Bits
  import opened Records
  import opened Text
  import opened Chains

  function Dedupe(xs: seq<Info>): seq<Info> {
    Collect([Duplicate], xs)
  }

  // ---------- the reference ----------

  predicate Holds(xs: seq<Info>, x: Info) {
    exists i :: 0 <= i < |xs| && Same(xs[i], x)
  }

  /** The candidates that equal no earlier candidate. */
  function Firsts(xs: seq<Info>): seq<Info> {
    if xs == [] then [] else
      var ys, x := xs[..|xs| - 1], xs[|xs| - 1];
      if Holds(ys, x) then Firsts(ys) else Firsts(ys) + [x]
  }

  /** The bitwise or of the flags of all candidates equal to r. */
  function FlagsOf(xs: seq<Info>, r: Info): uint32 {
    if xs == [] then 0 else
      var ys, x := xs[..|xs| - 1], xs[|xs| - 1];
      Or32(FlagsOf(ys, r), if Same(x, r) then Flags(x) else 0)
  }

  /** The first occurrences with the flags of all their duplicates. */
  function Merged(xs: seq<Info>): (rs: seq<Info>)
    ensures |rs| == |Firsts(xs)|
    ensures forall i :: 0 <= i < |rs| ==> rs[i] == WithFlags(Firsts(xs)[i], FlagsOf(xs, Firsts(xs)[i]))
  {
    seq(|Firsts(xs)|, i requires 0 <= i < |Firsts(xs)| => WithFlags(Firsts(xs)[i], FlagsOf(xs, Firsts(xs)[i])))
  }

  ghost predicate Distinct(xs: seq<Info>) {
    forall i, j :: 0 <= i < j < |xs| ==> !Same(xs[i], xs[j])
  }

  lemma {:induction false} FirstsAreDistinct(xs: seq<Info>)
    ensures Distinct(Firsts(xs))
    ensures forall x :: Holds(Firsts(xs), x) <==> Holds(xs, x)
    ensures forall r :: r in Firsts(xs) ==> r in xs
  {
    if xs != [] {
      var ys, x := xs[..|xs| - 1], xs[|xs| - 1];
      FirstsAreDistinct(ys);
      assert xs == ys + [x];
      forall z ensures Holds(xs, z) <==> Holds(ys, z) || Same(x, z) {
        HoldsSnoc(ys, x, z);
      }
      forall z ensures Holds(Firsts(ys) + [x], z) <==> Holds(Firsts(ys), z) || Same(x, z) {
        HoldsSnoc(Firsts(ys), x, z);
      }
      if Holds(ys, x) {
        forall z | Same(x, z) ensures Holds(ys, z) {
          var i :| 0 <= i < |ys| && Same(ys[i], x);
          assert Same(ys[i], z);
        }
      }
    }
  }

  lemma HoldsSnoc(ys: seq<Info>, x: Info, z: Info)
    ensures Holds(ys + [x], z) <==> Holds(ys, z) || Same(x, z)
  {
    var xs := ys + [x];
    assert xs[|ys|] == x;
    assert forall i :: 0 <= i < |ys| ==> xs[i] == ys[i];
  }

  lemma FlagsOfSnoc(ys: seq<Info>, x: Info, r: Info)
    ensures FlagsOf(ys + [x], r) == Or32(FlagsOf(ys, r), if Same(x, r) then Flags(x) else 0)
  {
    assert (ys + [x])[..|ys|] == ys;
  }

  /** Only the compared fields of r matter. */
  lemma {:induction false} FlagsOfEqual(xs: seq<Info>, r: Info, s: Info)
    requires Same(r, s)
    ensures FlagsOf(xs, r) == FlagsOf(xs, s)
    ensures !Holds(xs, r) ==> FlagsOf(xs, r) == 0
  {
    if xs != [] {
      var ys, x := xs[..|xs| - 1], xs[|xs| - 1];
      FlagsOfEqual(ys, r, s);
      assert xs == ys + [x];
      HoldsSnoc(ys, x, r);
    }
  }

  // ---------- the fold is the reference ----------

  lemma PushDuplicate(current: seq<Info>, x: Info)
    ensures Push([Duplicate], current, x)
         == if Find(current, x) == |current| then current + [x]
            else current[Find(current, x) := Merge(current[Find(current, x)], x)]
  {
    assert Run([Duplicate][1..], current, x) == (true, current);
  }

  lemma FindIn(rs: seq<Info>, x: Info, i: nat)
    requires Distinct(rs) && i < |rs| && Same(rs[i], x)
    ensures Find(rs, x) == i
  {
  }

  lemma DistinctByKey(rs: seq<Info>, ss: seq<Info>)
    requires Distinct(rs) && |ss| == |rs|
    requires forall i :: 0 <= i < |rs| ==> Same(ss[i], rs[i])
    ensures Distinct(ss)
  {
    forall i, j | 0 <= i < j < |ss| ensures !Same(ss[i], ss[j]) {
      assert Same(ss[i], rs[i]) && Same(ss[j], rs[j]);
    }
  }

  lemma MergedKeepsKeys(xs: seq<Info>)
    ensures forall i :: 0 <= i < |Firsts(xs)| ==> Key(Merged(xs)[i]) == Key(Firsts(xs)[i])
    ensures Distinct(Merged(xs))
    ensures forall x :: Holds(Merged(xs), x) <==> Holds(xs, x)
  {
    var fs, ms := Firsts(xs), Merged(xs);
    FirstsAreDistinct(xs);
    assert forall i :: 0 <= i < |fs| ==> Same(ms[i], fs[i]);
    DistinctByKey(fs, ms);
    forall x ensures Holds(ms, x) <==> Holds(fs, x) {
      HoldsByKey(fs, ms, x);
      HoldsByKey(ms, fs, x);
    }
  }

  lemma HoldsByKey(rs: seq<Info>, ss: seq<Info>, x: Info)
    requires |ss| == |rs| && forall i :: 0 <= i < |rs| ==> Same(ss[i], rs[i])
    ensures Holds(rs, x) ==> Holds(ss, x)
  {
    if Holds(rs, x) {
      var i :| 0 <= i < |rs| && Same(rs[i], x);
      assert Same(ss[i], x);
    }
  }

  lemma MergedWithKnown(ys: seq<Info>, x: Info, k: nat)
    requires k < |Merged(ys)| && Same(Merged(ys)[k], x)
    ensures Merged(ys + [x]) == Merged(ys)[k := Merge(Merged(ys)[k], x)]
  {
    var fs, ms := Firsts(ys), Merged(ys);
    MergedKeepsKeys(ys);
    assert Holds(ms, x);
    assert (ys + [x])[..|ys|] == ys;
    forall i | 0 <= i < |fs|
      ensures FlagsOf(ys + [x], fs[i]) == Or32(FlagsOf(ys, fs[i]), if i == k then Flags(x) else 0)
    {
      FlagsOfSnoc(ys, x, fs[i]);
      if i != k {
        assert !Same(ms[i], ms[k]);
      }
    }
  }

  lemma MergedWithFresh(ys: seq<Info>, x: Info)
    requires !Holds(ys, x)
    ensures Merged(ys + [x]) == Merged(ys) + [x]
  {
    var fs := Firsts(ys);
    FirstsAreDistinct(ys);
    assert (ys + [x])[..|ys|] == ys;
    forall i | 0 <= i < |fs| ensures FlagsOf(ys + [x], fs[i]) == FlagsOf(ys, fs[i]) {
      FlagsOfSnoc(ys, x, fs[i]);
      assert Holds(fs, fs[i]);
      assert !Same(fs[i], x);
    }
    FlagsOfSnoc(ys, x, x);
    FlagsOfEqual(ys, x, x);
  }

  /** Discovery through the duplicate filter is stable deduplication with merged flags. */
  lemma {:induction false} DedupeIsMerged(xs: seq<Info>)
    ensures Dedupe(xs) == Merged(xs)
  {
    if xs != [] {
      var ys, x := xs[..|xs| - 1], xs[|xs| - 1];
      DedupeIsMerged(ys);
      assert xs == ys + [x];
      CollectSnoc([Duplicate], ys, x);
      PushDuplicate(Merged(ys), x);
      MergedKeepsKeys(ys);
      var k := Find(Merged(ys), x);
      if k < |Merged(ys)| {
        MergedWithKnown(ys, x, k);
      } else {
        assert !Holds(Merged(ys), x);
        MergedWithFresh(ys, x);
      }
    }
  }

  // ---------- consequences ----------

  /** r is a candidate whose flags became those of all candidates equal to it. */
  ghost predicate MergedFrom(xs: seq<Info>, r: Info) {
    exists x :: x in xs && r == WithFlags(x, FlagsOf(xs, r))
  }

  /** No two results are equal, every candidate has an equal result, every result is a
      candidate but for its flags, and these are the flags of all candidates equal to it. */
  lemma DedupeConservesFlags(xs: seq<Info>)
    ensures Distinct(Dedupe(xs))
    ensures forall x :: Holds(Dedupe(xs), x) <==> Holds(xs, x)
    ensures forall r :: r in Dedupe(xs) ==> MergedFrom(xs, r)
  {
    DedupeIsMerged(xs);
    FirstsAreDistinct(xs);
    MergedKeepsKeys(xs);
    var fs, ms := Firsts(xs), Merged(xs);
    forall i | 0 <= i < |fs| ensures FlagsOf(xs, ms[i]) == FlagsOf(xs, fs[i]) && fs[i] in xs {
      FlagsOfEqual(xs, ms[i], fs[i]);
    }
    forall r | r in ms ensures MergedFrom(xs, r) {
      var i :| 0 <= i < |ms| && ms[i] == r;
      assert r == WithFlags(fs[i], FlagsOf(xs, r));
    }
  }

  /** The part of the above that most proofs need. */
  lemma DedupeKeepsKeys(xs: seq<Info>)
    ensures Distinct(Dedupe(xs))
    ensures forall x :: Holds(Dedupe(xs), x) <==> Holds(xs, x)
  {
    DedupeIsMerged(xs);
    MergedKeepsKeys(xs);
  }

  /** A bit is in the merged flags exactly when some equal candidate has it. */
  lemma {:induction false} BitOfFlags(xs: seq<Info>, r: Info, i: nat)
    ensures Bit(FlagsOf(xs, r), i) <==> exists x :: x in xs && Same(x, r) && Bit(Flags(x), i)
  {
    BitOfZero(i);
    if xs != [] {
      var ys, x := xs[..|xs| - 1], xs[|xs| - 1];
      BitOfFlags(ys, r, i);
      assert xs == ys + [x];
      BitOfOr(FlagsOf(ys, r), if Same(x, r) then Flags(x) else 0, i);
    }
  }

  function Outlines(rs: seq<Info>): set<Info> {
    set r | r in rs :: Outline(r)
  }

  lemma AlikeMember(xs: seq<Info>, ys: seq<Info>, x: Info) returns (y: Info)
    requires x in xs && Outlines(xs) <= Outlines(ys)
    ensures y in ys && Outline(y) == Outline(x) && Same(y, x) && Flags(y) == Flags(x)
  {
    assert Outline(x) in Outlines(xs);
    y :| y in ys && Outline(y) == Outline(x);
    SameByOutline(y, x);
  }

  lemma SameByOutline(x: Info, y: Info)
    requires Outline(x) == Outline(y)
    ensures Same(x, y) && Flags(x) == Flags(y)
  {
    assert Key(x) == NoFlags(Outline(x));
    assert Flags(x) == Flags(Outline(x)) && Flags(y) == Flags(Outline(y));
  }

  lemma BitsOfAlike(xs: seq<Info>, ys: seq<Info>, r: Info, i: nat)
    requires Outlines(xs) <= Outlines(ys)
    ensures Bit(FlagsOf(xs, r), i) ==> Bit(FlagsOf(ys, r), i)
  {
    BitOfFlags(xs, r, i);
    BitOfFlags(ys, r, i);
    if Bit(FlagsOf(xs, r), i) {
      var x :| x in xs && Same(x, r) && Bit(Flags(x), i);
      var y := AlikeMember(xs, ys, x);
    }
  }

  lemma FlagsOfAlike(xs: seq<Info>, ys: seq<Info>, r: Info)
    requires Outlines(xs) == Outlines(ys)
    ensures FlagsOf(xs, r) == FlagsOf(ys, r)
  {
    forall i: nat ensures Bit(FlagsOf(xs, r), i) <==> Bit(FlagsOf(ys, r), i) {
      BitsOfAlike(xs, ys, r, i);
      BitsOfAlike(ys, xs, r, i);
    }
    BitsDetermine(FlagsOf(xs, r), FlagsOf(ys, r));
  }

  /** Neither the order and the multiplicity of the candidates, hence the order of the
      modules, nor their ids matter: the results are the same up to ids and positions,
      flags included. */
  lemma OrderDoesNotMatter(xs: seq<Info>, ys: seq<Info>)
    requires Outlines(xs) == Outlines(ys)
    ensures Outlines(Dedupe(xs)) == Outlines(Dedupe(ys))
    ensures |Dedupe(xs)| == |Dedupe(ys)|
  {
    OutlinesIncluded(xs, ys);
    OutlinesIncluded(ys, xs);
    DedupeKeepsKeys(xs);
    DedupeKeepsKeys(ys);
    OutlinesCount(Dedupe(xs));
    OutlinesCount(Dedupe(ys));
  }

  lemma OutlinesIncluded(xs: seq<Info>, ys: seq<Info>)
    requires Outlines(xs) == Outlines(ys)
    ensures Outlines(Dedupe(xs)) <= Outlines(Dedupe(ys))
  {
    forall r | r in Dedupe(xs) ensures Outline(r) in Outlines(Dedupe(ys)) {
      var s := SameResult(xs, ys, r);
      assert s in Dedupe(ys) && Outline(s) == Outline(r);
    }
  }

  lemma SameResult(xs: seq<Info>, ys: seq<Info>, r: Info) returns (s: Info)
    requires Outlines(xs) == Outlines(ys)
    requires r in Dedupe(xs)
    ensures s in Dedupe(ys) && Outline(s) == Outline(r)
  {
    DedupeConservesFlags(xs);
    DedupeConservesFlags(ys);
    assert Holds(Dedupe(xs), r);
    HoldsOfAlike(xs, ys, r);
    var i :| 0 <= i < |Dedupe(ys)| && Same(Dedupe(ys)[i], r);
    s := Dedupe(ys)[i];
    FlagsOfAlike(xs, ys, r);
    FlagsOfEqual(ys, r, s);
  }

  lemma HoldsOfAlike(xs: seq<Info>, ys: seq<Info>, r: Info)
    requires Outlines(xs) <= Outlines(ys)
    ensures Holds(xs, r) ==> Holds(ys, r)
  {
    if Holds(xs, r) {
      var i :| 0 <= i < |xs| && Same(xs[i], r);
      var y := AlikeMember(xs, ys, xs[i]);
      var j :| 0 <= j < |ys| && ys[j] == y;
    }
  }

  lemma {:induction false} OutlinesCount(rs: seq<Info>)
    requires Distinct(rs)
    ensures |Outlines(rs)| == |rs|
  {
    if rs != [] {
      var ss, r := rs[..|rs| - 1], rs[|rs| - 1];
      OutlinesCount(ss);
      assert rs == ss + [r];
      assert Outlines(rs) == Outlines(ss) + {Outline(r)};
      forall s | s in ss ensures Outline(s) != Outline(r) {
        assert !Same(s, r);
      }
    }
  }

  // ---------- folding twice, and appending ----------

  lemma HoldsConcat(rs: seq<Info>, rows: seq<Info>, x: Info)
    ensures Holds(rs + rows, x) <==> Holds(rs, x) || Holds(rows, x)
  {
    var all := rs + rows;
    forall i | 0 <= i < |rs| ensures all[i] == rs[i] {
    }
    forall i | 0 <= i < |rows| ensures all[|rs| + i] == rows[i] {
    }
    assert forall i :: |rs| <= i < |all| ==> all[i] == rows[i - |rs|];
  }

  lemma PushFresh(rs: seq<Info>, x: Info)
    requires !Holds(rs, x)
    ensures Push([Duplicate], rs, x) == rs + [x]
  {
    PushDuplicate(rs, x);
  }

  lemma DedupeSnocFresh(xs: seq<Info>, x: Info)
    requires !Holds(Dedupe(xs), x)
    ensures Dedupe(xs + [x]) == Dedupe(xs) + [x]
  {
    CollectSnoc([Duplicate], xs, x);
    PushFresh(Dedupe(xs), x);
  }

  /** Fresh records are accepted as they are. */
  lemma {:induction false} DedupeAppendFresh(xs: seq<Info>, rows: seq<Info>)
    requires Distinct(rows)
    requires forall i :: 0 <= i < |rows| ==> !Holds(xs, rows[i])
    ensures Dedupe(xs + rows) == Dedupe(xs) + rows
  {
    hide Dedupe, Same;
    if rows == [] {
      assert xs + rows == xs;
    } else {
      var most, x := rows[..|rows| - 1], rows[|rows| - 1];
      DedupeAppendFresh(xs, most);
      DedupeKeepsKeys(xs);
      assert !Holds(most, x);
      HoldsConcat(Dedupe(xs), most, x);
      DedupeSnocFresh(xs + most, x);
      assert xs + rows == xs + most + [x];
    }
  }

  lemma PushKnown(rs: seq<Info>, x: Info)
    requires Distinct(rs) && Outline(x) in Outlines(rs)
    ensures Push([Duplicate], rs, x) == rs
  {
    PushDuplicate(rs, x);
    var r :| r in rs && Outline(r) == Outline(x);
    SameByOutline(r, x);
    var i :| 0 <= i < |rs| && rs[i] == r;
    FindIn(rs, x, i);
    OrIdempotent(Flags(x));
  }

  /** Records that are among the results already, but for their ids, change nothing. */
  lemma {:induction false} DedupeAppendKnown(xs: seq<Info>, rows: seq<Info>)
    requires Outlines(rows) <= Outlines(Dedupe(xs))
    ensures Dedupe(xs + rows) == Dedupe(xs)
  {
    hide Dedupe, Outline;
    if rows == [] {
      assert xs + rows == xs;
    } else {
      var most, x := rows[..|rows| - 1], rows[|rows| - 1];
      assert rows == most + [x];
      assert Outline(x) in Outlines(rows) && Outlines(most) <= Outlines(rows);
      DedupeAppendKnown(xs, most);
      assert xs + rows == (xs + most) + [x];
      DedupeKeepsKeys(xs);
      DedupeSnocKnown(xs + most, x);
    }
  }

  lemma DedupeSnocKnown(xs: seq<Info>, x: Info)
    requires Outline(x) in Outlines(Dedupe(xs))
    ensures Dedupe(xs + [x]) == Dedupe(xs)
  {
    CollectSnoc([Duplicate], xs, x);
    DedupeKeepsKeys(xs);
    PushKnown(Dedupe(xs), x);
  }

  /** Deduplicating a result again changes nothing. */
  lemma DedupeIsIdempotent(xs: seq<Info>)
    ensures Dedupe(Dedupe(xs)) == Dedupe(xs)
  {
    DedupeKeepsKeys(xs);
    DedupeAppendFresh([], Dedupe(xs));
    assert [] + Dedupe(xs) == Dedupe(xs);
  }

  // ---------- one list behind another ----------

  /** The results rs with the flags of the records of ys that equal them. */
  function Boost(rs: seq<Info>, ys: seq<Info>): (bs: seq<Info>)
    ensures |bs| == |rs|
    ensures forall i :: 0 <= i < |rs| ==> bs[i] == WithFlags(rs[i], Or32(Flags(rs[i]), FlagsOf(ys, rs[i])))
  {
    seq(|rs|, i requires 0 <= i < |rs| => WithFlags(rs[i], Or32(Flags(rs[i]), FlagsOf(ys, rs[i]))))
  }

  /** The records of ys that equal none of xs. */
  function Beyond(ys: seq<Info>, xs: seq<Info>): seq<Info> {
    if ys == [] then [] else
      var zs, y := ys[..|ys| - 1], ys[|ys| - 1];
      if Holds(xs, y) then Beyond(zs, xs) else Beyond(zs, xs) + [y]
  }

  lemma FindConcat(rs: seq<Info>, ss: seq<Info>, x: Info)
    ensures Find(rs + ss, x) == if Find(rs, x) < |rs| then Find(rs, x) else |rs| + Find(ss, x)
  {
    var all := rs + ss;
    assert forall i :: 0 <= i < |rs| ==> all[i] == rs[i];
    assert forall i :: 0 <= i < |ss| ==> all[|rs| + i] == ss[i];
    var i := if Find(rs, x) < |rs| then Find(rs, x) else |rs| + Find(ss, x);
    forall j | 0 <= j < i ensures !Same(all[j], x) {
      assert j >= |rs| ==> all[j] == ss[j - |rs|];
    }
  }

  lemma PushConcat(rs: seq<Info>, ss: seq<Info>, x: Info)
    ensures Push([Duplicate], rs + ss, x)
         == if Holds(rs, x) then Push([Duplicate], rs, x) + ss else rs + Push([Duplicate], ss, x)
  {
    hide Same, Push, Merge;
    FindConcat(rs, ss, x);
    PushDuplicate(rs + ss, x);
    assert Holds(rs, x) <==> Find(rs, x) < |rs|;
    hide Find, Holds;
    if Holds(rs, x) {
      PushDuplicate(rs, x);
      UpdateFront(rs, ss, Find(rs, x), Merge(rs[Find(rs, x)], x));
    } else {
      PushDuplicate(ss, x);
      if Find(ss, x) < |ss| {
        UpdateBack(rs, ss, Find(ss, x), Merge(ss[Find(ss, x)], x));
      } else {
        assert rs + ss + [x] == rs + (ss + [x]);
      }
    }
  }

  lemma UpdateFront(rs: seq<Info>, ss: seq<Info>, k: nat, x: Info)
    requires k < |rs|
    ensures (rs + ss)[k] == rs[k] && (rs + ss)[k := x] == rs[k := x] + ss
  {
  }

  lemma UpdateBack(rs: seq<Info>, ss: seq<Info>, k: nat, x: Info)
    requires k < |ss|
    ensures (rs + ss)[|rs| + k] == ss[k] && (rs + ss)[|rs| + k := x] == rs + ss[k := x]
  {
  }

  /** A record that equals a result adds its flags to it, and to no other. */
  lemma BoostSnoc(rs: seq<Info>, ys: seq<Info>, y: Info)
    requires Distinct(rs)
    ensures Boost(rs, ys + [y]) == if Holds(rs, y) then Push([Duplicate], Boost(rs, ys), y) else Boost(rs, ys)
  {
    var bs, cs, k := Boost(rs, ys), Boost(rs, ys + [y]), Find(rs, y);
    BoostKeepsKeys(rs, ys);
    PushDuplicate(bs, y);
    if k < |rs| {
      FindIn(bs, y, k);
    }
    forall i | 0 <= i < |rs| ensures cs[i] == if i == k then Merge(bs[i], y) else bs[i] {
      FlagsOfSnoc(ys, y, rs[i]);
      hide FlagsOf;
      if i == k {
        OrAssociates(Flags(rs[i]), FlagsOf(ys, rs[i]), Flags(y));
      } else {
        assert k < |rs| ==> !Same(rs[i], rs[k]);
      }
    }
  }

  lemma BoostKeepsKeys(rs: seq<Info>, ys: seq<Info>)
    requires Distinct(rs)
    ensures Distinct(Boost(rs, ys))
    ensures forall x :: Holds(Boost(rs, ys), x) <==> Holds(rs, x)
    ensures forall i :: 0 <= i < |rs| ==> Same(Boost(rs, ys)[i], rs[i])
  {
    var bs := Boost(rs, ys);
    hide FlagsOf;
    assert forall i :: 0 <= i < |rs| ==> Same(bs[i], rs[i]);
    DistinctByKey(rs, bs);
    forall x ensures Holds(bs, x) <==> Holds(rs, x) {
      HoldsByKey(rs, bs, x);
      HoldsByKey(bs, rs, x);
    }
  }

  /** A boosted result has the bits it had and those of the records that equal it. */
  lemma BitOfBoost(rs: seq<Info>, ys: seq<Info>, k: nat, i: nat)
    requires k < |rs|
    ensures Bit(Flags(Boost(rs, ys)[k]), i) <==>
      Bit(Flags(rs[k]), i) || exists y :: y in ys && Same(y, rs[k]) && Bit(Flags(y), i)
  {
    BitOfFlags(ys, rs[k], i);
    BitOfOr(Flags(rs[k]), FlagsOf(ys, rs[k]), i);
    if rs[k].Net? {
      BitOfZero(i);
    }
  }

  /** Deduplicating two lists: the results for the first with the flags of their equals in the
      second, followed by the results for what the second adds. */
  lemma {:induction false} DedupeConcat(xs: seq<Info>, ys: seq<Info>)
    ensures Dedupe(xs + ys) == Boost(Dedupe(xs), ys) + Dedupe(Beyond(ys, xs))
  {
    DedupeKeepsKeys(xs);
    if ys == [] {
      assert xs + ys == xs;
      BoostOfNone(Dedupe(xs));
    } else {
      var zs, y := ys[..|ys| - 1], ys[|ys| - 1];
      assert ys == zs + [y] && xs + ys == (xs + zs) + [y];
      hide Dedupe, Same, Boost, Beyond, Push;
      DedupeConcat(xs, zs);
      CollectDuplicate(xs + zs, y);
      var bs, news := Boost(Dedupe(xs), zs), Beyond(zs, xs);
      BoostKeepsKeys(Dedupe(xs), zs);
      PushConcat(bs, Dedupe(news), y);
      BoostSnoc(Dedupe(xs), zs, y);
      BeyondSnoc(zs, y, xs);
      CollectDuplicate(news, y);
    }
  }

  lemma CollectDuplicate(xs: seq<Info>, x: Info)
    ensures Dedupe(xs + [x]) == Push([Duplicate], Dedupe(xs), x)
  {
    CollectSnoc([Duplicate], xs, x);
  }

  lemma BeyondSnoc(ys: seq<Info>, y: Info, xs: seq<Info>)
    ensures Beyond(ys + [y], xs) == if Holds(xs, y) then Beyond(ys, xs) else Beyond(ys, xs) + [y]
  {
    assert (ys + [y])[..|ys|] == ys;
  }

  lemma BoostOfNone(rs: seq<Info>)
    ensures Boost(rs, []) == rs
  {
    forall i | 0 <= i < |rs| ensures Boost(rs, [])[i] == rs[i] {
      OrZero(Flags(rs[i]));
    }
  }

  lemma {:induction false} BeyondMembers(ys: seq<Info>, xs: seq<Info>)
    ensures forall y :: y in Beyond(ys, xs) <==> y in ys && !Holds(xs, y)
  {
    if ys != [] {
      var zs, y := ys[..|ys| - 1], ys[|ys| - 1];
      assert ys == zs + [y];
      BeyondMembers(zs, xs);
    }
  }

  lemma {:induction false} BeyondConcat(ys: seq<Info>, zs: seq<Info>, xs: seq<Info>)
    ensures Beyond(ys + zs, xs) == Beyond(ys, xs) + Beyond(zs, xs)
  {
    if zs == [] {
      assert ys + zs == ys;
    } else {
      var most, z := zs[..|zs| - 1], zs[|zs| - 1];
      assert zs == most + [z] && ys + zs == (ys + most) + [z];
      BeyondConcat(ys, most, xs);
      BeyondSnoc(ys + most, z, xs);
      BeyondSnoc(most, z, xs);
    }
  }

  // ---------- predicate filters ----------

  /** The filters that look at the candidate alone. */
  predicate IsPredicate(k: Kind) {
    !k.Duplicate? && !k.Mirror?
  }

  ghost predicate ArePredicates(ps: seq<Kind>) {
    forall i :: 0 <= i < |ps| ==> IsPredicate(ps[i])
  }

  predicate Passes(ps: seq<Kind>, x: Info) {
    Run(ps, [], x).0
  }

  function Select(ps: seq<Kind>, xs: seq<Info>): seq<Info> {
    if xs == [] then [] else
      var ys, x := xs[..|xs| - 1], xs[|xs| - 1];
      if Passes(ps, x) then Select(ps, ys) + [x] else Select(ps, ys)
  }

  lemma {:induction false} RunPredicates(ps: seq<Kind>, current: seq<Info>, x: Info)
    requires ArePredicates(ps)
    ensures Run(ps, current, x) == (Passes(ps, x), current)
  {
    if ps != [] {
      RunPredicates(ps[1..], current, x);
      RunPredicates(ps[1..], [], x);
    }
  }

  /** The session and the `node:port.device` match, and the type and address match, read
      only fields that operator== compares. */
  lemma {:induction false} PassesOfEqual(ps: seq<Kind>, x: Info, y: Info)
    requires ArePredicates(ps) && Same(x, y)
    ensures Passes(ps, x) == Passes(ps, y)
  {
    if ps != [] {
      assert Test(ps[0], [], x) == Test(ps[0], [], y);
      RunPredicates(ps[1..], [], x);
      RunPredicates(ps[1..], [], y);
      PassesOfEqual(ps[1..], x, y);
    }
  }

  lemma {:induction false} SelectedPass(ps: seq<Kind>, xs: seq<Info>, x: Info)
    requires ArePredicates(ps) && Holds(Select(ps, xs), x)
    ensures Passes(ps, x)
  {
    if xs != [] {
      var ys, y := xs[..|xs| - 1], xs[|xs| - 1];
      if Passes(ps, y) {
        HoldsSnoc(Select(ps, ys), y, x);
        if Same(y, x) {
          PassesOfEqual(ps, y, x);
        } else {
          SelectedPass(ps, ys, x);
        }
      } else {
        SelectedPass(ps, ys, x);
      }
    }
  }

  /** The duplicate filter commutes with the predicate filters: wherever it stands in the
      chain, discovery is deduplication of the candidates the predicates let through,
      merged flags included. */
  lemma {:induction false} DuplicateCommutes(ps: seq<Kind>, qs: seq<Kind>, xs: seq<Info>)
    requires ArePredicates(ps) && ArePredicates(qs)
    ensures Collect(ps + [Duplicate] + qs, xs) == Dedupe(Select(ps + qs, xs))
  {
    if xs != [] {
      var ys, x := xs[..|xs| - 1], xs[|xs| - 1];
      DuplicateCommutes(ps, qs, ys);
      var chosen := Select(ps + qs, ys);
      var current := Dedupe(chosen);
      RunPredicates(ps, current, x);
      RunPredicates(qs, current, x);
      RunPredicates(ps + qs, [], x);
      RunAppend(ps, qs, [], x);
      RunAppend(ps + [Duplicate], qs, current, x);
      RunAppend(ps, [Duplicate], current, x);
      RunPredicates(qs, [], x);
      RunPredicates(ps, [], x);
      PushDuplicate(current, x);
      CollectSnoc([Duplicate], chosen, x);
      if Passes(ps, x) && Find(current, x) < |current| {
        DedupeKeepsKeys(chosen);
        assert Holds(current, x);
        SelectedPass(ps + qs, ys, x);
      }
    }
  }

  // ---------- the mirror filter ----------

  ghost predicate Unmirrored(xs: seq<Info>) {
    forall i, j :: 0 <= i < j < |xs| ==> !Mirrors(xs[i], xs[j])
  }

  /** Duplicate and mirror filter together, in either order: no two results are equal or
      mirrors of each other, and every candidate equals or mirrors some result. */
  lemma {:induction false} NoDuplicatesNoMirrors(ks: seq<Kind>, xs: seq<Info>)
    requires ks == [Duplicate, Mirror] || ks == [Mirror, Duplicate]
    ensures Distinct(Collect(ks, xs)) && Unmirrored(Collect(ks, xs))
    ensures forall x :: x in xs ==> Holds(Collect(ks, xs), x) || HasMirror(Collect(ks, xs), x)
  {
    if xs != [] {
      var ys, x := xs[..|xs| - 1], xs[|xs| - 1];
      NoDuplicatesNoMirrors(ks, ys);
      assert xs == ys + [x];
      var rs := Collect(ks, ys);
      PushPair(ks[0], ks[1], rs, x);
      assert ks == [ks[0], ks[1]];
      PushKeepsOrAdds(ks, rs, x);
    }
  }

  lemma PushKeeps(ks: seq<Kind>, rs: seq<Info>, x: Info)
    ensures Begins(rs, Push(ks, rs, x))
    ensures |Push(ks, rs, x)| == |rs| + if Run(ks, rs, x).0 then 1 else 0
    ensures Run(ks, rs, x).0 ==> Push(ks, rs, x)[|rs|] == x
  {
    var qs := Push(ks, rs, x);
    PushModuloFlags(ks, rs, x);
    forall i | 0 <= i < |rs| ensures NoFlags(qs[i]) == NoFlags(rs[i]) {
      assert WithoutFlags(qs)[i] == WithoutFlags(rs)[i];
    }
  }

  lemma PushKeepsOrAdds(ks: seq<Kind>, rs: seq<Info>, x: Info)
    requires ks == [Duplicate, Mirror] || ks == [Mirror, Duplicate]
    requires Distinct(rs) && Unmirrored(rs)
    ensures var qs := Push(ks, rs, x);
      && Distinct(qs) && Unmirrored(qs)
      && (Holds(qs, x) || HasMirror(qs, x))
      && forall z :: (Holds(rs, z) ==> Holds(qs, z)) && (HasMirror(rs, z) ==> HasMirror(qs, z))
  {
    var qs := Push(ks, rs, x);
    PushKeeps(ks, rs, x);
    forall z ensures (Holds(rs, z) ==> Holds(qs, z)) && (HasMirror(rs, z) ==> HasMirror(qs, z)) {
      KeptHolds(rs, qs, z);
    }
    RunVerdict(ks, rs, x);
    if Run(ks, rs, x).0 {
      assert Test(ks[0], rs, x) && Test(ks[1], rs, x);
      assert Same(qs[|rs|], x);
      KeptApart(rs, qs, x);
    } else {
      assert Holds(rs, x) || HasMirror(rs, x);
      KeptApartAlready(rs, qs);
    }
  }

  lemma KeptApartAlready(rs: seq<Info>, qs: seq<Info>)
    requires Begins(rs, qs) && |qs| == |rs|
    requires Distinct(rs) && Unmirrored(rs)
    ensures Distinct(qs) && Unmirrored(qs)
  {
    forall i, j | 0 <= i < j < |qs| ensures !Same(qs[i], qs[j]) && !Mirrors(qs[i], qs[j]) {
      assert NoFlags(qs[i]) == NoFlags(rs[i]) && NoFlags(qs[j]) == NoFlags(rs[j]);
      assert !Same(rs[i], rs[j]) && !Mirrors(rs[i], rs[j]);
    }
  }

  lemma KeptApart(rs: seq<Info>, qs: seq<Info>, x: Info)
    requires Begins(rs, qs) && |qs| == |rs| + 1 && qs[|rs|] == x
    requires Distinct(rs) && Unmirrored(rs) && !Holds(rs, x) && !HasMirror(rs, x)
    ensures Distinct(qs) && Unmirrored(qs)
  {
    forall i, j | 0 <= i < j < |qs| ensures !Same(qs[i], qs[j]) && !Mirrors(qs[i], qs[j]) {
      assert NoFlags(qs[i]) == NoFlags(rs[i]);
      assert !Same(rs[i], x) && !Mirrors(rs[i], x);
      if j < |rs| {
        assert NoFlags(qs[j]) == NoFlags(rs[j]);
        assert !Same(rs[i], rs[j]) && !Mirrors(rs[i], rs[j]);
      }
    }
  }

  /** The records of rs begin qs, but for their flags. */
  ghost predicate Begins(rs: seq<Info>, qs: seq<Info>) {
    |rs| <= |qs| && forall i :: 0 <= i < |rs| ==> NoFlags(qs[i]) == NoFlags(rs[i])
  }

  lemma KeptHolds(rs: seq<Info>, qs: seq<Info>, z: Info)
    requires Begins(rs, qs)
    ensures Holds(rs, z) ==> Holds(qs, z)
    ensures HasMirror(rs, z) ==> HasMirror(qs, z)
  {
    if Holds(rs, z) {
      var i :| 0 <= i < |rs| && Same(rs[i], z);
      assert NoFlags(qs[i]) == NoFlags(rs[i]);
      assert Same(qs[i], z);
    }
    if HasMirror(rs, z) {
      var i :| 0 <= i < |rs| && Mirrors(rs[i], z);
      assert NoFlags(qs[i]) == NoFlags(rs[i]);
      assert Mirrors(qs[i], z);
    }
  }
}
