/**
 * Validity checking of a candidate hospital/student assignment, and the two
 * lookup arrays (hospital -> student, student -> hospital) built from it.
 *
 * A candidate assignment is a list of (hospital, student) pairs over the ID
 * space 1..n. The checker scans the pairs in input order with two "seen"
 * arrays and reports the first problem it meets; the lookup builder writes
 * every pair into two arrays of length n + 1.
 */
module Verifier {

  /** One matched pair: (hospital ID, student ID). */
  type Pair = (int, int)

  /** The outcome of the validity check: one case per failure reason, or Valid. */
  datatype Verdict =
    | BadN
    | WrongCount(got: nat)
    | HospOutOfRange(h: int)
    | StudOutOfRange(s: int)
    | DupHosp(h: int)
    | DupStud(s: int)
    | Valid
  {
    /** True for the failures that are blamed on one particular pair. */
    predicate IsPairFault() {
      HospOutOfRange? || StudOutOfRange? || DupHosp? || DupStud?
    }
  }

  predicate InRange(n: int, x: int) {
    1 <= x <= n
  }

  /** The hospital IDs occurring in a list of pairs. */
  function HospIds(ps: seq<Pair>): set<int>
    decreases |ps|
  {
    if ps == [] then {} else HospIds(ps[..|ps| - 1]) + {ps[|ps| - 1].0}
  }

  /** The student IDs occurring in a list of pairs. */
  function StudIds(ps: seq<Pair>): set<int>
    decreases |ps|
  {
    if ps == [] then {} else StudIds(ps[..|ps| - 1]) + {ps[|ps| - 1].1}
  }

  /** The ID space {1, ..., n}. */
  function Ids(n: int): set<int>
    decreases if n < 0 then 0 else n
  {
    if n <= 0 then {} else Ids(n - 1) + {n}
  }

  /** Every hospital and every student ID of the pairs lies in 1..n. */
  predicate AllInRange(n: int, ps: seq<Pair>) {
    forall k :: 0 <= k < |ps| ==> InRange(n, ps[k].0) && InRange(n, ps[k].1)
  }

  /**
   * The pairs form a one-to-one matching over 1..n: exactly n pairs, every ID
   * in range, no hospital twice and no student twice.
   */
  predicate IsMatching(n: int, ps: seq<Pair>) {
    && n >= 1
    && |ps| == n
    && AllInRange(n, ps)
    && (forall i, j :: 0 <= i < j < |ps| ==> ps[i].0 != ps[j].0)
    && (forall i, j :: 0 <= i < j < |ps| ==> ps[i].1 != ps[j].1)
  }

  /**
   * The fault of pair p when the pairs before it are `prefix`, checked in the
   * order hospital range, student range, duplicate hospital, duplicate
   * student; Valid when p has none.
   */
  function PairFault(n: int, prefix: seq<Pair>, p: Pair): Verdict {
    if !InRange(n, p.0) then HospOutOfRange(p.0)
    else if !InRange(n, p.1) then StudOutOfRange(p.1)
    else if p.0 in HospIds(prefix) then DupHosp(p.0)
    else if p.1 in StudIds(prefix) then DupStud(p.1)
    else Valid
  }

  /** The verdict of scanning the pairs from index k on: the first fault found. */
  function ScanFrom(n: int, ps: seq<Pair>, k: nat): Verdict
    requires k <= |ps|
    decreases |ps| - k
  {
    if k == |ps| then Valid
    else
      var f := PairFault(n, ps[..k], ps[k]);
      if f != Valid then f else ScanFrom(n, ps, k + 1)
  }

  /** The verdict the validity check reports on n and the pairs. */
  function Validity(n: int, ps: seq<Pair>): Verdict {
    if n <= 0 then BadN
    else if |ps| != n then WrongCount(|ps|)
    else ScanFrom(n, ps, 0)
  }

  /** x occurs as a hospital in ps exactly when some pair of ps names it. */
  lemma {:induction false} HospIdsMembership(ps: seq<Pair>, x: int)
    ensures x in HospIds(ps) <==> exists j :: 0 <= j < |ps| && ps[j].0 == x
    decreases |ps|
  {
    if ps != [] {
      var init := ps[..|ps| - 1];
      HospIdsMembership(init, x);
      if x in HospIds(init) {
        var j :| 0 <= j < |init| && init[j].0 == x;
        assert ps[j].0 == x;
      }
      if exists j :: 0 <= j < |ps| && ps[j].0 == x {
        var j :| 0 <= j < |ps| && ps[j].0 == x;
        if j < |init| {
          assert init[j].0 == x;
        }
      }
    }
  }

  /** x occurs as a student in ps exactly when some pair of ps names it. */
  lemma {:induction false} StudIdsMembership(ps: seq<Pair>, x: int)
    ensures x in StudIds(ps) <==> exists j :: 0 <= j < |ps| && ps[j].1 == x
    decreases |ps|
  {
    if ps != [] {
      var init := ps[..|ps| - 1];
      StudIdsMembership(init, x);
      if x in StudIds(init) {
        var j :| 0 <= j < |init| && init[j].1 == x;
        assert ps[j].1 == x;
      }
      if exists j :: 0 <= j < |ps| && ps[j].1 == x {
        var j :| 0 <= j < |ps| && ps[j].1 == x;
        if j < |init| {
          assert init[j].1 == x;
        }
      }
    }
  }

  /** The scan from k finds nothing exactly when no pair at k or later has a fault. */
  lemma {:induction false} ScanFromValid(n: int, ps: seq<Pair>, k: nat)
    requires k <= |ps|
    ensures ScanFrom(n, ps, k) == Valid <==>
              forall j :: k <= j < |ps| ==> PairFault(n, ps[..j], ps[j]) == Valid
    decreases |ps| - k
  {
    if k < |ps| {
      ScanFromValid(n, ps, k + 1);
    }
  }

  /**
   * A failing scan from k blames the first faulty pair at or after k: every
   * pair between k and it is fault-free.
   */
  lemma {:induction false} ScanFromFirstFault(n: int, ps: seq<Pair>, k: nat)
    requires k <= |ps|
    requires ScanFrom(n, ps, k) != Valid
    ensures exists i :: k <= i < |ps| &&
              (forall j :: k <= j < i ==> PairFault(n, ps[..j], ps[j]) == Valid) &&
              PairFault(n, ps[..i], ps[i]) == ScanFrom(n, ps, k)
    decreases |ps| - k
  {
    if PairFault(n, ps[..k], ps[k]) == Valid {
      ScanFromFirstFault(n, ps, k + 1);
      var i :| k + 1 <= i < |ps| &&
               (forall j :: k + 1 <= j < i ==> PairFault(n, ps[..j], ps[j]) == Valid) &&
               PairFault(n, ps[..i], ps[i]) == ScanFrom(n, ps, k + 1);
      assert forall j :: k <= j < i ==> PairFault(n, ps[..j], ps[j]) == Valid;
    }
  }

  /**
   * The check accepts exactly the one-to-one matchings over 1..n: n >= 1,
   * n pairs, all IDs in range, no repeated hospital and no repeated student.
   */
  lemma ValidityValidIff(n: int, ps: seq<Pair>)
    ensures Validity(n, ps) == Valid <==> IsMatching(n, ps)
  {
    if n >= 1 && |ps| == n {
      ScanFromValid(n, ps, 0);
      if ScanFrom(n, ps, 0) == Valid {
        forall i, j | 0 <= i < j < |ps|
          ensures ps[i].0 != ps[j].0 && ps[i].1 != ps[j].1
        {
          assert PairFault(n, ps[..j], ps[j]) == Valid;
          assert ps[..j][i] == ps[i];
          HospIdsMembership(ps[..j], ps[i].0);
          StudIdsMembership(ps[..j], ps[i].1);
        }
        forall k | 0 <= k < |ps| ensures InRange(n, ps[k].0) && InRange(n, ps[k].1) {
          assert PairFault(n, ps[..k], ps[k]) == Valid;
        }
      }
      if IsMatching(n, ps) {
        forall j | 0 <= j < |ps| ensures PairFault(n, ps[..j], ps[j]) == Valid {
          HospIdsMembership(ps[..j], ps[j].0);
          StudIdsMembership(ps[..j], ps[j].1);
        }
      }
    }
  }

  /**
   * A failure blamed on a pair names the first pair, in input order, that has
   * a fault: n pairs were given, every earlier pair is in range and repeats
   * no hospital and no student, and the reason is that pair's first fault in
   * the order hospital range, student range, duplicate hospital, duplicate
   * student.
   */
  lemma ValidityFirstFault(n: int, ps: seq<Pair>)
    requires Validity(n, ps).IsPairFault()
    ensures n >= 1 && |ps| == n
    ensures exists i :: 0 <= i < |ps| &&
              (forall j :: 0 <= j < i ==> PairFault(n, ps[..j], ps[j]) == Valid) &&
              PairFault(n, ps[..i], ps[i]) == Validity(n, ps)
  {
    ScanFromFirstFault(n, ps, 0);
  }

  /** What each reason says about the pair it blames. */
  lemma PairFaultMeaning(n: int, prefix: seq<Pair>, p: Pair)
    ensures PairFault(n, prefix, p) == HospOutOfRange(p.0) <==> !InRange(n, p.0)
    ensures PairFault(n, prefix, p) == StudOutOfRange(p.1) <==> InRange(n, p.0) && !InRange(n, p.1)
    ensures PairFault(n, prefix, p).DupHosp? ==>
              InRange(n, p.0) && InRange(n, p.1) &&
              exists j :: 0 <= j < |prefix| && prefix[j].0 == p.0
    ensures PairFault(n, prefix, p).DupStud? ==>
              InRange(n, p.0) && InRange(n, p.1) &&
              (forall j :: 0 <= j < |prefix| ==> prefix[j].0 != p.0) &&
              exists j :: 0 <= j < |prefix| && prefix[j].1 == p.1
    ensures InRange(n, p.0) && InRange(n, p.1) &&
            (exists j :: 0 <= j < |prefix| && prefix[j].0 == p.0) ==>
              PairFault(n, prefix, p) == DupHosp(p.0)
    ensures InRange(n, p.0) && InRange(n, p.1) &&
            (forall j :: 0 <= j < |prefix| ==> prefix[j].0 != p.0) &&
            (exists j :: 0 <= j < |prefix| && prefix[j].1 == p.1) ==>
              PairFault(n, prefix, p) == DupStud(p.1)
    ensures InRange(n, p.0) && InRange(n, p.1) &&
            (forall j :: 0 <= j < |prefix| ==> prefix[j].0 != p.0 && prefix[j].1 != p.1) ==>
              PairFault(n, prefix, p) == Valid
  {
    HospIdsMembership(prefix, p.0);
    StudIdsMembership(prefix, p.1);
  }

  /** Pairs with pairwise distinct hospitals name exactly |ps| hospitals. */
  lemma {:induction false} HospIdsCard(ps: seq<Pair>)
    requires forall i, j :: 0 <= i < j < |ps| ==> ps[i].0 != ps[j].0
    ensures |HospIds(ps)| == |ps|
    decreases |ps|
  {
    if ps != [] {
      var init := ps[..|ps| - 1];
      HospIdsCard(init);
      HospIdsMembership(init, ps[|ps| - 1].0);
    }
  }

  /** Pairs with pairwise distinct students name exactly |ps| students. */
  lemma {:induction false} StudIdsCard(ps: seq<Pair>)
    requires forall i, j :: 0 <= i < j < |ps| ==> ps[i].1 != ps[j].1
    ensures |StudIds(ps)| == |ps|
    decreases |ps|
  {
    if ps != [] {
      var init := ps[..|ps| - 1];
      StudIdsCard(init);
      StudIdsMembership(init, ps[|ps| - 1].1);
    }
  }

  lemma {:induction false} IdsShape(n: int)
    ensures forall x :: x in Ids(n) <==> 1 <= x <= n
    ensures n >= 0 ==> |Ids(n)| == n
    decreases if n < 0 then 0 else n
  {
    if n > 0 {
      IdsShape(n - 1);
    }
  }

  /** A subset of 1..n has at most n elements, and exactly n only when it is all of 1..n. */
  lemma SubsetOfIds(a: set<int>, n: nat)
    requires a <= Ids(n)
    ensures |a| <= n
    ensures |a| == n ==> a == Ids(n)
  {
    IdsShape(n);
    var rest := Ids(n) - a;
    assert Ids(n) == a + rest;
    assert a * rest == {};
    assert |Ids(n)| == |a| + |rest|;
    if |a| == n {
      assert rest == {};
    }
  }

  /**
   * An accepted assignment is a permutation on both sides: its hospital IDs
   * are exactly 1..n and so are its student IDs.
   */
  lemma MatchingIsPermutation(n: int, ps: seq<Pair>)
    requires IsMatching(n, ps)
    ensures HospIds(ps) == Ids(n) && StudIds(ps) == Ids(n)
  {
    IdsShape(n);
    HospIdsCard(ps);
    StudIdsCard(ps);
    forall x | x in HospIds(ps) ensures x in Ids(n) {
      HospIdsMembership(ps, x);
    }
    forall x | x in StudIds(ps) ensures x in Ids(n) {
      StudIdsMembership(ps, x);
    }
    SubsetOfIds(HospIds(ps), n);
    SubsetOfIds(StudIds(ps), n);
  }

  /**
   * The validity check: n must be positive, there must be n pairs, and the
   * pairs are scanned in order with one "seen" array per side, stopping at
   * the first pair with an out-of-range or already seen ID.
   */
  method VerifyValidity(n: int, pairs: seq<Pair>) returns (r: Verdict)
    ensures r == Validity(n, pairs)
    ensures r == BadN <==> n <= 0
    ensures n >= 1 && |pairs| != n ==> r == WrongCount(|pairs|)
    ensures r == Valid <==> IsMatching(n, pairs)
  {
    ValidityValidIff(n, pairs);
    if n <= 0 {
      return BadN;
    }
    if |pairs| != n {
      return WrongCount(|pairs|);
    }
    var seenHospitals := new bool[n + 1](_ => false);
    var seenStudents := new bool[n + 1](_ => false);
    for i := 0 to |pairs|
      invariant ScanFrom(n, pairs, i) == ScanFrom(n, pairs, 0)
      invariant forall x :: 1 <= x <= n ==> (seenHospitals[x] <==> x in HospIds(pairs[..i]))
      invariant forall x :: 1 <= x <= n ==> (seenStudents[x] <==> x in StudIds(pairs[..i]))
    {
      var (h, s) := pairs[i];
      if !(1 <= h <= n) {
        return HospOutOfRange(h);
      }
      if !(1 <= s <= n) {
        return StudOutOfRange(s);
      }
      if seenHospitals[h] {
        return DupHosp(h);
      }
      if seenStudents[s] {
        return DupStud(s);
      }
      assert pairs[..i + 1][..i] == pairs[..i];
      seenHospitals[h] := true;
      seenStudents[s] := true;
    }
    return Valid;
  }

  /**
   * The hospital -> student lookup built from the pairs: a row of n + 1
   * zeros in which every pair, in order, writes its student at its hospital.
   */
  function HospView(n: nat, ps: seq<Pair>): (v: seq<int>)
    requires AllInRange(n, ps)
    ensures |v| == n + 1
    decreases |ps|
  {
    if ps == [] then seq(n + 1, _ => 0)
    else HospView(n, ps[..|ps| - 1])[ps[|ps| - 1].0 := ps[|ps| - 1].1]
  }

  /**
   * The student -> hospital lookup built from the pairs: a row of n + 1
   * zeros in which every pair, in order, writes its hospital at its student.
   */
  function StudView(n: nat, ps: seq<Pair>): (v: seq<int>)
    requires AllInRange(n, ps)
    ensures |v| == n + 1
    decreases |ps|
  {
    if ps == [] then seq(n + 1, _ => 0)
    else StudView(n, ps[..|ps| - 1])[ps[|ps| - 1].1 := ps[|ps| - 1].0]
  }

  /**
   * Slots no pair mentions stay 0; the slot of a hospital holds the student
   * of the last pair naming that hospital.
   */
  lemma {:induction false} HospViewAt(n: nat, ps: seq<Pair>, x: int)
    requires AllInRange(n, ps) && 0 <= x <= n
    ensures x !in HospIds(ps) ==> HospView(n, ps)[x] == 0
    ensures forall k :: 0 <= k < |ps| && ps[k].0 == x &&
                        (forall j :: k < j < |ps| ==> ps[j].0 != x) ==>
                          HospView(n, ps)[x] == ps[k].1
    decreases |ps|
  {
    if ps != [] {
      var init := ps[..|ps| - 1];
      assert AllInRange(n, init) by {
        forall k | 0 <= k < |init| ensures InRange(n, init[k].0) && InRange(n, init[k].1) {
          assert init[k] == ps[k];
        }
      }
      HospViewAt(n, init, x);
      var last := ps[|ps| - 1];
      assert HospView(n, ps) == HospView(n, init)[last.0 := last.1];
      assert HospIds(ps) == HospIds(init) + {last.0};
      forall k | 0 <= k < |ps| && ps[k].0 == x && (forall j :: k < j < |ps| ==> ps[j].0 != x)
        ensures HospView(n, ps)[x] == ps[k].1
      {
        if k < |ps| - 1 {
          assert last.0 != x;
          assert init[k] == ps[k];
          assert forall j :: k < j < |init| ==> init[j].0 != x by {
            forall j | k < j < |init| ensures init[j].0 != x {
              assert init[j] == ps[j];
            }
          }
        }
      }
    }
  }

  /**
   * Slots no pair mentions stay 0; the slot of a student holds the hospital
   * of the last pair naming that student.
   */
  lemma {:induction false} StudViewAt(n: nat, ps: seq<Pair>, x: int)
    requires AllInRange(n, ps) && 0 <= x <= n
    ensures x !in StudIds(ps) ==> StudView(n, ps)[x] == 0
    ensures forall k :: 0 <= k < |ps| && ps[k].1 == x &&
                        (forall j :: k < j < |ps| ==> ps[j].1 != x) ==>
                          StudView(n, ps)[x] == ps[k].0
    decreases |ps|
  {
    if ps != [] {
      var init := ps[..|ps| - 1];
      assert AllInRange(n, init) by {
        forall k | 0 <= k < |init| ensures InRange(n, init[k].0) && InRange(n, init[k].1) {
          assert init[k] == ps[k];
        }
      }
      StudViewAt(n, init, x);
      var last := ps[|ps| - 1];
      assert StudView(n, ps) == StudView(n, init)[last.1 := last.0];
      assert StudIds(ps) == StudIds(init) + {last.1};
      forall k | 0 <= k < |ps| && ps[k].1 == x && (forall j :: k < j < |ps| ==> ps[j].1 != x)
        ensures StudView(n, ps)[x] == ps[k].0
      {
        if k < |ps| - 1 {
          assert last.1 != x;
          assert init[k] == ps[k];
          assert forall j :: k < j < |init| ==> init[j].1 != x by {
            forall j | k < j < |init| ensures init[j].1 != x {
              assert init[j] == ps[j];
            }
          }
        }
      }
    }
  }

  /**
   * For an accepted assignment the two lookups, restricted to 1..n, are
   * mutually inverse permutations, and slot 0 of each stays 0.
   */
  lemma ViewsAreInverse(n: nat, ps: seq<Pair>)
    requires IsMatching(n, ps)
    ensures HospView(n, ps)[0] == 0 && StudView(n, ps)[0] == 0
    ensures forall h :: 1 <= h <= n ==>
              1 <= HospView(n, ps)[h] <= n && StudView(n, ps)[HospView(n, ps)[h]] == h
    ensures forall s :: 1 <= s <= n ==>
              1 <= StudView(n, ps)[s] <= n && HospView(n, ps)[StudView(n, ps)[s]] == s
  {
    HospIdsMembership(ps, 0);
    StudIdsMembership(ps, 0);
    HospViewAt(n, ps, 0);
    StudViewAt(n, ps, 0);
    forall h | 1 <= h <= n
      ensures 1 <= HospView(n, ps)[h] <= n && StudView(n, ps)[HospView(n, ps)[h]] == h
    {
      HospInverseAt(n, ps, h);
    }
    forall s | 1 <= s <= n
      ensures 1 <= StudView(n, ps)[s] <= n && HospView(n, ps)[StudView(n, ps)[s]] == s
    {
      StudInverseAt(n, ps, s);
    }
  }

  /** In a matching, the student looked up for hospital h looks up h again. */
  lemma HospInverseAt(n: nat, ps: seq<Pair>, h: int)
    requires IsMatching(n, ps) && 1 <= h <= n
    ensures 1 <= HospView(n, ps)[h] <= n && StudView(n, ps)[HospView(n, ps)[h]] == h
  {
    MatchingIsPermutation(n, ps);
    IdsShape(n);
    HospIdsMembership(ps, h);
    var k :| 0 <= k < |ps| && ps[k].0 == h;
    var s := ps[k].1;
    assert InRange(n, s);
    assert forall j :: k < j < |ps| ==> ps[j].0 != h;
    assert forall j :: k < j < |ps| ==> ps[j].1 != s;
    HospViewAt(n, ps, h);
    StudViewAt(n, ps, s);
  }

  /** In a matching, the hospital looked up for student s looks up s again. */
  lemma StudInverseAt(n: nat, ps: seq<Pair>, s: int)
    requires IsMatching(n, ps) && 1 <= s <= n
    ensures 1 <= StudView(n, ps)[s] <= n && HospView(n, ps)[StudView(n, ps)[s]] == s
  {
    MatchingIsPermutation(n, ps);
    IdsShape(n);
    StudIdsMembership(ps, s);
    var k :| 0 <= k < |ps| && ps[k].1 == s;
    var h := ps[k].0;
    assert InRange(n, h);
    assert forall j :: k < j < |ps| ==> ps[j].1 != s;
    assert forall j :: k < j < |ps| ==> ps[j].0 != h;
    StudViewAt(n, ps, s);
    HospViewAt(n, ps, h);
  }

  /**
   * The lookup builder: two arrays of n + 1 zeros, then for every pair (h, s)
   * in order, matchH[h] := s and matchS[s] := h.
   */
  method GetMatch(n: nat, pairs: seq<Pair>) returns (matchH: array<int>, matchS: array<int>)
    requires AllInRange(n, pairs)
    ensures fresh(matchH) && fresh(matchS)
    ensures matchH[..] == HospView(n, pairs) && matchS[..] == StudView(n, pairs)
    ensures IsMatching(n, pairs) ==>
              forall h :: 1 <= h <= n ==> 1 <= matchH[h] <= n && matchS[matchH[h]] == h
    ensures IsMatching(n, pairs) ==>
              forall s :: 1 <= s <= n ==> 1 <= matchS[s] <= n && matchH[matchS[s]] == s
  {
    matchH := new int[n + 1](_ => 0);
    matchS := new int[n + 1](_ => 0);
    for i := 0 to |pairs|
      invariant AllInRange(n, pairs[..i])
      invariant matchH[..] == HospView(n, pairs[..i])
      invariant matchS[..] == StudView(n, pairs[..i])
    {
      var (h, s) := pairs[i];
      assert pairs[..i + 1][..i] == pairs[..i];
      matchH[h] := s;
      matchS[s] := h;
    }
    assert pairs[..|pairs|] == pairs;
    if IsMatching(n, pairs) {
      ViewsAreInverse(n, pairs);
    }
  }
}
