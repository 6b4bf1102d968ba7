/** The share distributor: splits a bill total, in cents, among its
    participants, with or without the creator's discount, rounds every share
    to the cent and puts the whole rounding remainder on the last share. */
module Distributor {
  import opened Text
  import opened Cents

  type Timestamp = int

  datatype Option<T> = None | Some(value: T)

  /** One returned tuple: (username, amount, is_paid, paid_at). */
  datatype Allotment = Allotment(username: string, amount: int, paid: bool, paidAt: Option<Timestamp>)

  predicate Distinct<T(==)>(s: seq<T>) {
    forall i, j :: 0 <= i < j < |s| ==> s[i] != s[j]
  }

  /** The stripped form of every non-empty input name, in input order,
      duplicates included. */
  function Cleaned(names: seq<string>): (c: seq<string>)
    ensures |c| <= |names|
  {
    if names == [] then []
    else (if names[0] != "" then [Strip(names[0])] else []) + Cleaned(names[1..])
  }

  /** Reference definition of first-occurrence deduplication: the element at
      position i is kept exactly when it does not occur before i. */
  function KeepFirst(c: seq<string>): seq<string> {
    if c == [] then []
    else
      var p := c[..|c| - 1];
      KeepFirst(p) + (if c[|c| - 1] in p then [] else [c[|c| - 1]])
  }

  /** The deduplicating comprehension of the source, read left to right with
      the set `seen` of names already taken. */
  function DedupFrom(names: seq<string>, seen: set<string>): (r: seq<string>)
    ensures forall x :: x in r ==> x !in seen
    ensures Distinct(r)
  {
    if names == [] then []
    else
      var p := names[0];
      if p != "" && Strip(p) !in seen then
        var rest := DedupFrom(names[1..], seen + {Strip(p)});
        assert Strip(p) !in rest;
        [Strip(p)] + rest
      else DedupFrom(names[1..], seen)
  }

  /** The participants before the creator is added. */
  function Participants(names: seq<string>): seq<string> {
    DedupFrom(names, {})
  }

  /** The creator, compared as given (not stripped), is appended when absent. */
  function WithCreator(ps: seq<string>, creator: string): (r: seq<string>)
    requires Distinct(ps)
    ensures Distinct(r) && creator in r && |r| >= 1
  {
    if creator in ps then ps else ps + [creator]
  }

  /** The exact share of each participant, in cents. Without discount each
      pays total / n; with it each other participant pays y = total / (n - 0.25)
      and the creator pays 0.75 * y. Either way, when the creator is one of
      the distinct participants, the exact shares add up to the total:
      0.75 * y + (n - 1) * y = (n - 0.25) * y = total. */
  function ExactShares(total: int, ps: seq<string>, creator: string, discount: bool): (e: seq<real>)
    requires |ps| > 0
    ensures |e| == |ps|
    ensures Distinct(ps) && creator in ps ==> SumReal(e) == total as real
  {
    if discount then DiscountedShares(total, ps, creator) else EqualShares(total, |ps|)
  }

  /** The discounted split: the creator pays 0.75 * y, every other
      participant y = total / (n - 0.25). */
  function DiscountedShares(total: int, ps: seq<string>, creator: string): (e: seq<real>)
    requires |ps| > 0
    ensures |e| == |ps|
    ensures Distinct(ps) && creator in ps ==> SumReal(e) == total as real
  {
    var d := |ps| as real - 0.25;
    var y := total as real / d;
    var e := seq(|ps|, k requires 0 <= k < |ps| => if ps[k] == creator then 0.75 * y else y);
    assert Distinct(ps) && creator in ps ==> SumReal(e) == total as real by {
      if Distinct(ps) && creator in ps {
        var k0 :| 0 <= k0 < |ps| && ps[k0] == creator;
        DiscountedSum(ps, creator, e, y, k0);
        SplitArith(total as real, d);
      }
    }
    e
  }

  /** The equal split: every one of the n participants pays total / n. */
  function EqualShares(total: int, n: nat): (e: seq<real>)
    requires n > 0
    ensures |e| == n
    ensures SumReal(e) == total as real
  {
    var equal := total as real / n as real;
    var e := seq(n, k => equal);
    assert SumReal(e) == total as real by {
      SumRealConstant(e, equal);
      SplitArith(total as real, n as real);
    }
    e
  }

  /** x + (d - 0.75) y = d y = t when y = t / d and x = 0.75 y. */
  lemma SplitArith(t: real, d: real)
    requires d > 0.0
    ensures 0.75 * (t / d) + (d - 0.75) * (t / d) == t
    ensures d * (t / d) == t
  {
  }

  /** Moves the remainder total - sum(rounded) onto the last entry when it is
      not zero. */
  function Corrected(rounded: seq<int>, total: int): (r: seq<int>)
    requires |rounded| > 0
    ensures |r| == |rounded|
    ensures Sum(r) == total
    ensures forall k :: 0 <= k < |r| - 1 ==> r[k] == rounded[k]
  {
    var n := |rounded|;
    var diff := total - Sum(rounded);
    if diff == 0 then rounded
    else
      SumUpdateLast(rounded, rounded[n - 1] + diff);
      rounded[n - 1 := rounded[n - 1] + diff]
  }

  /** The cent amounts: every exact share rounded, then corrected. */
  function Amounts(total: int, ps: seq<string>, creator: string, discount: bool): (a: seq<int>)
    requires |ps| > 0
    ensures |a| == |ps|
    ensures Sum(a) == total
  {
    var exact := ExactShares(total, ps, creator, discount);
    Corrected(seq(|exact|, k requires 0 <= k < |exact| => RoundHalfEven(exact[k])), total)
  }

  /** The creator's tuple is marked paid at `now`; every other one is unpaid. */
  function Mark(ps: seq<string>, amounts: seq<int>, creator: string, now: Timestamp): (r: seq<Allotment>)
    requires |amounts| == |ps|
    ensures Usernames(r) == ps && AmountsOf(r) == amounts
    ensures forall k :: 0 <= k < |r| ==> (r[k].paid <==> r[k].username == creator)
    ensures forall k :: 0 <= k < |r| ==> r[k].paidAt == if r[k].paid then Some(now) else None
  {
    seq(|ps|, k requires 0 <= k < |ps| =>
      Allotment(ps[k], amounts[k], ps[k] == creator, if ps[k] == creator then Some(now) else None))
  }

  /** The result of distribute_shares for a total in cents. */
  function Distribute(total: int, names: seq<string>, creator: string, discount: bool, now: Timestamp): (r: seq<Allotment>)
    ensures |r| >= 1
    ensures Sum(AmountsOf(r)) == total
  {
    var ps := WithCreator(Participants(names), creator);
    Mark(ps, Amounts(total, ps, creator, discount), creator, now)
  }

  function Usernames(r: seq<Allotment>): (u: seq<string>)
    ensures |u| == |r|
  {
    seq(|r|, k requires 0 <= k < |r| => r[k].username)
  }

  function AmountsOf(r: seq<Allotment>): (a: seq<int>)
    ensures |a| == |r|
  {
    seq(|r|, k requires 0 <= k < |r| => r[k].amount)
  }

  /** The deduplicating comprehension as the source runs it: one pass over
      the names with the set `seen` of stripped names already taken. */
  method DedupNames(names: seq<string>) returns (participants: seq<string>)
    ensures participants == Participants(names)
  {
    var seen: set<string> := {};
    participants := [];
    for i := 0 to |names|
      invariant participants + DedupFrom(names[i..], seen) == Participants(names)
    {
      var p := names[i];
      assert names[i..][1..] == names[i + 1..];
      if p != "" && Strip(p) !in seen {
        ConcatAssoc(participants, [Strip(p)], DedupFrom(names[i + 1..], seen + {Strip(p)}));
        seen := seen + {Strip(p)};
        participants := participants + [Strip(p)];
      }
    }
  }

  /** The source's procedure, step by step: the deduplicating pass, the
      appended creator, the never-taken "no participants" error, the split,
      the rounding and the correction of the last entry. */
  method DistributeShares(total: int, names: seq<string>, creator: string, discount: bool, now: Timestamp)
    returns (result: seq<Allotment>)
    ensures result == Distribute(total, names, creator, discount, now)
  {
    var participants := DedupNames(names);
    if creator !in participants {
      participants := participants + [creator];
    }
    var n := |participants|;
    if n == 0 {
      // the source raises "no participants" here; the creator is always present
      assert false;
    }
    assert participants == WithCreator(Participants(names), creator);
    var exact := ExactShares(total, participants, creator, discount);
    var rounded := seq(n, k requires 0 <= k < n => RoundHalfEven(exact[k]));
    ghost var unadjusted := rounded;
    var diff := total - Sum(rounded);
    if diff != 0 {
      rounded := rounded[n - 1 := rounded[n - 1] + diff];
    }
    assert rounded == Corrected(unadjusted, total);
    assert rounded == Amounts(total, participants, creator, discount);
    result := Mark(participants, rounded, creator, now);
  }

  // ---------------------------------------------------------------------
  // The participant list

  lemma ConcatAssoc(a: seq<string>, b: seq<string>, c: seq<string>)
    ensures (a + b) + c == a + (b + c)
  {
  }

  lemma KeepFirstAppend(c: seq<string>, x: string)
    ensures KeepFirst(c + [x]) == KeepFirst(c) + (if x in c then [] else [x])
  {
    assert (c + [x])[..|c|] == c;
  }

  lemma {:induction false} KeepFirstMembers(c: seq<string>)
    ensures forall x :: x in KeepFirst(c) <==> x in c
  {
    if c != [] {
      var p := c[..|c| - 1];
      KeepFirstMembers(p);
      assert c == p + [c[|c| - 1]];
    }
  }

  /** The left-to-right comprehension with its `seen` set computes the
      reference first-occurrence deduplication of the cleaned names. */
  lemma {:induction false} DedupFromKeepsFirst(c0: seq<string>, seen: set<string>, names: seq<string>)
    requires forall x :: x in seen <==> x in c0
    ensures KeepFirst(c0 + Cleaned(names)) == KeepFirst(c0) + DedupFrom(names, seen)
    decreases names, 1
  {
    if names == [] {
      assert c0 + Cleaned(names) == c0;
    } else if names[0] == "" {
      var rest := names[1..];
      assert Cleaned(names) == Cleaned(rest);
      DedupFromKeepsFirst(c0, seen, rest);
    } else {
      DedupStep(c0, seen, names);
    }
  }

  /** One step of DedupFromKeepsFirst, for a non-empty first name. */
  lemma {:induction false} DedupStep(c0: seq<string>, seen: set<string>, names: seq<string>)
    requires forall x :: x in seen <==> x in c0
    requires names != [] && names[0] != ""
    ensures KeepFirst(c0 + Cleaned(names)) == KeepFirst(c0) + DedupFrom(names, seen)
    decreases names, 0
  {
    var s, rest := Strip(names[0]), names[1..];
    var c1 := c0 + [s];
    var kept := if s in c0 then [] else [s];
    var tail := DedupFrom(rest, seen + {s});
    CleanedUnfold(c0, names);
    assert forall x :: x in seen + {s} <==> x in c1;
    DedupFromKeepsFirst(c1, seen + {s}, rest);
    KeepFirstAppend(c0, s);
    DedupUnfold(names, seen);
    ConcatAssoc(KeepFirst(c0), kept, tail);
  }

  /** The first non-empty name goes to the end of what was cleaned before. */
  lemma CleanedUnfold(c0: seq<string>, names: seq<string>)
    requires names != [] && names[0] != ""
    ensures c0 + Cleaned(names) == (c0 + [Strip(names[0])]) + Cleaned(names[1..])
  {
    assert Cleaned(names) == [Strip(names[0])] + Cleaned(names[1..]);
  }

  /** One step of the comprehension, whether or not the name was seen. */
  lemma DedupUnfold(names: seq<string>, seen: set<string>)
    requires names != [] && names[0] != ""
    ensures DedupFrom(names, seen) ==
            (if Strip(names[0]) in seen then [] else [Strip(names[0])]) + DedupFrom(names[1..], seen + {Strip(names[0])})
  {
    var s := Strip(names[0]);
    var none: seq<string> := [];
    if s in seen {
      assert DedupFrom(names, seen) == DedupFrom(names[1..], seen);
      assert seen + {s} == seen;
      assert none + DedupFrom(names[1..], seen) == DedupFrom(names[1..], seen);
    } else {
      assert DedupFrom(names, seen) == [s] + DedupFrom(names[1..], seen + {s});
    }
  }

  /** The participants are the stripped non-empty names in first-occurrence
      order, each once: those kept are exactly those not seen earlier. */
  lemma ParticipantsAreFirstOccurrences(names: seq<string>)
    ensures Participants(names) == KeepFirst(Cleaned(names))
  {
    DedupFromKeepsFirst([], {}, names);
    assert [] + Cleaned(names) == Cleaned(names);
  }

  /** Every non-empty input name contributes its stripped form. */
  lemma {:induction false} CleanedHasAll(names: seq<string>, i: nat)
    requires i < |names| && names[i] != ""
    ensures Strip(names[i]) in Cleaned(names)
  {
    var head := if names[0] != "" then [Strip(names[0])] else [];
    var rest := Cleaned(names[1..]);
    assert Cleaned(names) == head + rest;
    if i == 0 {
      assert head == [Strip(names[0])];
    } else {
      CleanedHasAll(names[1..], i - 1);
      assert names[1..][i - 1] == names[i];
      assert Strip(names[i]) in rest;
    }
  }

  /** Every cleaned name is the stripped form of a non-empty input name. */
  lemma {:induction false} CleanedFrom(names: seq<string>, x: string) returns (i: nat)
    requires x in Cleaned(names)
    ensures i < |names| && names[i] != "" && Strip(names[i]) == x
  {
    assert names != [];
    assert Cleaned(names) == (if names[0] != "" then [Strip(names[0])] else []) + Cleaned(names[1..]);
    if names[0] != "" && Strip(names[0]) == x {
      i := 0;
    } else {
      assert x in Cleaned(names[1..]);
      var j := CleanedFrom(names[1..], x);
      assert names[j + 1] == names[1..][j];
      i := j + 1;
    }
  }

  /** Participants are pairwise distinct and are exactly the stripped forms of
      the non-empty input names. */
  lemma ParticipantsMembers(names: seq<string>)
    ensures Distinct(Participants(names))
    ensures forall x :: x in Participants(names) <==>
              exists i :: 0 <= i < |names| && names[i] != "" && Strip(names[i]) == x
  {
    ParticipantsAreFirstOccurrences(names);
    KeepFirstMembers(Cleaned(names));
    forall x | x in Participants(names)
      ensures exists i :: 0 <= i < |names| && names[i] != "" && Strip(names[i]) == x
    {
      var i := CleanedFrom(names, x);
    }
    forall i | 0 <= i < |names| && names[i] != ""
      ensures Strip(names[i]) in Participants(names)
    {
      CleanedHasAll(names, i);
    }
  }

  /** The creator appears exactly once among the distributed names; when it was
      not a participant it is the last one, and otherwise the list is the
      participant list unchanged. */
  lemma CreatorOnce(names: seq<string>, creator: string, total: int, discount: bool, now: Timestamp)
    ensures var u := Usernames(Distribute(total, names, creator, discount, now));
            && Distinct(u)
            && creator in u
            && (forall i, j :: 0 <= i < |u| && 0 <= j < |u| && u[i] == creator && u[j] == creator ==> i == j)
            && (creator !in Participants(names) ==> u == Participants(names) + [creator])
            && (creator in Participants(names) ==> u == Participants(names))
  {
    var ps := WithCreator(Participants(names), creator);
    var u := Usernames(Distribute(total, names, creator, discount, now));
    assert u == ps;
  }

  // ---------------------------------------------------------------------
  // The amounts

  /** The split rule determines the exact shares: any amounts giving every
      other participant the same y, the creator 0.75 * y with discount (y
      without), and adding up to the total are ExactShares. */
  lemma ExactSharesUnique(total: int, ps: seq<string>, creator: string, discount: bool, e: seq<real>, y: real)
    requires Distinct(ps) && creator in ps && |e| == |ps|
    requires forall k :: 0 <= k < |ps| ==> e[k] == if discount && ps[k] == creator then 0.75 * y else y
    requires SumReal(e) == total as real
    ensures e == ExactShares(total, ps, creator, discount)
  {
    SharesScale(total, ps, creator, discount, e, y);
    Quotient(total as real, Divisor(|ps|, discount), y);
    ExactSharesAre(total, ps, creator, discount, y);
  }

  /** What the shares are divided by: n, or n - 0.25 with the discount. */
  function Divisor(n: nat, discount: bool): (d: real)
    requires n > 0
    ensures d > 0.0
  {
    if discount then n as real - 0.25 else n as real
  }

  /** Shares of the required shape that sum to the total are the total
      divided by the divisor, y being the share of a non-creator. */
  lemma SharesScale(total: int, ps: seq<string>, creator: string, discount: bool, e: seq<real>, y: real)
    requires Distinct(ps) && creator in ps && |e| == |ps|
    requires forall k :: 0 <= k < |ps| ==> e[k] == if discount && ps[k] == creator then 0.75 * y else y
    requires SumReal(e) == total as real
    ensures Divisor(|ps|, discount) * y == total as real
  {
    if discount {
      var k0 :| 0 <= k0 < |ps| && ps[k0] == creator;
      DiscountedSum(ps, creator, e, y, k0);
    } else {
      SumRealConstant(e, y);
    }
  }

  /** The exact shares, entry by entry, once y is the total over the divisor. */
  lemma ExactSharesAre(total: int, ps: seq<string>, creator: string, discount: bool, y: real)
    requires |ps| > 0 && y == total as real / Divisor(|ps|, discount)
    ensures var ex := ExactShares(total, ps, creator, discount);
            forall k :: 0 <= k < |ps| ==> ex[k] == if discount && ps[k] == creator then 0.75 * y else y
  {
  }

  /** With the discount, the shares sum to (n - 0.25) times the share of the
      others. */
  lemma DiscountedSum(ps: seq<string>, creator: string, e: seq<real>, y: real, k0: nat)
    requires Distinct(ps) && k0 < |ps| && ps[k0] == creator && |e| == |ps|
    requires forall k :: 0 <= k < |ps| ==> e[k] == if ps[k] == creator then 0.75 * y else y
    ensures SumReal(e) == (|ps| as real - 0.25) * y
  {
    forall k | 0 <= k < |e|
      ensures e[k] == if k == k0 then 0.75 * y else y
    {
      if k < k0 {
        assert ps[k] != ps[k0];
      } else if k > k0 {
        assert ps[k0] != ps[k];
      }
    }
    SumRealOneOdd(e, k0, 0.75 * y, y);
    assert 0.75 * y + (|e| - 1) as real * y == ((|e| - 1) as real + 0.75) * y;
  }

  /** The only y with d * y = t is t / d. */
  lemma Quotient(t: real, d: real, y: real)
    requires d > 0.0 && d * y == t
    ensures y == t / d
  {
  }

  /** Every share but the last is its own exact share rounded to the cent; the
      last one is off from its rounded exact share by at most half a cent per
      participant (the whole rounding remainder). */
  lemma {:induction false} DistributeRounding(total: int, names: seq<string>, creator: string, discount: bool, now: Timestamp)
    ensures var ps := WithCreator(Participants(names), creator);
            var e := ExactShares(total, ps, creator, discount);
            var a := AmountsOf(Distribute(total, names, creator, discount, now));
            && (forall k :: 0 <= k < |a| - 1 ==> a[k] == RoundHalfEven(e[k]))
            && 2 * (if a[|a| - 1] >= RoundHalfEven(e[|a| - 1]) then a[|a| - 1] - RoundHalfEven(e[|a| - 1])
                    else RoundHalfEven(e[|a| - 1]) - a[|a| - 1]) <= |a|
  {
    var ps := WithCreator(Participants(names), creator);
    var e := ExactShares(total, ps, creator, discount);
    var rounded := seq(|e|, k requires 0 <= k < |e| => RoundHalfEven(e[k]));
    var a := AmountsOf(Distribute(total, names, creator, discount, now));
    assert a == Corrected(rounded, total);
    CorrectedDrift(e, total);
  }

  /** When exact amounts sum to a whole total, rounding each and moving the
      remainder onto the last keeps all but the last as rounded, and moves the
      last by at most half a cent per amount. */
  lemma CorrectedDrift(e: seq<real>, total: int)
    requires |e| > 0 && SumReal(e) == total as real
    ensures var r := seq(|e|, k requires 0 <= k < |e| => RoundHalfEven(e[k]));
            var c := Corrected(r, total);
            && (forall k :: 0 <= k < |e| - 1 ==> c[k] == r[k])
            && 2 * (if c[|e| - 1] >= r[|e| - 1] then c[|e| - 1] - r[|e| - 1] else r[|e| - 1] - c[|e| - 1]) <= |e|
  {
    var r := seq(|e|, k requires 0 <= k < |e| => RoundHalfEven(e[k]));
    RoundingDrift(e, r);
    var diff := total - Sum(r);
    assert Abs(diff as real) <= |e| as real * 0.5;
  }

  /** Exactly the creator's tuple is paid, stamped with the distribution time;
      every other tuple is unpaid with no payment time. */
  lemma DistributeMarks(total: int, names: seq<string>, creator: string, discount: bool, now: Timestamp)
    ensures var r := Distribute(total, names, creator, discount, now);
            && (forall k :: 0 <= k < |r| ==> (r[k].paid <==> r[k].username == creator))
            && (forall k :: 0 <= k < |r| ==> r[k].paidAt == if r[k].username == creator then Some(now) else None)
            && (exists k :: 0 <= k < |r| && r[k].paid)
            && (forall i, j :: 0 <= i < |r| && 0 <= j < |r| && r[i].paid && r[j].paid ==> i == j)
  {
    var ps := WithCreator(Participants(names), creator);
    var r := Distribute(total, names, creator, discount, now);
    var k0 :| 0 <= k0 < |ps| && ps[k0] == creator;
    assert r[k0].paid;
  }

  // ---------------------------------------------------------------------
  // Worked cases

  /** Two distinct trimmed names, the first being the creator, are taken as
      they are and in that order. */
  lemma TwoNames(a: string, b: string)
    requires a != "" && b != "" && Trimmed(a) && Trimmed(b) && a != b
    ensures WithCreator(Participants([a, b]), a) == [a, b]
  {
    StripTrimmed(a);
    StripTrimmed(b);
    var none: seq<string> := [];
    assert DedupFrom(none, {a} + {b}) == [];
    assert DedupFrom([b], {a}) == [b] by {
      assert [b][1..] == none && Strip(b) !in {a};
      assert DedupFrom([b], {a}) == [b] + DedupFrom(none, {a} + {b});
    }
    assert DedupFrom([a, b], {}) == [a] + DedupFrom([b], {a}) by {
      assert [a, b][1..] == [b] && Strip(a) !in {};
      assert {} + {a} == {a};
    }
    assert Participants([a, b]) == [a, b];
  }

  /** Equal split of 100.00 between a creator and one other participant. */
  lemma EqualSplitExample(a: string, b: string, now: Timestamp)
    requires a != "" && b != "" && Trimmed(a) && Trimmed(b) && a != b
    ensures Distribute(10000, [a, b], a, false, now)
            == [Allotment(a, 5000, true, Some(now)), Allotment(b, 5000, false, None)]
  {
    TwoNames(a, b);
    var e := ExactShares(10000, [a, b], a, false);
    assert e == [5000.0, 5000.0];
    RoundWhole(5000);
    var rounded := seq(2, k requires 0 <= k < 2 => RoundHalfEven(e[k]));
    assert rounded == [5000, 5000];
    assert Sum(rounded) == 10000 by {
      assert rounded[..1] == [5000];
      assert rounded[..1][..0] == [];
      assert Sum(rounded[..1]) == 5000;
      assert Sum(rounded) == Sum(rounded[..1]) + 5000;
    }
    assert Amounts(10000, [a, b], a, false) == [5000, 5000];
  }

  /** Discounted split of 100.00: the other participant pays 57.14 and the
      creator 42.86. */
  lemma DiscountSplitExample(a: string, b: string, now: Timestamp)
    requires a != "" && b != "" && Trimmed(a) && Trimmed(b) && a != b
    ensures Distribute(10000, [a, b], a, true, now)
            == [Allotment(a, 4286, true, Some(now)), Allotment(b, 5714, false, None)]
  {
    TwoNames(a, b);
    var y := 10000.0 / 1.75;
    var e := ExactShares(10000, [a, b], a, true);
    assert e == [0.75 * y, y];
    assert RoundHalfEven(y) == 5714 by {
      assert 5714.0 <= y < 5714.5;
      assert y.Floor == 5714;
    }
    assert RoundHalfEven(0.75 * y) == 4286 by {
      assert 4285.5 < 0.75 * y < 4286.0;
      assert (0.75 * y).Floor == 4285;
    }
    var rounded := seq(2, k requires 0 <= k < 2 => RoundHalfEven(e[k]));
    assert rounded == [4286, 5714];
    assert Sum(rounded) == 10000 by {
      assert rounded[..1] == [4286];
      assert rounded[..1][..0] == [];
      assert Sum(rounded[..1]) == 4286;
      assert Sum(rounded) == Sum(rounded[..1]) + 5714;
    }
    assert Amounts(10000, [a, b], a, true) == [4286, 5714];
  }

  /** A creator-only bill: the creator owes, and has paid, the whole 30.00. */
  lemma SoloExample(solo: string, now: Timestamp)
    ensures Distribute(3000, [], solo, true, now) == [Allotment(solo, 3000, true, Some(now))]
  {
    assert WithCreator(Participants([]), solo) == [solo];
    var e := ExactShares(3000, [solo], solo, true);
    assert e == [3000.0];
    RoundWhole(3000);
    var rounded := seq(1, k requires 0 <= k < 1 => RoundHalfEven(e[k]));
    assert rounded == [3000];
    assert Sum(rounded) == 3000;
    assert Amounts(3000, [solo], solo, true) == [3000];
  }

  /** Whitespace-only names are not dropped: they strip to the empty name,
      which then takes part like any other. */
  lemma BlankNameKept()
    ensures Participants(["  "]) == [""]
  {
    StripAllSpace("  ");
  }
}
