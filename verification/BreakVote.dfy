/**
 The vote that vets inferred breaks. A tally is a multiset of frame lengths; the
 class keeps it as the source does, a map of counters.
 */
module BreakVote {
  import opened Dmx

  const BREAK_VOTE_WINDOW := 24

  datatype RawVote = Vote(votes: multiset<int>, locked: nat, seen: nat, infer: bool)

  /** While learning, only positive lengths are counted. */
  predicate WellFormed(v: RawVote) {
    v.locked == 0 ==> forall l :: l in v.votes ==> l > 0
  }

  type Vote = v: RawVote | WellFormed(v) witness Vote(multiset{}, 0, 0, false)

  datatype Verdict = Verdict(vote: Vote, boundary: bool, publish: bool)

  function NewVote(infer: bool): Vote {
    Vote(multiset{}, 0, 0, infer)
  }

  /** The length with most votes, the longest among equals. */
  ghost predicate Elected(votes: multiset<int>, best: int) {
    && best in votes
    && forall l :: l in votes ==> votes[l] < votes[best] || (votes[l] == votes[best] && l <= best)
  }

  lemma SomeVote(votes: multiset<int>)
    ensures votes == multiset{} || exists l :: l in votes
  {
    if forall l :: l !in votes {
      assert votes == multiset{};
    }
  }

  lemma SomeKey(keys: set<int>)
    ensures keys == {} || exists l :: l in keys
  {
    if forall l :: l !in keys {
      assert keys == {};
    }
  }

  lemma ElectedUnique(votes: multiset<int>, a: int, b: int)
    requires Elected(votes, a) && Elected(votes, b)
    ensures a == b
  {
  }

  lemma {:induction false} ElectedExists(votes: multiset<int>)
    requires votes != multiset{}
    ensures exists best :: Elected(votes, best)
    decreases |votes|
  {
    SomeVote(votes);
    var l :| l in votes;
    var rest := votes[l := 0];
    if rest == multiset{} {
      assert forall k :: k in votes ==> k == l || k in rest;
      assert Elected(votes, l);
    } else {
      assert votes == rest[l := votes[l]];
      ElectedExists(rest);
      var best :| Elected(rest, best);
      var winner := if votes[l] > votes[best] || (votes[l] == votes[best] && l > best) then l else best;
      assert forall k :: k in votes ==> k == l || (k in rest && rest[k] == votes[k]);
      assert Elected(votes, winner);
    }
  }

  ghost function Winner(votes: multiset<int>): int
    requires votes != multiset{}
    ensures Elected(votes, Winner(votes))
  {
    ElectedExists(votes);
    var best :| Elected(votes, best);
    best
  }

  /** What a break at a frame of this length means. */
  ghost function Judge(v: Vote, length: int): Verdict {
    if !v.infer then Verdict(v, true, true)
    else if v.locked > 0 then
      if length == v.locked then Verdict(v, true, true)
      else
        var votes := v.votes + multiset{length};
        Verdict(if votes[length] >= BREAK_VOTE_WINDOW then NewVote(true) else v.(votes := votes), false, false)
    else if length > 0 then
      var votes := v.votes + multiset{length};
      Verdict(if v.seen + 1 >= BREAK_VOTE_WINDOW
              then Vote(multiset{}, Winner(votes), v.seen + 1, true)
              else v.(votes := votes, seen := v.seen + 1),
              true, false)
    else Verdict(v, true, false)
  }

  class BreakValidator {
    var votes: map<int, int>
    var locked: nat
    var seen: nat
    var infer: bool

    ghost var tally: multiset<int>

    ghost predicate Valid()
      reads this
    {
      WellFormed(Vote(tally, locked, seen, infer)) && Agree()
    }

    // the map of counters is the tally
    ghost predicate Agree()
      reads this
    {
      && (forall l :: l in votes <==> l in tally)
      && (forall l :: l in votes ==> votes[l] == tally[l])
    }

    ghost function Abs(): Vote
      requires Valid()
      reads this
    {
      Vote(tally, locked, seen, infer)
    }

    constructor (infer: bool)
      ensures Valid() && Abs() == NewVote(infer) && this.infer == infer
    {
      votes, locked, seen, this.infer, tally := map[], 0, 0, infer, multiset{};
    }

    method Count(length: int)
      requires Agree()
      modifies this`votes, this`tally
      ensures Agree() && tally == old(tally) + multiset{length}
    {
      votes := votes[length := (if length in votes then votes[length] else 0) + 1];
      tally := tally + multiset{length};
    }

    /** The winner of the vote, in whatever order the map is walked. */
    method Best() returns (best: nat)
      requires Agree() && tally != multiset{}
      requires forall l :: l in tally ==> l > 0
      ensures Elected(tally, best)
    {
      var bestCount := 0;
      best := 0;
      var left := votes.Keys;
      while left != {}
        invariant left <= votes.Keys
        invariant forall l :: l in votes && l !in left ==>
                    votes[l] < bestCount || (votes[l] == bestCount && l <= best)
        invariant if left == votes.Keys then best == 0 && bestCount == 0
                  else best in votes && best !in left && bestCount == votes[best]
        decreases left
      {
        SomeKey(left);
        var l: int :| l in left;
        left := left - {l};
        if votes[l] > bestCount || (votes[l] == bestCount && l > best) {
          best, bestCount := l, votes[l];
        }
      }
      SomeVote(tally);
      assert votes.Keys != {};
    }

    method Classify(length: int) returns (boundary: bool, publish: bool)
      requires Valid()
      modifies this
      ensures Valid()
      ensures Verdict(Abs(), boundary, publish) == Judge(old(Abs()), length)
    {
      if !infer {
        return true, true;
      }
      if locked > 0 {
        if length == locked {
          return true, true;
        }
        Count(length);
        if votes[length] >= BREAK_VOTE_WINDOW {
          locked, seen, votes, tally := 0, 0, map[], multiset{};
        }
        return false, false;
      }
      if length > 0 {
        Count(length);
        seen := seen + 1;
        if seen >= BREAK_VOTE_WINDOW {
          var best := Best();
          ElectedUnique(tally, best, Winner(tally));
          locked, votes, tally := best, map[], multiset{};
        }
      }
      return true, false;
    }
  }

  // ----- histories of classified breaks -----

  ghost function Judged(v: Vote, lengths: seq<int>): Vote {
    if lengths == [] then v
    else Judge(Judged(v, lengths[..|lengths| - 1]), lengths[|lengths| - 1]).vote
  }

  function Counted(lengths: seq<int>): multiset<int> {
    if lengths == [] then multiset{}
    else
      var init, last := lengths[..|lengths| - 1], lengths[|lengths| - 1];
      if last > 0 then Counted(init) + multiset{last} else Counted(init)
  }

  function Rejected(lengths: seq<int>, locked: int): multiset<int> {
    if lengths == [] then multiset{}
    else
      var init, last := lengths[..|lengths| - 1], lengths[|lengths| - 1];
      if last != locked then Rejected(init, locked) + multiset{last} else Rejected(init, locked)
  }

  /** No length has been rejected often enough to drop the lock. */
  ghost predicate Tolerable(rejected: multiset<int>) {
    forall l :: rejected[l] < BREAK_VOTE_WINDOW
  }

  /** While fewer than 24 positive lengths were seen, the vote is exactly their tally and there is no lock. */
  lemma {:induction false} Learning(lengths: seq<int>)
    requires |Counted(lengths)| < BREAK_VOTE_WINDOW
    ensures Judged(NewVote(true), lengths) == Vote(Counted(lengths), 0, |Counted(lengths)|, true)
  {
    if lengths != [] {
      Learning(lengths[..|lengths| - 1]);
    }
  }

  /** The 24th positive length takes the lock, for the elected length of all 24. */
  lemma LockTaken(lengths: seq<int>)
    requires lengths != [] && lengths[|lengths| - 1] > 0 && |Counted(lengths)| == BREAK_VOTE_WINDOW
    ensures var v := Judged(NewVote(true), lengths);
            v.infer && v.locked > 0 && v.votes == multiset{} && Elected(Counted(lengths), v.locked)
  {
    Learning(lengths[..|lengths| - 1]);
    CountedPositive(lengths);
  }

  lemma {:induction false} CountedPositive(lengths: seq<int>)
    ensures forall l :: l in Counted(lengths) ==> l > 0
  {
    if lengths != [] {
      CountedPositive(lengths[..|lengths| - 1]);
    }
  }

  lemma TwoCounts(votes: multiset<int>, a: int, b: int)
    requires a != b
    ensures votes[a] + votes[b] <= |votes|
  {
    var both := multiset{}[a := votes[a]][b := votes[b]];
    assert both <= votes;
    assert |votes| == |both| + |votes - both|;
  }

  /** Thirteen votes out of twenty-four are enough. */
  lemma MajorityWins(votes: multiset<int>, best: int, l: int)
    requires |votes| == BREAK_VOTE_WINDOW && votes[l] >= 13 && Elected(votes, best)
    ensures best == l
  {
    if best != l {
      TwoCounts(votes, best, l);
    }
  }

  /**
   A lock survives exactly as long as no single other length has been rejected
   24 times since it was taken; right lengths in between do not matter.
   */
  lemma {:induction false} LockHeldIff(v: Vote, lengths: seq<int>)
    requires v.infer && v.locked > 0 && v.votes == multiset{}
    requires lengths != [] ==> Tolerable(Rejected(lengths[..|lengths| - 1], v.locked))
    ensures Judged(v, lengths) == if Tolerable(Rejected(lengths, v.locked))
                                  then v.(votes := Rejected(lengths, v.locked)) else NewVote(true)
  {
    if lengths == [] {
      assert Tolerable(multiset{});
    } else {
      var init, last := lengths[..|lengths| - 1], lengths[|lengths| - 1];
      if init != [] {
        RejectedGrows(init, v.locked);
      }
      LockHeldIff(v, init);
      NextRejection(Rejected(init, v.locked), last);
    }
  }

  /** Driver breaks are always believed. */
  lemma {:induction false} DriverVerdict(lengths: seq<int>, length: int)
    ensures var v := Judge(Judged(NewVote(false), lengths), length);
            v.boundary && v.publish && v.vote == NewVote(false)
  {
    if lengths != [] {
      DriverVerdict(lengths[..|lengths| - 1], lengths[|lengths| - 1]);
    }
  }

  /** While learning every break is a boundary and nothing is published. */
  lemma LearningVerdict(lengths: seq<int>, length: int)
    requires |Counted(lengths)| < BREAK_VOTE_WINDOW
    ensures var v := Judge(Judged(NewVote(true), lengths), length);
            v.boundary && !v.publish
  {
    Learning(lengths);
  }

  /** Under a lock exactly the locked length is a boundary, and it is published. */
  lemma LockedVerdict(v: Vote, lengths: seq<int>, length: int)
    requires v.infer && v.locked > 0 && v.votes == multiset{} && Tolerable(Rejected(lengths, v.locked))
    ensures var r := Judge(Judged(v, lengths), length);
            (r.boundary <==> length == v.locked) && (r.publish <==> length == v.locked)
  {
    if lengths != [] {
      RejectedGrows(lengths, v.locked);
    }
    LockHeldIff(v, lengths);
  }

  lemma RejectedGrows(lengths: seq<int>, locked: int)
    requires lengths != []
    ensures Tolerable(Rejected(lengths, locked)) ==> Tolerable(Rejected(lengths[..|lengths| - 1], locked))
  {
    var before, after := Rejected(lengths[..|lengths| - 1], locked), Rejected(lengths, locked);
    assert forall l :: before[l] <= after[l];
  }

  lemma NextRejection(rejected: multiset<int>, l: int)
    requires Tolerable(rejected)
    ensures Tolerable(rejected + multiset{l}) <==> (rejected + multiset{l})[l] < BREAK_VOTE_WINDOW
  {
  }

  /** With frame lengths in 0..512 a lock survives at most 23 * 512 rejections. */
  lemma Pigeonhole(lengths: seq<int>, locked: int)
    requires 1 <= locked <= MAX_CHANNELS
    requires forall i :: 0 <= i < |lengths| ==> 0 <= lengths[i] <= MAX_CHANNELS
    requires Tolerable(Rejected(lengths, locked))
    ensures |Rejected(lengths, locked)| <= (BREAK_VOTE_WINDOW - 1) * MAX_CHANNELS
  {
    RejectedRange(lengths, locked);
    BoundedTally(Rejected(lengths, locked), MAX_CHANNELS + 1, locked);
  }

  lemma {:induction false} RejectedRange(lengths: seq<int>, locked: int)
    requires forall i :: 0 <= i < |lengths| ==> 0 <= lengths[i] <= MAX_CHANNELS
    ensures forall l :: l in Rejected(lengths, locked) ==> 0 <= l <= MAX_CHANNELS && l != locked
  {
    if lengths != [] {
      RejectedRange(lengths[..|lengths| - 1], locked);
    }
  }

  lemma {:induction false} BoundedTally(m: multiset<int>, n: nat, locked: int)
    requires forall l :: l in m ==> 0 <= l < n && l != locked
    requires Tolerable(m)
    ensures |m| <= (BREAK_VOTE_WINDOW - 1) * (if 0 <= locked < n then n - 1 else n)
  {
    if n == 0 {
      SomeVote(m);
    } else {
      var rest := m[n - 1 := 0];
      assert forall l :: rest[l] <= m[l];
      BoundedTally(rest, n - 1, locked);
    }
  }

  // ----- the bound is attained -----

  function Copies(l: int, k: nat): seq<int> {
    if k == 0 then [] else Copies(l, k - 1) + [l]
  }

  /** Every length below n but the locked one, k times. */
  function Stubborn(n: nat, locked: int, k: nat): seq<int> {
    if n == 0 then []
    else Stubborn(n - 1, locked, k) + (if n - 1 == locked then [] else Copies(n - 1, k))
  }

  lemma {:induction false} RejectedAppendCopies(lengths: seq<int>, l: int, k: nat, locked: int)
    requires l != locked
    ensures Rejected(lengths + Copies(l, k), locked) == Rejected(lengths, locked) + multiset{}[l := k]
  {
    if k == 0 {
      assert lengths + Copies(l, k) == lengths;
    } else {
      RejectedAppendCopies(lengths, l, k - 1, locked);
      assert (lengths + Copies(l, k))[..|lengths + Copies(l, k)| - 1] == lengths + Copies(l, k - 1);
      assert multiset{}[l := k] == multiset{}[l := k - 1] + multiset{l};
    }
  }

  lemma {:induction false} StubbornRange(n: nat, locked: int, k: nat)
    ensures forall i :: 0 <= i < |Stubborn(n, locked, k)| ==> 0 <= Stubborn(n, locked, k)[i] < n
  {
    if n > 0 {
      StubbornRange(n - 1, locked, k);
      CopiesAre(n - 1, k);
    }
  }

  lemma NothingRejected(locked: int, k: nat)
    ensures Rejected(Stubborn(0, locked, k), locked) == multiset{}
  {
  }

  lemma AddCopies(m: multiset<int>, l: int, k: nat)
    ensures forall i :: (m + multiset{}[l := k])[i] == m[i] + (if i == l then k else 0)
  {
  }

  lemma StubbornUnfold(n: nat, locked: int, k: nat)
    requires n > 0
    ensures Stubborn(n, locked, k) == Stubborn(n - 1, locked, k) + (if n - 1 == locked then [] else Copies(n - 1, k))
  {
  }

  lemma StubbornStep(n: nat, locked: int, k: nat)
    requires n > 0
    ensures Rejected(Stubborn(n, locked, k), locked)
         == if n - 1 == locked then Rejected(Stubborn(n - 1, locked, k), locked)
            else Rejected(Stubborn(n - 1, locked, k), locked) + multiset{}[n - 1 := k]
  {
    hide Rejected, Stubborn, Copies;
    StubbornUnfold(n, locked, k);
    var before := Stubborn(n - 1, locked, k);
    assert before + [] == before;
    if n - 1 != locked {
      RejectedAppendCopies(before, n - 1, k, locked);
    }
  }

  lemma {:induction false} StubbornCounts(n: nat, locked: int, k: nat)
    ensures forall l :: Rejected(Stubborn(n, locked, k), locked)[l] <= k
    ensures forall l :: l in Rejected(Stubborn(n, locked, k), locked) ==> l < n
  {
    hide Rejected, Stubborn;
    NothingRejected(locked, k);
    if n > 0 {
      StubbornCounts(n - 1, locked, k);
      StubbornStep(n, locked, k);
      AddCopies(Rejected(Stubborn(n - 1, locked, k), locked), n - 1, k);
    }
  }

  lemma CopiesTotal(m: multiset<int>, l: int, k: nat)
    ensures |m + multiset{}[l := k]| == |m| + k
  {
  }

  lemma {:induction false} StubbornTotal(n: nat, locked: int, k: nat)
    requires k == BREAK_VOTE_WINDOW - 1
    ensures |Rejected(Stubborn(n, locked, k), locked)| == if 0 <= locked < n then 23 * (n - 1) else 23 * n
  {
    hide Rejected, Stubborn;
    NothingRejected(locked, k);
    if n > 0 {
      StubbornTotal(n - 1, locked, k);
      StubbornStep(n, locked, k);
      if n - 1 != locked {
        CopiesTotal(Rejected(Stubborn(n - 1, locked, k), locked), n - 1, k);
      }
    }
  }

  lemma {:induction false} CopiesAre(l: int, k: nat)
    ensures forall i :: 0 <= i < |Copies(l, k)| ==> Copies(l, k)[i] == l
  {
    if k > 0 {
      CopiesAre(l, k - 1);
    }
  }

  /** A lock can indeed survive 23 * 512 rejections. */
  lemma PigeonholeIsTight(v: Vote)
    requires v.infer && 1 <= v.locked <= MAX_CHANNELS && v.votes == multiset{}
    ensures exists lengths: seq<int> ::
              && (forall i :: 0 <= i < |lengths| ==> 0 <= lengths[i] <= MAX_CHANNELS)
              && |Rejected(lengths, v.locked)| == (BREAK_VOTE_WINDOW - 1) * MAX_CHANNELS
              && Judged(v, lengths).locked == v.locked
  {
    var lengths := Stubborn(MAX_CHANNELS + 1, v.locked, BREAK_VOTE_WINDOW - 1);
    StubbornRange(MAX_CHANNELS + 1, v.locked, BREAK_VOTE_WINDOW - 1);
    StubbornCounts(MAX_CHANNELS + 1, v.locked, BREAK_VOTE_WINDOW - 1);
    StubbornTotal(MAX_CHANNELS + 1, v.locked, BREAK_VOTE_WINDOW - 1);
    var tally := Rejected(lengths, v.locked);
    assert Tolerable(tally);
    if lengths != [] {
      RejectedGrows(lengths, v.locked);
    }
    LockHeldIff(v, lengths);
  }
}
