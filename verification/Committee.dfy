/** The sequencer committee: any two accepted quorums share more than a third of it,
    so they share an honest validator, and conflicting batches expose equivocation. */
module Committee {
  import opened Arithmetic
  import opened Bytes

  datatype Pubkey = Pubkey(bytes: Bytes32)

  const DEFAULT_KEY := Pubkey(ZERO32)

  function IsValidBftConfig(validatorCount: U8, threshold: U8): bool {
    validatorCount >= 1 && threshold >= 1 && threshold <= validatorCount && 3 * threshold > 2 * validatorCount
  }

  function Size(validators: seq<Pubkey>, validatorCount: U8): (n: nat)
    ensures n <= |validators| && n <= validatorCount
  {
    if |validators| < validatorCount then |validators| else validatorCount
  }

  predicate IsCommitteeMember(validators: seq<Pubkey>, validatorCount: U8, key: Pubkey) {
    key in validators[..Size(validators, validatorCount)]
  }

  ghost predicate Distinct(keys: seq<Pubkey>) {
    forall i, j :: 0 <= i < j < |keys| ==> keys[i] != keys[j]
  }

  ghost predicate ValidatorsValidSet(validators: seq<Pubkey>, validatorCount: U8) {
    var members := validators[..Size(validators, validatorCount)];
    DEFAULT_KEY !in members && Distinct(members)
  }

  method CheckValidators(validators: seq<Pubkey>, validatorCount: U8) returns (ok: bool)
    ensures ok <==> ValidatorsValidSet(validators, validatorCount)
  {
    var n := Size(validators, validatorCount);
    ghost var members := validators[..n];
    for i := 0 to n
      invariant forall k :: 0 <= k < i ==> members[k] != DEFAULT_KEY
      invariant forall k, l :: 0 <= k < i && k < l < n ==> members[k] != members[l]
    {
      if validators[i] == DEFAULT_KEY {
        assert members[i] == DEFAULT_KEY;
        return false;
      }
      for j := i + 1 to n
        invariant forall l :: i < l < j ==> members[i] != members[l]
      {
        if validators[i] == validators[j] {
          assert members[i] == members[j];
          return false;
        }
      }
    }
    return true;
  }

  /** Enough attestors, all of them distinct committee members. */
  ghost predicate MeetsThreshold(validators: seq<Pubkey>, validatorCount: U8, threshold: U8, attestors: seq<Pubkey>) {
    && 0 < threshold <= |attestors|
    && (forall i :: 0 <= i < |attestors| ==> IsCommitteeMember(validators, validatorCount, attestors[i]))
    && Distinct(attestors)
  }

  method AttestationMeetsThreshold(validators: seq<Pubkey>, validatorCount: U8, threshold: U8, attestors: seq<Pubkey>)
    returns (ok: bool)
    ensures ok <==> MeetsThreshold(validators, validatorCount, threshold, attestors)
  {
    if |attestors| < threshold || threshold == 0 {
      return false;
    }
    for i := 0 to |attestors|
      invariant forall k :: 0 <= k < i ==> IsCommitteeMember(validators, validatorCount, attestors[k])
      invariant forall k, l :: 0 <= k < i && k < l < |attestors| ==> attestors[k] != attestors[l]
    {
      if !IsCommitteeMember(validators, validatorCount, attestors[i]) {
        return false;
      }
      for j := i + 1 to |attestors|
        invariant forall l :: i < l < j ==> attestors[i] != attestors[l]
      {
        if attestors[i] == attestors[j] {
          return false;
        }
      }
    }
    return true;
  }

  function IsEquivocation(epochA: U64, seqA: U64, digestA: Bytes32, epochB: U64, seqB: U64, digestB: Bytes32): bool {
    epochA == epochB && seqA == seqB && digestA != digestB
  }

  // ----- counting -----

  ghost function SetOf(keys: seq<Pubkey>): (s: set<Pubkey>)
    ensures forall k :: k in s <==> k in keys
  {
    set k | k in keys
  }

  lemma {:induction false} SetSize(keys: seq<Pubkey>)
    ensures |SetOf(keys)| <= |keys|
    ensures Distinct(keys) ==> |SetOf(keys)| == |keys|
  {
    if keys != [] {
      var init, last := keys[..|keys| - 1], keys[|keys| - 1];
      SetSize(init);
      assert keys == init + [last];
      assert SetOf(keys) == SetOf(init) + {last};
    }
  }

  lemma Inclusion(a: set<Pubkey>, b: set<Pubkey>, all: set<Pubkey>)
    requires a <= all && b <= all
    ensures |a * b| >= |a| + |b| - |all|
  {
    assert a + b <= all;
    SubsetCount(a + b, all);
    assert |a + b| == |a| + |b| - |a * b|;
  }

  /** A valid configuration has members, and a threshold that they can meet. */
  lemma ConfigInRange(count: U8, threshold: U8)
    requires IsValidBftConfig(count, threshold)
    ensures 1 <= threshold <= count
  {
  }

  // ----- quorums -----

  /** Any two accepted attestations share more than a third of the committee. */
  lemma QuorumsIntersect(validators: seq<Pubkey>, count: U8, threshold: U8, a: seq<Pubkey>, b: seq<Pubkey>)
    requires IsValidBftConfig(count, threshold)
    requires MeetsThreshold(validators, count, threshold, a) && MeetsThreshold(validators, count, threshold, b)
    ensures 3 * |SetOf(a) * SetOf(b)| > count
  {
    var members := validators[..Size(validators, count)];
    SetSize(members);
    SetSize(a);
    SetSize(b);
    Inclusion(SetOf(a), SetOf(b), SetOf(members));
  }

  /** With fewer than a third of the committee faulty, two quorums share an honest one. */
  lemma HonestShared(validators: seq<Pubkey>, count: U8, threshold: U8, a: seq<Pubkey>, b: seq<Pubkey>,
                     faulty: set<Pubkey>) returns (v: Pubkey)
    requires IsValidBftConfig(count, threshold)
    requires MeetsThreshold(validators, count, threshold, a) && MeetsThreshold(validators, count, threshold, b)
    requires 3 * |faulty| < count
    ensures v in a && v in b && v !in faulty
  {
    var shared := SetOf(a) * SetOf(b);
    QuorumsIntersect(validators, count, threshold, a, b);
    if shared <= faulty {
      SubsetCount(shared, faulty);
      assert false;
    }
    v :| v in shared && v !in faulty;
  }

  /** One validator's signature over a batch. */
  datatype Vote = Vote(validator: Pubkey, epoch: U64, batchSeq: U64, digest: Bytes32)

  /** An accepted batch: a quorum of attestors, each with its vote. */
  ghost predicate Accepted(validators: seq<Pubkey>, count: U8, threshold: U8, attestors: seq<Pubkey>,
                           votes: set<Vote>, epoch: U64, batchSeq: U64, digest: Bytes32) {
    && MeetsThreshold(validators, count, threshold, attestors)
    && forall i :: 0 <= i < |attestors| ==> Vote(attestors[i], epoch, batchSeq, digest) in votes
  }

  /** Some pair of the validator's votes is an equivocation. */
  ghost predicate Equivocates(votes: set<Vote>, v: Pubkey) {
    exists x, y :: x in votes && y in votes && x.validator == v && y.validator == v
      && IsEquivocation(x.epoch, x.batchSeq, x.digest, y.epoch, y.batchSeq, y.digest)
  }

  /** A validator signs once at every height: two votes of it there are the same vote. */
  ghost predicate SignsOnce(votes: set<Vote>, v: Pubkey) {
    forall x, y | x in votes && y in votes && x.validator == v && y.validator == v ::
      x.epoch == y.epoch && x.batchSeq == y.batchSeq ==> x == y
  }

  /** A validator is exposed exactly when it did not; so who signs once never is. */
  lemma EquivocatesExact(votes: set<Vote>, v: Pubkey)
    ensures Equivocates(votes, v) <==> !SignsOnce(votes, v)
  {
    if !SignsOnce(votes, v) {
      var x, y :| x in votes && y in votes && x.validator == v && y.validator == v
        && x.epoch == y.epoch && x.batchSeq == y.batchSeq && x != y;
      assert IsEquivocation(x.epoch, x.batchSeq, x.digest, y.epoch, y.batchSeq, y.digest);
    }
  }

  /** Two accepted batches that conflict at one height expose every shared validator,
      more than a third of the committee. */
  lemma ConflictExposes(validators: seq<Pubkey>, count: U8, threshold: U8, a: seq<Pubkey>, b: seq<Pubkey>,
                        votes: set<Vote>, epoch: U64, batchSeq: U64, digestA: Bytes32, digestB: Bytes32)
    requires IsValidBftConfig(count, threshold) && digestA != digestB
    requires Accepted(validators, count, threshold, a, votes, epoch, batchSeq, digestA)
    requires Accepted(validators, count, threshold, b, votes, epoch, batchSeq, digestB)
    ensures forall v :: v in SetOf(a) * SetOf(b) ==> Equivocates(votes, v)
    ensures 3 * |SetOf(a) * SetOf(b)| > count
  {
    QuorumsIntersect(validators, count, threshold, a, b);
    forall v | v in SetOf(a) * SetOf(b)
      ensures Equivocates(votes, v)
    {
      assert Vote(v, epoch, batchSeq, digestA) in votes && Vote(v, epoch, batchSeq, digestB) in votes;
    }
  }

  /** Agreement: while fewer than a third equivocate, one height has one digest. */
  lemma Agreement(validators: seq<Pubkey>, count: U8, threshold: U8, a: seq<Pubkey>, b: seq<Pubkey>,
                  votes: set<Vote>, epoch: U64, batchSeq: U64, digestA: Bytes32, digestB: Bytes32,
                  faulty: set<Pubkey>)
    requires IsValidBftConfig(count, threshold)
    requires Accepted(validators, count, threshold, a, votes, epoch, batchSeq, digestA)
    requires Accepted(validators, count, threshold, b, votes, epoch, batchSeq, digestB)
    requires 3 * |faulty| < count && forall v :: Equivocates(votes, v) ==> v in faulty
    ensures digestA == digestB
  {
    var v := HonestShared(validators, count, threshold, a, b, faulty);
    if digestA != digestB {
      ConflictExposes(validators, count, threshold, a, b, votes, epoch, batchSeq, digestA, digestB);
    }
  }

  /** Every two quorums share more than a third of the committee. */
  ghost predicate QuorumsOverlap(validators: seq<Pubkey>, count: U8, threshold: U8) {
    forall a, b ::
      MeetsThreshold(validators, count, threshold, a) && MeetsThreshold(validators, count, threshold, b) ==>
        3 * |SetOf(a) * SetOf(b)| > count
  }

  /** The threshold cannot be lower: exactly the valid configurations make every two
      quorums of a full committee share more than a third. */
  lemma ThresholdExact(validators: seq<Pubkey>, count: U8, threshold: U8)
    requires ValidatorsValidSet(validators, count) && 1 <= threshold <= count <= |validators|
    ensures IsValidBftConfig(count, threshold) <==> QuorumsOverlap(validators, count, threshold)
  {
    if IsValidBftConfig(count, threshold) {
      forall a, b | MeetsThreshold(validators, count, threshold, a) && MeetsThreshold(validators, count, threshold, b)
        ensures 3 * |SetOf(a) * SetOf(b)| > count
      {
        QuorumsIntersect(validators, count, threshold, a, b);
      }
    } else {
      SliceMeets(validators, count, threshold, 0, threshold);
      SliceMeets(validators, count, threshold, count - threshold, count);
      EndsShareFew(validators[..count], count, threshold);
      Counterexample(validators, count, threshold, validators[..count][0..threshold],
                     validators[..count][count - threshold..count]);
    }
  }

  lemma EndsShareFew(members: seq<Pubkey>, count: U8, threshold: U8)
    requires Distinct(members) && |members| == count && threshold <= count && 3 * threshold <= 2 * count
    ensures 3 * |SetOf(members[0..threshold]) * SetOf(members[count - threshold..count])| <= count
  {
    hide Distinct, SetOf;
    SharedEnds(members, threshold, count);
  }

  lemma Counterexample(validators: seq<Pubkey>, count: U8, threshold: U8, a: seq<Pubkey>, b: seq<Pubkey>)
    requires MeetsThreshold(validators, count, threshold, a) && MeetsThreshold(validators, count, threshold, b)
    requires 3 * |SetOf(a) * SetOf(b)| <= count
    ensures !QuorumsOverlap(validators, count, threshold)
  {
    hide MeetsThreshold, SetOf;
  }

  lemma SliceMeets(validators: seq<Pubkey>, count: U8, threshold: U8, lo: nat, hi: nat)
    requires ValidatorsValidSet(validators, count) && 1 <= threshold <= count <= |validators|
    requires hi == lo + threshold <= count
    ensures Distinct(validators[..count])
    ensures MeetsThreshold(validators, count, threshold, validators[..count][lo..hi])
  {
    SliceDistinct(validators[..count], lo, hi);
  }

  lemma SliceDistinct(members: seq<Pubkey>, lo: nat, hi: nat)
    requires Distinct(members) && lo <= hi <= |members|
    ensures Distinct(members[lo..hi])
    ensures forall i :: 0 <= i < hi - lo ==> members[lo..hi][i] in members
  {
    var s := members[lo..hi];
    forall i | 0 <= i < |s|
      ensures s[i] == members[lo + i] && s[i] in members
    {
    }
  }

  /** The first t and the last t of n distinct keys share at most 2t - n, or none. */
  lemma SharedEnds(members: seq<Pubkey>, t: nat, n: nat)
    requires Distinct(members) && t <= n == |members|
    ensures |SetOf(members[0..t]) * SetOf(members[n - t..n])| <= if 2 * t > n then 2 * t - n else 0
  {
    var a, b := members[0..t], members[n - t..n];
    var lo := if n - t < t then n - t else t;
    var middle := members[lo..t];
    forall k | k in SetOf(a) * SetOf(b)
      ensures k in SetOf(middle)
    {
      InBothEnds(members, t, n, k);
    }
    SubsetCount(SetOf(a) * SetOf(b), SetOf(middle));
    SetSize(middle);
  }

  lemma InBothEnds(members: seq<Pubkey>, t: nat, n: nat, k: Pubkey)
    requires Distinct(members) && t <= n == |members|
    requires k in members[0..t] && k in members[n - t..n]
    ensures n - t < t && k in members[n - t..t]
  {
    var a, b := members[0..t], members[n - t..n];
    var i :| 0 <= i < t && a[i] == k;
    var j :| 0 <= j < t && b[j] == k;
    assert members[i] == k && members[n - t + j] == k;
    assert members[n - t..t][i - (n - t)] == k;
  }
}
