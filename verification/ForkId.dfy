/**
Fork identifiers (EIP-2124): the list of fork blocks of a chain configuration, the identifier a
node announces, and the filter that judges the identifiers of others.  A checksum over the forks
passed is any function folded over them.
 */
module ForkId {
  import opened Bytes

  datatype Id = Id(hash: nat, next: nat)

  datatype Verdict = Accept | RemoteStale | LocalIncompatibleOrStale

  datatype Rule = Unset | Block(number: nat)

  predicate Increasing(s: seq<nat>) {
    forall i, j :: 0 <= i < j < |s| ==> s[i] < s[j]
  }

  ghost predicate SameElements(a: seq<nat>, b: seq<nat>) {
    forall x :: x in a <==> x in b
  }

  /** The fork blocks of a configuration, in the order of its fields, as 64-bit words. */
  function Configured(rules: seq<Rule>): seq<nat> {
    if rules == [] then []
    else Configured(rules[..|rules| - 1]) + match rules[|rules| - 1] case Unset => [] case Block(n) => [n % U64]
  }

  lemma {:induction false} ConfiguredIff(rules: seq<Rule>, x: nat)
    ensures x in Configured(rules) <==>
            exists i :: 0 <= i < |rules| && rules[i].Block? && rules[i].number % U64 == x
  {
    if rules != [] {
      var n := |rules| - 1;
      ConfiguredIff(rules[..n], x);
      if i :| 0 <= i < |rules| && rules[i].Block? && rules[i].number % U64 == x {
        assert i == n || rules[..n][i] == rules[i];
      }
      if i :| 0 <= i < n && rules[..n][i].Block? && rules[..n][i].number % U64 == x {
        assert rules[i] == rules[..n][i];
      }
    }
  }

  predicate SortedTo(s: seq<nat>, n: nat)
    requires n <= |s|
  {
    forall i, j :: 0 <= i < n && i < j < |s| ==> s[i] <= s[j]
  }

  /** Exactly the configured forks other than block 0, in strictly increasing order. */
  method GatherForks(rules: seq<Rule>) returns (forks: seq<nat>)
    ensures Increasing(forks)
    ensures forall x :: x in forks <==> x != 0 && x in Configured(rules)
    ensures forall x :: x in forks <==>
              x != 0 && exists i :: 0 <= i < |rules| && rules[i].Block? && rules[i].number % U64 == x
  {
    forks := [];
    for k := 0 to |rules|
      invariant forks == Configured(rules[..k])
    {
      assert rules[..k + 1][..k] == rules[..k];
      if rules[k].Block? {
        forks := forks + [rules[k].number % U64];
      }
    }
    assert rules[..|rules|] == rules;
    forks := Sort(forks);
    forks := Deduplicate(forks);
    if |forks| > 0 && forks[0] == 0 {
      forks := forks[1..];
    }
    forall x ensures x in Configured(rules) <==>
                     exists i :: 0 <= i < |rules| && rules[i].Block? && rules[i].number % U64 == x {
      if x >= 0 {
        ConfiguredIff(rules, x);
      }
    }
  }

  method Sort(s: seq<nat>) returns (forks: seq<nat>)
    ensures SameElements(s, forks) && SortedTo(forks, |forks|)
  {
    forks := s;
    var i := 0;
    while i < |forks|
      invariant |forks| == |s| && i <= |s| && SameElements(s, forks) && SortedTo(forks, i)
    {
      var j := i + 1;
      while j < |forks|
        invariant |forks| == |s| && i < j <= |s| && SameElements(s, forks) && SortedTo(forks, i)
        invariant forall k :: i < k < j ==> forks[i] <= forks[k]
      {
        if forks[i] > forks[j] {
          SwapKeepsElements(forks, i, j);
          forks := forks[i := forks[j]][j := forks[i]];
        }
        j := j + 1;
      }
      i := i + 1;
    }
  }

  lemma SwapKeepsElements(s: seq<nat>, i: nat, j: nat)
    requires i < j < |s|
    ensures SameElements(s, s[i := s[j]][j := s[i]])
  {
    var t := s[i := s[j]][j := s[i]];
    forall x | x in s ensures x in t {
      var k :| 0 <= k < |s| && s[k] == x;
      assert t[if k == i then j else if k == j then i else k] == x;
    }
  }

  method Deduplicate(s: seq<nat>) returns (forks: seq<nat>)
    requires SortedTo(s, |s|)
    ensures SameElements(s, forks) && Increasing(forks)
  {
    forks := s;
    var i := 1;
    while i < |forks|
      invariant 1 <= i && SameElements(s, forks) && SortedTo(forks, |forks|)
      invariant i <= |forks| || |forks| == 0
      invariant forall a, b :: 0 <= a < b < i && b < |forks| ==> forks[a] < forks[b]
      decreases |forks| - i
    {
      if forks[i] == forks[i - 1] {
        RemoveKeepsElements(forks, i);
        forks := forks[..i] + forks[i + 1..];
        i := i - 1;
      }
      i := i + 1;
    }
  }

  lemma RemoveKeepsElements(s: seq<nat>, i: nat)
    requires 0 < i < |s| && s[i] == s[i - 1]
    ensures SameElements(s, s[..i] + s[i + 1..])
  {
  }

  // ----- identifiers and the filter

  type Update = (nat, nat) -> nat

  /** The checksum after the first `k` forks. */
  function Sum(update: Update, genesis: nat, forks: seq<nat>, k: nat): nat
    requires k <= |forks|
  {
    if k == 0 then genesis else update(Sum(update, genesis, forks, k - 1), forks[k - 1])
  }

  ghost predicate DistinctSums(update: Update, genesis: nat, forks: seq<nat>) {
    forall i, j :: 0 <= i < j <= |forks| ==> Sum(update, genesis, forks, i) != Sum(update, genesis, forks, j)
  }

  /** How many forks are at or below the head: those the chain has passed. */
  function Passed(forks: seq<nat>, head: nat): (p: nat)
    ensures p <= |forks|
    ensures forall i :: 0 <= i < p ==> forks[i] <= head
    ensures p < |forks| ==> forks[p] > head
  {
    if forks == [] || forks[0] > head then 0
    else assert forall i :: 0 < i < |forks| ==> forks[i] == forks[1..][i - 1]; 1 + Passed(forks[1..], head)
  }

  /** How many forks are below the head: what the filter takes for those passed. */
  function Below(forks: seq<nat>, head: nat): (p: nat)
    ensures p <= |forks|
    ensures forall i :: 0 <= i < p ==> forks[i] < head
    ensures p < |forks| ==> forks[p] >= head
  {
    if forks == [] || forks[0] >= head then 0
    else assert forall i :: 0 < i < |forks| ==> forks[i] == forks[1..][i - 1]; 1 + Below(forks[1..], head)
  }

  method NewId(update: Update, genesis: nat, rules: seq<Rule>, head: nat) returns (id: Id, forks: seq<nat>)
    ensures Increasing(forks) && forall x :: x in forks <==> x != 0 && x in Configured(rules)
    ensures id == IdAt(update, genesis, forks, head)
  {
    forks := GatherForks(rules);
    var hash, next := genesis, 0;
    for k := 0 to |forks|
      invariant hash == Sum(update, genesis, forks, k) && next == 0
      invariant forall i :: 0 <= i < k ==> forks[i] <= head
    {
      if forks[k] <= head {
        hash := update(hash, forks[k]);
      } else {
        next := forks[k];
        PassedIs(forks, head, k);
        return Id(hash, next), forks;
      }
    }
    PassedIs(forks, head, |forks|);
    id := Id(hash, next);
  }

  lemma {:induction false} PassedIs(forks: seq<nat>, head: nat, k: nat)
    requires k <= |forks| && (forall i :: 0 <= i < k ==> forks[i] <= head) && (k < |forks| ==> forks[k] > head)
    ensures Passed(forks, head) == k
  {
  }

  lemma {:induction false} BelowIs(forks: seq<nat>, head: nat, k: nat)
    requires k <= |forks| && (forall i :: 0 <= i < k ==> forks[i] < head) && (k < |forks| ==> forks[k] >= head)
    ensures Below(forks, head) == k
  {
  }

  /** The identifier of a chain with this head. */
  function IdAt(update: Update, genesis: nat, forks: seq<nat>, head: nat): Id {
    var p := Passed(forks, head);
    Id(Sum(update, genesis, forks, p), if p < |forks| then forks[p] else 0)
  }

  /** The first position below `p` with this checksum, or `p`. */
  ghost function FirstSum(update: Update, genesis: nat, forks: seq<nat>, p: nat, hash: nat): (j: nat)
    requires p <= |forks|
    ensures j <= p && (j < p ==> Sum(update, genesis, forks, j) == hash)
    ensures forall i :: 0 <= i < j ==> Sum(update, genesis, forks, i) != hash
  {
    if p == 0 then 0
    else
      var j := FirstSum(update, genesis, forks, p - 1, hash);
      if j < p - 1 || Sum(update, genesis, forks, p - 1) == hash then j else p
  }

  /**
  The validation rules of EIP-2124 for a local chain at fork position `p`: same checksum, compare
  heads; checksum of the past, the announced fork must be the one that followed; checksum of the
  future, accept; else reject.
   */
  ghost function Judge(update: Update, genesis: nat, forks: seq<nat>, p: nat, head: nat, id: Id): Verdict
    requires p <= |forks|
  {
    if id.hash == Sum(update, genesis, forks, p) then
      if id.next > 0 && head >= id.next then LocalIncompatibleOrStale else Accept
    else if FirstSum(update, genesis, forks, p, id.hash) < p then
      if forks[FirstSum(update, genesis, forks, p, id.hash)] == id.next then Accept else RemoteStale
    else if exists j :: p < j <= |forks| && id.hash == Sum(update, genesis, forks, j) then Accept
    else LocalIncompatibleOrStale
  }

  ghost function Eip2124(update: Update, genesis: nat, forks: seq<nat>, head: nat, id: Id): Verdict {
    Judge(update, genesis, forks, Passed(forks, head), head, id)
  }

  method Checksums(update: Update, genesis: nat, forks: seq<nat>) returns (sums: seq<nat>)
    ensures |sums| == |forks| + 1 && forall k :: 0 <= k <= |forks| ==> sums[k] == Sum(update, genesis, forks, k)
  {
    var hash := genesis;
    sums := [hash];
    for i := 0 to |forks|
      invariant hash == Sum(update, genesis, forks, i) && |sums| == i + 1
      invariant forall k :: 0 <= k <= i ==> sums[k] == Sum(update, genesis, forks, k)
    {
      hash := update(hash, forks[i]);
      sums := sums + [hash];
    }
  }

  /** The filter judges by the rules, at the position it takes for the local one. */
  method Filter(update: Update, genesis: nat, forks0: seq<nat>, head: nat, id: Id) returns (v: Verdict)
    requires Increasing(forks0) && head < U64
    ensures v == Judge(update, genesis, forks0, Below(forks0, head), head, id)
  {
    var sums := Checksums(update, genesis, forks0);
    var forks := forks0 + [U64 - 1];
    assert forks[|forks0|] == U64 - 1;
    for i := 0 to |forks|
      invariant forall k :: 0 <= k < i ==> forks[k] < head
    {
      if head > forks[i] {
        continue;
      }
      assert forall k :: 0 <= k < i ==> forks0[k] == forks[k];
      BelowIs(forks0, head, i);
      v := JudgeAt(update, genesis, forks0, sums, i, head, id);
      return;
    }
    assert false;
  }

  method JudgeAt(ghost update: Update, ghost genesis: nat, forks: seq<nat>, sums: seq<nat>, i: nat, head: nat, id: Id)
    returns (v: Verdict)
    requires i <= |forks|
    requires |sums| == |forks| + 1 && forall k :: 0 <= k <= |forks| ==> sums[k] == Sum(update, genesis, forks, k)
    ensures v == Judge(update, genesis, forks, i, head, id)
  {
    if sums[i] == id.hash {
      return if id.next > 0 && head >= id.next then LocalIncompatibleOrStale else Accept;
    }
    for j := 0 to i
      invariant forall k :: 0 <= k < j ==> sums[k] != id.hash
    {
      if sums[j] == id.hash {
        return if forks[j] != id.next then RemoteStale else Accept;
      }
    }
    for j := i + 1 to |sums|
      invariant forall k :: 0 <= k < j ==> sums[k] != id.hash
    {
      if sums[j] == id.hash {
        return Accept;
      }
    }
    return LocalIncompatibleOrStale;
  }

  // ----- what is refused

  /** With distinct checksums, the verdict in terms of the identifier alone: stale remotes announce
      another fork than the one that followed their checksum; the local chain is incompatible or stale
      if it has passed the fork announced behind its own checksum, or if it does not know the checksum. */
  lemma {:induction false} Verdicts(update: Update, genesis: nat, forks: seq<nat>, p: nat, head: nat, id: Id)
    requires DistinctSums(update, genesis, forks) && p <= |forks|
    ensures var v := Judge(update, genesis, forks, p, head, id);
            && (v.RemoteStale? <==>
                  exists j :: 0 <= j < p && id.hash == Sum(update, genesis, forks, j) && id.next != forks[j])
            && (v.LocalIncompatibleOrStale? <==>
                  || (id.hash == Sum(update, genesis, forks, p) && 0 < id.next <= head)
                  || !KnownSum(update, genesis, forks, id.hash))
  {
    if id.hash == Sum(update, genesis, forks, p) {
      PresentSum(update, genesis, forks, p, head, id);
    } else if FirstSum(update, genesis, forks, p, id.hash) < p {
      PastSum(update, genesis, forks, p, head, id);
    } else {
      OtherSum(update, genesis, forks, p, head, id);
    }
  }

  ghost predicate KnownSum(update: Update, genesis: nat, forks: seq<nat>, hash: nat) {
    exists j :: 0 <= j <= |forks| && hash == Sum(update, genesis, forks, j)
  }

  lemma {:induction false} OtherSum(update: Update, genesis: nat, forks: seq<nat>, p: nat, head: nat, id: Id)
    requires p <= |forks| && id.hash != Sum(update, genesis, forks, p)
    requires FirstSum(update, genesis, forks, p, id.hash) == p
    ensures forall j :: 0 <= j < p ==> id.hash != Sum(update, genesis, forks, j)
    ensures Judge(update, genesis, forks, p, head, id)
            == if KnownSum(update, genesis, forks, id.hash) then Accept else LocalIncompatibleOrStale
  {
    if KnownSum(update, genesis, forks, id.hash) {
      var j :| 0 <= j <= |forks| && id.hash == Sum(update, genesis, forks, j);
      assert p < j;
    }
  }

  lemma {:induction false} PresentSum(update: Update, genesis: nat, forks: seq<nat>, p: nat, head: nat, id: Id)
    requires DistinctSums(update, genesis, forks) && p <= |forks| && id.hash == Sum(update, genesis, forks, p)
    ensures Judge(update, genesis, forks, p, head, id)
            == if 0 < id.next <= head then LocalIncompatibleOrStale else Accept
    ensures forall j :: 0 <= j < p ==> id.hash != Sum(update, genesis, forks, j)
  {
  }

  lemma {:induction false} PastSum(update: Update, genesis: nat, forks: seq<nat>, p: nat, head: nat, id: Id)
    requires DistinctSums(update, genesis, forks) && p <= |forks| && id.hash != Sum(update, genesis, forks, p)
    requires FirstSum(update, genesis, forks, p, id.hash) < p
    ensures var f := FirstSum(update, genesis, forks, p, id.hash);
            && Judge(update, genesis, forks, p, head, id) == (if id.next == forks[f] then Accept else RemoteStale)
            && id.hash == Sum(update, genesis, forks, f)
            && forall j :: 0 <= j < p && id.hash == Sum(update, genesis, forks, j) ==> j == f
  {
  }

  /** Different lists of forks have different checksums: those of two configurations are the same only
      after the same forks. */
  ghost predicate Unmixed(update: Update, genesis: nat, forks: seq<nat>, others: seq<nat>) {
    forall i, j :: 0 <= i <= |forks| && 0 <= j <= |others|
                   && Sum(update, genesis, forks, i) == Sum(update, genesis, others, j) ==>
      i == j && forks[..i] == others[..j]
  }

  lemma {:induction false} SameForksSameSum(update: Update, genesis: nat, forks: seq<nat>, others: seq<nat>, k: nat)
    requires k <= |forks| && k <= |others| && forks[..k] == others[..k]
    ensures Sum(update, genesis, forks, k) == Sum(update, genesis, others, k)
  {
    if k > 0 {
      assert forks[..k][..k - 1] == forks[..k - 1] && others[..k][..k - 1] == others[..k - 1];
      assert forks[k - 1] == forks[..k][k - 1] && others[k - 1] == others[..k][k - 1];
      SameForksSameSum(update, genesis, forks, others, k - 1);
    }
  }

  /**
  Two configurations, the local chain past `p` forks of its own, the remote chain past `q` of its
  own, judged by the identifier that the remote node announces.  The remote is stale exactly when the
  local chain went on where the two agreed with a fork that the remote does not announce.  The local
  node is incompatible or stale exactly when the remote chain has passed a fork that is not in the
  local list, or announces one at or below the local head where the local list has it not passed.
   */
  lemma {:induction false} ConfigurationsJudged(update: Update, genesis: nat, forks: seq<nat>, p: nat, head: nat,
                                                others: seq<nat>, remote: nat)
    requires p <= |forks| && 0 !in forks && 0 !in others
    requires DistinctSums(update, genesis, forks) && Unmixed(update, genesis, forks, others)
    ensures var q := Passed(others, remote);
            var v := Judge(update, genesis, forks, p, head, IdAt(update, genesis, others, remote));
            var agreed := q <= |forks| && forks[..q] == others[..q];
            && (v.RemoteStale? <==> agreed && q < p && (q == |others| || others[q] != forks[q]))
            && (v.LocalIncompatibleOrStale? <==> !agreed || (q == p && q < |others| && others[q] <= head))
  {
    var q := Passed(others, remote);
    var id := IdAt(update, genesis, others, remote);
    if q <= |forks| && forks[..q] == others[..q] {
      SameForksSameSum(update, genesis, forks, others, q);
      KnownVerdict(update, genesis, forks, p, head, q, id);
      assert q < |others| ==> others[q] in others;
      assert q < |forks| ==> forks[q] in forks;
    } else {
      NotKnown(update, genesis, forks, others, q);
      Verdicts(update, genesis, forks, p, head, id);
    }
  }

  /** The verdict on the checksum after `q` forks. */
  lemma {:induction false} KnownVerdict(update: Update, genesis: nat, forks: seq<nat>, p: nat, head: nat, q: nat,
                                        id: Id)
    requires DistinctSums(update, genesis, forks) && p <= |forks| && q <= |forks|
    requires id.hash == Sum(update, genesis, forks, q)
    ensures Judge(update, genesis, forks, p, head, id)
            == if q < p && id.next != forks[q] then RemoteStale
               else if q == p && 0 < id.next <= head then LocalIncompatibleOrStale else Accept
  {
    if q == p {
      PresentSum(update, genesis, forks, p, head, id);
    } else if q < p {
      PastSum(update, genesis, forks, p, head, id);
    } else {
      LaterSum(update, genesis, forks, p, q);
      OtherSum(update, genesis, forks, p, head, id);
    }
  }

  lemma {:induction false} LaterSum(update: Update, genesis: nat, forks: seq<nat>, p: nat, q: nat)
    requires DistinctSums(update, genesis, forks) && p < q <= |forks|
    ensures var hash := Sum(update, genesis, forks, q);
            hash != Sum(update, genesis, forks, p) && FirstSum(update, genesis, forks, p, hash) == p
  {
  }

  lemma {:induction false} NotKnown(update: Update, genesis: nat, forks: seq<nat>, others: seq<nat>, q: nat)
    requires Unmixed(update, genesis, forks, others) && q <= |others|
    requires !(q <= |forks| && forks[..q] == others[..q])
    ensures !KnownSum(update, genesis, forks, Sum(update, genesis, others, q))
  {
  }

  // ----- when the filter follows the rules

  lemma {:induction false} PositionsAgreeIff(forks: seq<nat>, head: nat)
    requires Increasing(forks)
    ensures Below(forks, head) == Passed(forks, head) <==> head !in forks
    ensures head in forks ==> Passed(forks, head) == Below(forks, head) + 1 && forks[Below(forks, head)] == head
  {
    if head in forks {
      var k :| 0 <= k < |forks| && forks[k] == head;
      BelowIs(forks, head, k);
      PassedIs(forks, head, k + 1);
    } else {
      var p := Below(forks, head);
      if p < |forks| { assert forks[p] in forks; }
      PassedIs(forks, head, p);
    }
  }

  /** The filter follows EIP-2124 for all identifiers if and only if the head is not a fork block. */
  lemma {:induction false} FilterFollowsRulesIff(update: Update, genesis: nat, forks: seq<nat>, head: nat)
    requires Increasing(forks) && DistinctSums(update, genesis, forks) && 0 !in forks
    ensures head !in forks <==>
            forall id ::
              Judge(update, genesis, forks, Below(forks, head), head, id) == Eip2124(update, genesis, forks, head, id)
  {
    PositionsAgreeIff(forks, head);
    if head in forks {
      var p := Below(forks, head);
      assert forks[p] in forks;
      var id := Id(Sum(update, genesis, forks, p + 1), head);
      assert Eip2124(update, genesis, forks, head, id) == LocalIncompatibleOrStale;
      assert Judge(update, genesis, forks, p, head, id) == Accept;
    }
  }

  /** The filter accepts every node of the same configuration, wherever its head is, if and only if
      the local head is not a fork block. */
  lemma {:induction false} AcceptsOwnConfigurationIff(update: Update, genesis: nat, forks: seq<nat>, head: nat)
    requires Increasing(forks) && DistinctSums(update, genesis, forks) && 0 !in forks
    ensures head !in forks <==>
            forall remote: nat ::
              Judge(update, genesis, forks, Below(forks, head), head, IdAt(update, genesis, forks, remote)) == Accept
  {
    PositionsAgreeIff(forks, head);
    if head in forks {
      var p := Below(forks, head);
      assert head > 0;
      PassedIs(forks, head - 1, p);
      assert Judge(update, genesis, forks, p, head, IdAt(update, genesis, forks, head - 1)) == LocalIncompatibleOrStale;
    } else {
      forall remote: nat ensures Eip2124(update, genesis, forks, head, IdAt(update, genesis, forks, remote)) == Accept {
        RulesAcceptOwn(update, genesis, forks, head, remote);
      }
    }
  }

  /** The rules themselves accept every node of the same configuration. */
  lemma RulesAcceptOwn(update: Update, genesis: nat, forks: seq<nat>, head: nat, remote: nat)
    requires Increasing(forks) && DistinctSums(update, genesis, forks)
    ensures Eip2124(update, genesis, forks, head, IdAt(update, genesis, forks, remote)) == Accept
  {
  }
}
