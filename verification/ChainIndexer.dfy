/**
The chain indexer: sections of the canonical chain are processed in the background,
outside the lock, while head events and reorganisations keep arriving.  Headers are
named by their hashes, a hash is a number, and 0 stands for the all-zero hash, which is
the hash of no header.  `parent` gives the parent hash of every header.
 */
module ChainIndexer {
  import opened Options

  type Hash = nat
  type Canon = map<nat, Hash>
  type Parents = Hash -> Hash

  /** Sizes, and the trusted checkpoint, which is fixed before processing starts. */
  datatype Config = Config(sectionSize: nat, confirmsReq: nat, checkpointSections: nat, checkpointHead: Hash)
  {
    predicate Valid() {
      sectionSize > 0
    }
  }

  /** The indexer's counters and the section heads in its database. */
  datatype Index = Index(stored: nat, known: nat, cascaded: nat, heads: map<nat, Hash>)

  function ReadCanonicalHash(canon: Canon, number: nat): Hash {
    if number in canon then canon[number] else 0
  }

  function SectionHead(ix: Index, section: nat): Hash {
    if section in ix.heads then ix.heads[section] else 0
  }

  /** The last block of a section. */
  function LastBlock(c: Config, section: nat): nat
    requires c.Valid()
  {
    (section + 1) * c.sectionSize - 1
  }

  /** The header `k` parent links below `h`. */
  function Ancestor(parent: Parents, h: Hash, k: nat): Hash
    decreases k
  {
    if k == 0 then h else Ancestor(parent, parent(h), k - 1)
  }

  // ----- the locked operations, as functions of the index

  /** Sets the number of valid sections and forgets the heads of those dropped. */
  function SetValid(ix: Index, sections: nat): Index {
    ix.(stored := sections, heads := ix.heads - (set k | k in ix.heads && sections <= k < ix.stored))
  }

  /** Drops sections from the end until one matches the canonical chain, or the checkpoint is reached. */
  function VerifyLast(c: Config, ix: Index, canon: Canon): (r: Index)
    requires c.Valid()
    decreases ix.stored
  {
    if ix.stored > 0 && ix.stored > c.checkpointSections
       && SectionHead(ix, ix.stored - 1) != ReadCanonicalHash(canon, LastBlock(c, ix.stored - 1))
    then VerifyLast(c, SetValid(ix, ix.stored - 1), canon)
    else ix
  }

  function Max(a: nat, b: nat): nat { if a < b then b else a }
  function Min(a: nat, b: nat): nat { if a < b then a else b }

  /** A chain reorganisation down to block `head`. */
  function ReorgTo(c: Config, ix: Index, head: nat): Index
    requires c.Valid()
  {
    var sections := (head + 1) / c.sectionSize;
    var known := if sections < c.checkpointSections then 0 else sections;
    var stored := Max(sections, c.checkpointSections);
    var ix1 := ix.(known := Min(known, ix.known));
    var ix2 := if stored < ix1.stored then SetValid(ix1, stored) else ix1;
    ix2.(cascaded := Min(known * c.sectionSize, ix.cascaded))
  }

  /** A new chain head at block `head`. */
  function ExtendTo(c: Config, ix: Index, head: nat, canon: Canon): Index
    requires c.Valid()
  {
    if head < c.confirmsReq then ix else
      var sections := (head + 1 - c.confirmsReq) / c.sectionSize;
      if sections < c.checkpointSections || sections <= ix.known then ix
      else if ix.known < c.checkpointSections
              && ReadCanonicalHash(canon, c.checkpointSections * c.sectionSize - 1) != c.checkpointHead then ix
      else ix.(known := sections)
  }

  // ----- the protocol: atomic steps of the update loop, interleaved with everything else

  /** What the update loop is doing while it does not hold the lock. */
  datatype Work =
    | Idle
    | Running(section: nat, oldHead: Hash, number: nat, lastHead: Hash)
    | Clearing(section: nat, oldHead: Hash, lowered: bool)  // dropping all sections, write by write
    | Failed(section: nat, oldHead: Hash)

  datatype State = State(ix: Index, canon: Canon, work: Work)

  datatype Event =
    | ChainChanges(canon: Canon)          // blocks are added or the chain is reorganised
    | HeadEvent(head: nat)                // newHead(head, false)
    | ReorgEvent(head: nat)               // newHead(head, true)
    | SectionsCall                        // Sections() verifies the last head
    | Begin                               // the update loop takes a section and unlocks
    | ResetFails                          // the backend refuses the section
    | ClearStep                           // one write of setValidSections(0), without the lock
    | ReadBlock(found: bool)              // one block is read and handed to the backend
    | BackendFails                        // processing or committing fails
    | Finish                              // the update loop locks again

  /** Block `number` of a section is accepted when it continues from the last one read. */
  predicate Continues(parent: Parents, hash: Hash, found: bool, lastHead: Hash) {
    hash != 0 && found && parent(hash) == lastHead
  }

  predicate Next(c: Config, parent: Parents, s: State, e: Event, s': State)
    requires c.Valid()
  {
    match e
    case ChainChanges(canon) => s' == s.(canon := canon)
    case HeadEvent(head) => s' == s.(ix := ExtendTo(c, s.ix, head, s.canon))
    case ReorgEvent(head) => s' == s.(ix := ReorgTo(c, s.ix, head))
    case SectionsCall => s' == s.(ix := VerifyLast(c, s.ix, s.canon))
    case Begin =>
      && s.work.Idle? && s.ix.known > s.ix.stored
      && var ix := VerifyLast(c, s.ix, s.canon);
         var oldHead := if ix.stored > 0 then SectionHead(ix, ix.stored - 1) else 0;
         s' == s.(ix := ix, work := Running(ix.stored, oldHead, ix.stored * c.sectionSize, oldHead))
    case ResetFails =>
      && s.work.Running? && s.work.number == s.work.section * c.sectionSize
      && s' == s.(work := Clearing(s.work.section, s.work.oldHead, false))
    case ClearStep =>
      && s.work.Clearing?
      && s' == if s.work.lowered then
                 s.(ix := s.ix.(heads := s.ix.heads - {s.ix.stored}), work := s.work.(lowered := false))
               else if s.ix.stored > 0 then
                 s.(ix := s.ix.(stored := s.ix.stored - 1), work := s.work.(lowered := true))
               else
                 s.(work := Failed(s.work.section, s.work.oldHead))
    case ReadBlock(found) =>
      && s.work.Running? && s.work.number < (s.work.section + 1) * c.sectionSize
      && var hash := ReadCanonicalHash(s.canon, s.work.number);
         s' == s.(work := if Continues(parent, hash, found, s.work.lastHead)
                          then s.work.(number := s.work.number + 1, lastHead := hash)
                          else Failed(s.work.section, s.work.oldHead))
    case BackendFails =>
      s.work.Running? && s' == s.(work := Failed(s.work.section, s.work.oldHead))
    case Finish =>
      && !s.work.Idle? && !s.work.Clearing?
      && (s.work.Running? ==> s.work.number == (s.work.section + 1) * c.sectionSize)
      && s' == s.(ix := Finished(c, s.ix, s.canon, s.work), work := Idle)
  }

  /** The section before the one in flight is still the one it was begun on. */
  predicate StillFits(ix: Index, work: Work) {
    work.Running? && (work.section == 0 || work.oldHead == SectionHead(ix, work.section - 1))
  }

  /** The new section is stored if it still fits. */
  function Finished(c: Config, ix: Index, canon: Canon, work: Work): Index
    requires c.Valid() && !work.Idle?
  {
    if StillFits(ix, work) then
      var ix1 := SetValid(ix.(heads := ix.heads[work.section := work.lastHead]), work.section + 1);
      ix1.(cascaded := ix1.stored * c.sectionSize - 1)
    else
      var ix1 := VerifyLast(c, ix, canon);
      ix1.(known := ix1.stored)
  }

  // ----- the invariant

  /** Section heads are hashes of headers, and those from the checkpoint on are present. */
  ghost predicate Present(c: Config, ix: Index) {
    && (forall k :: k in ix.heads ==> ix.heads[k] != 0)
    && (forall k :: 0 <= k < ix.stored && c.checkpointSections <= k + 1 ==> k in ix.heads)
  }

  /** Below the checkpoint either there are no sections or they have all been processed here. */
  ghost predicate Rebuilt(c: Config, ix: Index) {
    ix.stored < c.checkpointSections ==> forall k :: 0 <= k < ix.stored ==> k in ix.heads
  }

  /** Each section above the checkpoint is reached from the one before it by exactly
      `sectionSize` parent links.  Heads left behind above the last section do not matter. */
  ghost predicate LinkedAt(c: Config, parent: Parents, ix: Index, k: nat) {
    k in ix.heads && c.checkpointSections <= k < ix.stored ==>
      if k == 0 then Ancestor(parent, ix.heads[0], c.sectionSize) == 0
      else k - 1 in ix.heads && Ancestor(parent, ix.heads[k], c.sectionSize) == ix.heads[k - 1]
  }

  ghost predicate Linked(c: Config, parent: Parents, ix: Index) {
    forall k: nat :: LinkedAt(c, parent, ix, k)
  }

  /** The section in flight continues from the head it started from. */
  ghost predicate InFlight(c: Config, parent: Parents, s: State) {
    match s.work
    case Idle => true
    case Clearing(_, _, _) => true
    case Failed(_, _) => true
    case Running(section, oldHead, number, lastHead) =>
      && s.ix.stored <= section
      && section * c.sectionSize <= number <= (section + 1) * c.sectionSize
      && Ancestor(parent, lastHead, number - section * c.sectionSize) == oldHead
      && (number > section * c.sectionSize ==> lastHead != 0)
      && (section == 0 ==> oldHead == 0)
      && (section > 0 ==> oldHead != 0)
      && (section > 0 && s.ix.stored == section ==> section - 1 in s.ix.heads && s.ix.heads[section - 1] == oldHead)
      && (section > 0 && section - 1 in s.ix.heads ==> s.ix.stored == section)
  }

  ghost predicate Inv(c: Config, parent: Parents, s: State)
    requires c.Valid()
  {
    && Present(c, s.ix) && Linked(c, parent, s.ix) && InFlight(c, parent, s)
    && (!s.work.Clearing? ==> Rebuilt(c, s.ix))
  }

  /** Where indexing starts: nothing stored beyond the checkpoint, and nothing known of the chain. */
  ghost predicate Init(c: Config, s: State) {
    && s.work.Idle? && s.ix.stored == c.checkpointSections && s.ix.known == 0
    && s.ix.heads == (if c.checkpointSections == 0 then map[] else map[c.checkpointSections - 1 := c.checkpointHead])
    && (c.checkpointSections > 0 ==> c.checkpointHead != 0)
  }

  lemma InitInv(c: Config, parent: Parents, s: State)
    requires c.Valid() && Init(c, s)
    ensures Inv(c, parent, s)
  {
  }

  /** `r` has fewer sections than `ix`, and no head of a section that was dropped. */
  ghost predicate Lowers(ix: Index, r: Index) {
    && r.stored <= ix.stored
    && (forall k :: k in r.heads ==> k in ix.heads && r.heads[k] == ix.heads[k] && (k < ix.stored ==> k < r.stored))
    && (forall k :: 0 <= k < r.stored && k in ix.heads ==> k in r.heads)
  }

  /** Dropping sections from the end keeps what is left in order. */
  lemma LowersInv(c: Config, parent: Parents, ix: Index, r: Index)
    requires Present(c, ix) && Linked(c, parent, ix) && Lowers(ix, r)
    ensures Present(c, r) && Linked(c, parent, r)
    ensures Rebuilt(c, ix) && (r.stored == 0 || c.checkpointSections <= r.stored || r.stored == ix.stored) ==>
              Rebuilt(c, r)
  {
    forall k: nat ensures LinkedAt(c, parent, r, k) {
      assert LinkedAt(c, parent, ix, k);
    }
  }

  /** The last section head is the canonical hash of its last block. */
  ghost predicate LastMatches(c: Config, ix: Index, canon: Canon)
    requires c.Valid()
  {
    ix.stored > c.checkpointSections ==>
      && ix.stored - 1 in ix.heads && LastBlock(c, ix.stored - 1) in canon
      && ix.heads[ix.stored - 1] == canon[LastBlock(c, ix.stored - 1)]
  }

  lemma StopsOnMatch(c: Config, ix: Index, canon: Canon)
    requires c.Valid() && Present(c, ix)
    requires ix.stored > c.checkpointSections ==>
               SectionHead(ix, ix.stored - 1) == ReadCanonicalHash(canon, LastBlock(c, ix.stored - 1))
    ensures LastMatches(c, ix, canon)
  {
  }

  lemma {:induction false} VerifyLastLowers(c: Config, ix: Index, canon: Canon)
    requires c.Valid()
    ensures var r := VerifyLast(c, ix, canon);
            Lowers(ix, r) && r.known == ix.known && (c.checkpointSections <= r.stored || r.stored == ix.stored)
    decreases ix.stored
  {
    if ix.stored > 0 && ix.stored > c.checkpointSections
       && SectionHead(ix, ix.stored - 1) != ReadCanonicalHash(canon, LastBlock(c, ix.stored - 1)) {
      VerifyLastLowers(c, SetValid(ix, ix.stored - 1), canon);
    }
  }

  /** Only sections whose head is not canonical are dropped. */
  lemma {:induction false} VerifyLastDrops(c: Config, ix: Index, canon: Canon)
    requires c.Valid()
    ensures forall k :: VerifyLast(c, ix, canon).stored <= k < ix.stored ==>
              SectionHead(ix, k) != ReadCanonicalHash(canon, (k + 1) * c.sectionSize - 1)
    decreases ix.stored
  {
    if ix.stored > 0 && ix.stored > c.checkpointSections
       && SectionHead(ix, ix.stored - 1) != ReadCanonicalHash(canon, LastBlock(c, ix.stored - 1)) {
      var lower := SetValid(ix, ix.stored - 1);
      VerifyLastDrops(c, lower, canon);
      forall k | VerifyLast(c, ix, canon).stored <= k < ix.stored
        ensures SectionHead(ix, k) != ReadCanonicalHash(canon, (k + 1) * c.sectionSize - 1) {
        assert k < lower.stored ==> SectionHead(lower, k) == SectionHead(ix, k);
      }
    }
  }

  lemma {:induction false} VerifyLastMatches(c: Config, ix: Index, canon: Canon)
    requires c.Valid() && Present(c, ix)
    ensures LastMatches(c, VerifyLast(c, ix, canon), canon)
    decreases ix.stored
  {
    if ix.stored > 0 && ix.stored > c.checkpointSections
       && SectionHead(ix, ix.stored - 1) != ReadCanonicalHash(canon, LastBlock(c, ix.stored - 1)) {
      VerifyLastMatches(c, SetValid(ix, ix.stored - 1), canon);
    } else {
      StopsOnMatch(c, ix, canon);
    }
  }

  lemma {:induction false} VerifyLastInv(c: Config, parent: Parents, ix: Index, canon: Canon)
    requires c.Valid() && Present(c, ix) && Linked(c, parent, ix)
    ensures var r := VerifyLast(c, ix, canon);
            && Present(c, r) && Linked(c, parent, r) && Lowers(ix, r) && LastMatches(c, r, canon)
            && (Rebuilt(c, ix) ==> Rebuilt(c, r))
  {
    VerifyLastLowers(c, ix, canon);
    VerifyLastMatches(c, ix, canon);
    LowersInv(c, parent, ix, VerifyLast(c, ix, canon));
  }

  /** Steps under the lock that only lower the number of sections keep the section in flight valid. */
  lemma LowerKeepsInFlight(c: Config, parent: Parents, s: State, ix': Index)
    requires c.Valid() && InFlight(c, parent, s) && Lowers(s.ix, ix')
    ensures InFlight(c, parent, s.(ix := ix'))
  {
  }

  lemma BlockReadInv(c: Config, parent: Parents, s: State, found: bool, s': State)
    requires c.Valid() && Inv(c, parent, s) && Next(c, parent, s, ReadBlock(found), s')
    ensures Inv(c, parent, s')
  {
  }

  lemma FinishInv(c: Config, parent: Parents, s: State, s': State)
    requires c.Valid() && Inv(c, parent, s) && Next(c, parent, s, Finish, s')
    ensures Inv(c, parent, s')
  {
    var w := s.work;
    if StillFits(s.ix, w) {
      assert w.number - w.section * c.sectionSize == c.sectionSize by {
        assert (w.section + 1) * c.sectionSize == w.section * c.sectionSize + c.sectionSize;
      }
      assert s.ix.stored == w.section;
      assert s'.ix.heads == s.ix.heads[w.section := w.lastHead];
      forall k: nat ensures LinkedAt(c, parent, s'.ix, k) {
        assert LinkedAt(c, parent, s.ix, k);
      }
    } else {
      VerifyLastInv(c, parent, s.ix, s.canon);
      SameHeadsInv(c, parent, VerifyLast(c, s.ix, s.canon), s'.ix);
    }
  }

  lemma ReorgInv(c: Config, parent: Parents, s: State, head: nat)
    requires c.Valid() && Inv(c, parent, s)
    ensures Inv(c, parent, s.(ix := ReorgTo(c, s.ix, head)))
  {
    var r := ReorgTo(c, s.ix, head);
    assert Lowers(s.ix, r) && (c.checkpointSections <= r.stored || r.stored == s.ix.stored);
    LowersInv(c, parent, s.ix, r);
    LowerKeepsInFlight(c, parent, s, r);
  }

  lemma SameHeadsInv(c: Config, parent: Parents, ix: Index, ix': Index)
    requires Present(c, ix) && Linked(c, parent, ix) && ix'.heads == ix.heads && ix'.stored == ix.stored
    ensures Present(c, ix') && Linked(c, parent, ix') && (Rebuilt(c, ix) ==> Rebuilt(c, ix'))
  {
    forall k: nat ensures LinkedAt(c, parent, ix', k) {
      assert LinkedAt(c, parent, ix, k);
    }
  }

  /** A write of the unlocked clearing.  A head that another step has kept it from removing stays behind,
      above the last section. */
  lemma ClearStepInv(c: Config, parent: Parents, s: State, s': State)
    requires c.Valid() && Inv(c, parent, s) && Next(c, parent, s, ClearStep, s')
    ensures Inv(c, parent, s')
  {
    forall k: nat ensures LinkedAt(c, parent, s'.ix, k) {
      assert LinkedAt(c, parent, s.ix, k);
    }
  }

  /** The section that is begun continues from the last one stored. */
  lemma BegunInFlight(c: Config, parent: Parents, ix: Index, canon: Canon)
    requires c.Valid() && Present(c, ix) && Rebuilt(c, ix)
    ensures var n := ix.stored;
            var oldHead := if n > 0 then SectionHead(ix, n - 1) else 0;
            InFlight(c, parent, State(ix, canon, Running(n, oldHead, n * c.sectionSize, oldHead)))
  {
    var n := ix.stored;
    if n > 0 {
      assert n - 1 in ix.heads;
    }
    assert (n + 1) * c.sectionSize == n * c.sectionSize + c.sectionSize;
  }

  lemma BeginInv(c: Config, parent: Parents, s: State, s': State)
    requires c.Valid() && Inv(c, parent, s) && Next(c, parent, s, Begin, s')
    ensures Inv(c, parent, s')
  {
    VerifyLastInv(c, parent, s.ix, s.canon);
    BegunInFlight(c, parent, s'.ix, s'.canon);
  }

  /** Every atomic step keeps the invariant, whatever else is going on. */
  lemma NextInv(c: Config, parent: Parents, s: State, e: Event, s': State)
    requires c.Valid() && Inv(c, parent, s) && Next(c, parent, s, e, s')
    ensures Inv(c, parent, s')
  {
    match e
    case ChainChanges(_) =>
    case HeadEvent(head) => SameHeadsInv(c, parent, s.ix, s'.ix);
    case ReorgEvent(head) => ReorgInv(c, parent, s, head);
    case SectionsCall =>
      VerifyLastInv(c, parent, s.ix, s.canon);
      LowerKeepsInFlight(c, parent, s, s'.ix);
    case Begin => BeginInv(c, parent, s, s');
    case ResetFails =>
    case ClearStep => ClearStepInv(c, parent, s, s');
    case ReadBlock(found) => BlockReadInv(c, parent, s, found, s');
    case BackendFails =>
    case Finish => FinishInv(c, parent, s, s');
  }

  /** A run of the indexer: states and the events between them. */
  ghost predicate Run(c: Config, parent: Parents, states: seq<State>, events: seq<Event>)
    requires c.Valid()
  {
    && |states| == |events| + 1 && Init(c, states[0])
    && forall i :: 0 <= i < |events| ==> Next(c, parent, states[i], events[i], states[i + 1])
  }

  lemma {:induction false} RunInv(c: Config, parent: Parents, states: seq<State>, events: seq<Event>, i: nat)
    requires c.Valid() && Run(c, parent, states, events) && i < |states|
    ensures Inv(c, parent, states[i])
  {
    if i == 0 {
      InitInv(c, parent, states[0]);
    } else {
      RunInv(c, parent, states, events, i - 1);
      NextInv(c, parent, states[i - 1], events[i - 1], states[i]);
    }
  }

  /** A section is begun on top of the last one stored, whose head is canonical at that moment. */
  lemma BegunOnCanonical(c: Config, parent: Parents, s: State, s': State)
    requires c.Valid() && Inv(c, parent, s) && Next(c, parent, s, Begin, s')
    ensures s'.work.Running? && s'.work.section == s'.ix.stored < s.ix.known
    ensures s'.work.number == s'.work.section * c.sectionSize
    ensures s'.work.section > c.checkpointSections ==>
              s'.work.oldHead == ReadCanonicalHash(s.canon, s'.work.section * c.sectionSize - 1)
  {
    VerifyLastInv(c, parent, s.ix, s.canon);
  }

  /** A section that still fits becomes the last one, and nothing else changes. */
  lemma FinishStores(c: Config, parent: Parents, s: State, s': State)
    requires c.Valid() && Inv(c, parent, s) && Next(c, parent, s, Finish, s') && StillFits(s.ix, s.work)
    ensures s.ix.stored == s.work.section && s'.ix.stored == s.work.section + 1 && s'.ix.known == s.ix.known
    ensures s'.ix.heads == s.ix.heads[s.work.section := s.work.lastHead]
  {
    assert s.ix.stored == s.work.section;
    var ix1 := s.ix.(heads := s.ix.heads[s.work.section := s.work.lastHead]);
    assert SetValid(ix1, s.work.section + 1).heads == ix1.heads;
  }

  /** Otherwise nothing more is known than stored, and the last section stored is canonical. */
  lemma FinishDrops(c: Config, parent: Parents, s: State, s': State)
    requires c.Valid() && Inv(c, parent, s) && Next(c, parent, s, Finish, s') && !StillFits(s.ix, s.work)
    ensures s'.ix.known == s'.ix.stored <= s.ix.stored
    ensures s'.ix.stored > c.checkpointSections ==>
              SectionHead(s'.ix, s'.ix.stored - 1) == ReadCanonicalHash(s.canon, s'.ix.stored * c.sectionSize - 1)
  {
    VerifyLastInv(c, parent, s.ix, s.canon);
  }

  // ----- only confirmed sections are processed

  /** `h` is the highest block that a head event has announced so far, or -1. */
  ghost function Highest(events: seq<Event>, n: nat): (h: int)
    requires n <= |events|
    ensures h >= -1 && (h >= 0 ==> exists i :: 0 <= i < n && events[i] == HeadEvent(h))
    ensures forall i :: 0 <= i < n && events[i].HeadEvent? ==> events[i].head <= h
  {
    if n == 0 then -1
    else
      var h := Highest(events, n - 1);
      match events[n - 1]
      case HeadEvent(head) => if head > h then head else h
      case _ => h
  }

  /** The first `sections` sections end `confirmsReq` blocks below block `h`, or lower. */
  ghost predicate Confirmed(c: Config, sections: nat, h: int) {
    sections * c.sectionSize + c.confirmsReq <= h + 1
  }

  lemma FewerConfirmed(c: Config, m: nat, n: nat, h: int, h': int)
    requires m <= n && Confirmed(c, n, h) && h <= h'
    ensures Confirmed(c, m, h')
  {
    assert (n - m) * c.sectionSize >= 0;
    assert n * c.sectionSize == m * c.sectionSize + (n - m) * c.sectionSize;
  }

  /** A head event makes known exactly the sections whose last block has its confirmations: of those
      numbers that exceed what was known and reach the checkpoint, the largest. */
  lemma KnownIsLargestConfirmed(c: Config, ix: Index, head: nat, canon: Canon)
    requires c.Valid()
    ensures var r := ExtendTo(c, ix, head, canon);
            && r == ix.(known := r.known) && ix.known <= r.known
            && (r.known > ix.known ==>
                  && r.known * c.sectionSize + c.confirmsReq <= head + 1 && c.checkpointSections <= r.known
                  && (ix.known >= c.checkpointSections || CheckpointMatches(c, canon)))
            && (ix.known >= c.checkpointSections || CheckpointMatches(c, canon) ==>
                  forall n :: r.known < n && c.checkpointSections <= n ==>
                    n * c.sectionSize + c.confirmsReq > head + 1)
  {
    var r := ExtendTo(c, ix, head, canon);
    if ix.known >= c.checkpointSections || CheckpointMatches(c, canon) {
      forall n: nat | r.known < n && c.checkpointSections <= n
        ensures n * c.sectionSize + c.confirmsReq > head + 1 {
        NotMoreSections(c, head, n);
      }
    }
    if head >= c.confirmsReq {
      WholeSections(head + 1 - c.confirmsReq, c.sectionSize);
    }
  }

  /** The chain has the trusted checkpoint. */
  ghost predicate CheckpointMatches(c: Config, canon: Canon)
    requires c.Valid()
  {
    c.checkpointSections > 0 ==>
      ReadCanonicalHash(canon, c.checkpointSections * c.sectionSize - 1) == c.checkpointHead
  }

  lemma WholeSections(blocks: nat, size: nat)
    requires size > 0
    ensures blocks / size * size <= blocks < (blocks / size + 1) * size
  {
    assert blocks == blocks / size * size + blocks % size;
    assert (blocks / size + 1) * size == blocks / size * size + size;
  }

  lemma NotMoreSections(c: Config, head: nat, n: nat)
    requires c.Valid() && n > 0
    ensures n * c.sectionSize + c.confirmsReq <= head + 1 ==>
              head >= c.confirmsReq && n <= (head + 1 - c.confirmsReq) / c.sectionSize
  {
    if n * c.sectionSize + c.confirmsReq <= head + 1 {
      SectionsOrdered(c.sectionSize, 1, n);
      var blocks := head + 1 - c.confirmsReq;
      WholeSections(blocks, c.sectionSize);
      SectionsOrdered(c.sectionSize, blocks / c.sectionSize + 1, n);
    }
  }

  lemma SectionsOrdered(size: nat, m: nat, n: nat)
    ensures m <= n ==> m * size <= n * size
  {
  }

  /** What is known, in work or stored beyond the checkpoint is confirmed. */
  ghost predicate OnlyConfirmed(c: Config, s: State, h: int) {
    && (Confirmed(c, s.ix.known, h) || (s.ix.known <= s.ix.stored && s.ix.known <= c.checkpointSections))
    && (Confirmed(c, s.ix.stored, h) || s.ix.stored <= c.checkpointSections)
    && (!s.work.Idle? ==> Confirmed(c, s.ix.known, h))
    && (s.work.Running? ==> Confirmed(c, s.work.section + 1, h))
  }

  lemma HeadConfirmed(c: Config, s: State, head: nat, h: int)
    requires c.Valid() && OnlyConfirmed(c, s, h) && head <= h
    ensures OnlyConfirmed(c, s.(ix := ExtendTo(c, s.ix, head, s.canon)), h)
  {
    KnownIsLargestConfirmed(c, s.ix, head, s.canon);
  }

  lemma BeginConfirmed(c: Config, s: State, work: Work, h: int)
    requires c.Valid() && OnlyConfirmed(c, s, h) && s.work.Idle? && s.ix.known > s.ix.stored
    requires var ix := VerifyLast(c, s.ix, s.canon); work.Running? && work.section == ix.stored
    ensures OnlyConfirmed(c, s.(ix := VerifyLast(c, s.ix, s.canon), work := work), h)
  {
    var ix := VerifyLast(c, s.ix, s.canon);
    VerifyLastLowers(c, s.ix, s.canon);
    LoweredConfirmed(c, s, ix, h);
    FewerConfirmed(c, ix.stored + 1, s.ix.known, h, h);
  }

  lemma FinishConfirmed(c: Config, s: State, h: int)
    requires c.Valid() && OnlyConfirmed(c, s, h) && !s.work.Idle? && !s.work.Clearing?
    ensures OnlyConfirmed(c, s.(ix := Finished(c, s.ix, s.canon, s.work), work := Idle), h)
  {
    VerifyLastLowers(c, s.ix, s.canon);
    LoweredConfirmed(c, s, VerifyLast(c, s.ix, s.canon), h);
  }

  /** Every step keeps this, whatever else is going on. */
  lemma NextConfirmed(c: Config, parent: Parents, s: State, e: Event, s': State, h: int, h': int)
    requires c.Valid() && OnlyConfirmed(c, s, h) && Next(c, parent, s, e, s')
    requires h <= h' && (e.HeadEvent? ==> e.head <= h')
    ensures OnlyConfirmed(c, s', h')
  {
    ConfirmedLater(c, s, h, h');
    match e
    case ChainChanges(_) =>
    case HeadEvent(head) => HeadConfirmed(c, s, head, h');
    case ReorgEvent(head) => ReorgConfirmed(c, s, head, h');
    case SectionsCall =>
      VerifyLastLowers(c, s.ix, s.canon);
      LoweredConfirmed(c, s, s'.ix, h');
    case Begin => BeginConfirmed(c, s, s'.work, h');
    case ResetFails =>
    case ClearStep => LoweredConfirmed(c, s, s'.ix, h');
    case ReadBlock(found) =>
    case BackendFails =>
    case Finish => FinishConfirmed(c, s, h');
  }

  lemma ConfirmedLater(c: Config, s: State, h: int, h': int)
    requires OnlyConfirmed(c, s, h) && h <= h'
    ensures OnlyConfirmed(c, s, h')
  {
  }

  /** Dropping sections keeps what is left confirmed. */
  lemma LoweredConfirmed(c: Config, s: State, ix': Index, h: int)
    requires OnlyConfirmed(c, s, h) && ix'.known == s.ix.known && ix'.stored <= s.ix.stored
    requires s.work.Clearing? || c.checkpointSections <= ix'.stored || ix'.stored == s.ix.stored
    ensures OnlyConfirmed(c, s.(ix := ix'), h)
  {
    if Confirmed(c, s.ix.stored, h) {
      FewerConfirmed(c, ix'.stored, s.ix.stored, h, h);
    }
  }

  lemma ReorgConfirmed(c: Config, s: State, head: nat, h: int)
    requires c.Valid() && OnlyConfirmed(c, s, h)
    ensures OnlyConfirmed(c, s.(ix := ReorgTo(c, s.ix, head)), h)
  {
    var r := ReorgTo(c, s.ix, head);
    if Confirmed(c, s.ix.known, h) {
      FewerConfirmed(c, r.known, s.ix.known, h, h);
    }
    if Confirmed(c, s.ix.stored, h) {
      FewerConfirmed(c, r.stored, s.ix.stored, h, h);
    }
  }

  lemma {:induction false} RunConfirmed(c: Config, parent: Parents, states: seq<State>, events: seq<Event>, i: nat)
    requires c.Valid() && Run(c, parent, states, events) && i < |states|
    ensures OnlyConfirmed(c, states[i], Highest(events, i))
  {
    if i > 0 {
      RunConfirmed(c, parent, states, events, i - 1);
      NextConfirmed(c, parent, states[i - 1], events[i - 1], states[i], Highest(events, i - 1), Highest(events, i));
    }
  }

  /** In every run, a section is begun only after a head event for a block that confirms all of it. */
  lemma BegunConfirmed(c: Config, parent: Parents, states: seq<State>, events: seq<Event>, i: nat)
    requires c.Valid() && Run(c, parent, states, events) && i < |events| && events[i].Begin?
    ensures states[i + 1].work.Running?
    ensures exists j :: 0 <= j < i && events[j].HeadEvent?
                        && (states[i + 1].work.section + 1) * c.sectionSize + c.confirmsReq <= events[j].head + 1
  {
    var h := Highest(events, i);
    RunConfirmed(c, parent, states, events, i);
    NextConfirmed(c, parent, states[i], events[i], states[i + 1], h, h);
    var n := states[i + 1].work.section + 1;
    SectionsOrdered(c.sectionSize, 1, n);
    assert Confirmed(c, n, h);
    var j :| 0 <= j < i && events[j] == HeadEvent(h);
  }

  // ----- what the invariant is for

  /** The canonical chain up to block `n` is connected by parent links. */
  ghost predicate CanonLinked(parent: Parents, canon: Canon, n: nat) {
    && (forall k :: 0 <= k <= n ==> k in canon)
    && (forall k :: 0 < k <= n ==> parent(canon[k]) == canon[k - 1])
  }

  lemma {:induction false} CanonAncestor(parent: Parents, canon: Canon, n: nat, k: nat)
    requires CanonLinked(parent, canon, n) && k <= n
    ensures Ancestor(parent, canon[n], k) == canon[n - k]
    decreases k
  {
    if k > 0 {
      CanonAncestor(parent, canon, n - 1, k - 1);
    }
  }

  lemma LastBlockStep(c: Config, i: nat)
    requires c.Valid() && i > 0
    ensures LastBlock(c, i) - c.sectionSize == LastBlock(c, i - 1)
  {
    assert (i + 1) * c.sectionSize == i * c.sectionSize + c.sectionSize;
  }

  lemma {:induction false} LastBlockMonotone(c: Config, i: nat, j: nat)
    requires c.Valid() && i <= j
    ensures LastBlock(c, i) <= LastBlock(c, j)
  {
    if i < j {
      LastBlockMonotone(c, i, j - 1);
      LastBlockStep(c, j);
    }
  }

  /** When the last head is canonical, so is every section above the checkpoint, and the
      checkpoint itself when one is set. */
  lemma {:induction false} StoredSectionsCanonical(c: Config, parent: Parents, ix: Index, canon: Canon, i: nat)
    requires c.Valid() && Present(c, ix) && Linked(c, parent, ix)
    requires ix.stored > c.checkpointSections && c.checkpointSections <= i + 1 && i < ix.stored
    requires CanonLinked(parent, canon, LastBlock(c, ix.stored - 1))
    requires ix.heads[ix.stored - 1] == canon[LastBlock(c, ix.stored - 1)]
    ensures i in ix.heads && LastBlock(c, i) in canon && ix.heads[i] == canon[LastBlock(c, i)]
    decreases ix.stored - i
  {
    LastBlockMonotone(c, i, ix.stored - 1);
    if i + 1 < ix.stored {
      StoredSectionsCanonical(c, parent, ix, canon, i + 1);
      LastBlockMonotone(c, i + 1, ix.stored - 1);
      LastBlockStep(c, i + 1);
      assert LinkedAt(c, parent, ix, i + 1);
      CanonAncestor(parent, canon, LastBlock(c, i + 1), c.sectionSize);
    }
  }

  /** In every run, checking only the last section head establishes that all stored sections
      above the checkpoint lie on the current canonical chain. */
  lemma VerifiedSectionsCanonical(c: Config, parent: Parents, states: seq<State>, events: seq<Event>, n: nat, i: nat)
    requires c.Valid() && Run(c, parent, states, events) && n < |states|
    requires var ix := VerifyLast(c, states[n].ix, states[n].canon);
             && c.checkpointSections <= i + 1 && c.checkpointSections < ix.stored && i < ix.stored
             && CanonLinked(parent, states[n].canon, LastBlock(c, ix.stored - 1))
    ensures var ix := VerifyLast(c, states[n].ix, states[n].canon);
            && i in ix.heads && LastBlock(c, i) in states[n].canon
            && ix.heads[i] == states[n].canon[LastBlock(c, i)]
  {
    RunInv(c, parent, states, events, n);
    var s := states[n];
    VerifyLastInv(c, parent, s.ix, s.canon);
    StoredSectionsCanonical(c, parent, VerifyLast(c, s.ix, s.canon), s.canon, i);
  }

  /** After a reorganisation event no section above the checkpoint reaches past the common ancestor, and
      no more are dropped than that takes; the same for the sections known, none of which are left when
      the ancestor is below the checkpoint. */
  lemma ReorgDropsSections(c: Config, ix: Index, head: nat)
    requires c.Valid()
    ensures var r := ReorgTo(c, ix, head);
            && (if ix.stored <= c.checkpointSections || ix.stored * c.sectionSize <= head + 1
                then r.stored == ix.stored
                else && c.checkpointSections <= r.stored < ix.stored && (r.stored + 1) * c.sectionSize > head + 1
                     && (r.stored == c.checkpointSections || r.stored * c.sectionSize <= head + 1))
            && (if c.checkpointSections * c.sectionSize > head + 1 then r.known == 0
                else if ix.known * c.sectionSize <= head + 1 then r.known == ix.known
                else r.known * c.sectionSize <= head + 1 < (r.known + 1) * c.sectionSize)
            && Lowers(ix, r)
  {
    var r := ReorgTo(c, ix, head);
    var q := (head + 1) / c.sectionSize;
    WholeSections(head + 1, c.sectionSize);
    AtMostWhole(c, head, q, ix.stored);
    AtMostWhole(c, head, q, ix.known);
    AtMostWhole(c, head, q, c.checkpointSections);
    SectionsOrdered(c.sectionSize, q + 1, r.stored + 1);
  }

  lemma AtMostWhole(c: Config, head: nat, q: nat, n: nat)
    requires q * c.sectionSize <= head + 1 < (q + 1) * c.sectionSize
    ensures n * c.sectionSize <= head + 1 <==> n <= q
  {
    SectionsOrdered(c.sectionSize, n, q);
    SectionsOrdered(c.sectionSize, q + 1, n);
  }

  // ----- the indexer itself

  /** The call of `newHead` that every child indexer gets. */
  datatype Cascade = Cascade(head: nat, reorg: bool)

  class Indexer {
    const config: Config
    var storedSections: nat
    var knownSections: nat
    var cascadedHead: nat
    var sectionHeads: map<nat, Hash>

    constructor (config: Config)
      ensures this.config == config
      ensures config.checkpointHead != 0 ==> Init(config, State(Value(), map[], Idle))
    {
      this.config := config;
      storedSections, knownSections, cascadedHead := config.checkpointSections, 0, 0;
      sectionHeads := if config.checkpointSections == 0 then map[]
                      else map[config.checkpointSections - 1 := config.checkpointHead];
    }

    ghost function Value(): Index
      reads this
    {
      Index(storedSections, knownSections, cascadedHead, sectionHeads)
    }

    method SetValidSections(sections: nat)
      modifies this
      ensures Value() == SetValid(old(Value()), sections)
    {
      while storedSections > sections
        invariant storedSections <= old(storedSections)
                  && (storedSections >= sections || storedSections == old(storedSections))
        invariant knownSections == old(knownSections) && cascadedHead == old(cascadedHead)
        invariant sectionHeads == old(sectionHeads)
                                  - (set k | k in old(sectionHeads) && storedSections <= k < old(storedSections))
      {
        storedSections := storedSections - 1;
        sectionHeads := sectionHeads - {storedSections};
      }
      storedSections := sections;
    }

    method VerifyLastHead(canon: Canon)
      requires config.Valid()
      modifies this
      ensures Value() == VerifyLast(config, old(Value()), canon)
    {
      while storedSections > 0 && storedSections > config.checkpointSections
        invariant VerifyLast(config, Value(), canon) == VerifyLast(config, old(Value()), canon)
        decreases storedSections
      {
        var last := if storedSections - 1 in sectionHeads then sectionHeads[storedSections - 1] else 0;
        if last == ReadCanonicalHash(canon, storedSections * config.sectionSize - 1) {
          return;
        }
        SetValidSections(storedSections - 1);
      }
    }

    /** The children hear of a reorganisation exactly when the head they were told of goes down.  They are
        told one block more than the common ancestor when it is the last of a section. */
    method NewHead(head: nat, reorg: bool, canon: Canon) returns (children: Option<Cascade>)
      requires config.Valid()
      modifies this
      ensures Value() == if reorg then ReorgTo(config, old(Value()), head)
                         else ExtendTo(config, old(Value()), head, canon)
      ensures children == if cascadedHead != old(cascadedHead) then Some(Cascade(cascadedHead, true)) else None
      ensures children.Some? ==> reorg && children.value.head < old(cascadedHead) && children.value.head <= head + 1
      ensures children.Some? && config.checkpointSections <= (head + 1) / config.sectionSize ==>
                (children.value.head == head + 1 <==> (head + 1) % config.sectionSize == 0)
    {
      children := None;
      if reorg {
        var known := (head + 1) / config.sectionSize;
        var stored := known;
        if known < config.checkpointSections {
          known := 0;
        }
        if stored < config.checkpointSections {
          stored := config.checkpointSections;
        }
        if known < knownSections {
          knownSections := known;
        }
        if stored < storedSections {
          SetValidSections(stored);
        }
        ChildHead(config, head, known);
        if known * config.sectionSize < cascadedHead {
          cascadedHead := known * config.sectionSize;
          children := Some(Cascade(cascadedHead, true));
        }
        return;
      }
      if head >= config.confirmsReq {
        var sections := (head + 1 - config.confirmsReq) / config.sectionSize;
        if sections < config.checkpointSections {
          sections := 0;
        }
        if sections > knownSections {
          if knownSections < config.checkpointSections {
            var synced := ReadCanonicalHash(canon, config.checkpointSections * config.sectionSize - 1);
            if synced != config.checkpointHead {
              return;
            }
          }
          knownSections := sections;
        }
      }
    }

    /** chain_indexer.go:200-214: picks the next section, while the lock is held. */
    method BeginUpdate(canon: Canon) returns (work: Work)
      requires config.Valid()
      modifies this
      ensures forall parent :: work.Running? ==>
                Next(config, parent, State(old(Value()), canon, Idle), Begin, State(Value(), canon, work))
      ensures work.Idle? ==> Value() == old(Value()) && knownSections <= storedSections
      ensures !work.Failed?
    {
      if knownSections <= storedSections {
        return Idle;
      }
      VerifyLastHead(canon);
      var section, oldHead := storedSections, 0;
      if section > 0 {
        oldHead := if section - 1 in sectionHeads then sectionHeads[section - 1] else 0;
      }
      work := Running(section, oldHead, section * config.sectionSize, oldHead);
    }

    /** chain_indexer.go:225-242: stores the section, or falls back to what still matches. */
    method FinishUpdate(canon: Canon, work: Work) returns (children: Option<Cascade>)
      requires config.Valid() && !work.Idle?
      modifies this
      ensures Value() == Finished(config, old(Value()), canon, work)
      ensures children ==
              if StillFits(old(Value()), work) then Some(Cascade(LastBlock(config, work.section), false)) else None
    {
      if work.Running? && (work.section == 0 ||
          work.oldHead == if work.section - 1 in sectionHeads then sectionHeads[work.section - 1] else 0) {
        sectionHeads := sectionHeads[work.section := work.lastHead];
        SetValidSections(work.section + 1);
        cascadedHead := storedSections * config.sectionSize - 1;
        children := Some(Cascade(cascadedHead, false));
      } else {
        VerifyLastHead(canon);
        knownSections := storedSections;
        children := None;
      }
    }
  }

  lemma ChildHead(c: Config, head: nat, known: nat)
    requires c.Valid() && known <= (head + 1) / c.sectionSize
    ensures known * c.sectionSize <= head + 1
    ensures known == (head + 1) / c.sectionSize ==>
              (known * c.sectionSize == head + 1 <==> (head + 1) % c.sectionSize == 0)
  {
    var q := (head + 1) / c.sectionSize;
    assert head + 1 == q * c.sectionSize + (head + 1) % c.sectionSize;
    assert (q - known) * c.sectionSize >= 0;
  }

  // ----- the processing of a section, outside the lock

  /** The world at one moment, and what the chain and the backend answer for a block then. */
  datatype View = View(ix: Index, canon: Canon, found: bool, processed: bool)

  /** A step of the update loop in a run of the protocol. */
  datatype Turn = Turn(before: State, event: Event, after: State)

  /** The update loop takes its work from `from` to `to` by these steps.  Between them anything may
      happen to the rest of the state. */
  ghost predicate Turns(c: Config, parent: Parents, turns: seq<Turn>, from: Work, to: Work)
    requires c.Valid()
  {
    && (if turns == [] then from == to else turns[0].before.work == from && turns[|turns| - 1].after.work == to)
    && (forall i :: 0 <= i < |turns| ==> Next(c, parent, turns[i].before, turns[i].event, turns[i].after))
    && (forall i :: 0 < i < |turns| ==> turns[i - 1].after.work == turns[i].before.work)
  }

  lemma TurnsNext(c: Config, parent: Parents, turns: seq<Turn>, from: Work, to: Work, t: Turn)
    requires c.Valid() && Turns(c, parent, turns, from, to)
    requires t.before.work == to && Next(c, parent, t.before, t.event, t.after)
    ensures Turns(c, parent, turns + [t], from, t.after.work)
  {
  }

  /** The step of the protocol that `e` makes when the work is `work`. */
  function TurnAt(v: View, work: Work, e: Event, work': Work): Turn {
    Turn(State(v.ix, v.canon, work), e, State(v.ix, v.canon, work'))
  }

  /** The hash that block `base + k` has when it is read. */
  function HashAt(base: nat, views: seq<View>, k: nat): Hash
    requires k < |views|
  {
    ReadCanonicalHash(views[k].canon, base + k)
  }

  /** The head that block `k` of a section has to continue from. */
  function HeadBefore(base: nat, oldHead: Hash, views: seq<View>, k: nat): Hash
    requires k <= |views|
  {
    if k == 0 then oldHead else HashAt(base, views, k - 1)
  }

  /** Block `k` of a section continues from the one before it, and is processed. */
  predicate Taken(parent: Parents, base: nat, oldHead: Hash, views: seq<View>, k: nat)
    requires k < |views|
  {
    && Continues(parent, HashAt(base, views, k), views[k].found, HeadBefore(base, oldHead, views, k))
    && views[k].processed
  }

  lemma {:induction false} AncestorStep(parent: Parents, h: Hash, k: nat)
    ensures Ancestor(parent, h, k + 1) == Ancestor(parent, parent(h), k)
  {
  }

  /** The first `k` blocks of a section have been taken. */
  ghost predicate TakenUpTo(parent: Parents, base: nat, oldHead: Hash, views: seq<View>, k: nat)
    requires k <= |views|
  {
    && Ancestor(parent, HeadBefore(base, oldHead, views, k), k) == oldHead
    && forall j :: 0 <= j < k ==> Taken(parent, base, oldHead, views, j)
  }

  /** One more block is taken if it continues from the last and is processed, and else not all can be. */
  lemma TakenNext(parent: Parents, base: nat, oldHead: Hash, views: seq<View>, k: nat)
    requires k < |views| && TakenUpTo(parent, base, oldHead, views, k)
    ensures var hash := HashAt(base, views, k);
            Taken(parent, base, oldHead, views, k) <==>
            Continues(parent, hash, views[k].found, HeadBefore(base, oldHead, views, k)) && views[k].processed
    ensures Taken(parent, base, oldHead, views, k) ==> TakenUpTo(parent, base, oldHead, views, k + 1)
  {
    AncestorStep(parent, HashAt(base, views, k), k);
  }

  /** Reads are answered by the world as it is at that moment. */
  ghost predicate ReadsOf(turns: seq<Turn>, views: seq<View>) {
    forall i :: 0 <= i < |turns| && turns[i].event.ReadBlock? ==>
      i + 1 < |views| && turns[i].before.ix == views[i].ix && turns[i].before.canon == views[i].canon
  }

  ghost predicate Traced(c: Config, parent: Parents, turns: seq<Turn>, views: seq<View>, from: Work, to: Work)
    requires c.Valid()
  {
    Turns(c, parent, turns, from, to) && ReadsOf(turns, views)
  }

  /** One block is read. */
  lemma ReadTurn(c: Config, parent: Parents, base: nat, turns: seq<Turn>, from: Work, work: Work, views: seq<View>)
    returns (turns': seq<Turn>, work': Work)
    requires c.Valid() && Traced(c, parent, turns, views, from, work) && |turns| + 1 < |views|
    requires work.Running? && base == work.section * c.sectionSize && work.number < base + c.sectionSize
    ensures Traced(c, parent, turns', views, from, work') && |turns'| == |turns| + 1
    ensures var v := views[|turns|];
            var hash := ReadCanonicalHash(v.canon, work.number);
            work' == if Continues(parent, hash, v.found, work.lastHead)
                     then Running(work.section, work.oldHead, work.number + 1, hash)
                     else Failed(work.section, work.oldHead)
  {
    var v := views[|turns|];
    var hash := ReadCanonicalHash(v.canon, work.number);
    assert (work.section + 1) * c.sectionSize == base + c.sectionSize;
    work' := if Continues(parent, hash, v.found, work.lastHead) then work.(number := work.number + 1, lastHead := hash)
             else Failed(work.section, work.oldHead);
    var turn := TurnAt(v, work, ReadBlock(v.found), work');
    TurnsNext(c, parent, turns, from, work, turn);
    turns' := turns + [turn];
  }

  /** The backend fails. */
  lemma Fail(c: Config, parent: Parents, turns: seq<Turn>, from: Work, work: Work, v: View, views: seq<View>)
    returns (turns': seq<Turn>, work': Work)
    requires c.Valid() && Traced(c, parent, turns, views, from, work) && work.Running?
    ensures work' == Failed(work.section, work.oldHead) && Traced(c, parent, turns', views, from, work')
  {
    work' := Failed(work.section, work.oldHead);
    var turn := TurnAt(v, work, BackendFails, work');
    TurnsNext(c, parent, turns, from, work, turn);
    turns' := turns + [turn];
  }

  /** Blocks that are taken are on the chain, found and processed; the last one is the new head. */
  lemma TakenBlocks(parent: Parents, base: nat, oldHead: Hash, views: seq<View>, k: nat, newHead: Hash)
    requires 0 < k <= |views| && TakenUpTo(parent, base, oldHead, views, k)
    requires newHead == HeadBefore(base, oldHead, views, k)
    ensures newHead == ReadCanonicalHash(views[k - 1].canon, base + (k - 1))
    ensures forall j :: 0 <= j < k ==>
              views[j].found && views[j].processed && ReadCanonicalHash(views[j].canon, base + j) != 0
  {
    forall j | 0 <= j < k
      ensures views[j].found && views[j].processed && ReadCanonicalHash(views[j].canon, base + j) != 0 {
      assert Taken(parent, base, oldHead, views, j);
    }
  }

  /** The work after the first `k` blocks of a section. */
  function WorkAt(section: nat, base: nat, oldHead: Hash, views: seq<View>, k: nat): Work
    requires k <= |views|
  {
    Running(section, oldHead, base + k, HeadBefore(base, oldHead, views, k))
  }

  /** The next block is taken, or its read or the backend fails. */
  lemma BlockTurn(c: Config, parent: Parents, section: nat, base: nat, oldHead: Hash,
                  turns: seq<Turn>, views: seq<View>, k: nat)
    returns (turns': seq<Turn>)
    requires c.Valid() && |turns| == k < c.sectionSize < |views| && base == section * c.sectionSize
    requires Traced(c, parent, turns, views, WorkAt(section, base, oldHead, views, 0),
                    WorkAt(section, base, oldHead, views, k))
    ensures Taken(parent, base, oldHead, views, k) ==> |turns'| == k + 1
    ensures Traced(c, parent, turns', views, WorkAt(section, base, oldHead, views, 0),
                   if Taken(parent, base, oldHead, views, k) then WorkAt(section, base, oldHead, views, k + 1)
                   else Failed(section, oldHead))
  {
    var first, work := WorkAt(section, base, oldHead, views, 0), WorkAt(section, base, oldHead, views, k);
    assert HashAt(base, views, k) == ReadCanonicalHash(views[k].canon, work.number);
    turns', work := ReadTurn(c, parent, base, turns, first, work, views);
    if Taken(parent, base, oldHead, views, k) {
      assert work == WorkAt(section, base, oldHead, views, k + 1);
    } else if work.Running? {
      turns', work := Fail(c, parent, turns', first, work, views[k], views);
    }
  }

  /** The steps that take the first `k` blocks of a section. */
  lemma {:induction false} TakenTurns(c: Config, parent: Parents, section: nat, base: nat, oldHead: Hash,
                                      views: seq<View>, k: nat)
    returns (turns: seq<Turn>)
    requires c.Valid() && k <= c.sectionSize < |views| && base == section * c.sectionSize
    requires TakenUpTo(parent, base, oldHead, views, k)
    ensures |turns| == k
    ensures Traced(c, parent, turns, views, WorkAt(section, base, oldHead, views, 0),
                   WorkAt(section, base, oldHead, views, k))
  {
    turns := [];
    if k > 0 {
      assert Taken(parent, base, oldHead, views, k - 1);
      AncestorStep(parent, HashAt(base, views, k - 1), k - 1);
      turns := TakenTurns(c, parent, section, base, oldHead, views, k - 1);
      turns := BlockTurn(c, parent, section, base, oldHead, turns, views, k - 1);
    }
  }

  /** Reads the blocks from `base` to `end`, up to the first that is not taken. */
  method ReadBlocks(parent: Parents, oldHead: Hash, base: nat, end: nat, views: seq<View>)
    returns (lastHead: Hash, ok: bool, ghost k: nat)
    requires base <= end && |views| == end - base + 1
    ensures k <= end - base && TakenUpTo(parent, base, oldHead, views, k)
    ensures ok <==> k == end - base
    ensures if ok then lastHead == HeadBefore(base, oldHead, views, k) else !Taken(parent, base, oldHead, views, k)
  {
    lastHead, k := oldHead, 0;
    var number := base;
    while number < end
      invariant base <= number <= end && k == number - base
      invariant lastHead == HeadBefore(base, oldHead, views, k) && TakenUpTo(parent, base, oldHead, views, k)
    {
      var now := views[number - base];
      var hash := ReadCanonicalHash(now.canon, number);
      TakenNext(parent, base, oldHead, views, k);
      if hash == 0 {
        return 0, false, k;
      }
      if !now.found || parent(hash) != lastHead {
        return 0, false, k;
      }
      if !now.processed {
        return 0, false, k;
      }
      lastHead := hash;
      number := number + 1;
      k := k + 1;
    }
    ok := true;
  }

  /** The backend refuses a section. */
  lemma ResetTurn(c: Config, parent: Parents, section: nat, base: nat, oldHead: Hash, views: seq<View>)
    returns (turns: seq<Turn>)
    requires c.Valid() && views != [] && base == section * c.sectionSize
    ensures Traced(c, parent, turns, views, Running(section, oldHead, base, oldHead), Clearing(section, oldHead, false))
  {
    turns :=
      [TurnAt(views[0], Running(section, oldHead, base, oldHead), ResetFails, Clearing(section, oldHead, false))];
  }

  /** The processing of a section that the backend has taken. */
  method ProcessBlocks(c: Config, parent: Parents, section: nat, base: nat, end: nat, oldHead: Hash, views: seq<View>,
                       commits: bool)
    returns (newHead: Hash, ok: bool, ghost turns: seq<Turn>, ghost work: Work)
    requires c.Valid() && |views| == c.sectionSize + 1
    requires base == section * c.sectionSize && end == base + c.sectionSize
    ensures Traced(c, parent, turns, views, Running(section, oldHead, base, oldHead), work)
    ensures work == if ok then Running(section, oldHead, end, newHead) else Failed(section, oldHead)
    ensures ok ==> Ancestor(parent, newHead, c.sectionSize) == oldHead
                   && newHead == ReadCanonicalHash(views[c.sectionSize - 1].canon, end - 1)
    ensures ok ==> forall k :: 0 <= k < c.sectionSize ==>
              views[k].found && views[k].processed && ReadCanonicalHash(views[k].canon, base + k) != 0
    ensures ok <==> commits && forall k :: 0 <= k < c.sectionSize ==> Taken(parent, base, oldHead, views, k)
  {
    ghost var k;
    newHead, ok, k := ReadBlocks(parent, oldHead, base, end, views);
    turns := TakenTurns(c, parent, section, base, oldHead, views, k);
    if !ok {
      turns := BlockTurn(c, parent, section, base, oldHead, turns, views, k);
      return 0, false, turns, Failed(section, oldHead);
    }
    work := Running(section, oldHead, end, newHead);
    TakenBlocks(parent, base, oldHead, views, k, newHead);
    if !commits {
      turns, work := Fail(c, parent, turns, WorkAt(section, base, oldHead, views, 0), work, views[k], views);
      return 0, false, turns, work;
    }
  }

  /**
  The processing of one section; `views` is the world at each read, and one more at the end.  What
  it does is a sequence of steps of the protocol, one read of a block each, taken in whatever
  states the world is then in.  A section is returned exactly when the backend takes it, every block
  continues from the one before it and is processed, and the backend commits.
   */
  method ProcessSection(c: Config, parent: Parents, section: nat, oldHead: Hash, resets: bool, views: seq<View>,
                        commits: bool)
    returns (newHead: Hash, ok: bool, ghost turns: seq<Turn>, ghost work: Work)
    requires c.Valid() && |views| == c.sectionSize + 1
    ensures Traced(c, parent, turns, views, Running(section, oldHead, section * c.sectionSize, oldHead), work)
    ensures ok ==> work == Running(section, oldHead, (section + 1) * c.sectionSize, newHead)
    ensures !ok ==> work == if resets then Failed(section, oldHead) else Clearing(section, oldHead, false)
    ensures ok ==> Ancestor(parent, newHead, c.sectionSize) == oldHead
                   && newHead == ReadCanonicalHash(views[c.sectionSize - 1].canon, (section + 1) * c.sectionSize - 1)
    ensures ok ==> forall k :: 0 <= k < c.sectionSize ==>
              views[k].found && views[k].processed
              && ReadCanonicalHash(views[k].canon, section * c.sectionSize + k) != 0
    ensures ok <==>
            && resets && commits
            && forall k :: 0 <= k < c.sectionSize ==> Taken(parent, section * c.sectionSize, oldHead, views, k)
  {
    var base, end := section * c.sectionSize, (section + 1) * c.sectionSize;
    if !resets {
      turns := ResetTurn(c, parent, section, base, oldHead, views);
      return 0, false, turns, Clearing(section, oldHead, false);
    }
    assert end == base + c.sectionSize;
    newHead, ok, turns, work := ProcessBlocks(c, parent, section, base, end, oldHead, views, commits);
  }

  /** Left to itself, the clearing drops all sections, as one call under the lock would. */
  lemma {:induction false} ClearAlone(c: Config, parent: Parents, s: State) returns (states: seq<State>)
    requires c.Valid() && s.work.Clearing? && !s.work.lowered
    ensures states != [] && states[0] == s
    ensures forall i :: 0 < i < |states| ==> Next(c, parent, states[i - 1], ClearStep, states[i])
    ensures states[|states| - 1] == s.(ix := SetValid(s.ix, 0), work := Failed(s.work.section, s.work.oldHead))
    decreases s.ix.stored
  {
    if s.ix.stored == 0 {
      var done := s.(work := Failed(s.work.section, s.work.oldHead));
      assert SetValid(s.ix, 0) == s.ix;
      states := [s, done];
    } else {
      var n := s.ix.stored - 1;
      var mid := s.(ix := s.ix.(stored := n), work := s.work.(lowered := true));
      var next := s.(ix := s.ix.(stored := n, heads := s.ix.heads - {n}));
      var rest := ClearAlone(c, parent, next);
      assert SetValid(s.ix, 0).heads == SetValid(next.ix, 0).heads;
      states := [s, mid] + rest;
    }
  }
}
