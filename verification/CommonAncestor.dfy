/** The search for the highest common ancestor of two headers in a store of linked headers. */
module CommonAncestor {
  import opened Options
  import opened Reorg

  /** `z` is reached from `x` by parent links that the store can follow. */
  ghost predicate Ancestor(headers: Blocks, x: Block, z: Block)
    decreases x.number
  {
    z == x || (Parent(headers, x).Some? && Ancestor(headers, Parent(headers, x).value, z))
  }

  ghost predicate Common(headers: Blocks, a: Block, b: Block, z: Block) {
    Ancestor(headers, a, z) && Ancestor(headers, b, z)
  }

  /** A hash names one header, among those stored and `x`. */
  predicate Names(headers: Blocks, x: Block) {
    x.hash in headers ==> headers[x.hash] == x
  }

  ghost predicate OwnHashes(headers: Blocks) {
    forall h {:trigger headers[h]} :: h in headers ==> headers[h].hash == h
  }

  lemma {:induction false} AncestorsAreLower(headers: Blocks, x: Block, z: Block)
    requires Ancestor(headers, x, z)
    ensures z.number <= x.number && (z != x ==> z.number < x.number)
    decreases x.number
  {
    if z != x {
      AncestorsAreLower(headers, Parent(headers, x).value, z);
    }
  }

  /** Stepping from a header that is not itself common keeps the common ancestors. */
  lemma StepKeepsCommon(headers: Blocks, a: Block, b: Block, z: Block)
    requires a.number >= b.number && a != b
    ensures Common(headers, a, b, z) <==>
            Parent(headers, a).Some? && Common(headers, Parent(headers, a).value, b, z)
  {
    if Ancestor(headers, b, z) {
      AncestorsAreLower(headers, b, z);
    }
  }

  /** The two cursors have the common ancestors the two headers had. */
  ghost predicate SameCommon(headers: Blocks, a0: Block, b0: Block, a: Block, b: Block) {
    forall z :: Common(headers, a0, b0, z) <==> Common(headers, a, b, z)
  }

  ghost predicate NoCommon(headers: Blocks, a: Block, b: Block) {
    forall z :: !Common(headers, a, b, z)
  }

  /** Any header stored under its hash, or either of the two, is told apart by its hash. */
  ghost predicate Cursor(headers: Blocks, x0: Block, x: Block) {
    x == x0 || Stored(headers, x)
  }

  /** One link down from the higher cursor, or from either of two different ones of one height. */
  lemma StepDown(headers: Blocks, a0: Block, b0: Block, a: Block, b: Block)
    requires SameCommon(headers, a0, b0, a, b) && a.number >= b.number && a != b
    ensures Parent(headers, a).None? ==> NoCommon(headers, a0, b0)
    ensures Parent(headers, a).Some? ==> SameCommon(headers, a0, b0, Parent(headers, a).value, b)
  {
    forall z
      ensures Common(headers, a, b, z) <==>
              Parent(headers, a).Some? && Common(headers, Parent(headers, a).value, b, z) {
      StepKeepsCommon(headers, a, b, z);
    }
  }

  method FindCommonAncestor(headers: Blocks, a0: Block, b0: Block) returns (r: Option<Block>)
    requires OwnHashes(headers) && Names(headers, a0) && Names(headers, b0) && (a0.hash == b0.hash ==> a0 == b0)
    ensures r.None? <==> NoCommon(headers, a0, b0)
    ensures r.Some? ==> Common(headers, a0, b0, r.value)
    ensures r.Some? ==> forall z :: Common(headers, a0, b0, z) ==> z.number <= r.value.number
  {
    var a, b := a0, b0;
    while a.number > b.number
      invariant SameCommon(headers, a0, b0, a, b) && Cursor(headers, a0, a)
      decreases a.number
    {
      StepDown(headers, a0, b0, a, b);
      var p := Parent(headers, a);
      if p.None? {
        return None;
      }
      a := p.value;
    }
    while a.number < b.number
      invariant SameCommon(headers, a0, b0, a, b) && Cursor(headers, a0, a) && Cursor(headers, b0, b)
                && a.number <= b.number
      decreases b.number
    {
      StepDown(headers, a0, b0, b, a);
      var p := Parent(headers, b);
      if p.None? {
        return None;
      }
      b := p.value;
    }
    while a.hash != b.hash
      invariant SameCommon(headers, a0, b0, a, b) && Cursor(headers, a0, a) && Cursor(headers, b0, b)
                && a.number == b.number
      decreases a.number
    {
      StepDown(headers, a0, b0, a, b);
      var p := Parent(headers, a);
      if p.None? {
        return None;
      }
      a := p.value;
      StepDown(headers, a0, b0, b, a);
      p := Parent(headers, b);
      if p.None? {
        return None;
      }
      b := p.value;
    }
    assert Common(headers, a, b, a);
    forall z | Common(headers, a0, b0, z) ensures z.number <= a.number {
      AncestorsAreLower(headers, a, z);
    }
    return Some(a);
  }
}
